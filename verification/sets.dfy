/** Small facts about finite sets that the counting proofs share. */
module Sets {

  /** Some element of a non-empty set; the proofs that use it do not depend on which. */
  ghost function Pick<T>(s: set<T>): (picked: T)
    requires s != {}
    ensures picked in s
  {
    var x :| x in s; x
  }

  /** A subset is no larger than the set that contains it. */
  lemma {:induction false} SubsetCardinality<T>(a: set<T>, b: set<T>)
    requires a <= b
    ensures |a| <= |b|
    decreases a
  {
    if a != {} {
      var x := Pick(a);
      SubsetCardinality(a - {x}, b - {x});
    }
  }
}
