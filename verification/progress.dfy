/**
 The per-surah reading progress both front ends keep: a map from surah number to
 the number of ayat read so far, together with the input handling and the bound
 that every mutator maintains.
 */
module Progress {
  import opened Wrappers
  import opened SurahTable

  /** Surah number to ayat read. A surah with no entry has read nothing. */
  type Progress = map<int, int>

  /** `progress[n] || 0`: an absent entry reads as 0. */
  function Current(p: Progress, n: int): (r: int)
    ensures n in p ==> r == p[n]
    ensures r != 0 ==> n in p
  {
    if n in p then p[n] else 0
  }

  /**
   `parseInt(value) || 0`. The parse itself is not modelled: `parsed` is its outcome,
   with `None` standing for NaN; NaN and 0 both fall back to 0.
   */
  function ParseOrZero(parsed: Option<int>): (r: int)
    ensures r == 0 <==> parsed == None || parsed == Some(0)
    ensures r != 0 ==> parsed == Some(r)
  {
    match parsed
    case Some(v) => v
    case None => 0
  }

  /** The clamp both front ends apply to a typed value: values above `max` become `max`, then negatives become 0. */
  function ClampAyat(v: int, max: int): (r: int)
    ensures max >= 0 ==> 0 <= r <= max
    ensures max < 0 ==> r == 0
    ensures 0 <= v <= max ==> r == v
    ensures 0 <= max < v ==> r == max
    ensures v < 0 ==> r == 0
  {
    var capped := if v > max then max else v;
    if capped < 0 then 0 else capped
  }

  /** `q` agrees with `p` on every surah except `n`: the same keys and the same values. */
  predicate SameExcept(p: Progress, q: Progress, n: int) {
    && p.Keys - {n} == q.Keys - {n}
    && forall k :: k in p && k != n ==> k in q && q[k] == p[k]
  }

  /**
   The invariant of the stored progress: every entry belongs to a surah of the table
   and lies between 0 and that surah's ayah count.
   */
  predicate Bounded(table: Table, p: Progress) {
    forall n :: n in p ==> Find(table, n).Some? && 0 <= p[n] <= Find(table, n).value.ayats
  }

  /** Under the invariant, every surah of a valid table reads a progress between 0 and its ayah count. */
  lemma BoundedEntries(table: Table, p: Progress)
    requires ValidTable(table)
    requires Bounded(table, p)
    ensures forall i :: 0 <= i < |table| ==> 0 <= Current(p, table[i].number) <= table[i].ayats
  {
    forall i | 0 <= i < |table|
      ensures 0 <= Current(p, table[i].number) <= table[i].ayats
    {
      FindOwnNumber(table, i);
    }
  }
}
