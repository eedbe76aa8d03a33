/**
 The surah search of both front ends: `renderSurahs(filter)` in js/app.js and the
 grid filter in src/App.jsx. Lower-casing is modelled for ASCII letters only.
 */
module SurahSearch {
  import opened SurahTable

  /** `toLowerCase` on one character, for the ASCII letters A to Z. */
  function LowerChar(c: char): char {
    if 'A' <= c <= 'Z' then (c as int + 32) as char else c
  }

  /** `toLowerCase` on a string, character by character. */
  function ToLower(s: string): (r: string)
    ensures |r| == |s|
    ensures forall i :: 0 <= i < |s| ==> r[i] == LowerChar(s[i])
    ensures forall i :: 0 <= i < |r| ==> !('A' <= r[i] <= 'Z')
  {
    if |s| == 0 then [] else [LowerChar(s[0])] + ToLower(s[1..])
  }

  /** `s.includes(t)`: `t` is a prefix of `s` or of one of its suffixes. */
  function Includes(s: string, t: string): (r: bool)
    ensures |t| == 0 ==> r
    ensures r ==> |t| <= |s|
    decreases |s|
  {
    t <= s || (|s| > 0 && Includes(s[1..], t))
  }

  /** `t` occurs in `s` starting at offset `k`. */
  predicate OccursAt(s: string, t: string, k: int) {
    0 <= k && k + |t| <= |s| && s[k..k + |t|] == t
  }

  /** When `includes` holds, there is an offset where `t` occurs. */
  lemma {:induction false} IncludesHasOffset(s: string, t: string)
    requires Includes(s, t)
    ensures exists k :: OccursAt(s, t, k)
    decreases |s|
  {
    if t <= s {
      assert OccursAt(s, t, 0);
    } else {
      IncludesHasOffset(s[1..], t);
      var k :| OccursAt(s[1..], t, k);
      assert s[k + 1..k + 1 + |t|] == s[1..][k..k + |t|];
      assert OccursAt(s, t, k + 1);
    }
  }

  /** An occurrence at any offset makes `includes` hold. */
  lemma {:induction false} OffsetGivesIncludes(s: string, t: string, k: int)
    requires OccursAt(s, t, k)
    ensures Includes(s, t)
    decreases k
  {
    if k == 0 {
      assert s[..|t|] == t;
    } else {
      assert s[1..][k - 1..k - 1 + |t|] == s[k..k + |t|];
      OffsetGivesIncludes(s[1..], t, k - 1);
    }
  }

  /** `Includes` agrees with the positional definition: `t` occurs at some offset of `s`. */
  lemma IncludesIffOccurs(s: string, t: string)
    ensures Includes(s, t) <==> exists k :: OccursAt(s, t, k)
  {
    if Includes(s, t) {
      IncludesHasOffset(s, t);
    }
    forall k | OccursAt(s, t, k)
      ensures Includes(s, t)
    {
      OffsetGivesIncludes(s, t, k);
    }
  }

  /** The value of a string of decimal digits, most significant first. */
  function DigitsValue(digits: string): int
    decreases |digits|
  {
    if |digits| == 0 then 0
    else DigitsValue(digits[..|digits| - 1]) * 10 + (digits[|digits| - 1] as int - '0' as int)
  }

  /** A string of decimal digits as `toString()` writes it: non-empty, and no leading zero unless it is "0". */
  predicate Canonical(digits: string) {
    && |digits| > 0
    && (forall i :: 0 <= i < |digits| ==> '0' <= digits[i] <= '9')
    && (|digits| == 1 || digits[0] != '0')
  }

  /** The digits of a non-negative integer, most significant first: canonical, and they read back as `n`. */
  function NatDigits(n: nat): (r: string)
    ensures |r| > 0
    ensures forall i :: 0 <= i < |r| ==> '0' <= r[i] <= '9'
    ensures |r| == 1 || r[0] != '0'
    ensures n < 10 <==> |r| == 1
    ensures DigitsValue(r) == n
    decreases n
  {
    var digit := ('0' as int + n % 10) as char;
    if n < 10 then
      assert [digit][..0] == [];
      [digit]
    else
      var high := NatDigits(n / 10);
      assert (high + [digit])[..|high|] == high;
      high + [digit]
  }

  /** A digit string that starts with a non-zero digit reads as a positive number, and as at least 10 when it has more than one digit. */
  lemma {:induction false} LeadingDigitPositive(digits: string)
    requires |digits| > 0 && digits[0] != '0'
    requires forall i :: 0 <= i < |digits| ==> '0' <= digits[i] <= '9'
    ensures DigitsValue(digits) >= 1
    ensures |digits| > 1 ==> DigitsValue(digits) >= 10
    decreases |digits|
  {
    if |digits| > 1 {
      var high := digits[..|digits| - 1];
      assert high[0] == digits[0];
      LeadingDigitPositive(high);
    }
  }

  /** The canonical digits of `n` are unique: any canonical string that reads back as `n` is `NatDigits(n)`. */
  lemma {:induction false} CanonicalDigitsUnique(digits: string, n: nat)
    requires Canonical(digits) && DigitsValue(digits) == n
    ensures digits == NatDigits(n)
    decreases |digits|
  {
    var last := digits[|digits| - 1];
    var high := digits[..|digits| - 1];
    if |digits| == 1 {
      assert DigitsValue(high) == 0;
      assert n == last as int - '0' as int;
    } else {
      assert high[0] == digits[0];
      LeadingDigitPositive(high);
      var h := DigitsValue(high);
      assert n == h * 10 + (last as int - '0' as int);
      assert n / 10 == h && n % 10 == last as int - '0' as int;
      CanonicalDigitsUnique(high, h);
      assert digits == high + [last];
    }
  }

  /** `n.toString()` for an integer: a minus sign for negatives, then the canonical digits of the magnitude. */
  function DecimalString(n: int): (r: string)
    ensures n >= 0 ==> Canonical(r) && DigitsValue(r) == n
    ensures n < 0 ==> |r| > 1 && r[0] == '-' && Canonical(r[1..]) && r[1] != '0' && DigitsValue(r[1..]) == -n
  {
    if n < 0 then
      assert ("-" + NatDigits(-n))[1..] == NatDigits(-n);
      "-" + NatDigits(-n)
    else NatDigits(n)
  }

  /** `DecimalString` is the only text of its shape for `n`: the canonical digits, with a minus sign exactly for negatives. */
  lemma DecimalStringUnique(n: int, text: string)
    requires n >= 0 ==> Canonical(text) && DigitsValue(text) == n
    requires n < 0 ==> |text| > 1 && text[0] == '-' && Canonical(text[1..]) && DigitsValue(text[1..]) == -n
    ensures text == DecimalString(n)
  {
    if n < 0 {
      CanonicalDigitsUnique(text[1..], -n);
      assert text == "-" + text[1..];
    } else {
      CanonicalDigitsUnique(text, n);
    }
  }

  /** The plain-script filter: name or English name contains the lower-cased filter, or the number contains it. */
  function MatchesTracker(s: Surah, filter: string): bool {
    || Includes(ToLower(s.name), ToLower(filter))
    || Includes(ToLower(s.englishName), ToLower(filter))
    || Includes(DecimalString(s.number), filter)
  }

  /** The React filter: name contains the lower-cased query, or the number contains it. */
  function MatchesHub(s: Surah, query: string): bool {
    || Includes(ToLower(s.name), ToLower(query))
    || Includes(DecimalString(s.number), query)
  }

  /** `b` keeps all of `a`, in the same order, possibly with other rows in between. */
  predicate IsSubsequence(a: Table, b: Table)
    decreases |b|
  {
    if |a| == 0 then true
    else if |b| == 0 then false
    else (a[0] == b[0] && IsSubsequence(a[1..], b[1..])) || IsSubsequence(a, b[1..])
  }

  /** `Array.prototype.filter` on the table. */
  function Filter(table: Table, keep: Surah -> bool): (r: Table)
    ensures IsSubsequence(r, table)
    ensures forall i :: 0 <= i < |r| ==> keep(r[i]) && r[i] in table
    ensures forall i :: 0 <= i < |table| && keep(table[i]) ==> table[i] in r
    ensures (forall i :: 0 <= i < |table| ==> keep(table[i])) ==> r == table
  {
    if |table| == 0 then []
    else
      var rest := Filter(table[1..], keep);
      assert forall i :: 1 <= i < |table| ==> table[i] == table[1..][i - 1];
      if keep(table[0]) then
        assert ([table[0]] + rest)[1..] == rest;
        [table[0]] + rest
      else rest
  }

  /**
   `renderSurahs(filter)`: the surahs the plain-script grid shows, which are the
   matching surahs in table order, and every surah for the empty filter.
   */
  function RenderSurahsFilter(table: Table, filter: string): (r: Table)
    ensures IsSubsequence(r, table)
    ensures forall s :: s in r <==> s in table && MatchesTracker(s, filter)
    ensures filter == "" ==> r == table
  {
    var r := Filter(table, s => MatchesTracker(s, filter));
    assert forall s :: s in table && MatchesTracker(s, filter) ==> s in r by {
      forall s | s in table && MatchesTracker(s, filter)
        ensures s in r
      {
        var i :| 0 <= i < |table| && table[i] == s;
      }
    }
    assert filter == "" ==> forall i :: 0 <= i < |table| ==> MatchesTracker(table[i], filter);
    r
  }

  /**
   The surahs the React grid shows for a search query: the matching surahs in table
   order, and every surah for the empty query.
   */
  function HubSurahFilter(table: Table, query: string): (r: Table)
    ensures IsSubsequence(r, table)
    ensures forall s :: s in r <==> s in table && MatchesHub(s, query)
    ensures query == "" ==> r == table
  {
    var r := Filter(table, s => MatchesHub(s, query));
    assert forall s :: s in table && MatchesHub(s, query) ==> s in r by {
      forall s | s in table && MatchesHub(s, query)
        ensures s in r
      {
        var i :| 0 <= i < |table| && table[i] == s;
      }
    }
    assert query == "" ==> forall i :: 0 <= i < |table| ==> MatchesHub(table[i], query);
    r
  }
}
