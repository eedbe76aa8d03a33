/**
 The `QuranTracker` class of the plain-script front end (js/app.js): three
 mutators of the per-surah progress and the statistics fold. Each mutator looks the surah up in the table first; when no
 row has the given number the source throws on `surah.ayats` before storing
 anything, which is modelled as a `None` result.
 */
module QuranTracker {
  import opened Wrappers
  import opened SurahTable
  import opened Progress
  import opened Rounding
  import opened Sets

  /** `updateAyatProgress(number, value)`: store the typed value, parsed and clamped into [0, ayats]. */
  function UpdateAyatProgress(table: Table, p: Progress, number: int, value: Option<int>): (r: Option<Progress>)
    ensures r.Some? <==> Find(table, number).Some?
    ensures r.Some? ==> number in r.value && SameExcept(p, r.value, number)
    ensures r.Some? ==> var ayats := Find(table, number).value.ayats;
      && (ayats >= 0 ==> 0 <= r.value[number] <= ayats)
      && (value.Some? && 0 <= value.value <= ayats ==> r.value[number] == value.value)
      && (value.Some? && 0 <= ayats < value.value ==> r.value[number] == ayats)
      && (value.None? || value.value < 0 ==> r.value[number] == 0)
    ensures r.Some? && ValidTable(table) && Bounded(table, p) ==> Bounded(table, r.value)
  {
    match Find(table, number)
    case None => None
    case Some(surah) => Some(p[number := ClampAyat(ParseOrZero(value), surah.ayats)])
  }

  /** `quickAddAyat(number)`: one more ayah read, unless the surah is already at its ayah count. */
  function QuickAddAyat(table: Table, p: Progress, number: int): (r: Option<Progress>)
    ensures r.Some? <==> Find(table, number).Some?
    ensures r.Some? ==> var ayats := Find(table, number).value.ayats;
      && (Current(p, number) < ayats ==>
            number in r.value && r.value[number] == Current(p, number) + 1 && SameExcept(p, r.value, number))
      && (Current(p, number) >= ayats ==> r.value == p)
    ensures r.Some? && Bounded(table, p) ==> Bounded(table, r.value)
  {
    match Find(table, number)
    case None => None
    case Some(surah) =>
      var current := Current(p, number);
      if current < surah.ayats then Some(p[number := current + 1]) else Some(p)
  }

  /** `toggleFullCompletion(number)`: a complete surah goes back to 0, anything else becomes complete. */
  function ToggleFullCompletion(table: Table, p: Progress, number: int): (r: Option<Progress>)
    ensures r.Some? <==> Find(table, number).Some?
    ensures r.Some? ==> var ayats := Find(table, number).value.ayats;
      && number in r.value && SameExcept(p, r.value, number)
      && (r.value[number] == 0 || r.value[number] == ayats)
      && (Current(p, number) == ayats ==> r.value[number] == 0)
      && (Current(p, number) != ayats ==> r.value[number] == ayats)
    ensures r.Some? && ValidTable(table) && Bounded(table, p) ==> Bounded(table, r.value)
  {
    match Find(table, number)
    case None => None
    case Some(surah) =>
      if Current(p, number) == surah.ayats then Some(p[number := 0]) else Some(p[number := surah.ayats])
  }

  /** Pressing the "+1" button `k` times in a row. */
  function QuickAddTimes(table: Table, p: Progress, number: int, k: nat): Option<Progress>
    decreases k
  {
    if k == 0 then Some(p)
    else
      match QuickAddAyat(table, p, number)
      case None => None
      case Some(q) => QuickAddTimes(table, q, number, k - 1)
  }

  /** "+1" saturates: after `k` presses the progress is the old value plus `k`, but never above the ayah count. */
  lemma {:induction false} QuickAddSaturates(table: Table, p: Progress, number: int, k: nat)
    requires Find(table, number).Some?
    ensures QuickAddTimes(table, p, number, k).Some?
    ensures var ayats := Find(table, number).value.ayats;
      var current := Current(p, number);
      var after := Current(QuickAddTimes(table, p, number, k).value, number);
      after == if current >= ayats then current
               else if current + k <= ayats then current + k
               else ayats
    ensures forall m :: m != number ==> Current(QuickAddTimes(table, p, number, k).value, m) == Current(p, m)
    decreases k
  {
    if k > 0 {
      var q := QuickAddAyat(table, p, number).value;
      QuickAddSaturates(table, q, number, k - 1);
    }
  }

  /** Toggling completion twice restores the progress exactly when it was 0 or complete to begin with. */
  lemma ToggleTwiceRestores(table: Table, p: Progress, number: int)
    requires Find(table, number).Some?
    ensures var once := ToggleFullCompletion(table, p, number).value;
      var twice := ToggleFullCompletion(table, once, number).value;
      (Current(twice, number) == Current(p, number))
        <==> (Current(p, number) == 0 || Current(p, number) == Find(table, number).value.ayats)
  {
  }

  /**
   One stored value as read back from storage. Numbers are ayah counts; `true` is a
   legacy marker for a finished surah; any other truthy value (a string, say) is ignored.
   Falsy values read as the number 0.
   */
  datatype Stored = Count(ayat: int) | LegacyDone | Ignored

  type StoredProgress = map<int, Stored>

  /** `this.progress[s.number] || 0` on the stored map. */
  function StoredAt(sp: StoredProgress, n: int): Stored {
    if n in sp then sp[n] else Count(0)
  }

  /** The stored form of a progress map the mutators produced: every entry is a number. */
  function Lift(p: Progress): (sp: StoredProgress)
    ensures sp.Keys == p.Keys
    ensures forall n :: StoredAt(sp, n) == Count(Current(p, n))
  {
    map n | n in p :: Count(p[n])
  }

  /** A surah counts as completed when its number equals the ayah count or it carries the legacy `true`. */
  predicate IsComplete(s: Surah, e: Stored) {
    e == LegacyDone || e == Count(s.ayats)
  }

  /** How many ayat a stored value adds to the total read: the number itself, or the whole surah for `true`. */
  function AyatCredit(s: Surah, e: Stored): int {
    match e
    case Count(k) => k
    case LegacyDone => s.ayats
    case Ignored => 0
  }

  /** Every surah of the table is credited between 0 and its ayah count. */
  predicate CreditsWithin(table: Table, sp: StoredProgress) {
    forall i :: 0 <= i < |table| ==> 0 <= AyatCredit(table[i], StoredAt(sp, table[i].number)) <= table[i].ayats
  }

  /** Positions of the table rows whose stored value makes them complete. */
  function CompleteRows(table: Table, sp: StoredProgress): set<int> {
    set i | 0 <= i < |table| && IsComplete(table[i], StoredAt(sp, table[i].number))
  }

  /** Moving every position up by one keeps the number of positions. */
  lemma {:induction false} ShiftKeepsSize(rows: set<int>)
    ensures |set i | i in rows :: i + 1| == |rows|
    decreases rows
  {
    if rows != {} {
      var x := Pick(rows);
      var rest := rows - {x};
      ShiftKeepsSize(rest);
      var all, moved := set i | i in rows :: i + 1, set i | i in rest :: i + 1;
      forall y | y in all
        ensures y in moved + {x + 1}
      {
        assert y - 1 in rows;
        if y != x + 1 {
          assert y - 1 in rest;
        }
      }
      forall y | y in moved + {x + 1}
        ensures y in all
      {
        assert y - 1 in rows;
      }
      assert all == moved + {x + 1};
      assert x + 1 !in moved;
    }
  }

  /** The complete rows of a table are its first row, if complete, and the complete rows of the rest, one further on. */
  lemma CompleteRowsSplit(table: Table, sp: StoredProgress)
    requires |table| > 0
    ensures |CompleteRows(table, sp)|
         == |CompleteRows(table[1..], sp)| + if IsComplete(table[0], StoredAt(sp, table[0].number)) then 1 else 0
  {
    var tail := CompleteRows(table[1..], sp);
    var shifted := set i | i in tail :: i + 1;
    var head: set<int> := if IsComplete(table[0], StoredAt(sp, table[0].number)) then {0} else {};
    forall i | 0 <= i < |table[1..]|
      ensures table[1..][i] == table[i + 1]
    {
    }
    assert CompleteRows(table, sp) == head + shifted by {
      forall i | i in CompleteRows(table, sp) && i > 0
        ensures i in shifted
      {
        assert i - 1 in tail;
      }
    }
    assert head !! shifted;
    ShiftKeepsSize(tail);
  }

  /** The three numbers `renderStats` derives. */
  datatype Stats = Stats(totalAyats: int, completedAyats: int, completedSurahs: int)

  /** The `renderStats` fold over the table. */
  function RenderStats(table: Table, sp: StoredProgress): (r: Stats)
    ensures r.totalAyats == TotalAyats(table)
    ensures 0 <= r.completedSurahs <= |table|
    ensures r.completedSurahs == |CompleteRows(table, sp)|
    ensures CreditsWithin(table, sp) ==> 0 <= r.completedAyats <= r.totalAyats
  {
    if |table| == 0 then Stats(0, 0, 0)
    else
      var s := table[0];
      var e := StoredAt(sp, s.number);
      var rest := RenderStats(table[1..], sp);
      CompleteRowsSplit(table, sp);
      assert CreditsWithin(table, sp) ==> CreditsWithin(table[1..], sp) by {
        if CreditsWithin(table, sp) {
          forall i | 0 <= i < |table[1..]|
            ensures 0 <= AyatCredit(table[1..][i], StoredAt(sp, table[1..][i].number)) <= table[1..][i].ayats
          {
            assert table[1..][i] == table[i + 1];
          }
        }
      }
      Stats(rest.totalAyats + s.ayats,
            rest.completedAyats + AyatCredit(s, e),
            rest.completedSurahs + if IsComplete(s, e) then 1 else 0)
  }

  /** The "total-progress" figure: `Math.round((completedAyats / totalAyats) * 100)`. */
  function TotalProgressPercent(table: Table, sp: StoredProgress): (r: Option<int>)
    ensures ValidTable(table) && |table| > 0 && CreditsWithin(table, sp) ==> r.Some? && 0 <= r.value <= 100
  {
    var stats := RenderStats(table, sp);
    assert ValidTable(table) && |table| > 0 && CreditsWithin(table, sp) ==>
      0 < stats.totalAyats && 0 <= RoundPercent(stats.completedAyats, stats.totalAyats) <= 100 by {
      if ValidTable(table) && |table| > 0 && CreditsWithin(table, sp) {
        PercentInRange(stats.completedAyats, stats.totalAyats);
      }
    }
    PercentOf(stats.completedAyats, stats.totalAyats)
  }

  /** Every surah is counted as completed exactly when each one is complete. */
  lemma {:induction false} AllSurahsCompleted(table: Table, sp: StoredProgress)
    ensures RenderStats(table, sp).completedSurahs == |table|
        <==> forall i :: 0 <= i < |table| ==> IsComplete(table[i], StoredAt(sp, table[i].number))
  {
    if |table| > 0 {
      AllSurahsCompleted(table[1..], sp);
      assert forall i :: 1 <= i < |table| ==> table[i] == table[1..][i - 1];
    }
  }

  /** With a valid table and credits in range, every ayah is read exactly when every surah is completed. */
  lemma {:induction false} AllAyatsRead(table: Table, sp: StoredProgress)
    requires ValidTable(table)
    requires CreditsWithin(table, sp)
    ensures RenderStats(table, sp).completedAyats == RenderStats(table, sp).totalAyats
        <==> forall i :: 0 <= i < |table| ==> IsComplete(table[i], StoredAt(sp, table[i].number))
  {
    if |table| > 0 {
      assert forall i :: 1 <= i < |table| ==> table[i] == table[1..][i - 1];
      assert ValidTable(table[1..]);
      assert CreditsWithin(table[1..], sp);
      AllAyatsRead(table[1..], sp);
    }
  }

  /** Two stored maps that credit and complete every surah alike give the same statistics. */
  lemma {:induction false} SameCreditsSameStats(table: Table, sp1: StoredProgress, sp2: StoredProgress)
    requires forall i :: 0 <= i < |table| ==>
      && AyatCredit(table[i], StoredAt(sp1, table[i].number)) == AyatCredit(table[i], StoredAt(sp2, table[i].number))
      && (IsComplete(table[i], StoredAt(sp1, table[i].number)) <==> IsComplete(table[i], StoredAt(sp2, table[i].number)))
    ensures RenderStats(table, sp1) == RenderStats(table, sp2)
  {
    if |table| > 0 {
      assert forall i :: 0 <= i < |table[1..]| ==> table[1..][i] == table[i + 1];
      SameCreditsSameStats(table[1..], sp1, sp2);
    }
  }

  /** A legacy `true` entry counts exactly like the full ayah count stored as a number. */
  lemma LegacyCountsAsFull(table: Table, sp: StoredProgress, i: int)
    requires ValidTable(table)
    requires 0 <= i < |table|
    ensures var n := table[i].number;
      RenderStats(table, sp[n := LegacyDone]) == RenderStats(table, sp[n := Count(table[i].ayats)])
  {
    var n := table[i].number;
    var sp1, sp2 := sp[n := LegacyDone], sp[n := Count(table[i].ayats)];
    forall j | 0 <= j < |table|
      ensures AyatCredit(table[j], StoredAt(sp1, table[j].number)) == AyatCredit(table[j], StoredAt(sp2, table[j].number))
      ensures IsComplete(table[j], StoredAt(sp1, table[j].number)) <==> IsComplete(table[j], StoredAt(sp2, table[j].number))
    {
    }
    SameCreditsSameStats(table, sp1, sp2);
  }

  /** Progress kept under the mutators' invariant credits every surah within range. */
  lemma BoundedCreditsWithin(table: Table, p: Progress)
    requires ValidTable(table)
    requires Bounded(table, p)
    ensures CreditsWithin(table, Lift(p))
  {
    BoundedEntries(table, p);
  }
}
