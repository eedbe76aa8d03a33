/**
 The Quran half of the React front end (src/App.jsx): `handleAyatChange`, the
 complete button of `SurahCard`, and the `completedAyats` / `quranPercent`
 statistics. Unlike the plain-script front end, the handler is handed the
 surah's ayah count by its caller and never looks the surah up.
 */
module HubProgress {
  import opened Wrappers
  import opened SurahTable
  import opened Progress
  import opened Rounding
  import QuranTracker

  /** `handleAyatChange(surahNum, val, max)`: store the typed value, parsed and clamped into [0, max]. */
  function HandleAyatChange(p: Progress, surahNum: int, val: Option<int>, max: int): (r: Progress)
    ensures surahNum in r && SameExcept(p, r, surahNum)
    ensures max >= 0 ==> 0 <= r[surahNum] <= max
    ensures val.Some? && 0 <= val.value <= max ==> r[surahNum] == val.value
    ensures val.Some? && 0 <= max < val.value ==> r[surahNum] == max
    ensures val.None? || val.value < 0 ==> r[surahNum] == 0
  {
    p[surahNum := ClampAyat(ParseOrZero(val), max)]
  }

  /** Called as each card does, with the card's own number and ayah count, the handler keeps the invariant. */
  lemma HandlerKeepsBounds(table: Table, p: Progress, i: int, val: Option<int>)
    requires ValidTable(table)
    requires Bounded(table, p)
    requires 0 <= i < |table|
    ensures Bounded(table, HandleAyatChange(p, table[i].number, val, table[i].ayats))
  {
    FindOwnNumber(table, i);
  }

  /**
   The check-mark button of `SurahCard`: it passes `0` when the card's progress equals
   the ayah count and the ayah count otherwise, through `handleAyatChange`.
   */
  function CompleteButton(p: Progress, surah: Surah): (r: Progress)
    ensures surah.number in r && SameExcept(p, r, surah.number)
    ensures surah.ayats >= 0 ==> r[surah.number] == 0 || r[surah.number] == surah.ayats
    ensures surah.ayats >= 0 && Current(p, surah.number) == surah.ayats ==> r[surah.number] == 0
    ensures surah.ayats >= 0 && Current(p, surah.number) != surah.ayats ==> r[surah.number] == surah.ayats
  {
    var progress := Current(p, surah.number);
    HandleAyatChange(p, surah.number, Some(if progress == surah.ayats then 0 else surah.ayats), surah.ayats)
  }

  /** `surahData.reduce((acc, s) => acc + (quranProgress[s.number] || 0), 0)`. */
  function CompletedAyats(table: Table, p: Progress): (r: int)
    ensures (forall i :: 0 <= i < |table| ==> 0 <= Current(p, table[i].number) <= table[i].ayats)
      ==> 0 <= r <= TotalAyats(table)
  {
    if |table| == 0 then 0
    else
      assert forall i :: 0 <= i < |table[1..]| ==> table[1..][i] == table[i + 1];
      Current(p, table[0].number) + CompletedAyats(table[1..], p)
  }

  /** `quranPercent`: `Math.round((completedAyats / totalAyats) * 100)`, not a number when the table has no ayat. */
  function QuranPercent(table: Table, p: Progress): (r: Option<int>)
    ensures ValidTable(table) && |table| > 0 && Bounded(table, p) ==> r.Some? && 0 <= r.value <= 100
  {
    var completed := CompletedAyats(table, p);
    var total := TotalAyats(table);
    assert ValidTable(table) && |table| > 0 && Bounded(table, p) ==>
      0 < total && 0 <= RoundPercent(completed, total) <= 100 by {
      if ValidTable(table) && |table| > 0 && Bounded(table, p) {
        BoundedEntries(table, p);
        PercentInRange(completed, total);
      }
    }
    PercentOf(completed, total)
  }

  /** The React handler, called with the table's ayah count, does what the plain-script `updateAyatProgress` does. */
  lemma HandlerMatchesTracker(table: Table, p: Progress, number: int, val: Option<int>)
    requires Find(table, number).Some?
    ensures QuranTracker.UpdateAyatProgress(table, p, number, val)
         == Some(HandleAyatChange(p, number, val, Find(table, number).value.ayats))
  {
  }

  /** The React complete button does what the plain-script `toggleFullCompletion` does. */
  lemma CompleteButtonMatchesTracker(table: Table, p: Progress, i: int)
    requires ValidTable(table)
    requires 0 <= i < |table|
    ensures QuranTracker.ToggleFullCompletion(table, p, table[i].number) == Some(CompleteButton(p, table[i]))
  {
    FindOwnNumber(table, i);
  }

  /** On numeric progress both front ends add up the same number of ayat read. */
  lemma {:induction false} CompletedAyatsMatchesTracker(table: Table, p: Progress)
    ensures QuranTracker.RenderStats(table, QuranTracker.Lift(p)).completedAyats == CompletedAyats(table, p)
  {
    if |table| > 0 {
      CompletedAyatsMatchesTracker(table[1..], p);
    }
  }

  /** Under the invariant, the completed ayat reach the ayah total exactly when every surah is read to its end. */
  lemma CompletedAyatsReachTotal(table: Table, p: Progress)
    requires ValidTable(table)
    requires |table| > 0
    requires Bounded(table, p)
    ensures CompletedAyats(table, p) == TotalAyats(table)
        <==> forall i :: 0 <= i < |table| ==> Current(p, table[i].number) == table[i].ayats
  {
    var sp := QuranTracker.Lift(p);
    CompletedAyatsMatchesTracker(table, p);
    QuranTracker.BoundedCreditsWithin(table, p);
    QuranTracker.AllAyatsRead(table, sp);
    assert forall i :: 0 <= i < |table| ==>
      (QuranTracker.IsComplete(table[i], QuranTracker.StoredAt(sp, table[i].number)) <==>
       Current(p, table[i].number) == table[i].ayats);
  }

  /** When every surah is read to its end, the React percentage is 100. */
  lemma AllReadGivesFullPercent(table: Table, p: Progress)
    requires ValidTable(table)
    requires |table| > 0
    requires Bounded(table, p)
    requires forall i :: 0 <= i < |table| ==> Current(p, table[i].number) == table[i].ayats
    ensures QuranPercent(table, p) == Some(100)
  {
    CompletedAyatsReachTotal(table, p);
    PercentEnds(TotalAyats(table));
  }

  /**
   The converse does not hold: rounding shows 100 per cent before the last ayah is
   read, as with 199 of 200 ayat.
   */
  lemma NearlyReadShowsFullPercent()
    ensures var table := [Surah(1, 200, "", "")];
      var p := map[1 := 199];
      && ValidTable(table) && Bounded(table, p)
      && CompletedAyats(table, p) < TotalAyats(table)
      && QuranPercent(table, p) == Some(100)
  {
    var table := [Surah(1, 200, "", "")];
    var p := map[1 := 199];
    assert Find(table, 1) == Some(table[0]);
    assert CompletedAyats(table, p) == 199;
    assert TotalAyats(table) == 200;
  }
}
