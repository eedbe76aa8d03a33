/**
 The prayer (waqt) log of the React front end (src/App.jsx): a map from a date
 to that day's record, which maps a waqt name to whether it was performed.
 Dates are modelled as day numbers. A day record is created by the first toggle
 on that date and is never removed.
 */
module PrayerLog {
  import opened Rounding
  import opened Sets

  type Waqt = string
  type DayRecord = map<Waqt, bool>
  type Log = map<int, DayRecord>

  /** `WAQT_LIST`: the five daily prayers, in the order the calendar card shows them. */
  const WaqtList: seq<Waqt> := ["Fajr", "Dhuhr", "Asr", "Maghrib", "Isha"]

  /** Every day record only holds flags for names of `WaqtList`, as the calendar's buttons guarantee. */
  predicate WellFormed(log: Log) {
    forall d, w :: d in log && w in log[d] ==> w in WaqtList
  }

  /** `prev[date]`, or `prayerLogs[day.fullDate] || {}`: an absent day reads as an empty record. */
  function DayOf(log: Log, date: int): DayRecord {
    if date in log then log[date] else map[]
  }

  /** The truthiness of `prev[date]?.[waqt]`: absent days and absent flags read as false. */
  function Flag(log: Log, date: int, waqt: Waqt): bool {
    var day := DayOf(log, date);
    waqt in day && day[waqt]
  }

  /** `toggleWaqt(date, waqt)`: store the negation of the flag's truthiness; nothing else changes. */
  function ToggleWaqt(log: Log, date: int, waqt: Waqt): (r: Log)
    ensures r.Keys == log.Keys + {date}
    ensures r[date].Keys == DayOf(log, date).Keys + {waqt}
    ensures Flag(r, date, waqt) == !Flag(log, date, waqt)
    ensures forall w :: w in DayOf(log, date) && w != waqt ==> r[date][w] == DayOf(log, date)[w]
    ensures forall d :: d in log && d != date ==> r[d] == log[d]
    ensures forall d, w :: (d != date || w != waqt) ==> Flag(r, d, w) == Flag(log, d, w)
    ensures WellFormed(log) && waqt in WaqtList ==> WellFormed(r)
  {
    var day := DayOf(log, date);
    log[date := day[waqt := !Flag(log, date, waqt)]]
  }

  /** Toggling the same flag twice restores every flag's truthiness and keeps every day that was there. */
  lemma ToggleTwiceRestores(log: Log, date: int, waqt: Waqt)
    ensures var twice := ToggleWaqt(ToggleWaqt(log, date, waqt), date, waqt);
      && twice.Keys == log.Keys + {date}
      && forall d, w :: Flag(twice, d, w) == Flag(log, d, w)
  {
  }

  /** `Object.values(day).filter(Boolean).length`: how many waqt of a day are marked performed. */
  function DayCount(day: DayRecord): (r: nat)
    ensures r <= |day|
    ensures (forall w :: w in day ==> w in WaqtList) ==> r <= |WaqtList|
  {
    var performed := set w | w in day && day[w];
    assert performed <= day.Keys;
    assert |day.Keys| == |day|;
    SubsetCardinality(performed, day.Keys);
    assert (forall w :: w in day ==> w in WaqtList) ==> |performed| <= |WaqtList| by {
      WaqtSetSize();
      if forall w :: w in day ==> w in WaqtList {
        SubsetCardinality(performed, WaqtSet);
      }
    }
    |performed|
  }

  /** The names of `WaqtList` as a set. */
  const WaqtSet: set<Waqt> := set w | w in WaqtList

  /** `WAQT_LIST` names five distinct prayers. */
  lemma WaqtSetSize()
    ensures |WaqtSet| == |WaqtList| == 5
    ensures forall w :: w in WaqtList <==> w in WaqtSet
  {
    assert WaqtSet == {WaqtList[0], WaqtList[1], WaqtList[2], WaqtList[3], WaqtList[4]};
  }

  /** The per-day counts of the given days, added up. */
  ghost function SumDays(log: Log, dates: set<int>): nat
    requires dates <= log.Keys
    decreases dates
  {
    if dates == {} then 0
    else
      var d := Pick(dates);
      DayCount(log[d]) + SumDays(log, dates - {d})
  }

  /** `performedWaqt`: the per-day counts of `Object.values(prayerLogs)`, added up. */
  ghost function PerformedWaqt(log: Log): (r: nat)
    ensures r == |TrueFlags(log)|
    ensures |log| == 0 ==> r == 0
  {
    SumDaysCountsTrueFlags(log, log.Keys);
    SumDays(log, log.Keys)
  }

  /** The (date, waqt) pairs marked performed on the given days. */
  ghost function TrueFlagsOn(log: Log, dates: set<int>): set<(int, Waqt)> {
    set d, w | d in dates && d in log && w in log[d] && log[d][w] :: (d, w)
  }

  /** All (date, waqt) pairs marked performed. */
  ghost function TrueFlags(log: Log): set<(int, Waqt)> {
    TrueFlagsOn(log, log.Keys)
  }

  /** Pairing one fixed date with each of a set of names does not change how many there are. */
  lemma {:induction false} PairingKeepsSize(d: int, names: set<Waqt>)
    ensures |set w | w in names :: (d, w)| == |names|
    decreases names
  {
    if names != {} {
      var x := Pick(names);
      var rest := names - {x};
      PairingKeepsSize(d, rest);
      assert (set w | w in names :: (d, w)) == (set w | w in rest :: (d, w)) + {(d, x)};
    }
  }

  /** A day's count is the number of that day's true pairs. */
  lemma DayCountIsDayFlags(log: Log, d: int)
    requires d in log
    ensures TrueFlagsOn(log, {d}) == set w | w in (set w | w in log[d] && log[d][w]) :: (d, w)
    ensures |TrueFlagsOn(log, {d})| == DayCount(log[d])
  {
    var names := set w | w in log[d] && log[d][w];
    assert TrueFlagsOn(log, {d}) == set w | w in names :: (d, w);
    PairingKeepsSize(d, names);
  }

  /** The fold over the days counts exactly the true (date, waqt) pairs of those days. */
  lemma {:induction false} SumDaysCountsTrueFlags(log: Log, dates: set<int>)
    requires dates <= log.Keys
    ensures SumDays(log, dates) == |TrueFlagsOn(log, dates)|
    decreases dates
  {
    if dates != {} {
      var d := Pick(dates);
      var rest := dates - {d};
      SumDaysCountsTrueFlags(log, rest);
      DayCountIsDayFlags(log, d);
      assert TrueFlagsOn(log, dates) == TrueFlagsOn(log, rest) + TrueFlagsOn(log, {d});
      assert TrueFlagsOn(log, rest) !! TrueFlagsOn(log, {d});
    }
  }

  /** In a well-formed log no day contributes more than five. */
  lemma {:induction false} SumDaysBound(log: Log, dates: set<int>)
    requires dates <= log.Keys
    requires WellFormed(log)
    ensures SumDays(log, dates) <= 5 * |dates|
    decreases dates
  {
    if dates != {} {
      var d := Pick(dates);
      SumDaysBound(log, dates - {d});
      assert DayCount(log[d]) <= 5;
    }
  }

  /** A pair is among the true flags exactly when its flag reads true. */
  lemma TrueFlagsAreFlags(log: Log)
    ensures forall d, w :: (d, w) in TrueFlags(log) <==> Flag(log, d, w)
  {
  }

  /** A toggle adds its pair to the true flags or takes it away, and leaves every other pair alone. */
  lemma ToggleTrueFlags(log: Log, date: int, waqt: Waqt)
    ensures TrueFlags(ToggleWaqt(log, date, waqt))
         == if Flag(log, date, waqt) then TrueFlags(log) - {(date, waqt)} else TrueFlags(log) + {(date, waqt)}
  {
    var r := ToggleWaqt(log, date, waqt);
    var expected := if Flag(log, date, waqt) then TrueFlags(log) - {(date, waqt)} else TrueFlags(log) + {(date, waqt)};
    TrueFlagsAreFlags(log);
    TrueFlagsAreFlags(r);
    forall d, w
      ensures (d, w) in TrueFlags(r) <==> (d, w) in expected
    {
      assert Flag(r, d, w) == if d == date && w == waqt then !Flag(log, d, w) else Flag(log, d, w);
    }
    forall f | f in TrueFlags(r)
      ensures f in expected
    {
      assert f == (f.0, f.1);
    }
    forall f | f in expected
      ensures f in TrueFlags(r)
    {
      assert f == (f.0, f.1);
    }
  }

  /** Each toggle moves `performedWaqt` by exactly one: up when the flag was false, down when it was true. */
  lemma ToggleChangesPerformedByOne(log: Log, date: int, waqt: Waqt)
    ensures PerformedWaqt(ToggleWaqt(log, date, waqt))
         == if Flag(log, date, waqt) then PerformedWaqt(log) - 1 else PerformedWaqt(log) + 1
  {
    var r := ToggleWaqt(log, date, waqt);
    ToggleTrueFlags(log, date, waqt);
    TrueFlagsAreFlags(log);
  }

  /** `totalPossibleWaqt`: five for every day that has a record. */
  function TotalPossibleWaqt(log: Log): (r: nat)
    ensures r == 5 * |log.Keys|
    ensures WellFormed(log) ==> PerformedWaqt(log) <= r
  {
    assert |log.Keys| == |log|;
    assert WellFormed(log) ==> PerformedWaqt(log) <= 5 * |log.Keys| by {
      if WellFormed(log) {
        SumDaysBound(log, log.Keys);
      }
    }
    |log| * |WaqtList|
  }

  /** `prayerPercent`: 0 for an empty log, otherwise the rounded share of possible waqt performed. */
  ghost function PrayerPercent(log: Log): (r: int)
    ensures |log| == 0 ==> r == 0
    ensures WellFormed(log) ==> 0 <= r <= 100
  {
    var total := TotalPossibleWaqt(log);
    if total > 0 then
      assert WellFormed(log) ==> 0 <= RoundPercent(PerformedWaqt(log), total) <= 100 by {
        if WellFormed(log) {
          PercentInRange(PerformedWaqt(log), total);
        }
      }
      RoundPercent(PerformedWaqt(log), total)
    else 0
  }

  /** A day whose flag was toggled on and off again still counts towards the possible waqt. */
  lemma UntoggledDayStillCounts(log: Log, date: int, waqt: Waqt)
    requires date !in log
    ensures var twice := ToggleWaqt(ToggleWaqt(log, date, waqt), date, waqt);
      && PerformedWaqt(twice) == PerformedWaqt(log)
      && TotalPossibleWaqt(twice) == TotalPossibleWaqt(log) + |WaqtList|
  {
    var once := ToggleWaqt(log, date, waqt);
    ToggleChangesPerformedByOne(log, date, waqt);
    ToggleChangesPerformedByOne(once, date, waqt);
    var twice := ToggleWaqt(once, date, waqt);
    assert twice.Keys == log.Keys + {date};
    assert |twice.Keys| == |log.Keys| + 1;
  }
}
