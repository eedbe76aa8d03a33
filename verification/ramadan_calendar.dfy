/**
 The thirty-day Ramadan calendar of the React front end (src/App.jsx) and the
 "Ramadan Day" figure looked up from it. Dates are day numbers: the start date
 is a parameter and each following day is one more.
 */
module RamadanCalendar {
  import opened Wrappers

  /** The calendar always has thirty days. */
  const RamadanLength: nat := 30

  /** One calendar entry: its 1-based day of Ramadan and its date. The display label is not modelled. */
  datatype CalendarDay = CalendarDay(ramadanDay: int, fullDate: int)

  /** `getRamadanDays()`: thirty consecutive days from `start`, numbered from 1. */
  method GetRamadanDays(start: int) returns (days: seq<CalendarDay>)
    ensures |days| == RamadanLength
    ensures forall i :: 0 <= i < |days| ==> days[i].ramadanDay == i + 1 && days[i].fullDate == start + i
  {
    days := [];
    var i := 0;
    while i < RamadanLength
      invariant 0 <= i <= RamadanLength
      invariant |days| == i
      invariant forall k :: 0 <= k < i ==> days[k] == CalendarDay(k + 1, start + k)
    {
      days := days + [CalendarDay(i + 1, start + i)];
      i := i + 1;
    }
  }

  /** `ramadanDays.find(d => d.fullDate === today)?.ramadanDay`: the day number of `today`, if it is in the calendar. */
  function TodayRamadanDay(days: seq<CalendarDay>, today: int): (r: Option<int>)
    ensures r.Some? ==> exists i :: 0 <= i < |days| && days[i].fullDate == today && days[i].ramadanDay == r.value
    ensures r.None? <==> forall i :: 0 <= i < |days| ==> days[i].fullDate != today
  {
    if |days| == 0 then None
    else if days[0].fullDate == today then Some(days[0].ramadanDay)
    else
      var r := TodayRamadanDay(days[1..], today);
      assert r.Some? ==> exists i :: 0 <= i < |days| && days[i].fullDate == today && days[i].ramadanDay == r.value by {
        if r.Some? {
          var j :| 0 <= j < |days[1..]| && days[1..][j].fullDate == today && days[1..][j].ramadanDay == r.value;
          assert days[j + 1] == days[1..][j];
        }
      }
      r
  }

  /** Consecutive days numbered from `first`, dated from `start`. */
  predicate Consecutive(days: seq<CalendarDay>, first: int, start: int) {
    forall i :: 0 <= i < |days| ==> days[i] == CalendarDay(first + i, start + i)
  }

  /**
   On such a calendar, today's day number is its distance from the start plus the first
   number, and there is none outside the calendar's range.
   */
  lemma {:induction false} TodayOnConsecutive(days: seq<CalendarDay>, first: int, start: int, today: int)
    requires Consecutive(days, first, start)
    ensures TodayRamadanDay(days, today)
         == if start <= today < start + |days| then Some(first + today - start) else None
  {
    if |days| > 0 && days[0].fullDate != today {
      assert Consecutive(days[1..], first + 1, start + 1) by {
        forall i | 0 <= i < |days[1..]|
          ensures days[1..][i] == CalendarDay(first + 1 + i, start + 1 + i)
        {
          assert days[1..][i] == days[i + 1];
        }
      }
      TodayOnConsecutive(days[1..], first + 1, start + 1, today);
    }
  }

  /** The "Ramadan Day" figure: `today - start + 1` during the thirty days, and none (shown as "--") otherwise. */
  lemma TodayInRamadan(days: seq<CalendarDay>, start: int, today: int)
    requires |days| == RamadanLength
    requires forall i :: 0 <= i < |days| ==> days[i].ramadanDay == i + 1 && days[i].fullDate == start + i
    ensures TodayRamadanDay(days, today)
         == if start <= today < start + RamadanLength then Some(today - start + 1) else None
  {
    assert Consecutive(days, 1, start) by {
      forall i | 0 <= i < |days|
        ensures days[i] == CalendarDay(1 + i, start + i)
      {
      }
    }
    TodayOnConsecutive(days, 1, start, today);
  }
}
