/**
  The day's prayer schedule and the next-prayer lookup of the Adhan clock.

  Timestamps are whole seconds on one time line (the configured time zone);
  the current time `now` is an input instead of a clock read.
 */
module PrayerTimes {

  import opened Wrappers

  /** The five daily prayers in their fixed chronological order. */
  const PrayerOrder: seq<string> := ["Fajr", "Dhuhr", "Asr", "Maghrib", "Isha"]

  /** Prayer name to absolute timestamp in seconds. */
  type Schedule = map<string, int>

  /** A schedule holds a time for every prayer of the fixed order, as the daily fetch produces. */
  predicate Complete(schedule: Schedule) {
    forall name :: name in PrayerOrder ==> name in schedule
  }

  /** Times never decrease along the prayer order (the shape of a real day's schedule). */
  predicate Chronological(schedule: Schedule)
    requires Complete(schedule)
  {
    forall i, j :: 0 <= i <= j < |PrayerOrder| ==> schedule[PrayerOrder[i]] <= schedule[PrayerOrder[j]]
  }

  /** Where a prayer stands in the fixed order. */
  function Position(name: string): (k: nat)
    requires name in PrayerOrder
    ensures k < |PrayerOrder| && PrayerOrder[k] == name
  {
    if name == "Fajr" then 0
    else if name == "Dhuhr" then 1
    else if name == "Asr" then 2
    else if name == "Maghrib" then 3
    else 4
  }

  /** The five names are distinct, so a name's position is the only index holding it. */
  lemma PositionOfIndex(k: int)
    requires 0 <= k < |PrayerOrder|
    ensures Position(PrayerOrder[k]) == k
  {
  }

  /** The next upcoming prayer with the whole minutes left before it, split into hours and minutes. */
  datatype NextPrayer = NextPrayer(name: string, at: int, hours: int, minutes: int)

  /**
    Splits a positive number of seconds into whole hours and leftover whole minutes,
    dropping the partial minute.
   */
  function SplitRemaining(seconds: int): (hm: (int, int))
    requires seconds > 0
    ensures hm.0 >= 0 && 0 <= hm.1 < 60
    ensures hm.0 * 60 + hm.1 == seconds / 60
  {
    var totalMinutes := seconds / 60;
    (totalMinutes / 60, totalMinutes % 60)
  }

  /** "0 hours, 0 minutes left" is reported exactly when less than one minute remains. */
  lemma NothingLeftIffUnderAMinute(seconds: int)
    requires seconds > 0
    ensures SplitRemaining(seconds) == (0, 0) <==> seconds < 60
  {
  }

  /**
    Scans the prayer order from index `i` for the first prayer strictly after `now`.
    A prayer whose time equals `now` has passed.
   */
  function FindNextFrom(schedule: Schedule, now: int, i: nat): (r: Option<NextPrayer>)
    requires Complete(schedule) && i <= |PrayerOrder|
    ensures r.None? <==> forall j :: i <= j < |PrayerOrder| ==> schedule[PrayerOrder[j]] <= now
    ensures r.Some? ==>
      && r.value.name in PrayerOrder
      && i <= Position(r.value.name)
      && (forall j :: i <= j < Position(r.value.name) ==> schedule[PrayerOrder[j]] <= now)
      && r.value.at == schedule[r.value.name]
      && r.value.at > now
      && r.value.hours >= 0 && 0 <= r.value.minutes < 60
      && r.value.hours * 60 + r.value.minutes == (r.value.at - now) / 60
    decreases |PrayerOrder| - i
  {
    if i == |PrayerOrder| then None
    else
      var name := PrayerOrder[i];
      var dt := schedule[name];
      if dt > now then
        PositionOfIndex(i);
        var hm := SplitRemaining(dt - now);
        Some(NextPrayer(name, dt, hm.0, hm.1))
      else
        FindNextFrom(schedule, now, i + 1)
  }

  /** The next prayer after `now` and the time left until it, or None when every prayer has passed. */
  function NextPrayerAndRemaining(schedule: Schedule, now: int): (r: Option<NextPrayer>)
    requires Complete(schedule)
    ensures r.Some? ==>
      && r.value.name in PrayerOrder
      && r.value.at == schedule[r.value.name]
      && r.value.at > now
      && r.value.hours >= 0 && 0 <= r.value.minutes < 60
      && r.value.hours * 60 + r.value.minutes == (r.value.at - now) / 60
  {
    FindNextFrom(schedule, now, 0)
  }

  /**
    The lookup's full contract: None exactly when no prayer is still ahead; otherwise the first
    prayer in order whose time is strictly after `now`, that prayer's own time, and the whole
    minutes left split into hours and minutes.
   */
  lemma NextPrayerIsFirstAhead(schedule: Schedule, now: int)
    requires Complete(schedule)
    ensures var r := NextPrayerAndRemaining(schedule, now);
      && (r.None? <==> forall name :: name in PrayerOrder ==> schedule[name] <= now)
      && (r.Some? ==>
           && r.value.name in PrayerOrder
           && (forall j :: 0 <= j < Position(r.value.name) ==> schedule[PrayerOrder[j]] <= now)
           && r.value.at == schedule[r.value.name] && r.value.at > now
           && r.value.hours >= 0 && 0 <= r.value.minutes < 60
           && r.value.hours * 60 + r.value.minutes == (r.value.at - now) / 60)
  {
    var r := NextPrayerAndRemaining(schedule, now);
    if r.None? {
      forall name | name in PrayerOrder
        ensures schedule[name] <= now
      {
        var k := Position(name);
      }
    }
  }

  /**
    Conversely, a prayer that is ahead of `now` while every prayer before it has passed
    is the one the lookup reports.
   */
  lemma FirstAheadIsNext(schedule: Schedule, now: int, k: int)
    requires Complete(schedule) && 0 <= k < |PrayerOrder|
    requires schedule[PrayerOrder[k]] > now
    requires forall j :: 0 <= j < k ==> schedule[PrayerOrder[j]] <= now
    ensures var r := NextPrayerAndRemaining(schedule, now);
      r.Some? && r.value.name == PrayerOrder[k]
  {
    var r := NextPrayerAndRemaining(schedule, now);
    assert r.Some?;
    PositionOfIndex(k);
  }

  /** The prayer reported "0 hours 0 minutes" away is less than one minute ahead. */
  lemma ZeroRemainingIsUnderAMinute(schedule: Schedule, now: int)
    requires Complete(schedule)
    requires NextPrayerAndRemaining(schedule, now).Some?
    ensures var x := NextPrayerAndRemaining(schedule, now).value;
      (x.hours == 0 && x.minutes == 0) <==> 0 < x.at - now < 60
  {
    var x := NextPrayerAndRemaining(schedule, now).value;
    NothingLeftIffUnderAMinute(x.at - now);
  }

  /** On a chronological schedule the reported prayer is the earliest one still ahead. */
  lemma NextIsEarliestAhead(schedule: Schedule, now: int, name: string)
    requires Complete(schedule) && Chronological(schedule)
    requires name in PrayerOrder && schedule[name] > now
    ensures var r := NextPrayerAndRemaining(schedule, now);
      r.Some? && r.value.at <= schedule[name]
  {
    var r := NextPrayerAndRemaining(schedule, now);
    var k := Position(name);
  }

  /**
    Once the clock moves on, the reported prayer never moves back in the order:
    a prayer that has stopped being next has passed for the rest of the day.
   */
  lemma NextNeverMovesBack(schedule: Schedule, earlier: int, later: int)
    requires Complete(schedule) && earlier <= later
    requires NextPrayerAndRemaining(schedule, later).Some?
    ensures var a := NextPrayerAndRemaining(schedule, earlier);
      var b := NextPrayerAndRemaining(schedule, later);
      a.Some? && Position(a.value.name) <= Position(b.value.name)
  {
    var b := NextPrayerAndRemaining(schedule, later);
  }

  /**
    A worked day: at 12:14:30 with Dhuhr at 12:15 the next prayer is
    Dhuhr with 0 hours 0 minutes left; at 12:15:00 exactly Dhuhr has passed and Asr is next.
   */
  lemma WorkedDay()
    ensures var day := map["Fajr" := 19800, "Dhuhr" := 44100, "Asr" := 56700,
                           "Maghrib" := 66000, "Isha" := 71400];
      && Complete(day)
      && NextPrayerAndRemaining(day, 44070) == Some(NextPrayer("Dhuhr", 44100, 0, 0))
      && NextPrayerAndRemaining(day, 44100) == Some(NextPrayer("Asr", 56700, 3, 30))
      && NextPrayerAndRemaining(day, 71400) == None
  {
    var day := map["Fajr" := 19800, "Dhuhr" := 44100, "Asr" := 56700,
                   "Maghrib" := 66000, "Isha" := 71400];
    assert Complete(day);
    FirstAheadIsNext(day, 44070, 1);
    FirstAheadIsNext(day, 44100, 2);
  }
}
