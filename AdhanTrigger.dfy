/**
  The Adhan clock's trigger controller: the per-frame state of the main loop
  (today's date, today's schedule, the last prayer whose adhan was played and
  the status line), the day reset, the once-per-prayer firing and the manual
  Fajr key.

  `Step` is the specification of one frame and `Run` of many; the class
  `AdhanController` updates its fields in place and is proved against them.
 */
module AdhanTrigger {

  import opened Wrappers
  import opened PrayerTimes
  import opened AdhanCue

  /** A calendar day, as an ordinal day number of the system's local calendar. */
  type Date = int

  const Running: string := "Running"

  function PlayingStatus(name: string): string {
    "Playing Adhan (" + name + ")"
  }

  /** The loop's state between frames. */
  datatype ControllerState = ControllerState(
    currentDate: Date,
    schedule: Schedule,
    lastAdhan: Option<string>,
    status: string)

  /**
    What one frame observes: the local date, the time, the schedule a fetch would
    return if one is made in this frame, and whether the manual Fajr key was pressed.
   */
  datatype TickInput = TickInput(today: Date, now: int, fetched: Schedule, manualKey: bool)

  /** The state after one frame, whether the manual key played Fajr, and the prayer fired, if any. */
  datatype TickOutcome = TickOutcome(state: ControllerState, manual: bool, fired: Option<string>)

  /** The state right after startup: today's date and schedule, nothing played yet. */
  function Initial(today: Date, fetched: Schedule): ControllerState {
    ControllerState(today, fetched, None, Running)
  }

  /** The names handed to playback in one frame, in order: the manual Fajr first, then the firing. */
  function Played(o: TickOutcome): seq<string> {
    (if o.manual then ["Fajr"] else []) + (if o.fired.Some? then [o.fired.value] else [])
  }

  /** The day check at the top of a frame: a new date brings a new schedule and forgets the last adhan. */
  function Rollover(s: ControllerState, today: Date, fetched: Schedule): (r: ControllerState)
    ensures r.currentDate == today
    ensures today != s.currentDate ==> r.schedule == fetched && r.lastAdhan.None? && r.status == Running
    ensures today == s.currentDate ==> r == s
  {
    if today != s.currentDate then Initial(today, fetched) else s
  }

  /** The prayer this frame fires: the next prayer, when no whole minute is left and it is not the last one fired. */
  function Firing(r: ControllerState, now: int): (fired: Option<string>)
    requires Complete(r.schedule)
    ensures var x := NextPrayerAndRemaining(r.schedule, now);
      fired.Some? <==> x.Some? && 0 < x.value.at - now < 60 && r.lastAdhan != Some(x.value.name)
    ensures fired.Some? ==> fired.value == NextPrayerAndRemaining(r.schedule, now).value.name
  {
    var x := NextPrayerAndRemaining(r.schedule, now);
    if x.None? then None
    else
      ZeroRemainingIsUnderAMinute(r.schedule, now);
      var next := x.value;
      if next.hours == 0 && next.minutes == 0 && r.lastAdhan != Some(next.name) then Some(next.name) else None
  }

  /** One frame of the main loop. */
  function Step(s: ControllerState, i: TickInput): (o: TickOutcome)
    requires Complete(s.schedule) && Complete(i.fetched)
    ensures Complete(o.state.schedule) && o.state.currentDate == i.today
    ensures o.manual == i.manualKey
  {
    var r := Rollover(s, i.today, i.fetched);
    var fired := Firing(r, i.now);
    var next := if fired.Some? then r.(lastAdhan := fired, status := PlayingStatus(fired.value)) else r;
    TickOutcome(next, i.manualKey, fired)
  }

  /** Every schedule a frame could fetch is complete. */
  predicate AllComplete(ins: seq<TickInput>) {
    forall k :: 0 <= k < |ins| ==> Complete(ins[k].fetched)
  }

  /** The state after a run of frames, everything handed to playback, and the automatic firings alone. */
  datatype RunOutcome = RunOutcome(state: ControllerState, played: seq<string>, fired: seq<string>)

  /** A run of frames, each starting from the state the previous one left. */
  function Run(s: ControllerState, ins: seq<TickInput>): (o: RunOutcome)
    requires Complete(s.schedule) && AllComplete(ins)
    ensures Complete(o.state.schedule)
    ensures |ins| == 0 ==> o.state == s
    ensures |ins| > 0 ==> o.state.currentDate == ins[|ins| - 1].today
    decreases |ins|
  {
    if |ins| == 0 then RunOutcome(s, [], [])
    else
      var first := Step(s, ins[0]);
      var rest := Run(first.state, ins[1..]);
      var fired := if first.fired.Some? then [first.fired.value] else [];
      RunOutcome(rest.state, Played(first) + rest.played, fired + rest.fired)
  }

  // ---------------------------------------------------------------------------
  // Properties of a single frame
  // ---------------------------------------------------------------------------

  /**
    A frame fires prayer `n` exactly when, after the day check, `n` is the next prayer, it is
    less than one minute ahead, and it is not the last prayer fired; the firing records `n` and
    shows it in the status line. A frame that fires nothing changes nothing beyond the day check.
   */
  lemma FiresExactlyWhen(s: ControllerState, i: TickInput, n: string)
    requires Complete(s.schedule) && Complete(i.fetched)
    ensures var r := Rollover(s, i.today, i.fetched);
      var o := Step(s, i);
      var x := NextPrayerAndRemaining(r.schedule, i.now);
      && (o.fired == Some(n) <==>
           x.Some? && x.value.name == n && 0 < r.schedule[n] - i.now < 60 && r.lastAdhan != Some(n))
      && (o.fired == Some(n) ==> o.state == r.(lastAdhan := Some(n), status := PlayingStatus(n)))
      && (o.fired.None? ==> o.state == r)
  {
    var r := Rollover(s, i.today, i.fetched);
    var x := NextPrayerAndRemaining(r.schedule, i.now);
    if x.Some? {
      ZeroRemainingIsUnderAMinute(r.schedule, i.now);
    }
  }

  /** A fired prayer is one of the five, its time is under a minute ahead, and it has an audio file. */
  lemma FiredPrayerIsDue(s: ControllerState, i: TickInput)
    requires Complete(s.schedule) && Complete(i.fetched)
    requires Step(s, i).fired.Some?
    ensures var o := Step(s, i);
      var n := o.fired.value;
      && n in PrayerOrder
      && 0 < o.state.schedule[n] - i.now < 60
      && o.state.lastAdhan == Some(n)
      && o.state.status == PlayingStatus(n)
      && CueFor(n).Some?
  {
    var n := Step(s, i).fired.value;
    FiresExactlyWhen(s, i, n);
    NextPrayerIsFirstAhead(Rollover(s, i.today, i.fetched).schedule, i.now);
  }

  /** On the same date, a frame never fires the prayer that was fired last. */
  lemma NoRepeatOfLastAdhan(s: ControllerState, i: TickInput)
    requires Complete(s.schedule) && Complete(i.fetched)
    requires i.today == s.currentDate && s.lastAdhan.Some?
    ensures Step(s, i).fired != s.lastAdhan
  {
  }

  /**
    A new date resets the trigger: the prayer fired last (yesterday) fires again as soon as the
    new day's schedule reports it less than one minute ahead.
   */
  lemma NewDayFiresAgain(s: ControllerState, i: TickInput, n: string)
    requires Complete(s.schedule) && Complete(i.fetched)
    requires s.lastAdhan == Some(n) && i.today != s.currentDate
    requires var x := NextPrayerAndRemaining(i.fetched, i.now);
      x.Some? && x.value.name == n && x.value.hours == 0 && x.value.minutes == 0
    ensures var o := Step(s, i);
      && o.fired == Some(n)
      && o.state == ControllerState(i.today, i.fetched, Some(n), PlayingStatus(n))
  {
  }

  /**
    The manual key plays Fajr and does nothing else: the state and the automatic firing are the
    same as in the frame without the key press.
   */
  lemma ManualKeyOnlyPlaysFajr(s: ControllerState, i: TickInput)
    requires Complete(s.schedule) && Complete(i.fetched)
    ensures var pressed := Step(s, i.(manualKey := true));
      var idle := Step(s, i.(manualKey := false));
      && pressed.state == idle.state
      && pressed.fired == idle.fired
      && Played(pressed) == ["Fajr"] + Played(idle)
      && CueFor("Fajr") == Some(FajrCue)
  {
  }

  // ---------------------------------------------------------------------------
  // Properties of runs of frames
  // ---------------------------------------------------------------------------

  /** Every frame of the run is on date `d`. */
  predicate SameDay(d: Date, ins: seq<TickInput>) {
    forall k :: 0 <= k < |ins| ==> ins[k].today == d
  }

  /** The clock never goes back between consecutive frames. */
  predicate ClockForward(ins: seq<TickInput>) {
    forall k :: 0 <= k < |ins| - 1 ==> ins[k].now <= ins[k + 1].now
  }

  /**
    By time `t` every prayer before the last one fired has passed. The firing of a prayer
    establishes this, since only the next prayer fires.
   */
  ghost predicate Settled(s: ControllerState, t: int)
    requires Complete(s.schedule)
  {
    s.lastAdhan.Some? ==>
      && s.lastAdhan.value in PrayerOrder
      && forall j :: 0 <= j < Position(s.lastAdhan.value) ==> s.schedule[PrayerOrder[j]] <= t
  }

  predicate NoDuplicates(xs: seq<string>) {
    forall a, b :: 0 <= a < b < |xs| ==> xs[a] != xs[b]
  }

  /** A run is its first frame followed by the run of the remaining frames. */
  lemma RunUnfolds(s: ControllerState, ins: seq<TickInput>)
    requires Complete(s.schedule) && AllComplete(ins) && |ins| > 0
    ensures AllComplete(ins[1..])
    ensures var first := Step(s, ins[0]);
      var rest := Run(first.state, ins[1..]);
      && Run(s, ins).state == rest.state
      && Run(s, ins).played == Played(first) + rest.played
      && Run(s, ins).fired == (if first.fired.Some? then [first.fired.value] else []) + rest.fired
  {
    assert forall k :: 0 <= k < |ins[1..]| ==> ins[1..][k] == ins[k + 1];
  }

  /** The run from frame `k` on is frame `k` followed by the run from frame `k + 1` on. */
  lemma RunFromFrame(s: ControllerState, ins: seq<TickInput>, k: nat)
    requires Complete(s.schedule) && k < |ins| && AllComplete(ins[k..])
    ensures Complete(ins[k].fetched) && AllComplete(ins[k + 1..])
    ensures var first := Step(s, ins[k]);
      var rest := Run(first.state, ins[k + 1..]);
      && Run(s, ins[k..]).state == rest.state
      && (forall done: seq<string> :: done + Run(s, ins[k..]).played == (done + Played(first)) + rest.played)
  {
    assert ins[k..][0] == ins[k];
    assert ins[k..][1..] == ins[k + 1..];
    RunUnfolds(s, ins[k..]);
  }

  /**
    A frame on the same date, with the clock no earlier than `t`, keeps the schedule and
    keeps the state settled; what it fires is new, and still ahead at `t`.
   */
  lemma StepKeepsSettled(s: ControllerState, t: int, i: TickInput)
    requires Complete(s.schedule) && Complete(i.fetched)
    requires i.today == s.currentDate && Settled(s, t) && t <= i.now
    ensures var o := Step(s, i);
      && Settled(o.state, i.now)
      && o.state.schedule == s.schedule
      && o.state.currentDate == s.currentDate
      && (o.fired.None? ==> o.state.lastAdhan == s.lastAdhan)
      && (o.fired.Some? ==>
            && o.state.lastAdhan == o.fired
            && o.fired.value in PrayerOrder
            && o.fired != s.lastAdhan
            && s.schedule[o.fired.value] > t)
  {
    NextPrayerIsFirstAhead(s.schedule, i.now);
  }

  /**
    While the prayer fired last is still ahead, it is the next prayer, so nothing else can fire.
   */
  lemma PendingLastBlocksOthers(s: ControllerState, t: int, i: TickInput)
    requires Complete(s.schedule) && Complete(i.fetched)
    requires i.today == s.currentDate && Settled(s, t) && t <= i.now
    requires s.lastAdhan.Some? && s.schedule[s.lastAdhan.value] > i.now
    ensures Step(s, i).fired.None?
  {
    FirstAheadIsNext(s.schedule, i.now, Position(s.lastAdhan.value));
  }

  lemma PrependKeepsNoDuplicates(m: string, rest: seq<string>)
    requires NoDuplicates(rest) && m !in rest
    ensures NoDuplicates([m] + rest)
  {
    var f := [m] + rest;
    forall a, b | 0 <= a < b < |f|
      ensures f[a] != f[b]
    {
      assert f[b] == rest[b - 1];
      if a > 0 {
        assert f[a] == rest[a - 1];
      }
    }
  }

  /**
    Within one day and with the clock moving forward, the automatic firings of a run name
    distinct prayers, none of them the prayer fired before the run, each still ahead at `t`.
   */
  lemma {:induction false} FiringsAreFresh(s: ControllerState, t: int, ins: seq<TickInput>)
    requires Complete(s.schedule) && AllComplete(ins)
    requires SameDay(s.currentDate, ins) && ClockForward(ins)
    requires Settled(s, t) && (|ins| > 0 ==> t <= ins[0].now)
    ensures var f := Run(s, ins).fired;
      && NoDuplicates(f)
      && forall n :: n in f ==> n in PrayerOrder && s.lastAdhan != Some(n) && s.schedule[n] > t
    decreases |ins|
  {
    if |ins| > 0 {
      var i := ins[0];
      var first := Step(s, i);
      RunUnfolds(s, ins);
      StepKeepsSettled(s, t, i);
      var tail := ins[1..];
      assert forall k :: 0 <= k < |tail| ==> tail[k] == ins[k + 1];
      FiringsAreFresh(first.state, i.now, tail);
      var rest := Run(first.state, tail).fired;
      if first.fired.Some? {
        var m := first.fired.value;
        forall n | n in rest
          ensures s.lastAdhan != Some(n)
        {
          if s.lastAdhan == Some(n) {
            // `n` is still ahead at this frame, so `n` and not `m` was the next prayer.
            PendingLastBlocksOthers(s, t, i);
          }
        }
        PrependKeepsNoDuplicates(m, rest);
      }
    }
  }

  /** A frame that fires leaves a settled state: every prayer before the fired one has passed. */
  lemma FiringSettles(s: ControllerState, i: TickInput)
    requires Complete(s.schedule) && Complete(i.fetched)
    requires Step(s, i).fired.Some?
    ensures Step(s, i).state.lastAdhan == Step(s, i).fired
    ensures Step(s, i).fired.value in PrayerOrder
    ensures Settled(Step(s, i).state, i.now)
  {
    var r := Rollover(s, i.today, i.fetched);
    FiresExactlyWhen(s, i, Step(s, i).fired.value);
  }

  /**
    At most once per prayer per day: on one date, with the clock moving forward, no prayer
    fires twice in any run of frames, from any state; only the five prayers fire.
   */
  lemma {:induction false} AtMostOncePerPrayerPerDay(s: ControllerState, d: Date, ins: seq<TickInput>)
    requires Complete(s.schedule) && AllComplete(ins)
    requires SameDay(d, ins) && ClockForward(ins)
    ensures NoDuplicates(Run(s, ins).fired)
    ensures forall n :: n in Run(s, ins).fired ==> n in PrayerOrder
    decreases |ins|
  {
    if |ins| > 0 {
      var i := ins[0];
      var first := Step(s, i);
      RunUnfolds(s, ins);
      var tail := ins[1..];
      assert forall k :: 0 <= k < |tail| ==> tail[k] == ins[k + 1];
      if first.fired.None? {
        AtMostOncePerPrayerPerDay(first.state, d, tail);
      } else {
        FiringSettles(s, i);
        FiringsAreFresh(first.state, i.now, tail);
        PrependKeepsNoDuplicates(first.fired.value, Run(first.state, tail).fired);
      }
    }
  }

  /** Running `a` then `b` is running `a + b`: states chain, and what is played and fired concatenates. */
  lemma {:induction false} RunSplit(s: ControllerState, a: seq<TickInput>, b: seq<TickInput>)
    requires Complete(s.schedule) && AllComplete(a) && AllComplete(b)
    ensures AllComplete(a + b)
    ensures var mid := Run(s, a);
      && Run(s, a + b).state == Run(mid.state, b).state
      && Run(s, a + b).played == mid.played + Run(mid.state, b).played
      && Run(s, a + b).fired == mid.fired + Run(mid.state, b).fired
    decreases |a|
  {
    AllCompleteConcat(a, b);
    if |a| == 0 {
      assert a + b == b;
    } else {
      assert (a + b)[1..] == a[1..] + b;
      RunUnfolds(s, a + b);
      RunUnfolds(s, a);
      var first := Step(s, a[0]);
      RunSplit(first.state, a[1..], b);
      var restA := Run(first.state, a[1..]);
      var restB := Run(restA.state, b);
      var head := if first.fired.Some? then [first.fired.value] else [];
      ConcatAssociates(Played(first), restA.played, restB.played);
      ConcatAssociates(head, restA.fired, restB.fired);
    }
  }

  lemma ConcatAssociates(x: seq<string>, y: seq<string>, z: seq<string>)
    ensures x + (y + z) == (x + y) + z
  {
  }

  lemma AllCompleteConcat(a: seq<TickInput>, b: seq<TickInput>)
    requires AllComplete(a) && AllComplete(b)
    ensures AllComplete(a + b) && (|a| > 0 ==> (a + b)[0] == a[0] && AllComplete(a[1..]))
  {
    assert forall k :: 0 <= k < |a + b| ==> (a + b)[k] == if k < |a| then a[k] else b[k - |a|];
  }

  /**
    In the program's whole run from startup, the frames of any one day (with the clock moving
    forward during it) fire each prayer at most once, whatever came before and after.
   */
  lemma DayWithinWholeRun(today: Date, fetched: Schedule, before: seq<TickInput>, day: seq<TickInput>,
                          after: seq<TickInput>, d: Date)
    requires Complete(fetched) && AllComplete(before) && AllComplete(day) && AllComplete(after)
    requires SameDay(d, day) && ClockForward(day)
    ensures AllComplete(before + day + after)
    ensures var dayStart := Run(Initial(today, fetched), before).state;
      var dayRun := Run(dayStart, day);
      && Run(Initial(today, fetched), before + day + after).fired
           == Run(Initial(today, fetched), before).fired + dayRun.fired + Run(dayRun.state, after).fired
      && NoDuplicates(dayRun.fired)
  {
    var s := Initial(today, fetched);
    RunSplit(s, before, day);
    RunSplit(s, before + day, after);
    AtMostOncePerPrayerPerDay(Run(s, before).state, d, day);
  }

  /**
    With the clock set back within a day, the source fires a prayer twice: Dhuhr fires at 12:14:30,
    Asr at 15:44:30, and after the clock is set back to 12:14:40 Dhuhr fires again, because only
    the last prayer fired is remembered.
   */
  lemma ClockSetBackRefires()
    ensures var day := map["Fajr" := 19800, "Dhuhr" := 44100, "Asr" := 56700,
                           "Maghrib" := 66000, "Isha" := 71400];
      var ins := [TickInput(1, 44070, day, false), TickInput(1, 56670, day, false),
                  TickInput(1, 44080, day, false)];
      && Complete(day) && AllComplete(ins)
      && Run(Initial(1, day), ins).fired == ["Dhuhr", "Asr", "Dhuhr"]
      && !NoDuplicates(Run(Initial(1, day), ins).fired)
  {
    var day := map["Fajr" := 19800, "Dhuhr" := 44100, "Asr" := 56700,
                   "Maghrib" := 66000, "Isha" := 71400];
    var ins := [TickInput(1, 44070, day, false), TickInput(1, 56670, day, false),
                TickInput(1, 44080, day, false)];
    assert Complete(day);
    assert AllComplete(ins) by {
      assert forall k :: 0 <= k < |ins| ==> ins[k].fetched == day;
    }
    var s0 := Initial(1, day);
    FiresNext(s0, ins[0], 1);
    var s1 := Step(s0, ins[0]).state;
    FiresNext(s1, ins[1], 2);
    var s2 := Step(s1, ins[1]).state;
    FiresNext(s2, ins[2], 1);
    ThreeFirings(s0, ins, "Dhuhr", "Asr", "Dhuhr");
    var f := Run(s0, ins).fired;
    assert f[0] == f[2];
  }

  /**
    On the same date, the prayer at position `k` fires when it is less than a minute ahead,
    every prayer before it has passed, and it is not the last prayer fired.
   */
  lemma FiresNext(s: ControllerState, i: TickInput, k: int)
    requires Complete(s.schedule) && Complete(i.fetched) && i.today == s.currentDate
    requires 0 <= k < |PrayerOrder| && 0 < s.schedule[PrayerOrder[k]] - i.now < 60
    requires forall j :: 0 <= j < k ==> s.schedule[PrayerOrder[j]] <= i.now
    requires s.lastAdhan != Some(PrayerOrder[k])
    ensures Step(s, i).fired == Some(PrayerOrder[k])
    ensures Step(s, i).state == s.(lastAdhan := Some(PrayerOrder[k]), status := PlayingStatus(PrayerOrder[k]))
  {
    FirstAheadIsNext(s.schedule, i.now, k);
  }

  /** A run whose first frame fires `n` fires `n` and then what the rest of the run fires. */
  lemma FirstFrameFires(s: ControllerState, ins: seq<TickInput>, n: string)
    requires Complete(s.schedule) && AllComplete(ins) && |ins| > 0
    requires Step(s, ins[0]).fired == Some(n)
    ensures AllComplete(ins[1..])
    ensures Run(s, ins).fired == [n] + Run(Step(s, ins[0]).state, ins[1..]).fired
  {
    RunUnfolds(s, ins);
  }

  /** A run of two frames that each fire fires exactly those two prayers, in order. */
  lemma TwoFirings(s: ControllerState, ins: seq<TickInput>, n0: string, n1: string)
    requires Complete(s.schedule) && AllComplete(ins) && |ins| == 2
    requires Step(s, ins[0]).fired == Some(n0)
    requires Step(Step(s, ins[0]).state, ins[1]).fired == Some(n1)
    ensures Run(s, ins).fired == [n0, n1]
  {
    var s1 := Step(s, ins[0]).state;
    var tail := ins[1..];
    assert tail[0] == ins[1] && tail[1..] == [];
    FirstFrameFires(s1, tail, n1);
    FirstFrameFires(s, ins, n0);
  }

  /** A run of three frames that each fire fires exactly those three prayers, in order. */
  lemma ThreeFirings(s: ControllerState, ins: seq<TickInput>, n0: string, n1: string, n2: string)
    requires Complete(s.schedule) && AllComplete(ins) && |ins| == 3
    requires Step(s, ins[0]).fired == Some(n0)
    requires Step(Step(s, ins[0]).state, ins[1]).fired == Some(n1)
    requires Step(Step(Step(s, ins[0]).state, ins[1]).state, ins[2]).fired == Some(n2)
    ensures Run(s, ins).fired == [n0, n1, n2]
  {
    var tail := ins[1..];
    assert tail[0] == ins[1] && tail[1] == ins[2];
    FirstFrameFires(s, ins, n0);
    TwoFirings(Step(s, ins[0]).state, tail, n1, n2);
  }

  /** The next prayer at `now` is `n`. */
  predicate ReportsNext(schedule: Schedule, now: int, n: string)
    requires Complete(schedule)
  {
    var x := NextPrayerAndRemaining(schedule, now);
    x.Some? && x.value.name == n
  }

  /** The next prayer at `now` is `n` with no whole minute left. */
  predicate ReportsDue(schedule: Schedule, now: int, n: string)
    requires Complete(schedule)
  {
    var x := NextPrayerAndRemaining(schedule, now);
    x.Some? && x.value.name == n && x.value.hours == 0 && x.value.minutes == 0
  }

  /** The prayer fired last does not fire again, and nothing changes, while every frame of the day reports it next. */
  lemma {:induction false} NoFurtherFiring(s: ControllerState, n: string, ins: seq<TickInput>)
    requires Complete(s.schedule) && AllComplete(ins)
    requires SameDay(s.currentDate, ins) && s.lastAdhan == Some(n)
    requires forall k :: 0 <= k < |ins| ==> ReportsNext(s.schedule, ins[k].now, n)
    ensures Run(s, ins).fired == []
    ensures Run(s, ins).state == s
    decreases |ins|
  {
    if |ins| > 0 {
      RunUnfolds(s, ins);
      assert ReportsNext(s.schedule, ins[0].now, n);
      assert Step(s, ins[0]).state == s;
      var tail := ins[1..];
      assert forall k :: 0 <= k < |tail| ==> tail[k] == ins[k + 1];
      NoFurtherFiring(s, n, tail);
    }
  }

  /**
    However many frames of one day report prayer `n` as due, `n` fires exactly once: in the
    first of them, unless it had already fired.
   */
  lemma DueFramesFireOnce(s: ControllerState, n: string, ins: seq<TickInput>)
    requires Complete(s.schedule) && AllComplete(ins)
    requires SameDay(s.currentDate, ins) && |ins| > 0
    requires forall k :: 0 <= k < |ins| ==> ReportsDue(s.schedule, ins[k].now, n)
    requires s.lastAdhan != Some(n)
    ensures Run(s, ins).fired == [n]
    ensures Run(s, ins).state.lastAdhan == Some(n)
  {
    var first := Step(s, ins[0]);
    RunUnfolds(s, ins);
    assert ReportsDue(s.schedule, ins[0].now, n);
    assert first.fired == Some(n);
    var tail := ins[1..];
    assert forall k :: 0 <= k < |tail| ==> tail[k] == ins[k + 1];
    assert first.state.schedule == s.schedule;
    NoFurtherFiring(first.state, n, tail);
  }

  // ---------------------------------------------------------------------------
  // The loop's state, updated in place
  // ---------------------------------------------------------------------------

  class AdhanController {
    var currentDate: Date
    var schedule: Schedule
    var lastAdhanPrayer: Option<string>
    var statusText: string

    predicate Valid()
      reads this
    {
      Complete(schedule)
    }

    function State(): ControllerState
      reads this
    {
      ControllerState(currentDate, schedule, lastAdhanPrayer, statusText)
    }

    /** Startup: record today's date, take today's schedule, nothing played yet. */
    constructor (today: Date, fetched: Schedule)
      requires Complete(fetched)
      ensures Valid() && State() == Initial(today, fetched)
    {
      statusText := "Fetching today's times...";
      currentDate := today;
      schedule := fetched;
      statusText := Running;
      lastAdhanPrayer := None;
    }

    /**
      One frame: the manual key, the day check, then the firing check. Returns the names
      handed to playback, in order.
     */
    method Tick(today: Date, now: int, fetched: Schedule, manualKey: bool) returns (played: seq<string>)
      requires Valid() && Complete(fetched)
      modifies this
      ensures Valid()
      ensures var o := Step(old(State()), TickInput(today, now, fetched, manualKey));
        State() == o.state && played == Played(o)
    {
      played := [];
      if manualKey {
        played := played + ["Fajr"];
      }
      if today != currentDate {
        currentDate := today;
        statusText := "Updating times...";
        schedule := fetched;
        statusText := Running;
        lastAdhanPrayer := None;
      }
      var result := NextPrayerAndRemaining(schedule, now);
      if result.Some? {
        var next := result.value;
        if next.hours == 0 && next.minutes == 0 && lastAdhanPrayer != Some(next.name) {
          played := played + [next.name];
          lastAdhanPrayer := Some(next.name);
          statusText := PlayingStatus(next.name);
        }
      }
    }

    /** The main loop over a sequence of frames. Returns everything handed to playback, in order. */
    method RunFrames(ins: seq<TickInput>) returns (played: seq<string>)
      requires Valid() && AllComplete(ins)
      modifies this
      ensures Valid()
      ensures var o := Run(old(State()), ins);
        State() == o.state && played == o.played
    {
      ghost var total := Run(State(), ins);
      played := [];
      var k := 0;
      while k < |ins|
        invariant 0 <= k <= |ins| && Valid()
        invariant AllComplete(ins[k..])
        invariant Run(State(), ins[k..]).state == total.state
        invariant played + Run(State(), ins[k..]).played == total.played
      {
        ghost var before := State();
        var i := ins[k];
        RunFromFrame(before, ins, k);
        var p := Tick(i.today, i.now, i.fetched, i.manualKey);
        assert TickInput(i.today, i.now, i.fetched, i.manualKey) == i;
        played := played + p;
        k := k + 1;
      }
    }
  }
}
