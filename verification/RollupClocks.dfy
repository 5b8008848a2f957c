/** Which clocks and retentions meet the conditions of `RollupHistory`, and inputs for which they fail. */
module RollupClocks {
  import opened Common
  import opened Sums
  import opened Rollup
  import opened Retention
  import opened Aggregation
  import opened RollupHistory

  lemma {:induction false} FloorIsACutoff(states: seq<State>, steps: seq<Step>, n: nat) returns (j: nat)
    requires IsRun(states, steps) && n <= |steps| && states[n].floor.Some?
    ensures j < n && steps[j].Cleanup? && CutoffDay(steps[j].later, steps[j].days) == states[n].floor.value
  {
    hide Aggregated;
    assert n > 0;
    var s, step, s' := states[n - 1], steps[n - 1], states[n];
    assert Next(s, step, s');
    if step.Cleanup? && CutoffDay(step.later, step.days) == s'.floor.value {
      j := n - 1;
    } else {
      j := FloorIsACutoff(states, steps, n - 1);
    }
  }

  lemma {:induction false} ClockOnlyAdvances(states: seq<State>, steps: seq<Step>, j: nat, n: nat)
    requires IsRun(states, steps) && j < n <= |steps| && steps[j].Cleanup?
    ensures states[n].clock.Some? && steps[j].later <= states[n].clock.value
  {
    hide Aggregated;
    if n > j + 1 {
      ClockOnlyAdvances(states, steps, j, n - 1);
    }
    assert Next(states[n - 1], steps[n - 1], states[n]);
  }

  /** With two days of retention or more, and offsets of at most a day, no dropped day is filled again. */
  lemma DroppedStaysDropped(states: seq<State>, steps: seq<Step>, n: nat, d: int)
    requires IsRun(states, steps) && n <= |steps| && !NotBefore(d, states[n].floor)
    requires forall e :: e in states[n].ever ==> -DAY <= e.offset <= DAY
    requires forall i :: 0 <= i < n && steps[i].Cleanup? ==> steps[i].days >= 2
    ensures !Filled(states, steps, n, d) && RowsOnPart(states[n].aggs, WholeDay(d)) == {}
  {
    hide Aggregated;
    DayHasRows(states, steps, n, d);
    if Filled(states, steps, n, d) {
      var i :| 0 <= i < n && steps[i].Aggregate? && Reads(states[i], steps[i].now, d) && Kept(steps, i + 1, n, d);
      var j := FloorIsACutoff(states, steps, n);
      assert j < i;
      var e :| e in states[i].events && Closed(e) && DayOf(e.utc) == d && Visible(e, states[i].events, steps[i].now);
      ClockOnlyAdvances(states, steps, j, i);
      RunInv(states, steps, i);
      EverGrows(states, steps, i, n);
      assert Next(states[i], steps[i], states[i + 1]);
      TooLateForDay(e, steps[j].later, steps[j].days, steps[i].now.minute);
    }
  }

  lemma TooLateForDay(e: Event, later: int, days: nat, now: int)
    requires e.offset <= DAY && days >= 2 && later <= now && DayOf(e.utc) < CutoffDay(later, days)
    ensures !TextWindow(e, now - 2 * MINUTE)
  {
    DayBefore(later, days);
    DayBefore(now, 0);
    LaterDay(later, now);
    LaterDay(e.utc + e.offset, e.utc + DAY);
    Bounds(e.utc);
    Quotient(e.utc + DAY, DAY, DayOf(e.utc) + 1);
  }

  lemma {:induction false} EverGrows(states: seq<State>, steps: seq<Step>, i: nat, n: nat)
    requires IsRun(states, steps) && i <= n <= |steps|
    ensures states[i].ever <= states[n].ever
  {
    hide Aggregated;
    if i < n {
      EverGrows(states, steps, i, n - 1);
      assert Next(states[n - 1], steps[n - 1], states[n]);
    }
  }

  // ----- At or east of Greenwich

  /** With at least one day of retention a deleted event is older than the window of every later run. */
  lemma {:induction false} DeletedIsOld(states: seq<State>, steps: seq<Step>, n: nat)
    requires IsRun(states, steps) && n <= |steps|
    requires forall i :: 0 <= i < n && steps[i].Cleanup? ==> steps[i].days >= 1
    ensures var s := states[n];
            forall e :: e in s.ever - s.events ==> s.clock.Some? && LocalDay(e) < DayOf(s.clock.value) - 1
  {
    hide Aggregated;
    if n > 0 {
      var s, step, s' := states[n - 1], steps[n - 1], states[n];
      DeletedIsOld(states, steps, n - 1);
      assert Next(s, step, s');
      StepDeletesOld(s, step, s');
    }
  }

  lemma StepDeletesOld(s: State, step: Step, s': State)
    requires Next(s, step, s') && (step.Cleanup? ==> step.days >= 1)
    requires forall e :: e in s.ever - s.events ==> s.clock.Some? && LocalDay(e) < DayOf(s.clock.value) - 1
    ensures forall e :: e in s'.ever - s'.events ==> s'.clock.Some? && LocalDay(e) < DayOf(s'.clock.value) - 1
  {
    hide Aggregated, LocalDay;
    if s.clock.Some? && !step.Insert? {
      LaterDay(s.clock.value, s'.clock.value);
    }
    if step.Cleanup? {
      DayBefore(step.at, step.days);
      LaterDay(step.at, step.later);
      forall e | e in s.events && e !in s'.events ensures LocalDay(e) < DayOf(s'.clock.value) - 1 {
        assert !TextWindow(e, step.at - step.days * DAY);
      }
    }
    forall e | e in s'.ever - s'.events ensures s'.clock.Some? && LocalDay(e) < DayOf(s'.clock.value) - 1 {
      assert e in s.events || e in s.ever - s.events;
    }
  }

  lemma OldIsOutside(e: Event, clock: int, now: int)
    requires LocalDay(e) < DayOf(clock) - 1 && clock <= now
    ensures !TextWindow(e, now - 2 * MINUTE)
  {
    DayBefore(now, 0);
    LaterDay(clock, now);
  }

  /**
   Clocks at or east of Greenwich with one whole-minute offset, at least one day of retention, and runs
   of less than an hour that follow each closed event within two minutes: every part meets its
   condition at every run.
   */
  lemma EastIsAlwaysMet(states: seq<State>, steps: seq<Step>, n: nat, p: Part, offset: int)
    requires IsRun(states, steps) && n <= |steps|
    requires offset >= 0 && offset % MINUTE == 0
    requires forall e :: e in states[n].ever && Closed(e) ==> e.offset == offset
    requires forall i :: 0 <= i < n && steps[i].Cleanup? ==> steps[i].days >= 1
    requires forall i :: 0 <= i < n && steps[i].Aggregate? ==> Prompt(states[i], steps[i].now)
    ensures AllMet(states, steps, n, p)
  {
    hide Next, Prompt;
    forall i | 0 <= i < n && steps[i].Aggregate? ensures Met(states[i], steps[i].now, p) {
      EverGrows(states, steps, i, n);
      RunInv(states, steps, i);
      DeletedIsOld(states, steps, i);
      EastRunIsMet(states[i], steps[i], states[i + 1], p, offset);
    }
  }

  ghost predicate Prompt(s: State, now: Times) {
    && now.day <= now.minute + HOUR
    && forall e :: e in s.unseen && Closed(e) ==> e.utc >= now.minute - 2 * MINUTE
  }

  lemma EastRunIsMet(s: State, step: Step, s': State, p: Part, offset: int)
    requires Inv(s) && Next(s, step, s') && step.Aggregate? && Prompt(s, step.now)
    requires offset >= 0 && offset % MINUTE == 0 && forall e :: e in s.ever && Closed(e) ==> e.offset == offset
    requires forall e :: e in s.ever - s.events ==> s.clock.Some? && LocalDay(e) < DayOf(s.clock.value) - 1
    ensures Met(s, step.now, p)
  {
    hide Aggregated, NoStraddle, NewInWindow, DimsKey, LocalDay;
    var now := step.now;
    forall e | e in s.ever - s.events ensures !TextWindow(e, now.minute - 2 * MINUTE) {
      OldIsOutside(e, s.clock.value, now.minute);
    }
    forall e | e in s.unseen && Closed(e) ensures TextWindow(e, now.minute - 2 * MINUTE) {
      FreshEastIsInside(e, now.minute);
    }
    EastIsInWindow(OnPart(Seen(s), p), s.events, OnPart(s.ever, p), now);
    StoredOrOld(s, now, p, offset);
  }

  lemma FreshEastIsInside(e: Event, now: int)
    requires e.offset >= 0 && e.utc >= now - 2 * MINUTE
    ensures TextWindow(e, now - 2 * MINUTE)
  {
    LaterDay(now - 2 * MINUTE, e.utc + e.offset);
  }

  lemma StoredOrOld(s: State, now: Times, p: Part, offset: int)
    requires offset % MINUTE == 0 && forall e :: e in s.ever && Closed(e) ==> e.offset == offset
    requires forall e :: e in s.ever - s.events ==> !TextWindow(e, now.minute - 2 * MINUTE)
    ensures NoStraddle(s.events, OnPart(s.ever, p), now)
  {
    forall e | e in OnPart(s.ever, p) && e !in s.events ensures !TextWindow(e, now.minute - 2 * MINUTE) {
      assert e in s.ever - s.events;
    }
    OneOffsetNeverStraddles(s.events, OnPart(s.ever, p), now, offset);
  }

  // ----- One day of retention

  /** 20:00 UTC at UTC+8: already the next local day. */
  const EIGHT_HOURS_EAST := Event(
    1, 8 * DAY + 20 * HOUR, 8 * HOUR, "connection_closed", Dims("TCP", None, None, None, None, None), None, None, None)

  /**
   With one day of retention a run in the first two minutes after midnight brings back a minute row of
   a day that a cleanup has just dropped, because the event's local date is a day ahead.
   */
  lemma OneDayRevives() returns (states: seq<State>, steps: seq<Step>)
    ensures IsRun(states, steps) && |steps| == 3 && steps[1].Cleanup? && steps[1].days == 1
    ensures states[3].aggs != FullTable(KeptEvents(Seen(states[3]), states[3].floor))
  {
    var e, t := EIGHT_HOURS_EAST, RowsOf({EIGHT_HOURS_EAST}, Minute);
    var at, now := 10 * DAY + 30, Times(10 * DAY + 60, 10 * DAY + 60, 10 * DAY + 60);
    var s1 := State({e}, {e}, {e}, {}, None, None);
    var s2 := s1.(floor := Some(9), clock := Some(at));
    var s3 := State({e}, {}, {e}, t, Some(9), Some(now.day));
    steps := [Insert(e), Cleanup(at, at, 1, false, 0), Aggregate(now, t, t)];
    states := [INITIAL, s1, s2, s3];
    assert Retained({e}, at - 1 * DAY, false, 0) == {e};
    assert SinceDay({}, CutoffDay(at, 1)) == {};
    EastRow(now);
    assert Next(states[0], steps[0], states[1]);
    assert Next(states[1], steps[1], states[2]);
    assert Next(states[2], steps[2], states[3]);
    assert Seen(s3) == {e} && KeptEvents({e}, Some(9)) == {};
    assert FullTable({}) == {};
  }

  /** The run's three statements: one minute row, and nothing to merge. */
  lemma EastRow(now: Times)
    requires now == Times(10 * DAY + 60, 10 * DAY + 60, 10 * DAY + 60)
    ensures var t := RowsOf({EIGHT_HOURS_EAST}, Minute);
            t != {} && Aggregated({EIGHT_HOURS_EAST}, now, {}, t, t, t)
  {
    var e := EIGHT_HOURS_EAST;
    var t, g := RowsOf({e}, Minute), GroupOf(Minute, e);
    assert MinuteWindow({e}, now) == {e};
    assert GroupsOf({e}, Minute) == {g};
    assert t == {EventRow({e}, Minute, g)};
    assert SinceDay(Level(t, Minute), HourWindow(now)) == {} && SinceDay(Level(t, Hour), DayWindow(now)) == {};
    assert MergeRows({}, Hour) == {} && MergeRows({}, Day) == {};
    UpsertedAlone(t);
  }

  lemma UpsertedAlone(t: set<Row>)
    requires Unique(t)
    ensures Upserted({}, t, t) && Upserted(t, {}, t)
  {
    forall q | q in t ensures Landed(KeyOf(q), t, t) {
    }
  }
}
