/**
 Whole runs of the writer thread: inserts, aggregation runs and cleanups in any order.

 What happens under one unique key never touches another, so exactness is decided part by part:
 `PartIsExact` says for every run and every day, or one dimension tuple of it, whether the roll-up
 accounts for it; `MinuteIsExact` says it for a single minute row.
 */
module RollupHistory {
  import opened Common
  import opened Sums
  import opened Rollup
  import opened Retention
  import opened Aggregation

  // ----- Parts of the table that do not interact

  /** A UTC day, or what one unique-key image of the dimensions has on it. */
  datatype Part = WholeDay(day: int) | Slice(day: int, key: Key) {
    predicate Has(day: int, key: Key) { day == this.day && (Slice? ==> key == this.key) }
  }

  function OnPart(es: set<Event>, p: Part): set<Event> { set e | e in es && p.Has(DayOf(e.utc), DimsKey(e.dims)) }

  function RowsOnPart(t: set<Row>, p: Part): set<Row> { set r | r in t && p.Has(DayOf(r.bucket), DimsKey(r.dims)) }

  lemma RowsOfOnPart(es: set<Event>, w: Width, p: Part)
    ensures RowsOnPart(RowsOf(es, w), p) == RowsOf(OnPart(es, p), w)
  {
    var f := (g: Group) => p.Has(DayOf(g.bucket), DimsKey(g.dims));
    forall e: Event ensures DayOf(GroupOf(w, e).bucket) == DayOf(e.utc) { TruncKeepsDay(w, e.utc); }
    SelectRows(es, w, f);
    assert RowsOnPart(RowsOf(es, w), p) == set r | r in RowsOf(es, w) && f(OwnGroup(r));
    assert OnPart(es, p) == set e | e in es && f(GroupOf(w, e));
  }

  lemma FullTableOnPart(es: set<Event>, p: Part)
    ensures RowsOnPart(FullTable(es), p) == FullTable(OnPart(es, p))
  {
    hide RowsOf;
    forall w ensures RowsOnPart(RowsOf(es, w), p) == RowsOf(OnPart(es, p), w) { RowsOfOnPart(es, w, p); }
    assert RowsOnPart(FullTable(es), p) ==
           RowsOnPart(RowsOf(es, Minute), p) + RowsOnPart(RowsOf(es, Hour), p) + RowsOnPart(RowsOf(es, Day), p);
  }

  /** A replacement stays among the rows whose keys satisfy `f`. */
  lemma UpsertedWhere(t: set<Row>, rows: set<Row>, t': set<Row>, f: Key -> bool)
    requires Upserted(t, rows, t')
    ensures Upserted(RowsWhere(t, f), RowsWhere(rows, f), RowsWhere(t', f))
  {
    forall r: Row | f(KeyOf(r)) ensures Displaced(r, rows) <==> Displaced(r, RowsWhere(rows, f)) {
      if Displaced(r, rows) {
        var q :| q in rows && KeyOf(q) == KeyOf(r);
        assert q in RowsWhere(rows, f);
      }
    }
    forall q | q in RowsWhere(rows, f) ensures Landed(KeyOf(q), RowsWhere(rows, f), RowsWhere(t', f)) {
      var r :| r in t' && r in rows && KeyOf(r) == KeyOf(q);
      assert r in RowsWhere(t', f) && r in RowsWhere(rows, f);
    }
  }

  function RowsWhere(t: set<Row>, f: Key -> bool): set<Row> { set r | r in t && f(KeyOf(r)) }

  lemma UpsertedOnPart(t: set<Row>, rows: set<Row>, t': set<Row>, p: Part)
    requires Upserted(t, rows, t')
    ensures Upserted(RowsOnPart(t, p), RowsOnPart(rows, p), RowsOnPart(t', p))
  {
    hide Upserted;
    var f := (k: Key) => p.Has(DayOf(k.bucket), k.(bucket := 0, width := Day));
    UpsertedWhere(t, rows, t', f);
    forall r: Row ensures f(KeyOf(r)) <==> p.Has(DayOf(r.bucket), DimsKey(r.dims)) {
    }
    assert RowsWhere(t, f) == RowsOnPart(t, p);
    assert RowsWhere(rows, f) == RowsOnPart(rows, p);
    assert RowsWhere(t', f) == RowsOnPart(t', p);
  }

  lemma MergeOnPart(src: set<Row>, w: Width, p: Part)
    ensures RowsOnPart(MergeRows(src, w), p) == MergeRows(RowsOnPart(src, p), w)
  {
    hide DimsKey;
    var some := RowsOnPart(src, p);
    forall r: Row ensures DayOf(RowGroup(w, r).bucket) == DayOf(r.bucket) { TruncKeepsDay(w, r.bucket); }
    forall g: Group | p.Has(DayOf(g.bucket), DimsKey(g.dims)) ensures MergedRow(src, w, g) == MergedRow(some, w, g) {
      assert SourceRows(src, w, g) == SourceRows(some, w, g);
    }
    forall r | r in RowsOnPart(MergeRows(src, w), p) ensures r in MergeRows(some, w) {
      var q :| q in src && r == MergedRow(src, w, RowGroup(w, q));
      assert q in some;
    }
    forall r | r in MergeRows(some, w) ensures r in RowsOnPart(MergeRows(src, w), p) {
      var q :| q in some && r == MergedRow(some, w, RowGroup(w, q));
      assert q in src;
    }
  }

  /** What one aggregation run does to a part is an aggregation run over that part's events and rows. */
  lemma RunOnPart(stored: set<Event>, now: Times, t: set<Row>, t1: set<Row>, t2: set<Row>, t3: set<Row>, p: Part)
    requires Aggregated(stored, now, t, t1, t2, t3)
    ensures Aggregated(OnPart(stored, p), now,
                       RowsOnPart(t, p), RowsOnPart(t1, p), RowsOnPart(t2, p), RowsOnPart(t3, p))
  {
    hide Upserted, RowsOf, MergeRows, DimsKey;
    var hours, days := HourWindow(now), DayWindow(now);
    var src1, src2 := SinceDay(Level(t1, Minute), hours), SinceDay(Level(t2, Hour), days);
    UpsertedOnPart(t, RowsOf(MinuteWindow(stored, now), Minute), t1, p);
    RowsOfOnPart(MinuteWindow(stored, now), Minute, p);
    assert OnPart(MinuteWindow(stored, now), p) == MinuteWindow(OnPart(stored, p), now);
    UpsertedOnPart(t1, MergeRows(src1, Hour), t2, p);
    MergeOnPart(src1, Hour, p);
    assert RowsOnPart(src1, p) == SinceDay(Level(RowsOnPart(t1, p), Minute), hours);
    UpsertedOnPart(t2, MergeRows(src2, Day), t3, p);
    MergeOnPart(src2, Day, p);
    assert RowsOnPart(src2, p) == SinceDay(Level(RowsOnPart(t2, p), Hour), days);
  }

  // ----- The machine

  /**
   `ever` are all events inserted so far, stored or deleted; `unseen` those inserted since the last
   run. Rows of days before `floor` have been dropped, and `clock` is the latest time read.
   */
  datatype State = State(
    ever: set<Event>, unseen: set<Event>, events: set<Event>, aggs: set<Row>,
    floor: Option<int>, clock: Option<int>)

  /** A cleanup deletes events at time `at` and rows at `later`; the retention may be any number of days. */
  datatype Step =
    | Insert(e: Event)
    | Aggregate(now: Times, t1: set<Row>, t2: set<Row>)
    | Cleanup(at: int, later: int, days: nat, uploadEnabled: bool, cursor: int)

  const INITIAL := State({}, {}, {}, {}, None, None)

  predicate NotBefore(t: int, bound: Option<int>) { bound.None? || bound.value <= t }

  function Latest(bound: Option<int>, t: int): Option<int> { Some(if NotBefore(t, bound) then t else bound.value) }

  function Seen(s: State): set<Event> { s.ever - s.unseen }

  /** `datetime('now', '-N days')`. */
  function CutoffDay(now: int, days: nat): int { DayOf(now - days * DAY) }

  /** The wall clock is not set back. */
  ghost predicate Next(s: State, step: Step, s': State) {
    match step
    case Insert(e) =>
      e !in s.ever && s' == s.(ever := s.ever + {e}, unseen := s.unseen + {e}, events := s.events + {e})
    case Aggregate(now, t1, t2) =>
      && NotBefore(now.minute, s.clock) && now.minute <= now.hour <= now.day
      && Aggregated(s.events, now, s.aggs, t1, t2, s'.aggs)
      && s' == s.(unseen := {}, aggs := s'.aggs, clock := Some(now.day))
    case Cleanup(now, later, days, uploadEnabled, cursor) =>
      && NotBefore(now, s.clock) && now <= later
      && s' == s.(events := Retained(s.events, now - days * DAY, uploadEnabled, cursor),
                  aggs := SinceDay(s.aggs, CutoffDay(later, days)),
                  floor := Latest(s.floor, CutoffDay(later, days)), clock := Some(later))
  }

  ghost predicate IsRun(states: seq<State>, steps: seq<Step>) {
    && |states| == |steps| + 1
    && states[0] == INITIAL
    && forall i :: 0 <= i < |steps| ==> Next(states[i], steps[i], states[i + 1])
  }

  ghost predicate Inv(s: State) {
    && s.unseen <= s.ever && s.events <= s.ever && Unique(s.aggs)
    && AllCounted(s.aggs, Seen(s))
  }

  lemma DayBefore(now: int, days: nat)
    ensures CutoffDay(now, days) == DayOf(now) - days
    ensures DayOf(now - 2 * MINUTE) >= DayOf(now) - 1
  {
    Bounds(now);
    assert days * DAY == DAY * days;
    Quotient(now - days * DAY, DAY, now / DAY - days);
    Bounds(now - 2 * MINUTE);
  }

  lemma LaterDay(a: int, b: int)
    requires a <= b
    ensures DayOf(a) <= DayOf(b)
  {
  }

  // ----- Which events a row counts

  ghost predicate SumsTo(part: set<Event>, whole: set<Event>, m: Measures) {
    part != {} && part <= whole && m == Sum(part, EventMeasures)
  }

  /** The row's measures are the sums over one or more of its group's events in `es`. */
  ghost predicate Counted(r: Row, es: set<Event>) {
    exists part :: SumsTo(part, EventsOf(es, r.width, OwnGroup(r)), r.m)
  }

  ghost predicate AllCounted(t: set<Row>, es: set<Event>) { forall r :: r in t ==> Counted(r, es) }

  lemma CountedGrows(r: Row, es: set<Event>, es': set<Event>)
    requires Counted(r, es) && es <= es'
    ensures Counted(r, es')
  {
    var part :| SumsTo(part, EventsOf(es, r.width, OwnGroup(r)), r.m);
    assert SumsTo(part, EventsOf(es', r.width, OwnGroup(r)), r.m);
  }

  lemma AllCountedGrows(t: set<Row>, es: set<Event>, es': set<Event>)
    requires AllCounted(t, es) && es <= es'
    ensures AllCounted(t, es')
  {
    forall r | r in t ensures Counted(r, es') { CountedGrows(r, es, es'); }
  }

  lemma EventRowsCounted(v: set<Event>, es: set<Event>, w: Width)
    requires v <= es
    ensures AllCounted(RowsOf(v, w), es)
  {
    forall r | r in RowsOf(v, w) ensures Counted(r, es) {
      RowIsOwnGroup(v, w, r);
      assert SumsTo(EventsOf(v, w, OwnGroup(r)), EventsOf(es, w, OwnGroup(r)), r.m);
    }
  }

  /** Rows of one width with different groups, as the unique key keeps them. */
  ghost predicate Separate(rows: set<Row>, w: Width) {
    && (forall r :: r in rows ==> r.width == w)
    && (forall r, q :: r in rows && q in rows && OwnGroup(r) == OwnGroup(q) ==> r == q)
  }

  /** The events counted by the rows that merge into one coarser group. */
  lemma {:induction false} MergedEvents(rows: set<Row>, fine: Width, coarse: Width, g: Group, es: set<Event>)
      returns (part: set<Event>)
    requires NextLevel(fine, coarse) && Separate(rows, fine) && AllCounted(rows, es)
    requires forall r :: r in rows ==> RowGroup(coarse, r) == g
    ensures part <= EventsOf(es, coarse, g) && Sum(rows, RowMeasures) == Sum(part, EventMeasures)
    ensures part == {} <==> rows == {}
    ensures forall e :: e in part ==> exists r :: r in rows && OwnGroup(r) == GroupOf(fine, e)
  {
    if rows == {} {
      part := {};
    } else {
      hide Sum;
      var r :| r in rows;
      SumRemove(rows, RowMeasures, r);
      var rest := MergedEvents(rows - {r}, fine, coarse, g, es);
      var mine := OwnEvents(r, fine, coarse, g, es);
      assert mine !! rest;
      SumUnion(mine, rest, EventMeasures);
      part := mine + rest;
    }
  }

  /** The events counted by one row, which belong to the coarser group as well. */
  lemma OwnEvents(r: Row, fine: Width, coarse: Width, g: Group, es: set<Event>) returns (part: set<Event>)
    requires NextLevel(fine, coarse) && r.width == fine && Counted(r, es) && RowGroup(coarse, r) == g
    ensures part != {} && part <= EventsOf(es, coarse, g) && r.m == Sum(part, EventMeasures)
    ensures forall e :: e in part ==> GroupOf(fine, e) == OwnGroup(r)
  {
    part :| SumsTo(part, EventsOf(es, fine, OwnGroup(r)), r.m);
    forall e | e in part ensures e in EventsOf(es, coarse, g) { TruncNests(e.utc); }
  }

  lemma MergedRowsCounted(src: set<Row>, fine: Width, coarse: Width, es: set<Event>)
    requires NextLevel(fine, coarse) && Unique(src) && AllCounted(src, es)
    requires forall r :: r in src ==> r.width == fine
    ensures AllCounted(MergeRows(src, coarse), es)
  {
    hide Sum, EventsOf, Counted;
    forall r | r in MergeRows(src, coarse) ensures Counted(r, es) {
      var q :| q in src && r == MergedRow(src, coarse, RowGroup(coarse, q));
      MergedRowCounted(src, fine, coarse, es, q);
    }
  }

  lemma MergedRowCounted(src: set<Row>, fine: Width, coarse: Width, es: set<Event>, q: Row)
    requires NextLevel(fine, coarse) && Unique(src) && AllCounted(src, es) && q in src
    requires forall r :: r in src ==> r.width == fine
    ensures Counted(MergedRow(src, coarse, RowGroup(coarse, q)), es)
  {
    hide Sum, EventsOf;
    var g := RowGroup(coarse, q);
    var rows, r := SourceRows(src, coarse, g), MergedRow(src, coarse, g);
    assert q in rows;
    var part := MergedEvents(rows, fine, coarse, g, es);
    assert SumsTo(part, EventsOf(es, r.width, OwnGroup(r)), r.m);
  }

  lemma UpsertCounted(t: set<Row>, rows: set<Row>, t': set<Row>, es: set<Event>)
    requires Upserted(t, rows, t') && AllCounted(t, es) && AllCounted(rows, es)
    ensures AllCounted(t', es) && Unique(t')
  {
  }

  /** If the minute window lies within `seen`, no row comes to count an event outside of it. */
  lemma RunCounts(stored: set<Event>, seen: set<Event>, now: Times, t: set<Row>, t1: set<Row>, t2: set<Row>,
      t3: set<Row>)
    requires Aggregated(stored, now, t, t1, t2, t3)
    requires MinuteWindow(stored, now) <= seen && AllCounted(t, seen)
    ensures AllCounted(t3, seen) && Unique(t3)
  {
    hide Counted, RowsOf, MergeRows, Upserted;
    var src1, src2 := SinceDay(Level(t1, Minute), HourWindow(now)), SinceDay(Level(t2, Hour), DayWindow(now));
    EventRowsCounted(MinuteWindow(stored, now), seen, Minute);
    UpsertCounted(t, RowsOf(MinuteWindow(stored, now), Minute), t1, seen);
    MergedRowsCounted(src1, Minute, Hour, seen);
    UpsertCounted(t1, MergeRows(src1, Hour), t2, seen);
    MergedRowsCounted(src2, Hour, Day, seen);
    UpsertCounted(t2, MergeRows(src2, Day), t3, seen);
  }

  lemma StepKeepsInv(s: State, step: Step, s': State)
    requires Inv(s) && Next(s, step, s')
    ensures Inv(s')
  {
    hide Counted, Aggregated;
    match step
    case Insert(e) =>
      assert Seen(s') == Seen(s);
    case Aggregate(now, t1, t2) =>
      AllCountedGrows(s.aggs, Seen(s), s.ever);
      RunCounts(s.events, s.ever, now, s.aggs, t1, t2, s'.aggs);
      assert Seen(s') == s.ever;
    case Cleanup(_, _, _, _, _) =>
      assert Seen(s') == Seen(s);
  }

  /** Every row of every state counts only events that were inserted before the last run. */
  lemma {:induction false} RunInv(states: seq<State>, steps: seq<Step>, n: nat)
    requires IsRun(states, steps) && n <= |steps|
    ensures Inv(states[n])
  {
    if n > 0 {
      RunInv(states, steps, n - 1);
      StepKeepsInv(states[n - 1], steps[n - 1], states[n]);
    }
  }

  // ----- Exact parts stay exact

  /** Part `p` meets the condition of `RunIsExact` at a run at time `now`. */
  ghost predicate Met(s: State, now: Times, p: Part) {
    && NewInWindow(OnPart(Seen(s), p), s.events, OnPart(s.ever, p), now)
    && NoStraddle(s.events, OnPart(s.ever, p), now)
  }

  ghost predicate AllMet(states: seq<State>, steps: seq<Step>, n: nat, p: Part)
    requires n <= |steps| <= |states|
  {
    forall i :: 0 <= i < n && steps[i].Aggregate? ==> Met(states[i], steps[i].now, p)
  }

  /** The table's rows of `p` are those recomputed from all its events seen, deleted ones included. */
  ghost predicate Exact(s: State, p: Part) { RowsOnPart(s.aggs, p) == FullTable(OnPart(Seen(s), p)) }

  /** The events of a part are visible whether or not the others are there. */
  lemma MetWithin(s: State, now: Times, p: Part)
    ensures Met(s, now, p) <==>
            NewInWindow(OnPart(Seen(s), p), OnPart(s.events, p), OnPart(s.ever, p), now) &&
            NoStraddle(OnPart(s.events, p), OnPart(s.ever, p), now)
  {
    hide DimsKey;
    forall e | e in OnPart(s.ever, p) ensures Visible(e, s.events, now) <==> Visible(e, OnPart(s.events, p), now) {
    }
    hide OnPart, Visible;
  }

  lemma StepKeepsExact(s: State, step: Step, s': State, p: Part)
    requires Inv(s) && Next(s, step, s') && NotBefore(p.day, s'.floor) && Exact(s, p)
    requires step.Aggregate? ==> Met(s, step.now, p) && NoCollision(OnPart(s.ever, p))
    ensures Exact(s', p)
  {
    hide Met, Aggregated, NewInWindow, NoStraddle, NoCollision, FullTable, DimsKey;
    match step
    case Insert(e) =>
      assert Seen(s') == Seen(s);
    case Aggregate(now, t1, t2) =>
      RunOnPart(s.events, now, s.aggs, t1, t2, s'.aggs, p);
      MetWithin(s, now, p);
      RunIsExact(OnPart(Seen(s), p), OnPart(s.events, p), OnPart(s.ever, p), now,
                 RowsOnPart(t1, p), RowsOnPart(t2, p), RowsOnPart(s'.aggs, p));
      assert Seen(s') == s.ever;
    case Cleanup(_, _, _, _, _) =>
      assert RowsOnPart(s'.aggs, p) == RowsOnPart(s.aggs, p);
  }

  lemma NothingIsExact(p: Part)
    ensures Exact(INITIAL, p)
  {
    assert OnPart({}, p) == {} && FullTable({}) == {};
  }

  lemma {:induction false} MetIsExact(states: seq<State>, steps: seq<Step>, n: nat, p: Part)
    requires IsRun(states, steps) && n <= |steps| && NotBefore(p.day, states[n].floor)
    requires AllMet(states, steps, n, p) && NoCollision(OnPart(Seen(states[n]), p))
    ensures Exact(states[n], p)
  {
    hide Aggregated, NewInWindow, NoStraddle, Exact, DimsKey;
    if n == 0 {
      NothingIsExact(p);
    } else {
      var s, step, s' := states[n - 1], steps[n - 1], states[n];
      assert Next(s, step, s');
      RunInv(states, steps, n - 1);
      assert Seen(s) <= Seen(s');
      MetIsExact(states, steps, n - 1, p);
      StepKeepsExact(s, step, s', p);
    }
  }

  // ----- What one run misses is missing for good

  /** A run at `now` leaves the rows of width `w` that `e` belongs to without a count of `e`. */
  predicate OutOfReach(w: Width, e: Event, stored: set<Event>, now: Times) {
    match w
    case Minute => !Visible(e, stored, now)
    case Hour => DayOf(e.utc) < HourWindow(now)
    case Day => DayOf(e.utc) < DayWindow(now)
  }

  /** No run from this state on reaches `e` at width `w`. */
  predicate Out(s: State, w: Width, e: Event) {
    s.clock.Some? &&
    match w
    case Minute => e !in s.events || !TextWindow(e, s.clock.value - 2 * MINUTE)
    case Hour => DayOf(e.utc) < DayOf(s.clock.value - 2 * HOUR)
    case Day => DayOf(e.utc) < DayOf(s.clock.value - 2 * DAY)
  }

  /** The rows of width `w` for the group of `e` count only events of `es` other than `e`. */
  ghost predicate Lacks(t: set<Row>, w: Width, e: Event, es: set<Event>) {
    forall r :: r in t && r.width == w && OwnGroup(r) == GroupOf(w, e) ==> Counted(r, es - {e})
  }

  lemma OutAfterRun(s: State, step: Step, s': State, w: Width, e: Event)
    requires Next(s, step, s') && step.Aggregate? && OutOfReach(w, e, s.events, step.now)
    ensures Out(s', w, e)
  {
    hide Aggregated;
  }

  lemma OutIsOutOfReach(s: State, step: Step, s': State, w: Width, e: Event)
    requires Next(s, step, s') && step.Aggregate? && Out(s, w, e)
    ensures OutOfReach(w, e, s.events, step.now)
  {
    hide Aggregated;
  }

  lemma StaysOut(s: State, step: Step, s': State, w: Width, e: Event)
    requires Next(s, step, s') && Out(s, w, e) && e in s.ever
    ensures Out(s', w, e)
  {
    hide Aggregated;
  }

  lemma LacksGrows(t: set<Row>, w: Width, e: Event, es: set<Event>, es': set<Event>)
    requires Lacks(t, w, e, es) && es <= es'
    ensures Lacks(t, w, e, es')
  {
    forall r | r in t && r.width == w && OwnGroup(r) == GroupOf(w, e) ensures Counted(r, es' - {e}) {
      CountedGrows(r, es - {e}, es' - {e});
    }
  }

  lemma RunStillLacks(stored: set<Event>, es: set<Event>, now: Times, t: set<Row>, t1: set<Row>, t2: set<Row>,
      t3: set<Row>, w: Width, e: Event)
    requires Aggregated(stored, now, t, t1, t2, t3) && stored <= es
    requires OutOfReach(w, e, stored, now) && Lacks(t, w, e, es)
    ensures Lacks(t3, w, e, es)
  {
    hide Counted;
    RunLevels(stored, now, t, t1, t2, t3);
    forall r | r in t3 && r.width == w && OwnGroup(r) == GroupOf(w, e) ensures Counted(r, es - {e}) {
      assert r in Level(t3, w);
      TruncKeepsDay(w, e.utc);
      match w {
        case Minute =>
          var v := MinuteWindow(stored, now);
          assert r in Level(t1, Minute);
          EventRowsCounted(v, es - {e}, Minute);
        case Hour =>
          assert r in Level(t2, Hour);
          LateMergeOnly(Level(t1, Minute), HourWindow(now), Hour, r);
          assert r in Level(t1, Hour);
        case Day =>
          LateMergeOnly(Level(t2, Hour), DayWindow(now), Day, r);
          assert r in Level(t2, Day);
      }
    }
  }

  lemma LateMergeOnly(src: set<Row>, day: int, w: Width, r: Row)
    requires DayOf(r.bucket) < day
    ensures r !in MergeRows(SinceDay(src, day), w)
  {
    forall q: Row ensures DayOf(RowGroup(w, q).bucket) == DayOf(q.bucket) { TruncKeepsDay(w, q.bucket); }
  }

  /** When a run reads a minute in part, its row is replaced by one without the events left out. */
  lemma StraddleLacks(stored: set<Event>, es: set<Event>, now: Times, t: set<Row>, t1: set<Row>, t2: set<Row>,
      t3: set<Row>, e: Event, f: Event)
    requires Aggregated(stored, now, t, t1, t2, t3) && stored <= es
    requires Closed(f) && GroupOf(Minute, e) == GroupOf(Minute, f)
    requires !Visible(e, stored, now) && Visible(f, stored, now)
    ensures Lacks(t3, Minute, e, es)
  {
    hide Counted;
    var g, v := GroupOf(Minute, e), MinuteWindow(stored, now);
    RunLevels(stored, now, t, t1, t2, t3);
    assert f in EventsOf(v, Minute, g);
    GroupHasRow(v, Minute, g);
    EventRowsCounted(v, es - {e}, Minute);
    forall r | r in t3 && r.width == Minute && OwnGroup(r) == g ensures Counted(r, es - {e}) {
      assert r in Level(t3, Minute) && r in Level(t1, Minute);
      assert KeyOf(r) == KeyOf(EventRow(v, Minute, g));
      assert Displaced(r, RowsOf(v, Minute));
    }
  }

  lemma StrictSubsetIsSmaller<T>(a: set<T>, b: set<T>)
    requires a < b
    ensures |a| < |b|
  {
    assert b == a + (b - a) && b - a != {};
  }

  /** An event that the rows of its group lack shows in the count. */
  lemma LackingIsInexact(t: set<Row>, w: Width, e: Event, es: set<Event>)
    requires e in es && Closed(e) && Lacks(t, w, e, es)
    ensures EventRow(es, w, GroupOf(w, e)) in RowsOf(es, w) && EventRow(es, w, GroupOf(w, e)) !in t
  {
    var g := GroupOf(w, e);
    var row, mine := EventRow(es, w, g), EventsOf(es, w, g);
    assert e in mine;
    GroupHasRow(es, w, g);
    if row in t {
      assert OwnGroup(row) == g;
      var part :| SumsTo(part, EventsOf(es - {e}, w, g), row.m);
      assert part < mine;
      CountIsCardinality(part, EventMeasures);
      CountIsCardinality(mine, EventMeasures);
      StrictSubsetIsSmaller(part, mine);
    }
  }

  lemma LackingPartIsInexact(s: State, w: Width, e: Event, p: Part)
    requires e in OnPart(Seen(s), p) && Closed(e) && Lacks(s.aggs, w, e, Seen(s))
    ensures !Exact(s, p)
  {
    hide RowsOf, Lacks;
    LackingIsInexact(s.aggs, w, e, Seen(s));
    FullTableOnPart(Seen(s), p);
    TruncKeepsDay(w, e.utc);
    assert EventRow(Seen(s), w, GroupOf(w, e)) in RowsOnPart(FullTable(Seen(s)), p);
  }

  /** A new event that a run does not reach, or one it leaves out of a minute it reads, is not counted. */
  lemma UnreachedMisses(s: State, step: Step, s': State, w: Width, e: Event)
    requires Inv(s) && Next(s, step, s') && step.Aggregate? && e in s.unseen && OutOfReach(w, e, s.events, step.now)
    ensures Lacks(s'.aggs, w, e, Seen(s')) && Out(s', w, e)
  {
    hide Counted, Aggregated, Lacks, Out;
    AllCountedGrows(s.aggs, Seen(s), s.ever - {e});
    CountedLacks(s.aggs, w, e, s.ever);
    RunStillLacks(s.events, s.ever, step.now, s.aggs, step.t1, step.t2, s'.aggs, w, e);
    OutAfterRun(s, step, s', w, e);
    assert Seen(s') == s.ever;
  }

  lemma LeftOutMisses(s: State, step: Step, s': State, e: Event, f: Event)
    requires Inv(s) && Next(s, step, s') && step.Aggregate? && Closed(f) && GroupOf(Minute, e) == GroupOf(Minute, f)
    requires !Visible(e, s.events, step.now) && Visible(f, s.events, step.now)
    ensures Lacks(s'.aggs, Minute, e, Seen(s')) && Out(s', Minute, e)
  {
    hide Counted, Aggregated, Lacks, Out;
    StraddleLacks(s.events, s.ever, step.now, s.aggs, step.t1, step.t2, s'.aggs, e, f);
    OutAfterRun(s, step, s', Minute, e);
    assert Seen(s') == s.ever;
  }

  /** A run that does not meet the condition of a part misses an event for good, at some level. */
  lemma UnmetMisses(s: State, step: Step, s': State, p: Part) returns (w: Width, e: Event)
    requires Inv(s) && Next(s, step, s') && step.Aggregate? && !Met(s, step.now, p)
    ensures e in OnPart(Seen(s'), p) && Closed(e)
    ensures Lacks(s'.aggs, w, e, Seen(s')) && Out(s', w, e)
  {
    hide Counted, Aggregated, Lacks, Out, DimsKey;
    var now := step.now;
    assert Seen(s') == s.ever;
    if !NewInWindow(OnPart(Seen(s), p), s.events, OnPart(s.ever, p), now) {
      e :| e in OnPart(s.ever, p) - OnPart(Seen(s), p) && Closed(e) && !Reached(e, s.events, now);
      w := if !Visible(e, s.events, now) then Minute else if DayOf(e.utc) < HourWindow(now) then Hour else Day;
      UnreachedMisses(s, step, s', w, e);
    } else {
      var f, g :| f in OnPart(s.ever, p) && g in OnPart(s.ever, p) && Closed(f) && Closed(g) &&
                  GroupOf(Minute, f) == GroupOf(Minute, g) &&
                  !(Visible(f, s.events, now) <==> Visible(g, s.events, now));
      w := Minute;
      if Visible(f, s.events, now) {
        e := g;
        LeftOutMisses(s, step, s', g, f);
      } else {
        e := f;
        LeftOutMisses(s, step, s', f, g);
      }
    }
  }

  lemma StepStillLacks(s: State, step: Step, s': State, w: Width, e: Event)
    requires Inv(s) && Next(s, step, s') && Out(s, w, e)
    requires e in Seen(s) && Lacks(s.aggs, w, e, Seen(s))
    ensures e in Seen(s') && Lacks(s'.aggs, w, e, Seen(s')) && Out(s', w, e)
  {
    hide Counted, OutOfReach, Out, Aggregated;
    StaysOut(s, step, s', w, e);
    match step
    case Insert(f) =>
      assert Seen(s') == Seen(s);
    case Aggregate(now, t1, t2) =>
      assert Seen(s') == s.ever;
      OutIsOutOfReach(s, step, s', w, e);
      LacksGrows(s.aggs, w, e, Seen(s), s.ever);
      RunStillLacks(s.events, s.ever, now, s.aggs, t1, t2, s'.aggs, w, e);
    case Cleanup(_, _, _, _, _) =>
      assert Seen(s') == Seen(s);
  }

  lemma {:induction false} MissingForGood(states: seq<State>, steps: seq<Step>, i: nat, n: nat, w: Width, e: Event)
    requires IsRun(states, steps) && i <= n <= |steps|
    requires e in Seen(states[i]) && Lacks(states[i].aggs, w, e, Seen(states[i])) && Out(states[i], w, e)
    ensures e in Seen(states[n]) && Lacks(states[n].aggs, w, e, Seen(states[n])) && Out(states[n], w, e)
  {
    hide Lacks, Out, Next, Inv;
    if i < n {
      MissingForGood(states, steps, i, n - 1, w, e);
      RunInv(states, steps, n - 1);
      StepStillLacks(states[n - 1], steps[n - 1], states[n], w, e);
    }
  }

  // ----- The theorems

  /**
   For every run, every retention and every UTC day, or dimension tuple of a day, whose rows are still
   kept: the roll-up of this part is the one recomputed from all its events ever seen, deleted or not,
   if and only if the part met the condition of every aggregation run so far and no two of its events
   share a key without sharing a group.
   */
  lemma PartIsExact(states: seq<State>, steps: seq<Step>, n: nat, p: Part)
    requires IsRun(states, steps) && n <= |steps| && NotBefore(p.day, states[n].floor)
    ensures Exact(states[n], p) <==> AllMet(states, steps, n, p) && NoCollision(OnPart(Seen(states[n]), p))
  {
    hide Met, NoCollision, Next, DimsKey;
    if AllMet(states, steps, n, p) && NoCollision(OnPart(Seen(states[n]), p)) {
      MetIsExact(states, steps, n, p);
    }
    if Exact(states[n], p) {
      RunInv(states, steps, n);
      assert Unique(RowsOnPart(states[n].aggs, p));
      UniqueHasNoCollision(OnPart(Seen(states[n]), p));
      forall i | 0 <= i < n && steps[i].Aggregate? ensures Met(states[i], steps[i].now, p) {
        if !Met(states[i], steps[i].now, p) {
          UnmetIsInexact(states, steps, i, n, p);
        }
      }
    }
  }

  lemma UnmetIsInexact(states: seq<State>, steps: seq<Step>, i: nat, n: nat, p: Part)
    requires IsRun(states, steps) && i < n <= |steps| && steps[i].Aggregate? && !Met(states[i], steps[i].now, p)
    ensures !Exact(states[n], p)
  {
    hide Met, Exact, Lacks, Out, Inv, Next, OnPart;
    RunInv(states, steps, i);
    var w, e := UnmetMisses(states[i], steps[i], states[i + 1], p);
    MemberOfPart(Seen(states[i + 1]), p, e);
    MissingForGood(states, steps, i + 1, n, w, e);
    MemberOfPart(Seen(states[n]), p, e);
    LackingPartIsInexact(states[n], w, e, p);
  }

  lemma MemberOfPart(es: set<Event>, p: Part, e: Event)
    ensures e in OnPart(es, p) <==> e in es && p.Has(DayOf(e.utc), DimsKey(e.dims))
  {
  }

  /**
   A closed event that the minute statement of the first run after its insertion does not read is
   counted by no row of any later state, at no level, whatever runs, inserts and cleanups follow.
   */
  lemma {:induction false} LostForGood(states: seq<State>, steps: seq<Step>, e: Event, first: nat, n: nat)
    requires IsRun(states, steps) && first < n <= |steps|
    requires e in states[first].unseen && Closed(e)
    requires steps[first].Aggregate? && !Visible(e, states[first].events, steps[first].now)
    ensures e in Seen(states[n]) && AllCounted(states[n].aggs, Seen(states[n]) - {e})
    ensures forall w :: EventRow(Seen(states[n]), w, GroupOf(w, e)) !in states[n].aggs
    ensures Out(states[n], Minute, e)
  {
    hide AllCounted, Inv, Next, EventRow, Visible, Out;
    var s, step, s' := states[n - 1], steps[n - 1], states[n];
    assert Next(s, step, s');
    RunInv(states, steps, n - 1);
    if n - 1 > first {
      LostForGood(states, steps, e, first, n - 1);
      StepStillUncounted(s, step, s', e);
    } else {
      FirstRunLeavesOut(s, step, s', e);
    }
    forall w ensures EventRow(Seen(s'), w, GroupOf(w, e)) !in s'.aggs {
      CountedLacks(s'.aggs, w, e, Seen(s'));
      LackingIsInexact(s'.aggs, w, e, Seen(s'));
    }
  }

  lemma FirstRunLeavesOut(s: State, step: Step, s': State, e: Event)
    requires Inv(s) && Next(s, step, s') && step.Aggregate? && e in s.unseen
    requires !Visible(e, s.events, step.now)
    ensures e in Seen(s') && AllCounted(s'.aggs, Seen(s') - {e}) && Out(s', Minute, e)
  {
    hide AllCounted, Aggregated, Out;
    assert Seen(s) - {e} == Seen(s);
    RunLeavesOut(s, step, s', e);
    OutAfterRun(s, step, s', Minute, e);
  }

  lemma RunLeavesOut(s: State, step: Step, s': State, e: Event)
    requires Inv(s) && Next(s, step, s') && step.Aggregate? && e in s.ever
    requires !Visible(e, s.events, step.now) && AllCounted(s.aggs, Seen(s) - {e})
    ensures e in Seen(s') && AllCounted(s'.aggs, Seen(s') - {e})
  {
    hide Counted, Aggregated;
    AllCountedGrows(s.aggs, Seen(s) - {e}, s.ever - {e});
    RunCounts(s.events, s.ever - {e}, step.now, s.aggs, step.t1, step.t2, s'.aggs);
    assert Seen(s') == s.ever;
  }

  lemma StepStillUncounted(s: State, step: Step, s': State, e: Event)
    requires Inv(s) && Next(s, step, s') && Out(s, Minute, e)
    requires e in Seen(s) && AllCounted(s.aggs, Seen(s) - {e})
    ensures e in Seen(s') && AllCounted(s'.aggs, Seen(s') - {e}) && Out(s', Minute, e)
  {
    hide Counted, Aggregated, Out;
    StaysOut(s, step, s', Minute, e);
    if step.Aggregate? {
      OutIsOutOfReach(s, step, s', Minute, e);
      RunLeavesOut(s, step, s', e);
    } else {
      assert Seen(s') == Seen(s);
    }
  }

  lemma CountedLacks(t: set<Row>, w: Width, e: Event, es: set<Event>)
    requires AllCounted(t, es - {e})
    ensures Lacks(t, w, e, es)
  {
  }

  // ----- The table as a whole

  /** Events of the days whose rows no cleanup has dropped. */
  function KeptEvents(es: set<Event>, floor: Option<int>): set<Event> {
    set e | e in es && NotBefore(DayOf(e.utc), floor)
  }

  /** The run reads a closed event of day `d`. */
  ghost predicate Reads(s: State, now: Times, d: int) {
    exists e :: e in s.events && Closed(e) && DayOf(e.utc) == d && Visible(e, s.events, now)
  }

  /** No cleanup of these steps drops day `d`. */
  predicate Kept(steps: seq<Step>, i: nat, n: nat, d: int)
    requires i <= n <= |steps|
  {
    forall j :: i <= j < n && steps[j].Cleanup? ==> CutoffDay(steps[j].later, steps[j].days) <= d
  }

  /** Some run read an event of day `d`, and no later cleanup dropped the day. */
  ghost predicate Filled(states: seq<State>, steps: seq<Step>, n: nat, d: int)
    requires n <= |steps| <= |states|
  {
    exists i :: 0 <= i < n && steps[i].Aggregate? && Reads(states[i], steps[i].now, d) && Kept(steps, i + 1, n, d)
  }

  lemma UpsertFills(t: set<Row>, rows: set<Row>, t': set<Row>)
    requires Upserted(t, rows, t')
    ensures t' == {} <==> t == {} && rows == {}
  {
    if r :| r in t {
      if Displaced(r, rows) {
        var q :| q in rows && KeyOf(q) == KeyOf(r);
        assert Landed(KeyOf(q), rows, t');
      }
    }
    if q :| q in rows {
      assert Landed(KeyOf(q), rows, t');
    }
  }

  lemma RunFills(stored: set<Event>, now: Times, t: set<Row>, t1: set<Row>, t2: set<Row>, t3: set<Row>)
    requires Aggregated(stored, now, t, t1, t2, t3)
    ensures t3 == {} <==> t == {} && RowsOf(MinuteWindow(stored, now), Minute) == {}
  {
    hide Upserted, RowsOf;
    UpsertFills(t, RowsOf(MinuteWindow(stored, now), Minute), t1);
    UpsertFills(t1, MergeRows(SinceDay(Level(t1, Minute), HourWindow(now)), Hour), t2);
    UpsertFills(t2, MergeRows(SinceDay(Level(t2, Hour), DayWindow(now)), Day), t3);
    if t1 == {} {
      assert MergeRows({}, Hour) == {} && MergeRows({}, Day) == {};
      assert SinceDay(Level({}, Minute), HourWindow(now)) == {} && SinceDay(Level({}, Hour), DayWindow(now)) == {};
    }
  }

  lemma ReadsFills(s: State, now: Times, d: int)
    ensures Reads(s, now, d) <==> RowsOf(MinuteWindow(OnPart(s.events, WholeDay(d)), now), Minute) != {}
  {
    hide DimsKey;
    var v := MinuteWindow(OnPart(s.events, WholeDay(d)), now);
    if Reads(s, now, d) {
      var e :| e in s.events && Closed(e) && DayOf(e.utc) == d && Visible(e, s.events, now);
      assert e in v && GroupOf(Minute, e) in GroupsOf(v, Minute);
      assert EventRow(v, Minute, GroupOf(Minute, e)) in RowsOf(v, Minute);
    }
    if r :| r in RowsOf(v, Minute) {
      RowFromGroup(v, Minute, r);
      var e :| e in v && Closed(e) && GroupOf(Minute, e) == Group(r.bucket, r.dims);
      assert Visible(e, s.events, now);
    }
  }

  lemma StepFills(s: State, step: Step, s': State, d: int)
    requires Next(s, step, s')
    ensures var before, after := RowsOnPart(s.aggs, WholeDay(d)) != {}, RowsOnPart(s'.aggs, WholeDay(d)) != {};
            match step
            case Insert(_) => after == before
            case Aggregate(now, _, _) => after == (before || Reads(s, now, d))
            case Cleanup(_, later, days, _, _) => after == (before && CutoffDay(later, days) <= d)
  {
    hide DimsKey, Aggregated, Reads, RowsOf;
    match step
    case Insert(_) =>
    case Aggregate(now, t1, t2) =>
      var p := WholeDay(d);
      RunOnPart(s.events, now, s.aggs, t1, t2, s'.aggs, p);
      RunFills(OnPart(s.events, p), now, RowsOnPart(s.aggs, p), RowsOnPart(t1, p), RowsOnPart(t2, p),
               RowsOnPart(s'.aggs, p));
      ReadsFills(s, now, d);
    case Cleanup(_, later, days, _, _) =>
      if r :| r in RowsOnPart(s.aggs, WholeDay(d)) {
        assert CutoffDay(later, days) <= d ==> r in RowsOnPart(s'.aggs, WholeDay(d));
      }
  }

  /** A day has rows exactly when some run read one of its events and no later cleanup dropped it. */
  lemma {:induction false} DayHasRows(states: seq<State>, steps: seq<Step>, n: nat, d: int)
    requires IsRun(states, steps) && n <= |steps|
    ensures RowsOnPart(states[n].aggs, WholeDay(d)) != {} <==> Filled(states, steps, n, d)
  {
    hide Next, Reads, RowsOnPart;
    if n == 0 {
      assert RowsOnPart({}, WholeDay(d)) == {} by { NoRowsOnPart(WholeDay(d)); }
    } else {
      var step := steps[n - 1];
      DayHasRows(states, steps, n - 1, d);
      StepFills(states[n - 1], step, states[n], d);
      if Filled(states, steps, n - 1, d) && (step.Cleanup? ==> CutoffDay(step.later, step.days) <= d) {
        var i :| 0 <= i < n - 1 && steps[i].Aggregate? && Reads(states[i], steps[i].now, d) &&
                 Kept(steps, i + 1, n - 1, d);
        assert Kept(steps, i + 1, n, d);
      }
      if step.Aggregate? && Reads(states[n - 1], step.now, d) {
        assert Kept(steps, n, n, d);
      }
      if Filled(states, steps, n, d) {
        var i :| 0 <= i < n && steps[i].Aggregate? && Reads(states[i], steps[i].now, d) && Kept(steps, i + 1, n, d);
        assert i < n - 1 ==> Kept(steps, i + 1, n - 1, d);
      }
    }
  }

  lemma NoRowsOnPart(p: Part)
    ensures RowsOnPart({}, p) == {}
  {
  }

  /**
   Incremental refines full: in every run, with any retention and any offsets, the whole table is the
   one recomputed from all events seen on the kept days, if and only if each of those days met its
   condition at every run and no day dropped by a cleanup was filled again.
   */
  lemma IncrementalRefinesFull(states: seq<State>, steps: seq<Step>, n: nat)
    requires IsRun(states, steps) && n <= |steps|
    ensures var s := states[n];
            s.aggs == FullTable(KeptEvents(Seen(s), s.floor)) <==>
            (forall d :: NotBefore(d, s.floor) ==>
               AllMet(states, steps, n, WholeDay(d)) && NoCollision(OnPart(Seen(s), WholeDay(d)))) &&
            (forall d :: !NotBefore(d, s.floor) ==> !Filled(states, steps, n, d))
    ensures n > 0 && steps[n - 1].Aggregate? ==> Seen(states[n]) == states[n].ever
  {
    hide AllMet, NoCollision, FullTable, Filled, Next, OnPart, RowsOnPart, KeptEvents;
    var s := states[n];
    var kept := KeptEvents(Seen(s), s.floor);
    forall d
      ensures RowsOnPart(FullTable(kept), WholeDay(d)) ==
              if NotBefore(d, s.floor) then FullTable(OnPart(Seen(s), WholeDay(d))) else {}
      ensures RowsOnPart(s.aggs, WholeDay(d)) != {} <==> Filled(states, steps, n, d)
    {
      KeptOnDay(Seen(s), s.floor, d);
      DayHasRows(states, steps, n, d);
    }
    forall d | NotBefore(d, s.floor)
      ensures Exact(s, WholeDay(d)) <==>
              AllMet(states, steps, n, WholeDay(d)) && NoCollision(OnPart(Seen(s), WholeDay(d)))
    {
      PartIsExact(states, steps, n, WholeDay(d));
    }
    TableOfDays(s.aggs, FullTable(kept));
    LastRunSawAll(states, steps, n);
  }

  lemma LastRunSawAll(states: seq<State>, steps: seq<Step>, n: nat)
    requires IsRun(states, steps) && n <= |steps|
    ensures n > 0 && steps[n - 1].Aggregate? ==> Seen(states[n]) == states[n].ever
  {
    hide Aggregated;
    if n > 0 {
      assert Next(states[n - 1], steps[n - 1], states[n]);
    }
  }

  lemma KeptOnDay(seen: set<Event>, floor: Option<int>, d: int)
    ensures RowsOnPart(FullTable(KeptEvents(seen, floor)), WholeDay(d)) ==
            if NotBefore(d, floor) then FullTable(OnPart(seen, WholeDay(d))) else {}
  {
    FullTableOnPart(KeptEvents(seen, floor), WholeDay(d));
    if NotBefore(d, floor) {
      assert OnPart(KeptEvents(seen, floor), WholeDay(d)) == OnPart(seen, WholeDay(d));
    } else {
      assert OnPart(KeptEvents(seen, floor), WholeDay(d)) == {} && FullTable({}) == {};
    }
  }

  lemma TableOfDays(t: set<Row>, t': set<Row>)
    ensures t == t' <==> forall d :: RowsOnPart(t, WholeDay(d)) == RowsOnPart(t', WholeDay(d))
  {
    hide DimsKey;
    if forall d :: RowsOnPart(t, WholeDay(d)) == RowsOnPart(t', WholeDay(d)) {
      forall r | r in t ensures r in t' {
        assert r in RowsOnPart(t, WholeDay(DayOf(r.bucket)));
      }
      forall r | r in t' ensures r in t {
        assert r in RowsOnPart(t', WholeDay(DayOf(r.bucket)));
      }
    }
  }
}
