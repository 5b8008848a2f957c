/**
 `/stats/range` for minute, hour and day buckets: the answer read from the roll-up table, and its
 agreement with a scan of the closed events.
 */
module RangeQuery {
  import opened Common
  import opened Sums
  import opened Rollup
  import opened Aggregation
  import opened RollupMeaning
  import opened RollupHistory
  import opened MinuteHistory

  /** No process name means no process filter, likewise an empty interface; other scopes mean `all`. */
  datatype Filter = Filter(processes: set<string>, iface: string, scope: string)

  const UNKNOWN := "_unknown"

  function BucketWidth(name: string): Width {
    if name == "1hour" then Hour else if name == "1day" then Day else Minute
  }

  predicate Matches(d: Dims, f: Filter) {
    && (f.processes != {} ==> d.process.Some? && d.process.value in f.processes)
    && (f.iface != "" ==> d.iface == Some(f.iface))
    && (f.scope == "external" || f.scope == "lan" ==> d.destClass == Some(f.scope))
  }

  function Selected(t: set<Row>, w: Width, lo: int, hi: int, f: Filter): set<Row> {
    set r | r in t && r.width == w && lo <= r.bucket <= hi && Matches(r.dims, f)
  }

  function InBucket(rows: set<Row>, b: int): set<Row> { set r | r in rows && r.bucket == b }

  /** The closed events a direct scan would put into bucket `b`. */
  ghost function Scanned(es: set<Event>, w: Width, b: int, f: Filter): set<Event> {
    set e | e in es && Closed(e) && Trunc(w, e.utc) == b && Matches(e.dims, f)
  }

  // ----- The bucket totals

  ghost predicate HasBucket(rows: set<Row>, b: int) { exists r :: r in rows && r.bucket == b }

  ghost predicate AreTotals(rows: set<Row>, totals: map<int, Measures>) {
    && (forall b :: b in totals <==> HasBucket(rows, b))
    && (forall b :: b in totals ==> totals[b] == Sum(InBucket(rows, b), RowMeasures))
  }

  lemma TotalsGrow(rows: set<Row>, totals: map<int, Measures>, r: Row)
    requires AreTotals(rows, totals) && r !in rows
    ensures AreTotals(rows + {r}, totals[r.bucket := Plus(if r.bucket in totals then totals[r.bucket] else ZERO, r.m)])
  {
    var old', new' := InBucket(rows, r.bucket), InBucket(rows + {r}, r.bucket);
    assert new' - {r} == old';
    SumRemove(new', RowMeasures, r);
    if r.bucket !in totals {
      assert old' == {};
    }
    assert r in rows + {r};
    forall b | b != r.bucket ensures InBucket(rows + {r}, b) == InBucket(rows, b) {
    }
    forall b | HasBucket(rows, b) ensures HasBucket(rows + {r}, b) {
      var q :| q in rows && q.bucket == b;
      assert q in rows + {r};
    }
  }

  method StatsRange(t: set<Row>, bucket: string, start: int, end: int, f: Filter) returns (totals: map<int, Measures>)
    ensures var w := BucketWidth(bucket); AreTotals(Selected(t, w, Trunc(w, start), Trunc(w, end), f), totals)
    ensures SumsRows(t, bucket, start, end, f, totals)
  {
    var w := BucketWidth(bucket);
    var rows := Selected(t, w, Trunc(w, start), Trunc(w, end), f);
    totals := map[];
    var todo := rows;
    assert rows - todo == {};
    while todo != {}
      invariant todo <= rows && AreTotals(rows - todo, totals)
      decreases todo
    {
      var r :| r in todo;
      TotalsGrow(rows - todo, totals, r);
      assert rows - (todo - {r}) == (rows - todo) + {r};
      totals := totals[r.bucket := Plus(if r.bucket in totals then totals[r.bucket] else ZERO, r.m)];
      todo := todo - {r};
    }
    assert rows - todo == rows;
    TotalsOnColumns(t, bucket, start, end, f, totals);
  }

  lemma BucketSum(es: set<Event>, w: Width, lo: int, hi: int, f: Filter, b: int)
    requires lo <= b <= hi
    ensures Sum(InBucket(Selected(FullTable(es), w, lo, hi, f), b), RowMeasures)
        == Sum(Scanned(es, w, b, f), EventMeasures)
  {
    hide RowsOf, FullTable;
    var p := (g: Group) => g.bucket == b && Matches(g.dims, f);
    RowsConserve(es, w, p);
    LevelsOfFull(es, w);
    SelectedRows(FullTable(es), w, lo, hi, f, b, p);
    assert Scanned(es, w, b, f) == set e | e in es && Closed(e) && p(GroupOf(w, e));
  }

  lemma SelectedRows(t: set<Row>, w: Width, lo: int, hi: int, f: Filter, b: int, p: Group -> bool)
    requires lo <= b <= hi && forall g :: p(g) <==> g.bucket == b && Matches(g.dims, f)
    ensures InBucket(Selected(t, w, lo, hi, f), b) == set r | r in Level(t, w) && p(OwnGroup(r))
  {
    hide Matches;
  }

  /** A bucket has rows exactly when a scan finds events for it. */
  lemma BucketExists(es: set<Event>, w: Width, lo: int, hi: int, f: Filter, b: int)
    requires lo <= b <= hi
    ensures HasBucket(Selected(FullTable(es), w, lo, hi, f), b) <==> Scanned(es, w, b, f) != {}
  {
    var rows := Selected(FullTable(es), w, lo, hi, f);
    if HasBucket(rows, b) {
      var r :| r in rows && r.bucket == b;
      RowFromGroup(es, w, r);
      var e :| e in es && Closed(e) && GroupOf(w, e) == Group(r.bucket, r.dims);
      assert e in Scanned(es, w, b, f);
    }
    if Scanned(es, w, b, f) != {} {
      var e :| e in Scanned(es, w, b, f);
      assert e in EventsOf(es, w, GroupOf(w, e));
      GroupHasRow(es, w, GroupOf(w, e));
      var r := EventRow(es, w, GroupOf(w, e));
      assert r in rows && r.bucket == b;
    }
  }

  /** Read from an exact table, every bucket of the range equals the scan, and no other bucket appears. */
  lemma RangeAgreesWithScan(es: set<Event>, w: Width, lo: int, hi: int, f: Filter, totals: map<int, Measures>)
    requires AreTotals(Selected(FullTable(es), w, lo, hi, f), totals)
    ensures forall b :: b in totals <==> lo <= b <= hi && Scanned(es, w, b, f) != {}
    ensures forall b :: b in totals ==> totals[b] == Sum(Scanned(es, w, b, f), EventMeasures)
  {
    forall b | lo <= b <= hi
      ensures HasBucket(Selected(FullTable(es), w, lo, hi, f), b) <==> Scanned(es, w, b, f) != {}
      ensures Sum(InBucket(Selected(FullTable(es), w, lo, hi, f), b), RowMeasures)
          == Sum(Scanned(es, w, b, f), EventMeasures)
    {
      BucketExists(es, w, lo, hi, f, b);
      BucketSum(es, w, lo, hi, f, b);
    }
  }

  // ----- The same in terms of the columns alone

  /** What the query's parameters ask of a row's or an event's columns. */
  ghost predicate Asks(f: Filter, d: Dims) {
    && (f.processes == {} || exists name :: name in f.processes && d.process == Some(name))
    && (f.iface == "" || d.iface == Some(f.iface))
    && (f.scope == "external" ==> d.destClass == Some("external"))
    && (f.scope == "lan" ==> d.destClass == Some("lan"))
  }

  lemma MatchesAsAsked(f: Filter, d: Dims)
    ensures Matches(d, f) <==> Asks(f, d)
  {
  }

  function SpanOf(bucket: string): nat { if bucket == "1hour" then 3600 else if bucket == "1day" then 86400 else 60 }

  function WidthNamed(bucket: string): Width {
    match SpanOf(bucket) case 3600 => Hour case 86400 => Day case _ => Minute
  }

  /** The rows of one bucket that the query asks for. */
  ghost function RowsAsked(t: set<Row>, bucket: string, start: int, end: int, f: Filter, b: int): set<Row> {
    set r | r in t && r.width == WidthNamed(bucket) && r.bucket == b && Asks(f, r.dims) &&
            start - start % SpanOf(bucket) <= b <= end - end % SpanOf(bucket)
  }

  /** Each bucket of the answer carries the column sums of its rows, and there is no other bucket. */
  ghost predicate SumsRows(t: set<Row>, bucket: string, start: int, end: int, f: Filter, totals: map<int, Measures>) {
    && (forall b :: b in totals <==> RowsAsked(t, bucket, start, end, f, b) != {})
    && (forall b :: b in totals ==> CountsRows(totals[b], RowsAsked(t, bucket, start, end, f, b)))
  }

  lemma NamedWidth(bucket: string, t: int)
    ensures BucketWidth(bucket) == WidthNamed(bucket) && Span(BucketWidth(bucket)) == SpanOf(bucket)
    ensures Trunc(BucketWidth(bucket), t) == t - t % SpanOf(bucket)
  {
    TruncIsStart(BucketWidth(bucket), t, t - t % SpanOf(bucket));
  }

  lemma TotalsOnColumns(t: set<Row>, bucket: string, start: int, end: int, f: Filter, totals: map<int, Measures>)
    requires var w := BucketWidth(bucket); AreTotals(Selected(t, w, Trunc(w, start), Trunc(w, end), f), totals)
    ensures SumsRows(t, bucket, start, end, f, totals)
  {
    hide CountsRows, Matches, Asks, BucketWidth, WidthNamed, SpanOf, Trunc;
    var w := BucketWidth(bucket);
    var rows := Selected(t, w, Trunc(w, start), Trunc(w, end), f);
    NamedWidth(bucket, start);
    NamedWidth(bucket, end);
    forall d ensures Matches(d, f) <==> Asks(f, d) { MatchesAsAsked(f, d); }
    forall b
      ensures InBucket(rows, b) == RowsAsked(t, bucket, start, end, f, b)
      ensures HasBucket(rows, b) <==> InBucket(rows, b) != {}
    {
      if HasBucket(rows, b) {
        var r :| r in rows && r.bucket == b;
        assert r in InBucket(rows, b);
      }
    }
    forall b | b in totals ensures CountsRows(totals[b], RowsAsked(t, bucket, start, end, f, b)) {
      RowSums(InBucket(rows, b));
    }
  }

  /** The closed events of one bucket that the query asks for. */
  ghost function EventsAsked(es: set<Event>, bucket: string, f: Filter, b: int): set<Event> {
    set e | e in es && e.eventType == "connection_closed" && b <= e.utc < b + SpanOf(bucket) && Asks(f, e.dims)
  }

  /**
   Read from an exact table the answer has the buckets of the range that a scan would find events for,
   and each carries the received bytes, the sent bytes, the number and the seconds of those events.
   */
  lemma RangeOnColumns(es: set<Event>, bucket: string, start: int, end: int, f: Filter, totals: map<int, Measures>)
    requires var w := BucketWidth(bucket);
             AreTotals(Selected(FullTable(es), w, Trunc(w, start), Trunc(w, end), f), totals)
    ensures forall b :: b in totals <==>
              b % SpanOf(bucket) == 0 && start - SpanOf(bucket) < b <= end && EventsAsked(es, bucket, f, b) != {}
    ensures forall b :: b in totals ==> CountsEvents(totals[b], EventsAsked(es, bucket, f, b))
  {
    hide CountsEvents, Matches, Asks, BucketWidth, Trunc, FullTable, SpanOf;
    var w := BucketWidth(bucket);
    RangeAgreesWithScan(es, w, Trunc(w, start), Trunc(w, end), f, totals);
    NamedWidth(bucket, start);
    NamedWidth(bucket, end);
    forall d ensures Matches(d, f) <==> Asks(f, d) { MatchesAsAsked(f, d); }
    forall b | b % SpanOf(bucket) == 0 ensures Scanned(es, w, b, f) == EventsAsked(es, bucket, f, b) {
      forall e | e in es ensures Trunc(w, e.utc) == b <==> b <= e.utc < b + SpanOf(bucket) {
        TruncIsStart(w, e.utc, b);
      }
    }
    forall b | Scanned(es, w, b, f) != {} ensures b % SpanOf(bucket) == 0 {
      var e :| e in Scanned(es, w, b, f);
      TruncIsStart(w, e.utc, b);
    }
    forall b | b % SpanOf(bucket) == 0
      ensures Trunc(w, start) <= b <= Trunc(w, end) <==> start - SpanOf(bucket) < b <= end
    {
      AlignedRange(w, start, end, b);
    }
    forall b | b in totals ensures CountsEvents(totals[b], EventsAsked(es, bucket, f, b)) {
      EventSums(EventsAsked(es, bucket, f, b));
    }
  }

  lemma AlignedRange(w: Width, start: int, end: int, b: int)
    requires b % Span(w) == 0
    ensures Trunc(w, start) <= b <==> start - Span(w) < b
    ensures b <= Trunc(w, end) <==> b <= end
  {
    hide Span, Trunc;
    Divided(w, b);
    TruncIsMultiple(w, start);
    TruncIsMultiple(w, end);
    Between(w, b / Span(w), start / Span(w));
    Between(w, b / Span(w), end / Span(w));
  }

  // ----- Over whole runs

  /** The answer for bucket `b` is that of a scan which finds `events`. */
  ghost predicate Answered(totals: map<int, Measures>, b: int, events: set<Event>) {
    if b in totals then totals[b] == Sum(events, EventMeasures) else events == {}
  }

  /** A row counts at most the events of its group, and all of them only if it is the recomputed row. */
  lemma CountBound(r: Row, es: set<Event>)
    requires Counted(r, es)
    ensures var mine := EventsOf(es, r.width, OwnGroup(r));
            0 < r.m.count <= |mine| && (r.m.count == |mine| ==> r == EventRow(es, r.width, OwnGroup(r)))
  {
    var mine := EventsOf(es, r.width, OwnGroup(r));
    var part :| SumsTo(part, mine, r.m);
    CountIsCardinality(part, EventMeasures);
    if part != mine {
      StrictSubsetIsSmaller(part, mine);
    }
  }

  /** Rows that count as many events as there are: each of them is exact and none is missing. */
  ghost predicate Told(rows: set<Row>, w: Width, es: set<Event>, events: set<Event>) {
    && Sum(rows, RowMeasures).count <= |events|
    && (Sum(rows, RowMeasures).count == |events| ==>
          && (forall r :: r in rows ==> r == EventRow(es, w, OwnGroup(r)))
          && (forall e :: e in events ==> HasGroup(rows, GroupOf(w, e))))
  }

  lemma {:induction false} CountsTell(rows: set<Row>, w: Width, es: set<Event>, events: set<Event>)
    requires Separate(rows, w) && AllCounted(rows, es)
    requires forall r :: r in rows ==> EventsOf(es, w, OwnGroup(r)) <= events
    ensures Told(rows, w, es, events)
  {
    if rows == {} {
      assert Sum(rows, RowMeasures) == ZERO;
    } else {
      hide Told, Counted, Sum, EventsOf;
      var r :| r in rows;
      var mine := EventsOf(es, w, OwnGroup(r));
      forall q | q in rows - {r} ensures EventsOf(es, w, OwnGroup(q)) <= events - mine {
        GroupsApart(es, w, OwnGroup(q), OwnGroup(r));
      }
      CountsTell(rows - {r}, w, es, events - mine);
      OneRowTold(rows, w, es, events, r);
    }
  }

  lemma OneRowTold(rows: set<Row>, w: Width, es: set<Event>, events: set<Event>, r: Row)
    requires r in rows && r.width == w && Counted(r, es) && EventsOf(es, w, OwnGroup(r)) <= events
    requires Told(rows - {r}, w, es, events - EventsOf(es, w, OwnGroup(r)))
    ensures Told(rows, w, es, events)
  {
    hide EventRow, Counted, Sum, EventsOf, HasGroup;
    var mine := EventsOf(es, w, OwnGroup(r));
    SumRemove(rows, RowMeasures, r);
    CountBound(r, es);
    assert |events| == |mine| + |events - mine| by { assert events == mine + (events - mine); }
    forall e | e in events && (e in events - mine ==> HasGroup(rows - {r}, GroupOf(w, e)))
      ensures HasGroup(rows, GroupOf(w, e))
    {
      OneGroupMore(rows, r, es, w, e);
    }
  }

  lemma GroupsApart(es: set<Event>, w: Width, g: Group, h: Group)
    requires g != h
    ensures EventsOf(es, w, g) !! EventsOf(es, w, h)
  {
  }

  lemma OneGroupMore(rows: set<Row>, r: Row, es: set<Event>, w: Width, e: Event)
    requires r in rows
    requires e in EventsOf(es, w, OwnGroup(r)) || HasGroup(rows - {r}, GroupOf(w, e))
    ensures HasGroup(rows, GroupOf(w, e))
  {
    if HasGroup(rows - {r}, GroupOf(w, e)) {
      var q :| q in rows - {r} && OwnGroup(q) == GroupOf(w, e);
      assert q in rows;
    }
  }

  ghost predicate HasGroup(rows: set<Row>, g: Group) { exists r :: r in rows && OwnGroup(r) == g }

  function BucketRows(t: set<Row>, w: Width, lo: int, hi: int, f: Filter, b: int): set<Row> {
    InBucket(Selected(t, w, lo, hi, f), b)
  }

  /** A bucket's sums agree with the scan exactly when its rows are the recomputed ones. */
  lemma SumsTellRows(t: set<Row>, es: set<Event>, w: Width, lo: int, hi: int, f: Filter, b: int)
    requires lo <= b <= hi && Unique(t) && AllCounted(t, es)
    ensures Sum(BucketRows(t, w, lo, hi, f, b), RowMeasures) == Sum(Scanned(es, w, b, f), EventMeasures) <==>
            BucketRows(t, w, lo, hi, f, b) == BucketRows(FullTable(es), w, lo, hi, f, b)
  {
    hide Sum, Counted, EventRow, Matches;
    var rows, events := BucketRows(t, w, lo, hi, f, b), Scanned(es, w, b, f);
    BucketSum(es, w, lo, hi, f, b);
    if Sum(rows, RowMeasures) == Sum(events, EventMeasures) {
      CountIsCardinality(events, EventMeasures);
      CountsTell(rows, w, es, events);
      SameRows(rows, es, w, lo, hi, f, b);
    }
  }

  lemma SameRows(rows: set<Row>, es: set<Event>, w: Width, lo: int, hi: int, f: Filter, b: int)
    requires lo <= b <= hi && forall r :: r in rows ==> r.width == w && r.bucket == b && Matches(r.dims, f)
    requires forall r :: r in rows ==> r == EventRow(es, w, OwnGroup(r)) && Counted(r, es)
    requires forall e :: e in Scanned(es, w, b, f) ==> HasGroup(rows, GroupOf(w, e))
    ensures rows == BucketRows(FullTable(es), w, lo, hi, f, b)
  {
    hide Sum, Matches;
    forall r | r in rows ensures r in BucketRows(FullTable(es), w, lo, hi, f, b) {
      GroupHasRow(es, w, OwnGroup(r));
    }
    forall r | r in BucketRows(FullTable(es), w, lo, hi, f, b) ensures r in rows {
      RowFromGroup(es, w, r);
      var e :| e in es && Closed(e) && GroupOf(w, e) == Group(r.bucket, r.dims);
      assert e in Scanned(es, w, b, f);
      var q :| q in rows && OwnGroup(q) == GroupOf(w, e);
    }
  }

  lemma AnswerTellsRows(t: set<Row>, es: set<Event>, w: Width, lo: int, hi: int, f: Filter, b: int,
      totals: map<int, Measures>)
    requires lo <= b <= hi && Unique(t) && AllCounted(t, es) && AreTotals(Selected(t, w, lo, hi, f), totals)
    ensures Answered(totals, b, Scanned(es, w, b, f)) <==>
            BucketRows(t, w, lo, hi, f, b) == BucketRows(FullTable(es), w, lo, hi, f, b)
  {
    hide Selected, Scanned, FullTable, Unique, AllCounted;
    SumsTellRows(t, es, w, lo, hi, f, b);
    var rows := BucketRows(t, w, lo, hi, f, b);
    if b !in totals {
      assert rows == {};
      NoEventsNoCount(Scanned(es, w, b, f));
    }
  }

  lemma NoEventsNoCount(events: set<Event>)
    ensures Sum(events, EventMeasures) == Sum({}, RowMeasures) <==> events == {}
  {
    CountIsCardinality(events, EventMeasures);
  }

  /** The dimension slice of its day that an event belongs to. */
  function SliceOf(e: Event): Part { Slice(DayOf(e.utc), DimsKey(e.dims)) }

  /**
   Over whole runs, bucket by bucket: the answer is that of a scan of all closed events the runs have
   seen, the deleted ones included, exactly when the bucket's rows are the recomputed ones; and they are
   if the dimension slices of the scanned events met their conditions, whatever became of others.
   */
  lemma QueryAfterRuns(states: seq<State>, steps: seq<Step>, n: nat, w: Width, lo: int, hi: int, f: Filter,
      totals: map<int, Measures>, b: int)
    requires IsRun(states, steps) && n <= |steps| && lo <= b <= hi && NotBefore(DayOf(b), states[n].floor)
    requires AreTotals(Selected(states[n].aggs, w, lo, hi, f), totals)
    ensures Answered(totals, b, Scanned(Seen(states[n]), w, b, f)) <==>
            BucketRows(states[n].aggs, w, lo, hi, f, b) == BucketRows(FullTable(Seen(states[n])), w, lo, hi, f, b)
    ensures (forall e :: e in Scanned(Seen(states[n]), w, b, f) ==>
               AllMet(states, steps, n, SliceOf(e)) && NoCollision(OnPart(Seen(states[n]), SliceOf(e)))) ==>
            Answered(totals, b, Scanned(Seen(states[n]), w, b, f))
  {
    hide AllMet, NoCollision, AreTotals, Answered, Selected, Next, BucketRows;
    var s := states[n];
    RunInv(states, steps, n);
    AnswerTellsRows(s.aggs, Seen(s), w, lo, hi, f, b, totals);
    if forall e :: e in Scanned(Seen(s), w, b, f) ==>
                     AllMet(states, steps, n, SliceOf(e)) && NoCollision(OnPart(Seen(s), SliceOf(e))) {
      forall e | e in Scanned(Seen(s), w, b, f) ensures Exact(s, SliceOf(e)) {
        TruncKeepsDay(w, e.utc);
        PartIsExact(states, steps, n, SliceOf(e));
      }
      ExactSlicesAgree(s, w, lo, hi, f, b);
    }
  }

  lemma ExactSlicesAgree(s: State, w: Width, lo: int, hi: int, f: Filter, b: int)
    requires lo <= b <= hi && AllCounted(s.aggs, Seen(s))
    requires forall e :: e in Scanned(Seen(s), w, b, f) ==> Exact(s, SliceOf(e))
    ensures BucketRows(s.aggs, w, lo, hi, f, b) == BucketRows(FullTable(Seen(s)), w, lo, hi, f, b)
  {
    hide Matches, DimsKey, FullTable, Exact;
    var es := Seen(s);
    forall r: Row | r.width == w && r.bucket == b && Matches(r.dims, f)
      ensures r in s.aggs <==> r in FullTable(es)
    {
      if r in s.aggs {
        var e := CountedEvent(r, es);
        TruncKeepsDay(w, e.utc);
        SliceHasRow(s, e, r);
      }
      if r in FullTable(es) {
        LevelsOfFull(es, w);
        assert r in Level(FullTable(es), w);
        RowFromGroup(es, w, r);
        var e :| e in es && Closed(e) && GroupOf(w, e) == Group(r.bucket, r.dims);
        assert e in Scanned(es, w, b, f);
        TruncKeepsDay(w, e.utc);
        SliceHasRow(s, e, r);
      }
    }
  }

  /** A counted row has an event. */
  lemma CountedEvent(r: Row, es: set<Event>) returns (e: Event)
    requires Counted(r, es)
    ensures e in EventsOf(es, r.width, OwnGroup(r))
  {
    var part :| SumsTo(part, EventsOf(es, r.width, OwnGroup(r)), r.m);
    e :| e in part;
  }

  lemma SliceHasRow(s: State, e: Event, r: Row)
    requires Exact(s, SliceOf(e)) && r.dims == e.dims && DayOf(r.bucket) == DayOf(e.utc)
    ensures r in s.aggs <==> r in FullTable(Seen(s))
  {
    hide DimsKey, FullTable;
    FullTableOnPart(Seen(s), SliceOf(e));
    assert r in s.aggs <==> r in RowsOnPart(s.aggs, SliceOf(e));
    assert r in FullTable(Seen(s)) <==> r in RowsOnPart(FullTable(Seen(s)), SliceOf(e));
  }

  /**
   For minute buckets the condition is exact: where no two groups share a key, the answer is that of a
   scan if and only if every run treated each scanned event's own minute row as `MinuteIsExact` says.
   */
  lemma MinuteQueryExactly(states: seq<State>, steps: seq<Step>, n: nat, lo: int, hi: int, f: Filter,
      totals: map<int, Measures>, b: int)
    requires IsRun(states, steps) && n <= |steps| && lo <= b <= hi && NotBefore(DayOf(b), states[n].floor)
    requires AreTotals(Selected(states[n].aggs, Minute, lo, hi, f), totals)
    requires forall e :: e in Scanned(Seen(states[n]), Minute, b, f) ==>
               NoCollision(AtKey(Seen(states[n]), MinuteKey(e)))
    ensures Answered(totals, b, Scanned(Seen(states[n]), Minute, b, f)) <==>
            forall e :: e in Scanned(Seen(states[n]), Minute, b, f) ==> AllMetAt(states, steps, n, MinuteKey(e))
  {
    hide AllMetAt, NoCollision, AreTotals, Answered, Selected, Next, BucketRows;
    var s := states[n];
    RunInv(states, steps, n);
    AnswerTellsRows(s.aggs, Seen(s), Minute, lo, hi, f, b, totals);
    forall e | e in Scanned(Seen(s), Minute, b, f)
      ensures ExactAt(s, MinuteKey(e)) <==> AllMetAt(states, steps, n, MinuteKey(e))
    {
      MinuteIsExact(states, steps, n, MinuteKey(e));
    }
    ExactMinutesAgree(s, lo, hi, f, b);
  }

  lemma ExactMinutesAgree(s: State, lo: int, hi: int, f: Filter, b: int)
    requires lo <= b <= hi && Inv(s)
    requires forall e :: e in Scanned(Seen(s), Minute, b, f) ==> NoCollision(AtKey(Seen(s), MinuteKey(e)))
    ensures (forall e :: e in Scanned(Seen(s), Minute, b, f) ==> ExactAt(s, MinuteKey(e))) <==>
            BucketRows(s.aggs, Minute, lo, hi, f, b) == BucketRows(FullTable(Seen(s)), Minute, lo, hi, f, b)
  {
    hide Matches, FullTable, ExactAt, NoCollision, MinuteKey, AtKey;
    var es := Seen(s);
    LevelsOfFull(es, Minute);
    if forall e :: e in Scanned(es, Minute, b, f) ==> ExactAt(s, MinuteKey(e)) {
      forall r: Row | r.width == Minute && r.bucket == b && Matches(r.dims, f)
        ensures r in s.aggs <==> r in FullTable(es)
      {
        if r in s.aggs {
          var e := CountedEvent(r, es);
          KeyHasRow(s, e, r);
        }
        if r in FullTable(es) {
          assert r in Level(FullTable(es), Minute);
          RowFromGroup(es, Minute, r);
          var e :| e in es && Closed(e) && GroupOf(Minute, e) == Group(r.bucket, r.dims);
          assert e in Scanned(es, Minute, b, f);
          KeyHasRow(s, e, r);
        }
      }
    }
    if BucketRows(s.aggs, Minute, lo, hi, f, b) == BucketRows(FullTable(es), Minute, lo, hi, f, b) {
      forall e | e in Scanned(es, Minute, b, f) ensures ExactAt(s, MinuteKey(e)) {
        assert e in EventsOf(es, Minute, GroupOf(Minute, e));
        GroupHasRow(es, Minute, GroupOf(Minute, e));
        var row := EventRow(es, Minute, GroupOf(Minute, e));
        assert row in Level(FullTable(es), Minute);
        assert row in BucketRows(FullTable(es), Minute, lo, hi, f, b);
        OneRowUnderKey(s, e);
      }
    }
  }

  lemma KeyHasRow(s: State, e: Event, r: Row)
    requires ExactAt(s, MinuteKey(e)) && r.width == Minute && OwnGroup(r) == GroupOf(Minute, e)
    ensures r in s.aggs <==> r in FullTable(Seen(s))
  {
    var k := MinuteKey(e);
    assert KeyOf(r) == k;
    RowsOfAt(Seen(s), k);
    LevelsOfFull(Seen(s), Minute);
    assert r in FullTable(Seen(s)) <==> r in Level(FullTable(Seen(s)), Minute);
    assert r in s.aggs <==> r in RowsAt(s.aggs, k);
  }

  /** Where groups have keys of their own, a key's recomputed row in the table is all there is under it. */
  lemma OneRowUnderKey(s: State, e: Event)
    requires Inv(s) && e in Seen(s) && Closed(e) && NoCollision(AtKey(Seen(s), MinuteKey(e)))
    requires EventRow(Seen(s), Minute, GroupOf(Minute, e)) in s.aggs
    ensures ExactAt(s, MinuteKey(e))
  {
    hide Counted;
    var es, k, row := Seen(s), MinuteKey(e), EventRow(Seen(s), Minute, GroupOf(Minute, e));
    RowsOfAt(es, k);
    assert e in EventsOf(es, Minute, GroupOf(Minute, e));
    GroupHasRow(es, Minute, GroupOf(Minute, e));
    forall r | r in RowsAt(RowsOf(es, Minute), k) ensures r == row {
      RowFromGroup(es, Minute, r);
      var d :| d in es && Closed(d) && GroupOf(Minute, d) == Group(r.bucket, r.dims);
      assert d in AtKey(es, k) && e in AtKey(es, k);
      TruncKeepsDay(Minute, d.utc);
      TruncKeepsDay(Minute, e.utc);
      SameKeySameDims(d, e);
    }
    assert RowsAt(s.aggs, k) == {row};
  }

  lemma SameKeySameDims(d: Event, e: Event)
    requires MinuteKey(d) == MinuteKey(e)
    ensures DimsKey(d.dims) == DimsKey(e.dims) && Trunc(Minute, d.utc) == Trunc(Minute, e.utc)
  {
  }

  // ----- The series per process

  function RowBytes(r: Row): Measures { Measures(r.m.rx + r.m.tx, 0, 0, 0) }

  function OfProcess(rows: set<Row>, b: int, p: Option<string>): set<Row> {
    set r | r in rows && r.bucket == b && r.dims.process == p
  }

  ghost function Bytes(rows: set<Row>): int { Sum(rows, RowBytes).rx }

  lemma {:induction false} BytesAreRxPlusTx(rows: set<Row>)
    ensures Bytes(rows) == Sum(rows, RowMeasures).rx + Sum(rows, RowMeasures).tx
  {
    if rows != {} {
      var r :| r in rows;
      SumRemove(rows, RowBytes, r);
      SumRemove(rows, RowMeasures, r);
      BytesAreRxPlusTx(rows - {r});
    }
  }

  function Names(rows: set<Row>, b: int): set<string> {
    set r | r in rows && r.bucket == b :: OrElse(r.dims.process, UNKNOWN)
  }

  /**
   The point kept for `name` in bucket `b`. The SQL groups by the nullable name, NULL first, and each
   group is inserted under its `COALESCE`d name, so a process literally named `_unknown` replaces the
   group without a name.
   */
  ghost function Point(rows: set<Row>, b: int, name: string): int {
    if OfProcess(rows, b, Some(name)) != {} then Bytes(OfProcess(rows, b, Some(name)))
    else Bytes(OfProcess(rows, b, None))
  }

  ghost function SeriesTotal(rows: set<Row>, b: int): int {
    Sum(Names(rows, b), (name: string) => Measures(Point(rows, b, name), 0, 0, 0)).rx
  }

  /** Insert one group's point, as the response is assembled. */
  method InsertPoint(points: map<(int, string), int>, rows: set<Row>, b: int, p: Option<string>)
      returns (points': map<(int, string), int>)
    ensures points' == points[(b, OrElse(p, UNKNOWN)) := Bytes(OfProcess(rows, b, p))]
  {
    var group := OfProcess(rows, b, p);
    var total := 0;
    var todo := group;
    while todo != {}
      invariant todo <= group && Bytes(group) == total + Bytes(todo)
      decreases todo
    {
      var r :| r in todo;
      SumRemove(todo, RowBytes, r);
      total := total + r.m.rx + r.m.tx;
      todo := todo - {r};
    }
    points' := points[(b, OrElse(p, UNKNOWN)) := total];
  }

  /** The points after the rows without a name and those of the names in `done` were inserted. */
  ghost predicate PointsOf(points: map<(int, string), int>, rows: set<Row>, b: int, done: set<string>) {
    && points.Keys == Keyed(b, done) + Keyed(b, if OfProcess(rows, b, None) != {} then {UNKNOWN} else {})
    && (forall name :: name in done ==> points[(b, name)] == Bytes(OfProcess(rows, b, Some(name))))
    && (OfProcess(rows, b, None) != {} && UNKNOWN !in done ==> points[(b, UNKNOWN)] == Bytes(OfProcess(rows, b, None)))
  }

  function Keyed(b: int, names: set<string>): set<(int, string)> { set name | name in names :: (b, name) }

  lemma OnePointMore(points: map<(int, string), int>, rows: set<Row>, b: int, done: set<string>, name: string)
    requires PointsOf(points, rows, b, done)
    ensures PointsOf(points[(b, name) := Bytes(OfProcess(rows, b, Some(name)))], rows, b, done + {name})
  {
    hide Bytes, OfProcess;
    assert Keyed(b, done + {name}) == Keyed(b, done) + {(b, name)};
  }

  lemma PointsOfAll(points: map<(int, string), int>, rows: set<Row>, b: int, named: set<string>)
    requires named == set r | r in rows && r.bucket == b && r.dims.process.Some? :: r.dims.process.value
    requires PointsOf(points, rows, b, named)
    ensures points.Keys == Keyed(b, Names(rows, b))
    ensures forall name :: name in Names(rows, b) ==> points[(b, name)] == Point(rows, b, name)
  {
    hide Bytes, OfProcess, Names;
    NamesSplit(rows, b, named);
    var rest: set<string> := if OfProcess(rows, b, None) != {} then {UNKNOWN} else {};
    assert Keyed(b, named + rest) == Keyed(b, named) + Keyed(b, rest);
    assert forall name :: name in named + rest ==> (b, name) in points.Keys;
  }

  /** One bucket's groups in the order of the SQL: the rows without a process name first. */
  method SeriesOfBucket(rows: set<Row>, b: int) returns (points: map<(int, string), int>)
    ensures points.Keys == Keyed(b, Names(rows, b))
    ensures forall name :: name in Names(rows, b) ==> points[(b, name)] == Point(rows, b, name)
    ensures (exists r :: r in rows && r.bucket == b && r.dims.process == None) ==> (b, "_unknown") in points
  {
    points := map[];
    var unnamed := OfProcess(rows, b, None);
    if unnamed != {} {
      points := InsertPoint(points, rows, b, None);
    }
    var named := set r | r in rows && r.bucket == b && r.dims.process.Some? :: r.dims.process.value;
    var todo := named;
    assert named - todo == {} && PointsOf(points, rows, b, {});
    while todo != {}
      invariant todo <= named && PointsOf(points, rows, b, named - todo)
      decreases todo
    {
      hide PointsOf;
      var name :| name in todo;
      OnePointMore(points, rows, b, named - todo, name);
      points := InsertPoint(points, rows, b, Some(name));
      assert named - (todo - {name}) == named - todo + {name};
      todo := todo - {name};
    }
    assert named - todo == named;
    PointsOfAll(points, rows, b, named);
    if r :| r in rows && r.bucket == b && r.dims.process == None {
      assert r in OfProcess(rows, b, None);
      assert (b, UNKNOWN) in Keyed(b, {UNKNOWN});
    }
  }

  lemma NamesSplit(rows: set<Row>, b: int, named: set<string>)
    requires named == set r | r in rows && r.bucket == b && r.dims.process.Some? :: r.dims.process.value
    ensures Names(rows, b) == named + if OfProcess(rows, b, None) != {} then {UNKNOWN} else {}
    ensures forall name :: name in named <==> OfProcess(rows, b, Some(name)) != {}
  {
    forall name | name in named ensures OfProcess(rows, b, Some(name)) != {} && name in Names(rows, b) {
      var r :| r in rows && r.bucket == b && r.dims.process.Some? && r.dims.process.value == name;
      assert r in OfProcess(rows, b, Some(name)) && OrElse(r.dims.process, UNKNOWN) == name;
    }
    forall name | OfProcess(rows, b, Some(name)) != {} ensures name in named {
      var r :| r in OfProcess(rows, b, Some(name));
    }
    if OfProcess(rows, b, None) != {} {
      var r :| r in OfProcess(rows, b, None);
      assert OrElse(r.dims.process, UNKNOWN) in Names(rows, b);
    }
    forall name | name in Names(rows, b) ensures name in named || (name == UNKNOWN && OfProcess(rows, b, None) != {}) {
      var r :| r in rows && r.bucket == b && OrElse(r.dims.process, UNKNOWN) == name;
      if r.dims.process == None {
        assert r in OfProcess(rows, b, None);
      } else {
        assert r in OfProcess(rows, b, Some(name));
      }
    }
  }

  function NameOf(r: Row): string { OrElse(r.dims.process, "") }

  function Same(name: string): string { name }

  /** The named processes' points carry all bytes of the rows that have a process name. */
  lemma NamedSeries(rows: set<Row>, b: int, names: set<string>, point: string -> Measures)
    requires forall name :: name in names <==> OfProcess(rows, b, Some(name)) != {}
    requires forall name :: name in names ==> point(name) == Sum(OfProcess(rows, b, Some(name)), RowBytes)
    ensures Sum(names, point) == Sum((set r | r in rows && r.bucket == b && r.dims.process.Some?), RowBytes)
  {
    var all := set r | r in rows && r.bucket == b && r.dims.process.Some?;
    var ka: string -> string, kb: Row -> string, fb: Row -> Measures := Same, NameOf, RowBytes;
    forall name | name in names ensures point(name) == Sum(Having(all, kb, ka(name)), fb) {
      assert Having(all, kb, ka(name)) == OfProcess(rows, b, Some(name));
    }
    forall r | r in all ensures exists name :: name in names && ka(name) == kb(r) {
      assert r in OfProcess(rows, b, Some(NameOf(r)));
      assert NameOf(r) in names && ka(NameOf(r)) == kb(r);
    }
    SumByGroups(names, point, ka, all, fb, kb);
  }

  lemma {:induction false} SumCongruent<T(!new)>(s: set<T>, f: T -> Measures, g: T -> Measures)
    requires forall x :: x in s ==> f(x) == g(x)
    ensures Sum(s, f) == Sum(s, g)
  {
    if s != {} {
      var x :| x in s;
      SumRemove(s, f, x);
      SumRemove(s, g, x);
      SumCongruent(s - {x}, f, g);
    }
  }

  /**
   The points of a bucket add up to its rx + tx exactly when no process is literally named `_unknown`
   in it, or the rows without a process name moved no bytes there.
   */
  lemma SeriesAddUp(rows: set<Row>, b: int)
    ensures SeriesTotal(rows, b) == Sum(InBucket(rows, b), RowMeasures).rx + Sum(InBucket(rows, b), RowMeasures).tx
            <==> OfProcess(rows, b, Some(UNKNOWN)) == {} || Bytes(OfProcess(rows, b, None)) == 0
  {
    hide Names;
    var named := set r | r in rows && r.bucket == b && r.dims.process.Some? :: r.dims.process.value;
    var unnamedRows := OfProcess(rows, b, None);
    var point := (name: string) => Measures(Point(rows, b, name), 0, 0, 0);
    NamesSplit(rows, b, named);
    NamedPoints(rows, b, named, point);
    SumCongruent(Names(rows, b), point, (name: string) => Measures(Point(rows, b, name), 0, 0, 0));
    assert SeriesTotal(rows, b) == Sum(Names(rows, b), point).rx;
    if unnamedRows != {} && UNKNOWN !in named {
      assert Names(rows, b) == {UNKNOWN} + named;
      SumUnion({UNKNOWN}, named, point);
      SumRemove({UNKNOWN}, point, UNKNOWN);
      assert {UNKNOWN} - {UNKNOWN} == {};
    } else {
      assert Names(rows, b) == named;
    }
  }

  /** The named points, and the rows they leave out. */
  lemma NamedPoints(rows: set<Row>, b: int, named: set<string>, point: string -> Measures)
    requires forall name :: name in named <==> OfProcess(rows, b, Some(name)) != {}
    requires forall name :: point(name) == Measures(Point(rows, b, name), 0, 0, 0)
    ensures Sum(named, point).rx + Bytes(OfProcess(rows, b, None)) ==
            Sum(InBucket(rows, b), RowMeasures).rx + Sum(InBucket(rows, b), RowMeasures).tx
  {
    hide RowBytes, RowMeasures;
    var namedRows := set r | r in rows && r.bucket == b && r.dims.process.Some?;
    forall name | name in named ensures point(name) == Sum(OfProcess(rows, b, Some(name)), RowBytes) {
      OnlyBytes(OfProcess(rows, b, Some(name)));
    }
    NamedSeries(rows, b, named, point);
    assert InBucket(rows, b) == namedRows + OfProcess(rows, b, None);
    SumUnion(namedRows, OfProcess(rows, b, None), RowBytes);
    BytesAreRxPlusTx(InBucket(rows, b));
  }

  /** A row without a process name beside one named `_unknown`: the bytes of the first are not shown. */
  lemma UnknownHidesUnnamed(unnamed: Row, unknown: Row)
    requires unnamed.dims.process == None && unknown.dims.process == Some(UNKNOWN) && unnamed.bucket == unknown.bucket
    ensures var rows, b := {unnamed, unknown}, unnamed.bucket;
            SeriesTotal(rows, b) == Sum(InBucket(rows, b), RowMeasures).rx + Sum(InBucket(rows, b), RowMeasures).tx
            <==> unnamed.m.rx + unnamed.m.tx == 0
  {
    hide SeriesTotal, InBucket;
    var rows, b := {unnamed, unknown}, unnamed.bucket;
    SeriesAddUp(rows, b);
    assert unknown in OfProcess(rows, b, Some(UNKNOWN));
    assert OfProcess(rows, b, None) == {unnamed};
    SumRemove({unnamed}, RowBytes, unnamed);
    assert {unnamed} - {unnamed} == {};
  }

  lemma {:induction false} OnlyBytes(rows: set<Row>)
    ensures Sum(rows, RowBytes) == Measures(Bytes(rows), 0, 0, 0)
  {
    if rows != {} {
      var r :| r in rows;
      SumRemove(rows, RowBytes, r);
      OnlyBytes(rows - {r});
    }
  }
}
