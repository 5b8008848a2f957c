/**
 What the roll-up says, in terms of the columns of events and rows alone: which events a row stands
 for, what its numbers are, when two rows share the unique key, and what a run reads.
 */
module RollupMeaning {
  import opened Common
  import opened Sums
  import opened Rollup
  import opened Aggregation

  function ReceivedBytes(e: Event): int { match e.received case Some(n) => n case None => 0 }

  function SentBytes(e: Event): int { match e.sent case Some(n) => n case None => 0 }

  function SecondsOpen(e: Event): int { match e.seconds case Some(n) => n case None => 0 }

  function Span(w: Width): nat { match w case Minute => 60 case Hour => 3600 case Day => 86400 }

  /** The columns `bytes_rx`, `bytes_tx`, `conn_count` and `duration_secs` for these events. */
  ghost predicate CountsEvents(m: Measures, events: set<Event>) {
    && m.rx == Total(events, ReceivedBytes)
    && m.tx == Total(events, SentBytes)
    && m.count == |events|
    && m.duration == Total(events, SecondsOpen)
  }

  lemma EventSums(events: set<Event>)
    ensures CountsEvents(Sum(events, EventMeasures), events)
  {
    var one := (e: Event) => 1;
    SumIsTotals(events, EventMeasures, ReceivedBytes, SentBytes, one, SecondsOpen);
    TotalOfOnes(events, one);
  }

  /** The closed events with these dimensions in the `span` seconds from `start`. */
  ghost function ClosedIn(es: set<Event>, start: int, span: nat, d: Dims): set<Event> {
    set e | e in es && e.eventType == "connection_closed" && start <= e.utc < start + span && e.dims == d
  }

  lemma TruncIsStart(w: Width, t: int, b: int)
    ensures b == Trunc(w, t) <==> b % Span(w) == 0 && b <= t < b + Span(w)
  {
    hide Span, Trunc;
    TruncIsMultiple(w, t);
    Multiple(w, t / Span(w));
    if b % Span(w) == 0 {
      Divided(w, b);
      Between(w, b / Span(w), t / Span(w));
    }
  }

  lemma Between(w: Width, k: int, s: int)
    ensures k < s ==> Span(w) * k <= Span(w) * s - Span(w)
    ensures k > s ==> Span(w) * k >= Span(w) * s + Span(w)
  {
  }

  lemma TruncIsMultiple(w: Width, t: int)
    ensures Trunc(w, t) == Span(w) * (t / Span(w)) <= t < Trunc(w, t) + Span(w)
  {
    Bounds(t);
  }

  lemma Multiple(w: Width, q: int)
    ensures Span(w) * q % Span(w) == 0
  {
  }

  lemma Divided(w: Width, b: int)
    requires b % Span(w) == 0
    ensures b == Span(w) * (b / Span(w))
  {
  }

  lemma GroupIsClosedIn(es: set<Event>, w: Width, g: Group)
    requires g.bucket % Span(w) == 0
    ensures EventsOf(es, w, g) == ClosedIn(es, g.bucket, Span(w), g.dims)
  {
    forall e | e in es ensures Trunc(w, e.utc) == g.bucket <==> g.bucket <= e.utc < g.bucket + Span(w) {
      TruncIsStart(w, e.utc, g.bucket);
    }
  }

  /**
   The table holds, for each width, one row for every bucket and dimension tuple that has closed events,
   with the totals of their received bytes, sent bytes, number and seconds.
   */
  ghost predicate Describes(t: set<Row>, es: set<Event>) {
    && (forall r :: r in t ==> DescribesRow(r, es))
    && (forall e, w :: e in es && e.eventType == "connection_closed" ==> HasRowFor(t, e, w))
  }

  ghost predicate DescribesRow(r: Row, es: set<Event>) {
    && r.bucket % Span(r.width) == 0
    && ClosedIn(es, r.bucket, Span(r.width), r.dims) != {}
    && CountsEvents(r.m, ClosedIn(es, r.bucket, Span(r.width), r.dims))
  }

  ghost predicate HasRowFor(t: set<Row>, e: Event, w: Width) {
    exists r :: r in t && r.width == w && r.dims == e.dims && r.bucket <= e.utc < r.bucket + Span(w)
  }

  lemma LevelDescribes(es: set<Event>, w: Width, r: Row)
    requires r in RowsOf(es, w)
    ensures r.width == w && DescribesRow(r, es)
  {
    RowIsOwnGroup(es, w, r);
    var e :| e in EventsOf(es, w, OwnGroup(r));
    TruncIsStart(w, e.utc, r.bucket);
    GroupIsClosedIn(es, w, OwnGroup(r));
    EventSums(EventsOf(es, w, OwnGroup(r)));
  }

  lemma LevelHasRow(es: set<Event>, w: Width, e: Event)
    requires e in es && e.eventType == "connection_closed"
    ensures HasRowFor(RowsOf(es, w), e, w)
  {
    assert e in EventsOf(es, w, GroupOf(w, e));
    GroupHasRow(es, w, GroupOf(w, e));
    TruncIsStart(w, e.utc, Trunc(w, e.utc));
    var r := EventRow(es, w, GroupOf(w, e));
    assert r in RowsOf(es, w);
  }

  /** The recomputed table is the one table that fits this description. */
  lemma FullTableDescribes(es: set<Event>, t: set<Row>)
    ensures Describes(t, es) <==> t == FullTable(es)
  {
    hide DescribesRow, RowsOf;
    forall r | r in FullTable(es) ensures DescribesRow(r, es) {
      assert r in RowsOf(es, Minute) || r in RowsOf(es, Hour) || r in RowsOf(es, Day);
      forall w | r in RowsOf(es, w) ensures DescribesRow(r, es) { LevelDescribes(es, w, r); }
    }
    forall e, w | e in es && e.eventType == "connection_closed" ensures HasRowFor(FullTable(es), e, w) {
      LevelHasRow(es, w, e);
      var r :| r in RowsOf(es, w) && r.width == w && r.dims == e.dims && r.bucket <= e.utc < r.bucket + Span(w);
      assert r in FullTable(es);
    }
    if Describes(t, es) {
      DescriptionsAgree(t, FullTable(es), es);
      DescriptionsAgree(FullTable(es), t, es);
    }
  }

  lemma DescriptionsAgree(t: set<Row>, t': set<Row>, es: set<Event>)
    requires Describes(t, es) && Describes(t', es)
    ensures t <= t'
  {
    forall r | r in t ensures r in t' {
      assert DescribesRow(r, es);
      var e :| e in ClosedIn(es, r.bucket, Span(r.width), r.dims);
      assert HasRowFor(t', e, r.width);
      var q :| q in t' && q.width == r.width && q.dims == e.dims && q.bucket <= e.utc < q.bucket + Span(q.width);
      assert DescribesRow(q, es);
      TruncIsStart(r.width, e.utc, r.bucket);
      TruncIsStart(r.width, e.utc, q.bucket);
    }
  }

  // ----- The unique key

  /** Equal, or one missing and the other the stand-in value. */
  predicate Alike<T(==)>(a: Option<T>, b: Option<T>, standIn: T) {
    a == b || (a == None && b == Some(standIn)) || (a == Some(standIn) && b == None)
  }

  /** Two rows collide in the unique index exactly when all eight columns are equal or alike. */
  lemma KeysCoincide(r: Row, q: Row)
    ensures KeyOf(r) == KeyOf(q) <==>
            && r.bucket == q.bucket && r.width == q.width && r.dims.protocol == q.dims.protocol
            && Alike(r.dims.process, q.dims.process, "") && Alike(r.dims.country, q.dims.country, "")
            && Alike(r.dims.asn, q.dims.asn, -1) && Alike(r.dims.iface, q.dims.iface, "")
            && Alike(r.dims.destClass, q.dims.destClass, "")
  {
  }

  // ----- One run

  /** A run reads an event's day through three windows of two minutes, two hours and two days. */
  lemma ReachedOnColumns(e: Event, stored: set<Event>, now: Times)
    ensures Reached(e, stored, now) <==>
            && e in stored && (e.utc + e.offset) / 86400 >= (now.minute - 120) / 86400
            && e.utc / 86400 >= (now.hour - 7200) / 86400 && e.utc / 86400 >= (now.day - 172800) / 86400
  {
  }

  function RowRx(r: Row): int { r.m.rx }

  function RowTx(r: Row): int { r.m.tx }

  function RowCount(r: Row): int { r.m.count }

  function RowDuration(r: Row): int { r.m.duration }

  ghost predicate CountsRows(m: Measures, rows: set<Row>) {
    && m.rx == Total(rows, RowRx) && m.tx == Total(rows, RowTx)
    && m.count == Total(rows, RowCount) && m.duration == Total(rows, RowDuration)
  }

  /** Rows of width `w` for these dimensions in the `span` seconds from `start`, of days since `day`. */
  ghost function RowsIn(t: set<Row>, w: Width, start: int, span: nat, d: Dims, day: int): set<Row> {
    set r | r in t && r.width == w && r.dims == d && start <= r.bucket < start + span && r.bucket / 86400 >= day
  }

  /** Every row that a run has written: minutes from the events in the window, hours from minutes, days from hours. */
  ghost predicate WritesRows(stored: set<Event>, now: Times, t: set<Row>, t1: set<Row>, t2: set<Row>, t3: set<Row>) {
    && (forall r :: r in t1 && r !in t ==>
          && r.width == Minute
          && CountsEvents(r.m, ClosedIn(EventsFrom(stored, (now.minute - 120) / 86400), r.bucket, 60, r.dims)))
    && (forall r :: r in t2 && r !in t1 ==>
          && r.width == Hour
          && CountsRows(r.m, RowsIn(t1, Minute, r.bucket, 3600, r.dims, (now.hour - 7200) / 86400)))
    && (forall r :: r in t3 && r !in t2 ==>
          && r.width == Day
          && CountsRows(r.m, RowsIn(t2, Hour, r.bucket, 86400, r.dims, (now.day - 172800) / 86400)))
  }

  /** The events whose local date is on or after `day`. */
  ghost function EventsFrom(es: set<Event>, day: int): set<Event> {
    set e | e in es && (e.utc + e.offset) / 86400 >= day
  }

  lemma RowSums(rows: set<Row>)
    ensures CountsRows(Sum(rows, RowMeasures), rows)
  {
    SumIsTotals(rows, RowMeasures, RowRx, RowTx, RowCount, RowDuration);
  }

  lemma MergedOnColumns(t: set<Row>, fine: Width, coarse: Width, day: int, r: Row)
    requires r in MergeRows(SinceDay(Level(t, fine), day), coarse)
    ensures r.width == coarse && CountsRows(r.m, RowsIn(t, fine, r.bucket, Span(coarse), r.dims, day))
  {
    var src := SinceDay(Level(t, fine), day);
    var q :| q in src && r == MergedRow(src, coarse, RowGroup(coarse, q));
    TruncIsStart(coarse, q.bucket, r.bucket);
    forall p | p in t ensures Trunc(coarse, p.bucket) == r.bucket <==> r.bucket <= p.bucket < r.bucket + Span(coarse) {
      TruncIsStart(coarse, p.bucket, r.bucket);
    }
    assert SourceRows(src, coarse, RowGroup(coarse, q)) == RowsIn(t, fine, r.bucket, Span(coarse), r.dims, day);
    RowSums(SourceRows(src, coarse, RowGroup(coarse, q)));
  }

  lemma OnlyThese(t: set<Row>, rows: set<Row>, t': set<Row>)
    requires Upserted(t, rows, t')
    ensures t' - t <= rows
  {
  }

  lemma WindowOnColumns(stored: set<Event>, now: Times)
    ensures MinuteWindow(stored, now) == EventsFrom(stored, (now.minute - 120) / 86400)
  {
  }

  /** What a run writes, column by column. */
  lemma RunWritesRows(stored: set<Event>, now: Times, t: set<Row>, t1: set<Row>, t2: set<Row>, t3: set<Row>)
    requires Aggregated(stored, now, t, t1, t2, t3)
    ensures WritesRows(stored, now, t, t1, t2, t3)
  {
    hide CountsEvents, CountsRows, RowsOf, MergeRows, ClosedIn, RowsIn, EventsFrom, MinuteWindow, Upserted;
    var v := MinuteWindow(stored, now);
    WindowOnColumns(stored, now);
    OnlyThese(t, RowsOf(v, Minute), t1);
    OnlyThese(t1, MergeRows(SinceDay(Level(t1, Minute), HourWindow(now)), Hour), t2);
    OnlyThese(t2, MergeRows(SinceDay(Level(t2, Hour), DayWindow(now)), Day), t3);
    forall r | r in t1 && r !in t ensures r.width == Minute && CountsEvents(r.m, ClosedIn(v, r.bucket, 60, r.dims)) {
      LevelDescribes(v, Minute, r);
    }
    forall r | r in t2 && r !in t1
      ensures r.width == Hour
      ensures CountsRows(r.m, RowsIn(t1, Minute, r.bucket, 3600, r.dims, (now.hour - 7200) / 86400))
    {
      MergedOnColumns(t1, Minute, Hour, HourWindow(now), r);
    }
    forall r | r in t3 && r !in t2
      ensures r.width == Day
      ensures CountsRows(r.m, RowsIn(t2, Hour, r.bucket, 86400, r.dims, (now.day - 172800) / 86400))
    {
      MergedOnColumns(t2, Hour, Day, DayWindow(now), r);
    }
  }
}
