/**
 The minute, hour and day roll-up of closed connections.

 An event keeps its instant (`utc`, seconds) and the offset of the local clock that printed its
 timestamp, because the SQL uses both: `strftime` converts to UTC, while the window test compares
 the local text. A bucket is named by the UTC second at which it starts.
 */
module Rollup {
  import opened Common
  import opened Sums

  const MINUTE := 60
  const HOUR := 3600
  const DAY := 86400

  datatype Width = Minute | Hour | Day

  datatype Dims = Dims(
    protocol: string, process: Option<string>, country: Option<string>,
    asn: Option<int>, iface: Option<string>, destClass: Option<string>)

  datatype Event = Event(
    id: nat, utc: int, offset: int, eventType: string, dims: Dims,
    received: Option<int>, sent: Option<int>, seconds: Option<int>)

  datatype Group = Group(bucket: int, dims: Dims)

  datatype Row = Row(bucket: int, width: Width, dims: Dims, m: Measures)

  /** The unique index: nullable dimensions are collapsed by `COALESCE`. */
  datatype Key = Key(
    bucket: int, width: Width, protocol: string, process: string,
    country: string, asn: int, iface: string, destClass: string)

  function Trunc(w: Width, t: int): int {
    match w
    case Minute => MINUTE * (t / MINUTE)
    case Hour => HOUR * (t / HOUR)
    case Day => DAY * (t / DAY)
  }

  function DayOf(t: int): int { t / DAY }

  function LocalDay(e: Event): int { DayOf(e.utc + e.offset) }

  predicate Closed(e: Event) { e.eventType == "connection_closed" }

  function GroupOf(w: Width, e: Event): Group { Group(Trunc(w, e.utc), e.dims) }

  function RowGroup(w: Width, r: Row): Group { Group(Trunc(w, r.bucket), r.dims) }

  function EventMeasures(e: Event): Measures {
    Measures(OrElse(e.received, 0), OrElse(e.sent, 0), 1, OrElse(e.seconds, 0))
  }

  function RowMeasures(r: Row): Measures { r.m }

  function KeyOf(r: Row): Key {
    Key(r.bucket, r.width, r.dims.protocol, OrElse(r.dims.process, ""), OrElse(r.dims.country, ""),
        OrElse(r.dims.asn, -1), OrElse(r.dims.iface, ""), OrElse(r.dims.destClass, ""))
  }

  /** What the key keeps of the dimensions. */
  function DimsKey(d: Dims): Key { KeyOf(Row(0, Day, d, ZERO)) }

  predicate Unique(t: set<Row>) {
    forall r, q :: r in t && q in t && KeyOf(r) == KeyOf(q) ==> r == q
  }

  // ----- The simple definition: a table computed from all events at once

  function GroupsOf(es: set<Event>, w: Width): set<Group> {
    set e | e in es && Closed(e) :: GroupOf(w, e)
  }

  function EventsOf(es: set<Event>, w: Width, g: Group): set<Event> {
    set e | e in es && Closed(e) && GroupOf(w, e) == g
  }

  ghost function EventRow(es: set<Event>, w: Width, g: Group): Row {
    Row(g.bucket, w, g.dims, Sum(EventsOf(es, w, g), EventMeasures))
  }

  ghost function RowsOf(es: set<Event>, w: Width): set<Row> {
    set g | g in GroupsOf(es, w) :: EventRow(es, w, g)
  }

  ghost function FullTable(es: set<Event>): set<Row> {
    RowsOf(es, Minute) + RowsOf(es, Hour) + RowsOf(es, Day)
  }

  function Level(t: set<Row>, w: Width): set<Row> { set r | r in t && r.width == w }

  // ----- The SQL statements

  function SourceRows(src: set<Row>, w: Width, g: Group): set<Row> {
    set r | r in src && RowGroup(w, r) == g
  }

  ghost function MergedRow(src: set<Row>, w: Width, g: Group): Row {
    Row(g.bucket, w, g.dims, Sum(SourceRows(src, w, g), RowMeasures))
  }

  /** `SELECT ... SUM(...) FROM aggregates ... GROUP BY` one level up. */
  ghost function MergeRows(src: set<Row>, w: Width): set<Row> {
    set r | r in src :: MergedRow(src, w, RowGroup(w, r))
  }

  /** `ts >= datetime(cutoff)` as text: only the dates decide, see `SqlText`. */
  predicate TextWindow(e: Event, cutoff: int) { LocalDay(e) >= DayOf(cutoff) }

  /** Each statement of a run reads the clock for itself. */
  datatype Times = Times(minute: int, hour: int, day: int)

  /** A stored event that the minute statement reads. */
  predicate Visible(e: Event, stored: set<Event>, now: Times) {
    e in stored && TextWindow(e, now.minute - 2 * MINUTE)
  }

  function MinuteWindow(stored: set<Event>, now: Times): set<Event> {
    set e | e in stored && Visible(e, stored, now)
  }

  /** `bucket_ts >= datetime(cutoff)` as text. */
  function SinceDay(t: set<Row>, day: int): set<Row> {
    set r | r in t && DayOf(r.bucket) >= day
  }

  function EventsSince(es: set<Event>, day: int): set<Event> {
    set e | e in es && DayOf(e.utc) >= day
  }

  ghost predicate HasKey(k: Key, rows: set<Row>) { exists q :: q in rows && KeyOf(q) == k }

  ghost predicate Displaced(r: Row, rows: set<Row>) { HasKey(KeyOf(r), rows) }

  ghost predicate Landed(k: Key, rows: set<Row>, t: set<Row>) { exists r :: r in t && r in rows && KeyOf(r) == k }

  /**
   `INSERT OR REPLACE` of `rows`, in any order, under the unique index: an old row stays unless a
   new one has its key, and each new key keeps exactly one of the new rows that map to it.
   */
  ghost predicate Upserted(t: set<Row>, rows: set<Row>, t': set<Row>) {
    && Unique(t')
    && (forall r :: r in t' ==> r in rows || (r in t && !Displaced(r, rows)))
    && (forall r :: r in t && !Displaced(r, rows) ==> r in t')
    && (forall q :: q in rows ==> Landed(KeyOf(q), rows, t'))
  }

  function HourWindow(now: Times): int { DayOf(now.hour - 2 * HOUR) }

  function DayWindow(now: Times): int { DayOf(now.day - 2 * DAY) }

  /** The three statements of one aggregation run; `t1`, `t2` are the tables between them. */
  ghost predicate Aggregated(stored: set<Event>, now: Times, t: set<Row>, t1: set<Row>, t2: set<Row>, t3: set<Row>) {
    && Upserted(t, RowsOf(MinuteWindow(stored, now), Minute), t1)
    && Upserted(t1, MergeRows(SinceDay(Level(t1, Minute), HourWindow(now)), Hour), t2)
    && Upserted(t2, MergeRows(SinceDay(Level(t2, Hour), DayWindow(now)), Day), t3)
  }

  // ----- Merging a finer level gives the coarser one

  /** The quotient is determined by its bounds; all later arithmetic is linear. */
  lemma Bounds(t: int)
    ensures MINUTE * (t / MINUTE) <= t < MINUTE * (t / MINUTE) + MINUTE
    ensures HOUR * (t / HOUR) <= t < HOUR * (t / HOUR) + HOUR
    ensures DAY * (t / DAY) <= t < DAY * (t / DAY) + DAY
  {
  }

  lemma Quotient(t: int, d: int, q: int)
    requires d in {MINUTE, HOUR, DAY} && d * q <= t < d * q + d
    ensures t / d == q
  {
  }

  /** Truncating twice is truncating once to the coarser width. */
  lemma TruncNests(t: int)
    ensures Trunc(Hour, Trunc(Minute, t)) == Trunc(Hour, t)
    ensures Trunc(Day, Trunc(Hour, t)) == Trunc(Day, t)
    ensures Trunc(Day, Trunc(Minute, t)) == Trunc(Day, t)
  {
    var m, h, d := t / MINUTE, t / HOUR, t / DAY;
    Bounds(t);
    assert m + 1 > 60 * h && m < 60 * h + 60;
    assert h + 1 > 24 * d && h < 24 * d + 24;
    Quotient(MINUTE * m, HOUR, h);
    Quotient(HOUR * h, DAY, d);
    Quotient(MINUTE * m, DAY, d);
  }

  lemma TruncIdempotent(w: Width, t: int)
    ensures Trunc(w, Trunc(w, t)) == Trunc(w, t)
  {
    match w
    case Minute => Quotient(MINUTE * (t / MINUTE), MINUTE, t / MINUTE);
    case Hour => Quotient(HOUR * (t / HOUR), HOUR, t / HOUR);
    case Day => Quotient(DAY * (t / DAY), DAY, t / DAY);
  }

  lemma TruncKeepsDay(w: Width, t: int)
    ensures DayOf(Trunc(w, t)) == DayOf(t)
  {
    var m, h, d := t / MINUTE, t / HOUR, t / DAY;
    Bounds(t);
    match w
    case Minute =>
      assert m + 1 > 1440 * d && m < 1440 * d + 1440;
      Quotient(MINUTE * m, DAY, d);
    case Hour =>
      assert h + 1 > 24 * d && h < 24 * d + 24;
      Quotient(HOUR * h, DAY, d);
    case Day => Quotient(DAY * d, DAY, d);
  }

  predicate NextLevel(fine: Width, coarse: Width) {
    (fine == Minute && coarse == Hour) || (fine == Hour && coarse == Day)
  }

  lemma RowFromGroup(es: set<Event>, w: Width, r: Row)
    requires r in RowsOf(es, w)
    ensures r == EventRow(es, w, RowGroup(w, r)) && RowGroup(w, r) == Group(r.bucket, r.dims)
    ensures exists e :: e in es && Closed(e) && GroupOf(w, e) == Group(r.bucket, r.dims)
  {
    var g :| g in GroupsOf(es, w) && r == EventRow(es, w, g);
    var e :| e in es && Closed(e) && GroupOf(w, e) == g;
    TruncIdempotent(w, e.utc);
  }

  function OwnGroup(r: Row): Group { Group(r.bucket, r.dims) }

  function FineGroup(w: Width): Event -> Group { (e: Event) => GroupOf(w, e) }

  /** A row merged into `g` carries the sum of those events of `g` that share its own bucket. */
  lemma SourceRowSum(es: set<Event>, fine: Width, coarse: Width, g: Group, r: Row)
    requires NextLevel(fine, coarse)
    requires r in SourceRows(RowsOf(es, fine), coarse, g)
    ensures r == EventRow(es, fine, OwnGroup(r))
    ensures EventsOf(es, fine, OwnGroup(r)) ==
            Having(EventsOf(es, coarse, g), FineGroup(fine), OwnGroup(r))
  {
    RowFromGroup(es, fine, r);
    forall e | e in EventsOf(es, fine, OwnGroup(r)) ensures e in EventsOf(es, coarse, g) { TruncNests(e.utc); }
  }

  lemma SourceRowExists(es: set<Event>, fine: Width, coarse: Width, e: Event) returns (r: Row)
    requires NextLevel(fine, coarse)
    requires e in es && Closed(e)
    ensures r in SourceRows(RowsOf(es, fine), coarse, GroupOf(coarse, e)) && OwnGroup(r) == GroupOf(fine, e)
  {
    TruncNests(e.utc);
    assert GroupOf(fine, e) in GroupsOf(es, fine);
    r := EventRow(es, fine, GroupOf(fine, e));
  }

  /** Each measure of a merged group is the sum over that group's events. */
  lemma MergeOneGroup(es: set<Event>, fine: Width, coarse: Width, g: Group)
    requires NextLevel(fine, coarse)
    ensures Sum(SourceRows(RowsOf(es, fine), coarse, g), RowMeasures) == Sum(EventsOf(es, coarse, g), EventMeasures)
  {
    var rows, events := SourceRows(RowsOf(es, fine), coarse, g), EventsOf(es, coarse, g);
    var rowKey: Row -> Group, eventKey: Event -> Group, rowSum: Row -> Measures :=
      OwnGroup, FineGroup(fine), RowMeasures;
    forall r | r in rows
      ensures rowSum(r) == Sum(Having(events, eventKey, rowKey(r)), EventMeasures)
      ensures r == EventRow(es, fine, rowKey(r))
    {
      SourceRowSum(es, fine, coarse, g, r);
      assert Having(events, eventKey, rowKey(r)) == EventsOf(es, fine, OwnGroup(r));
    }
    forall e | e in events
      ensures exists r :: r in rows && rowKey(r) == eventKey(e)
    {
      var r := SourceRowExists(es, fine, coarse, e);
      assert r in rows && rowKey(r) == eventKey(e);
    }
    SumByGroups(rows, rowSum, rowKey, events, EventMeasures, eventKey);
  }

  lemma MergeExact(es: set<Event>, fine: Width, coarse: Width)
    requires NextLevel(fine, coarse)
    ensures MergeRows(RowsOf(es, fine), coarse) == RowsOf(es, coarse)
  {
    var src := RowsOf(es, fine);
    forall g: Group ensures MergedRow(src, coarse, g) == EventRow(es, coarse, g) {
      MergeOneGroup(es, fine, coarse, g);
    }
    forall r | r in src
      ensures RowGroup(coarse, r) in GroupsOf(es, coarse)
    {
      RowFromGroup(es, fine, r);
      var e :| e in es && Closed(e) && GroupOf(fine, e) == Group(r.bucket, r.dims);
      TruncNests(e.utc);
      assert GroupOf(coarse, e) == RowGroup(coarse, r);
    }
    forall g | g in GroupsOf(es, coarse)
      ensures exists r :: r in src && RowGroup(coarse, r) == g
    {
      var e :| e in es && Closed(e) && GroupOf(coarse, e) == g;
      TruncNests(e.utc);
      assert GroupOf(fine, e) in GroupsOf(es, fine);
      var r := EventRow(es, fine, GroupOf(fine, e));
      assert r in src && RowGroup(coarse, r) == g;
    }
  }

  /** Selecting rows by their group selects the rows of the events of those groups. */
  lemma SelectRows(es: set<Event>, w: Width, p: Group -> bool)
    ensures (set r | r in RowsOf(es, w) && p(OwnGroup(r))) == RowsOf((set e | e in es && p(GroupOf(w, e))), w)
  {
    var some := set e | e in es && p(GroupOf(w, e));
    forall g: Group | p(g) ensures EventRow(es, w, g) == EventRow(some, w, g) {
      assert EventsOf(es, w, g) == EventsOf(some, w, g);
    }
    forall r | r in RowsOf(es, w) && p(OwnGroup(r)) ensures r in RowsOf(some, w) {
      RowFromGroup(es, w, r);
      var e :| e in es && Closed(e) && GroupOf(w, e) == Group(r.bucket, r.dims);
      assert e in some && GroupOf(w, e) in GroupsOf(some, w);
    }
    forall r | r in RowsOf(some, w) ensures r in RowsOf(es, w) && p(OwnGroup(r)) {
      RowFromGroup(some, w, r);
      var e :| e in some && Closed(e) && GroupOf(w, e) == Group(r.bucket, r.dims);
      assert GroupOf(w, e) in GroupsOf(es, w);
    }
  }

  /** A window that starts on a day boundary selects the rows of exactly the events in that window. */
  lemma WindowSelects(es: set<Event>, w: Width, day: int)
    ensures SinceDay(RowsOf(es, w), day) == RowsOf(EventsSince(es, day), w)
  {
    var p := (g: Group) => DayOf(g.bucket) >= day;
    forall e: Event ensures DayOf(GroupOf(w, e).bucket) == DayOf(e.utc) { TruncKeepsDay(w, e.utc); }
    SelectRows(es, w, p);
    assert SinceDay(RowsOf(es, w), day) == set r | r in RowsOf(es, w) && p(OwnGroup(r));
    assert EventsSince(es, day) == set e | e in es && p(GroupOf(w, e));
  }
}
