/**
 Windowed incremental aggregation against recomputation from scratch.

 One run replaces only the rows inside its windows. `RunIsExact` says precisely when the table it
 leaves equals `FullTable` of all events; `RollupHistory` lifts that to whole runs.
 */
module Aggregation {
  import opened Common
  import opened Sums
  import opened Rollup

  /** No two closed events of one day have different dimensions that `COALESCE` makes equal. */
  ghost predicate NoCollision(es: set<Event>) {
    forall e, f | e in es && f in es && Closed(e) && Closed(f) && DayOf(e.utc) == DayOf(f.utc) ::
      DimsKey(e.dims) == DimsKey(f.dims) ==> e.dims == f.dims
  }

  /** The run reads every new closed event, and its day is inside the windows of the later statements. */
  predicate Reached(e: Event, stored: set<Event>, now: Times) {
    Visible(e, stored, now) && DayOf(e.utc) >= HourWindow(now) && DayOf(e.utc) >= DayWindow(now)
  }

  ghost predicate NewInWindow(seen: set<Event>, stored: set<Event>, es: set<Event>, now: Times) {
    forall e :: e in es - seen && Closed(e) ==> Reached(e, stored, now)
  }

  /** Of no minute group the run reads some events and misses others, be they too old or deleted. */
  ghost predicate NoStraddle(stored: set<Event>, es: set<Event>, now: Times) {
    forall e, f :: e in es && f in es && Closed(e) && Closed(f) && GroupOf(Minute, e) == GroupOf(Minute, f) ==>
      (Visible(e, stored, now) <==> Visible(f, stored, now))
  }

  // ----- One level

  /** Each group of `es` is seen whole by the view `v`, or not at all and was complete in `seen`. */
  ghost predicate Whole(seen: set<Event>, v: set<Event>, es: set<Event>, w: Width) {
    forall g :: g in GroupsOf(es, w) ==>
      || EventsOf(v, w, g) == EventsOf(es, w, g)
      || (EventsOf(v, w, g) == {} && EventsOf(seen, w, g) == EventsOf(es, w, g))
  }

  lemma KeysAreGroups(es: set<Event>, w: Width, r: Row, q: Row)
    requires NoCollision(es)
    requires r in RowsOf(es, w) && q in RowsOf(es, w) && KeyOf(r) == KeyOf(q)
    ensures r == q
  {
    RowFromGroup(es, w, r);
    RowFromGroup(es, w, q);
    var e :| e in es && Closed(e) && GroupOf(w, e) == Group(r.bucket, r.dims);
    var f :| f in es && Closed(f) && GroupOf(w, f) == Group(q.bucket, q.dims);
    TruncKeepsDay(w, e.utc);
    TruncKeepsDay(w, f.utc);
  }

  /** A row of a smaller event set has the key of a row of the larger one only if they share a group. */
  lemma SubsetRow(part: set<Event>, es: set<Event>, w: Width, r: Row)
    requires part <= es && r in RowsOf(part, w)
    ensures EventRow(es, w, OwnGroup(r)) in RowsOf(es, w) && KeyOf(EventRow(es, w, OwnGroup(r))) == KeyOf(r)
  {
    RowFromGroup(part, w, r);
    var e :| e in part && Closed(e) && GroupOf(w, e) == OwnGroup(r);
    assert GroupOf(w, e) in GroupsOf(es, w);
  }

  lemma SameKeySameGroup(p: set<Event>, q: set<Event>, es: set<Event>, w: Width, r: Row, s: Row)
    requires NoCollision(es) && p <= es && q <= es
    requires r in RowsOf(p, w) && s in RowsOf(q, w) && KeyOf(r) == KeyOf(s)
    ensures OwnGroup(r) == OwnGroup(s)
  {
    SubsetRow(p, es, w, r);
    SubsetRow(q, es, w, s);
    KeysAreGroups(es, w, EventRow(es, w, OwnGroup(r)), EventRow(es, w, OwnGroup(s)));
  }

  lemma GroupHasRow(es: set<Event>, w: Width, g: Group)
    requires EventsOf(es, w, g) != {}
    ensures g in GroupsOf(es, w) && EventRow(es, w, g) in RowsOf(es, w) && OwnGroup(EventRow(es, w, g)) == g
  {
    var e :| e in EventsOf(es, w, g);
    assert GroupOf(w, e) in GroupsOf(es, w);
  }

  lemma RowIsOwnGroup(es: set<Event>, w: Width, r: Row)
    requires r in RowsOf(es, w)
    ensures r == EventRow(es, w, OwnGroup(r)) && EventsOf(es, w, OwnGroup(r)) != {} && OwnGroup(r) in GroupsOf(es, w)
  {
    RowFromGroup(es, w, r);
    var e :| e in es && Closed(e) && GroupOf(w, e) == OwnGroup(r);
    assert e in EventsOf(es, w, OwnGroup(r));
    GroupHasRow(es, w, OwnGroup(r));
  }

  /** A level is exact after the upsert if the view saw every group whole or had nothing new to see. */
  lemma UpsertExact(t: set<Row>, t': set<Row>, w: Width, seen: set<Event>, v: set<Event>, es: set<Event>)
    requires Upserted(t, RowsOf(v, w), t') && Level(t, w) == RowsOf(seen, w)
    requires seen <= es && v <= es && NoCollision(es) && Whole(seen, v, es, w)
    ensures Level(t', w) == RowsOf(es, w)
  {
    forall r | r in Level(t', w) ensures r in RowsOf(es, w) {
      if r in RowsOf(v, w) {
        RowIsOwnGroup(v, w, r);
        SubsetRow(v, es, w, r);
        RowIsOwnGroup(es, w, EventRow(es, w, OwnGroup(r)));
      } else {
        RowIsOwnGroup(seen, w, r);
        SubsetRow(seen, es, w, r);
        RowIsOwnGroup(es, w, EventRow(es, w, OwnGroup(r)));
        if EventsOf(v, w, OwnGroup(r)) != {} {
          GroupHasRow(v, w, OwnGroup(r));
          assert KeyOf(EventRow(v, w, OwnGroup(r))) == KeyOf(r);
        }
      }
    }
    forall r | r in RowsOf(es, w) ensures r in Level(t', w) {
      RowIsOwnGroup(es, w, r);
      var g := OwnGroup(r);
      if EventsOf(v, w, g) != {} {
        GroupHasRow(v, w, g);
        var q :| q in t' && q in RowsOf(v, w) && KeyOf(q) == KeyOf(r);
        SameKeySameGroup(v, es, es, w, q, r);
        RowIsOwnGroup(v, w, q);
      } else {
        GroupHasRow(seen, w, g);
        assert r in t;
        if Displaced(r, RowsOf(v, w)) {
          var q :| q in RowsOf(v, w) && KeyOf(q) == KeyOf(r);
          SameKeySameGroup(v, es, es, w, q, r);
          RowIsOwnGroup(v, w, q);
        }
      }
    }
  }

  /** Conversely, an exact level shows that nothing was missed: the counts give it away. */
  lemma UpsertComplete(t: set<Row>, t': set<Row>, w: Width, seen: set<Event>, v: set<Event>, es: set<Event>)
    requires Upserted(t, RowsOf(v, w), t') && Level(t, w) == RowsOf(seen, w)
    requires seen <= es && v <= es && Level(t', w) == RowsOf(es, w)
    ensures Whole(seen, v, es, w)
  {
    forall g | g in GroupsOf(es, w)
      ensures EventsOf(v, w, g) == EventsOf(es, w, g) ||
              (EventsOf(v, w, g) == {} && EventsOf(seen, w, g) == EventsOf(es, w, g))
    {
      var r := EventRow(es, w, g);
      assert r in RowsOf(es, w) && r in Level(t', w);
      if r in RowsOf(v, w) {
        RowIsOwnGroup(v, w, r);
        SameCountSameEvents(v, es, w, g);
      } else {
        RowIsOwnGroup(seen, w, r);
        SameCountSameEvents(seen, es, w, g);
        if EventsOf(v, w, g) != {} {
          GroupHasRow(v, w, g);
          assert false;
        }
      }
    }
  }

  lemma SameCountSameEvents(part: set<Event>, es: set<Event>, w: Width, g: Group)
    requires part <= es && EventRow(part, w, g) == EventRow(es, w, g)
    ensures EventsOf(part, w, g) == EventsOf(es, w, g)
  {
    CountIsCardinality(EventsOf(part, w, g), EventMeasures);
    CountIsCardinality(EventsOf(es, w, g), EventMeasures);
    SubsetOfSameSize(EventsOf(part, w, g), EventsOf(es, w, g));
  }

  lemma SubsetOfSameSize<T>(a: set<T>, b: set<T>)
    requires a <= b && |a| == |b|
    ensures a == b
  {
    assert b == a + (b - a);
  }

  lemma OtherLevels(t: set<Row>, rows: set<Row>, t': set<Row>, w: Width, other: Width)
    requires Upserted(t, rows, t') && w != other
    requires forall r :: r in rows ==> r.width == w
    ensures Level(t', other) == Level(t, other)
  {
    forall r | r in Level(t, other) ensures r in t' {
      assert !Displaced(r, rows);
    }
  }

  // ----- One run

  lemma LevelsOfFull(es: set<Event>, w: Width)
    ensures Level(FullTable(es), w) == RowsOf(es, w)
  {
  }

  lemma TableOfLevels(t: set<Row>, es: set<Event>)
    requires forall w :: Level(t, w) == RowsOf(es, w)
    ensures t == FullTable(es)
  {
    forall r | r in t ensures r in FullTable(es) {
      assert r in Level(t, r.width);
    }
    forall r | r in FullTable(es) ensures r in t {
      assert r in RowsOf(es, r.width);
      assert r in Level(t, r.width);
    }
  }

  lemma MinuteWhole(seen: set<Event>, stored: set<Event>, es: set<Event>, now: Times)
    requires seen <= es && stored <= es
    ensures Whole(seen, MinuteWindow(stored, now), es, Minute) <==>
            NoStraddle(stored, es, now) &&
            forall e :: e in es - seen && Closed(e) ==> Visible(e, stored, now)
  {
    var v := MinuteWindow(stored, now);
    if Whole(seen, v, es, Minute) {
      forall e, f | e in es && f in es && Closed(e) && Closed(f) && GroupOf(Minute, e) == GroupOf(Minute, f)
        ensures Visible(e, stored, now) <==> Visible(f, stored, now)
      {
        var g := GroupOf(Minute, e);
        assert g in GroupsOf(es, Minute) && e in EventsOf(es, Minute, g) && f in EventsOf(es, Minute, g);
        assert e in v ==> e in EventsOf(v, Minute, g);
        assert f in v ==> f in EventsOf(v, Minute, g);
      }
      forall e | e in es - seen && Closed(e) ensures Visible(e, stored, now) {
        var g := GroupOf(Minute, e);
        assert g in GroupsOf(es, Minute) && e in EventsOf(es, Minute, g) && e !in EventsOf(seen, Minute, g);
      }
    }
    if NoStraddle(stored, es, now) && forall e :: e in es - seen && Closed(e) ==> Visible(e, stored, now) {
      forall g | g in GroupsOf(es, Minute)
        ensures EventsOf(v, Minute, g) == EventsOf(es, Minute, g) ||
                (EventsOf(v, Minute, g) == {} && EventsOf(seen, Minute, g) == EventsOf(es, Minute, g))
      {
        if EventsOf(v, Minute, g) == {} {
          forall e | e in EventsOf(es, Minute, g) ensures e in seen {
            assert e !in EventsOf(v, Minute, g);
          }
        } else {
          var f :| f in EventsOf(v, Minute, g);
        }
      }
    }
  }

  /** A day-aligned window over the finer level never splits a coarser group. */
  lemma DayWhole(seen: set<Event>, es: set<Event>, day: int, w: Width)
    requires seen <= es
    ensures Whole(seen, EventsSince(es, day), es, w) <==>
            forall e :: e in es - seen && Closed(e) ==> DayOf(e.utc) >= day
  {
    var v := EventsSince(es, day);
    forall e: Event ensures DayOf(GroupOf(w, e).bucket) == DayOf(e.utc) { TruncKeepsDay(w, e.utc); }
    if Whole(seen, v, es, w) {
      forall e | e in es - seen && Closed(e) ensures DayOf(e.utc) >= day {
        var g := GroupOf(w, e);
        assert g in GroupsOf(es, w) && e in EventsOf(es, w, g) && e !in EventsOf(seen, w, g);
        assert e in EventsOf(v, w, g);
      }
    }
    if forall e :: e in es - seen && Closed(e) ==> DayOf(e.utc) >= day {
      forall g | g in GroupsOf(es, w)
        ensures EventsOf(v, w, g) == EventsOf(es, w, g) ||
                (EventsOf(v, w, g) == {} && EventsOf(seen, w, g) == EventsOf(es, w, g))
      {
        if DayOf(g.bucket) >= day {
          assert EventsOf(v, w, g) == EventsOf(es, w, g);
        } else {
          assert EventsOf(seen, w, g) == EventsOf(es, w, g);
        }
      }
    }
  }

  lemma MergeView(es: set<Event>, t: set<Row>, fine: Width, coarse: Width, day: int)
    requires NextLevel(fine, coarse) && Level(t, fine) == RowsOf(es, fine)
    ensures MergeRows(SinceDay(Level(t, fine), day), coarse) == RowsOf(EventsSince(es, day), coarse)
  {
    WindowSelects(es, fine, day);
    MergeExact(EventsSince(es, day), fine, coarse);
  }

  /** The three levels of the final table, and those of the tables between the statements. */
  lemma RunLevels(stored: set<Event>, now: Times, t: set<Row>, t1: set<Row>, t2: set<Row>, t3: set<Row>)
    requires Aggregated(stored, now, t, t1, t2, t3)
    ensures Level(t3, Minute) == Level(t2, Minute) == Level(t1, Minute)
    ensures Level(t1, Hour) == Level(t, Hour) && Level(t3, Hour) == Level(t2, Hour)
    ensures Level(t2, Day) == Level(t1, Day) == Level(t, Day)
  {
    var m := RowsOf(MinuteWindow(stored, now), Minute);
    var h := MergeRows(SinceDay(Level(t1, Minute), HourWindow(now)), Hour);
    var d := MergeRows(SinceDay(Level(t2, Hour), DayWindow(now)), Day);
    OtherLevels(t, m, t1, Minute, Hour);
    OtherLevels(t, m, t1, Minute, Day);
    OtherLevels(t1, h, t2, Hour, Minute);
    OtherLevels(t1, h, t2, Hour, Day);
    OtherLevels(t2, d, t3, Day, Minute);
    OtherLevels(t2, d, t3, Day, Hour);
  }

  lemma UniqueHasNoCollision(es: set<Event>)
    ensures Unique(FullTable(es)) <==> NoCollision(es)
  {
    if Unique(FullTable(es)) {
      forall e, f | e in es && f in es && Closed(e) && Closed(f) && DayOf(e.utc) == DayOf(f.utc) &&
        DimsKey(e.dims) == DimsKey(f.dims)
        ensures e.dims == f.dims
      {
        var r, q := EventRow(es, Day, GroupOf(Day, e)), EventRow(es, Day, GroupOf(Day, f));
        assert GroupOf(Day, e) in GroupsOf(es, Day) && GroupOf(Day, f) in GroupsOf(es, Day);
        SameDaySameBucket(e.utc, f.utc);
        assert KeyOf(r) == KeyOf(q);
      }
    }
    if NoCollision(es) {
      forall r, q | r in FullTable(es) && q in FullTable(es) && KeyOf(r) == KeyOf(q) ensures r == q {
        assert r in RowsOf(es, r.width) && q in RowsOf(es, r.width);
        KeysAreGroups(es, r.width, r, q);
      }
    }
  }

  lemma SameDaySameBucket(a: int, b: int)
    requires DayOf(a) == DayOf(b)
    ensures Trunc(Day, a) == Trunc(Day, b)
  {
    assert Trunc(Day, a) == DAY * DayOf(a) && Trunc(Day, b) == DAY * DayOf(b);
  }

  /**
   Let the table be exact for the events `seen` by earlier runs, and `stored` be what is left of all
   events `es`. A run leaves the table recomputed from all of them if and only if it reaches every new
   event, reads each minute group whole or not at all, and the unique key tells all groups apart.
   */
  lemma RunIsExact(seen: set<Event>, stored: set<Event>, es: set<Event>, now: Times, t1: set<Row>, t2: set<Row>,
      t3: set<Row>)
    requires seen <= es && stored <= es
    requires Aggregated(stored, now, FullTable(seen), t1, t2, t3)
    ensures t3 == FullTable(es) <==>
            NewInWindow(seen, stored, es, now) && NoStraddle(stored, es, now) && NoCollision(es)
  {
    hide RowsOf, MergeRows, Whole, NoStraddle;
    var t, v := FullTable(seen), MinuteWindow(stored, now);
    var hourDay, dayDay := HourWindow(now), DayWindow(now);
    RunLevels(stored, now, t, t1, t2, t3);
    forall w ensures Level(t, w) == RowsOf(seen, w) { LevelsOfFull(seen, w); }
    MinuteWhole(seen, stored, es, now);
    DayWhole(seen, es, hourDay, Hour);
    DayWhole(seen, es, dayDay, Day);
    if t3 == FullTable(es) {
      forall w ensures Level(t3, w) == RowsOf(es, w) { LevelsOfFull(es, w); }
      UniqueHasNoCollision(es);
      UpsertComplete(t, t1, Minute, seen, v, es);
      MergeView(es, t1, Minute, Hour, hourDay);
      UpsertComplete(t1, t2, Hour, seen, EventsSince(es, hourDay), es);
      MergeView(es, t2, Hour, Day, dayDay);
      UpsertComplete(t2, t3, Day, seen, EventsSince(es, dayDay), es);
    }
    if NewInWindow(seen, stored, es, now) && NoStraddle(stored, es, now) && NoCollision(es) {
      UpsertExact(t, t1, Minute, seen, v, es);
      MergeView(es, t1, Minute, Hour, hourDay);
      UpsertExact(t1, t2, Hour, seen, EventsSince(es, hourDay), es);
      MergeView(es, t2, Hour, Day, dayDay);
      UpsertExact(t2, t3, Day, seen, EventsSince(es, dayDay), es);
      TableOfLevels(t3, es);
    }
  }

  // ----- When the condition holds, and a family of events for which it never does

  /**
   One whole-minute offset for all timestamps: local days start on minute boundaries. What is deleted
   has to be older than the window.
   */
  lemma OneOffsetNeverStraddles(stored: set<Event>, es: set<Event>, now: Times, offset: int)
    requires offset % MINUTE == 0 && forall e :: e in es && Closed(e) ==> e.offset == offset
    requires forall e :: e in es && e !in stored ==> !TextWindow(e, now.minute - 2 * MINUTE)
    ensures NoStraddle(stored, es, now)
  {
    forall e, f | e in es && f in es && Closed(e) && Closed(f) && GroupOf(Minute, e) == GroupOf(Minute, f)
      ensures LocalDay(e) == LocalDay(f)
    {
      SameMinuteSameDay(e.utc, f.utc, offset);
    }
  }

  lemma SameMinuteSameDay(a: int, b: int, offset: int)
    requires offset % MINUTE == 0 && Trunc(Minute, a) == Trunc(Minute, b)
    ensures DayOf(a + offset) == DayOf(b + offset)
  {
    var m, n := a / MINUTE, offset / MINUTE;
    assert Trunc(Minute, a) == MINUTE * m && Trunc(Minute, b) == MINUTE * (b / MINUTE);
    assert offset == MINUTE * n;
    var d := (m + n) / 1440;
    assert DAY * d <= MINUTE * (m + n) <= DAY * d + DAY - MINUTE;
    assert DAY * d <= a + offset < DAY * (d + 1) && DAY * d <= b + offset < DAY * (d + 1);
  }

  /**
   Clocks at or east of Greenwich: a stored event at most two minutes old is always in the windows, if
   the run takes less than an hour.
   */
  lemma EastIsInWindow(seen: set<Event>, stored: set<Event>, es: set<Event>, now: Times)
    requires now.hour <= now.minute + HOUR && now.day <= now.minute + HOUR
    requires forall e :: e in es - seen && Closed(e) ==>
               e in stored && e.offset >= 0 && e.utc >= now.minute - 2 * MINUTE
    ensures NewInWindow(seen, stored, es, now)
  {
  }

  /**
   West of Greenwich the window of a run on the event's own UTC day leaves out exactly the events of
   the first `-offset` seconds of that day, when the local date still is the day before.
   */
  lemma WestLosesTheDaysStart(e: Event, now: int)
    requires -DAY <= e.offset < 0 && DayOf(now - 2 * MINUTE) == DayOf(e.utc)
    ensures !TextWindow(e, now - 2 * MINUTE) <==> e.utc - DAY * DayOf(e.utc) < -e.offset
  {
    Bounds(e.utc);
    Bounds(e.utc + e.offset);
    if e.utc - DAY * DayOf(e.utc) >= -e.offset {
      Quotient(e.utc + e.offset, DAY, DayOf(e.utc));
    } else {
      Quotient(e.utc + e.offset, DAY, DayOf(e.utc) - 1);
    }
  }

  const EIGHT_HOURS_WEST := Event(
    1, DAY + 3 * HOUR, -8 * HOUR, "connection_closed", Dims("TCP", None, None, None, None, None), None, None, None)

  /** 19:00 the day before at UTC-8, closed a minute before a run: the run leaves the empty table empty. */
  lemma WestOfGreenwichExample(now: Times, t1: set<Row>, t2: set<Row>, t3: set<Row>)
    requires now.minute == EIGHT_HOURS_WEST.utc + MINUTE
    requires Aggregated({EIGHT_HOURS_WEST}, now, {}, t1, t2, t3)
    ensures !NewInWindow({}, {EIGHT_HOURS_WEST}, {EIGHT_HOURS_WEST}, now)
    ensures t3 == {} != FullTable({EIGHT_HOURS_WEST})
  {
    var e := EIGHT_HOURS_WEST;
    WestLosesTheDaysStart(e, now.minute);
    assert e in {e} - {} && MinuteWindow({e}, now) == {};
    EmptyRun({e}, now, t1, t2, t3);
    assert GroupOf(Day, e) in GroupsOf({e}, Day);
    assert EventRow({e}, Day, GroupOf(Day, e)) in FullTable({e});
  }

  /** A run that sees no event leaves an empty table empty. */
  lemma EmptyRun(stored: set<Event>, now: Times, t1: set<Row>, t2: set<Row>, t3: set<Row>)
    requires Aggregated(stored, now, {}, t1, t2, t3) && MinuteWindow(stored, now) == {}
    ensures t3 == {}
  {
    assert RowsOf({}, Minute) == {};
    assert t1 == {};
    assert t2 == {};
  }

  /** A connection without a process name and one whose name is empty share the unique key. */
  lemma NullAndEmptyCollide(a: Event, b: Event)
    requires Closed(a) && Closed(b) && DayOf(a.utc) == DayOf(b.utc)
    requires a.dims.process == None && b.dims == a.dims.(process := Some(""))
    ensures !NoCollision({a, b}) && !Unique(FullTable({a, b}))
  {
    assert a in {a, b} && b in {a, b};
    UniqueHasNoCollision({a, b});
  }

  // ----- Running again, and conservation

  /** A second run with nothing new changes no row, whatever its time. */
  lemma RerunChangesNothing(stored: set<Event>, es: set<Event>, now: Times, t1: set<Row>, t2: set<Row>, t3: set<Row>)
    requires stored <= es && Aggregated(stored, now, FullTable(es), t1, t2, t3)
    ensures t3 == FullTable(es) <==> NoStraddle(stored, es, now) && NoCollision(es)
  {
    RunIsExact(es, stored, es, now, t1, t2, t3);
  }

  /** Dropping the rows of old days leaves the table of the events since then. */
  lemma CleanupKeepsTable(es: set<Event>, day: int)
    ensures SinceDay(FullTable(es), day) == FullTable(EventsSince(es, day))
  {
    hide RowsOf;
    forall w ensures SinceDay(RowsOf(es, w), day) == RowsOf(EventsSince(es, day), w) { WindowSelects(es, w, day); }
    assert SinceDay(FullTable(es), day) ==
           SinceDay(RowsOf(es, Minute), day) + SinceDay(RowsOf(es, Hour), day) + SinceDay(RowsOf(es, Day), day);
  }

  /** The rows whose group satisfies `p` sum to the closed events whose group satisfies `p`. */
  lemma RowsConserve(es: set<Event>, w: Width, p: Group -> bool)
    ensures Sum((set r | r in RowsOf(es, w) && p(OwnGroup(r))), RowMeasures) ==
            Sum((set e | e in es && Closed(e) && p(GroupOf(w, e))), EventMeasures)
  {
    var rows := set r | r in RowsOf(es, w) && p(OwnGroup(r));
    var events := set e | e in es && Closed(e) && p(GroupOf(w, e));
    var rowKey: Row -> Group, eventKey: Event -> Group, rowSum: Row -> Measures := OwnGroup, FineGroup(w), RowMeasures;
    forall r | r in rows
      ensures r == EventRow(es, w, rowKey(r))
      ensures rowSum(r) == Sum(Having(events, eventKey, rowKey(r)), EventMeasures)
    {
      RowIsOwnGroup(es, w, r);
      assert Having(events, eventKey, rowKey(r)) == EventsOf(es, w, OwnGroup(r));
    }
    forall e | e in events
      ensures exists r :: r in rows && rowKey(r) == eventKey(e)
    {
      assert e in EventsOf(es, w, GroupOf(w, e));
      GroupHasRow(es, w, GroupOf(w, e));
      var r := EventRow(es, w, GroupOf(w, e));
      assert r in rows && rowKey(r) == eventKey(e);
    }
    SumByGroups(rows, rowSum, rowKey, events, EventMeasures, eventKey);
  }

  ghost function DimsRows(t: set<Row>, w: Width, d: Dims): set<Row> {
    set r | r in t && r.width == w && r.dims == d
  }

  /** For every dimension tuple the minute, hour and day rows all carry the totals of its events. */
  lemma LevelsAgree(es: set<Event>, w: Width, d: Dims)
    ensures Sum(DimsRows(FullTable(es), w, d), RowMeasures) ==
            Sum((set e | e in es && Closed(e) && e.dims == d), EventMeasures)
  {
    var p := (g: Group) => g.dims == d;
    RowsConserve(es, w, p);
    LevelsOfFull(es, w);
    assert DimsRows(FullTable(es), w, d) == set r | r in Level(FullTable(es), w) && r.dims == d;
    assert DimsRows(FullTable(es), w, d) == set r | r in RowsOf(es, w) && p(OwnGroup(r));
    assert (set e | e in es && Closed(e) && e.dims == d) == set e | e in es && Closed(e) && p(GroupOf(w, e));
  }

  /** And so does each level as a whole. */
  lemma LevelsAgreeInTotal(es: set<Event>, w: Width)
    ensures Sum(Level(FullTable(es), w), RowMeasures) == Sum((set e | e in es && Closed(e)), EventMeasures)
  {
    var all := (g: Group) => true;
    RowsConserve(es, w, all);
    LevelsOfFull(es, w);
    assert RowsOf(es, w) == set r | r in RowsOf(es, w) && all(OwnGroup(r));
    assert (set e | e in es && Closed(e)) == set e | e in es && Closed(e) && all(GroupOf(w, e));
  }
}
