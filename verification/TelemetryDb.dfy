/**
 The telemetry database as its writer and uploader use it: two tables and a cursor, changed in
 place by the SQL statements. `aggs` abstracts from row ids, which no statement reads.
 */
module TelemetryDb {
  import opened Common
  import opened Sums
  import opened Rollup
  import opened Retention
  import opened Aggregation
  import opened RollupMeaning
  import opened UploadCursor

  /** `SUM` over a scan in any order. */
  method SumOver<T(!new, ==)>(s: set<T>, f: T -> Measures) returns (m: Measures)
    ensures m == Sum(s, f)
  {
    m := ZERO;
    var todo := s;
    while todo != {}
      invariant todo <= s
      invariant Sum(s, f) == Plus(m, Sum(todo, f))
      decreases todo
    {
      var x :| x in todo;
      SumRemove(todo, f, x);
      m := Plus(m, f(x));
      todo := todo - {x};
    }
  }

  class Database {
    var events: set<Event>
    var lastId: nat
    var cursor: nat
    var aggs: set<Row>

    /** The AUTOINCREMENT primary key and the unique index on aggregates. */
    ghost predicate Valid()
      reads this
    {
      && (forall e :: e in events ==> e.id <= lastId)
      && (forall e, f :: e in events && f in events && e.id == f.id ==> e == f)
      && Unique(aggs)
    }

    constructor ()
      ensures Valid() && events == {} && aggs == {} && lastId == cursor == 0
    {
      events, aggs, lastId, cursor := {}, {}, 0, 0;
    }

    method InsertEvent(e: Event) returns (stored: Event)
      requires Valid()
      modifies this`events, this`lastId
      ensures Valid()
      ensures stored == e.(id := lastId) && lastId > old(lastId)
      ensures stored !in old(events) && events == old(events) + {stored}
      ensures SameButId([e], [stored]) && Ascending([stored], old(lastId), lastId)
    {
      lastId := lastId + 1;
      stored := e.(id := lastId);
      events := events + {stored};
    }

    /** `SELECT ... FROM connection_events ... GROUP BY`, over the events kept by the WHERE clause. */
    method SelectMinutes(kept: set<Event>) returns (rows: set<Row>)
      ensures rows == RowsOf(kept, Minute)
    {
      rows := {};
      var all := GroupsOf(kept, Minute);
      var todo := all;
      while todo != {}
        invariant todo <= all
        invariant rows == set g | g in all - todo :: EventRow(kept, Minute, g)
        decreases todo
      {
        var g :| g in todo;
        var m := SumOver(EventsOf(kept, Minute, g), EventMeasures);
        rows := rows + {Row(g.bucket, Minute, g.dims, m)};
        assert all - (todo - {g}) == (all - todo) + {g};
        todo := todo - {g};
      }
      assert all - todo == all;
    }

    /** `SELECT ... FROM aggregates ... GROUP BY` into buckets of width `w`. */
    method SelectMerged(src: set<Row>, w: Width) returns (rows: set<Row>)
      ensures rows == MergeRows(src, w)
    {
      rows := {};
      var all := set r | r in src :: RowGroup(w, r);
      var todo := all;
      while todo != {}
        invariant todo <= all
        invariant rows == MergedRows(src, w, all - todo)
        decreases todo
      {
        var g :| g in todo;
        var m := SumOver(SourceRows(src, w, g), RowMeasures);
        rows := rows + {Row(g.bucket, w, g.dims, m)};
        assert all - (todo - {g}) == (all - todo) + {g};
        todo := todo - {g};
      }
      assert all - todo == all;
      AllGroupsMerged(src, w, all);
    }

    /** Row by row: delete the row that has the key, then insert. */
    method InsertOrReplace(rows: set<Row>)
      requires Valid()
      modifies this`aggs
      ensures Valid() && Upserted(old(aggs), rows, aggs)
    {
      ghost var order: seq<Row> := [];
      var todo := rows;
      while todo != {}
        invariant todo <= rows && rows - todo == RowSet(order)
        invariant aggs == ReplaceAll(old(aggs), order)
        decreases todo
      {
        var row :| row in todo;
        aggs := Replaced(aggs, row);
        todo := todo - {row};
        OneMoreReplaced(old(aggs), order, row);
        order := order + [row];
      }
      ReplaceAllUpserts(old(aggs), order);
      assert RowSet(order) == rows;
    }

    /** One aggregation run, each of its statements at its own time. */
    method RunAggregation(now: Times) returns (ghost t1: set<Row>, ghost t2: set<Row>)
      requires Valid()
      modifies this`aggs
      ensures Valid() && Aggregated(events, now, old(aggs), t1, t2, aggs)
      ensures WritesRows(events, now, old(aggs), t1, t2, aggs)
    {
      var minutes := SelectMinutes(MinuteWindow(events, now));
      InsertOrReplace(minutes);
      t1 := aggs;
      var hours := SelectMerged(SinceDay(Level(aggs, Minute), HourWindow(now)), Hour);
      InsertOrReplace(hours);
      t2 := aggs;
      var days := SelectMerged(SinceDay(Level(aggs, Hour), DayWindow(now)), Day);
      InsertOrReplace(days);
      RunWritesRows(events, now, old(aggs), t1, t2, aggs);
    }

    /**
     Recompute the table from all events: minutes from events, hours from minutes, days from hours.
     The rows are inserted before the unique index exists; `indexed` says whether the index can then
     be created.
     */
    method RebuildAggregates() returns (indexed: bool)
      modifies this`aggs
      ensures aggs == FullTable(events) && Describes(aggs, events)
      ensures indexed <==> NoCollision(events)
      ensures indexed <==> Unique(aggs)
    {
      aggs := {};
      var minutes := SelectMinutes(events);
      aggs := aggs + minutes;
      LevelsOfFull(events, Minute);
      assert Level(aggs, Minute) == RowsOf(events, Minute);
      var hours := SelectMerged(Level(aggs, Minute), Hour);
      MergeExact(events, Minute, Hour);
      aggs := aggs + hours;
      assert Level(aggs, Hour) == RowsOf(events, Hour);
      var days := SelectMerged(Level(aggs, Hour), Day);
      MergeExact(events, Hour, Day);
      aggs := aggs + days;
      indexed := forall r, q | r in aggs && q in aggs && KeyOf(r) == KeyOf(q) :: r == q;
      UniqueHasNoCollision(events);
      FullTableDescribes(events, aggs);
    }

    /**
     With uploading enabled the uploader cannot tell that a cleanup took place, and in every case a
     roll-up that was exact for some events stays exact for those of the remaining days. The two DELETE
     statements read the clock one after the other.
     */
    method RunCleanup(cutoff: int, rowCutoff: int, uploadEnabled: bool)
      requires Valid()
      modifies this`events, this`aggs
      ensures Valid()
      ensures events == Retained(old(events), cutoff, uploadEnabled, cursor)
      ensures forall e :: e in events <==>
                e in old(events) && ((e.utc + e.offset) / 86400 >= cutoff / 86400 || (uploadEnabled && e.id > cursor))
      ensures aggs == SinceDay(old(aggs), DayOf(rowCutoff))
      ensures forall r :: r in aggs <==> r in old(aggs) && r.bucket / 86400 >= rowCutoff / 86400
      ensures uploadEnabled ==> forall after, limit, b :: after >= cursor ==>
                (IsBatch(old(events), after, limit, b) <==> IsBatch(events, after, limit, b))
      ensures forall es :: old(aggs) == FullTable(es) ==> aggs == FullTable(EventsSince(es, DayOf(rowCutoff)))
    {
      if uploadEnabled {
        forall after, limit, b | after >= cursor
          ensures IsBatch(events, after, limit, b) <==>
                  IsBatch(Retained(events, cutoff, true, cursor), after, limit, b)
        {
          CleanupHidesNothing(events, cutoff, cursor, after, limit, b);
        }
      }
      forall es | aggs == FullTable(es)
        ensures SinceDay(aggs, DayOf(rowCutoff)) == FullTable(EventsSince(es, DayOf(rowCutoff)))
      {
        CleanupKeepsTable(es, DayOf(rowCutoff));
      }
      events := set e | e in events && !Expired(e, cutoff, uploadEnabled, cursor);
      aggs := set r | r in aggs && !(DayOf(r.bucket) < DayOf(rowCutoff));
    }

    method ReadUploadCursor() returns (id: int)
      ensures id == cursor
    {
      id := cursor;
    }

    method AdvanceUploadCursor(newId: nat)
      modifies this`cursor
      ensures cursor == newId
    {
      cursor := newId;
    }

    /** The `limit` smallest ids beyond `after`, in order. */
    method QueryEventsForUpload(after: int, limit: nat) returns (b: seq<Event>)
      requires Valid()
      ensures IsBatch(events, after, limit, b)
    {
      b := [];
      var rest := set e | e in events && e.id > after;
      while rest != {} && |b| < limit
        invariant |b| <= limit
        invariant Split(events, after, b, rest)
        decreases rest
      {
        var least := Least(rest);
        TakeLeast(events, after, b, rest, least);
        b, rest := b + [least], rest - {least};
      }
    }

    method Least(es: set<Event>) returns (least: Event)
      requires es != {}
      ensures least in es && forall e :: e in es ==> least.id <= e.id
    {
      least :| least in es;
      var todo := es - {least};
      while todo != {}
        invariant todo <= es && least in es
        invariant forall e :: e in es - todo ==> least.id <= e.id
        decreases todo
      {
        var e :| e in todo;
        if e.id < least.id {
          least := e;
        }
        todo := todo - {e};
      }
    }

    /**
     One upload round. `accepted` is the server's answer; on failure the cursor stays, on success it
     moves to the last id of the batch, which is what `UploadCursor` calls Query, Accept, Advance.
     */
    method RunOneBatch(batchSize: nat, accepted: bool) returns (sent: seq<Event>)
      requires Valid()
      modifies this`cursor
      ensures Valid() && IsBatch(events, old(cursor), batchSize, sent)
      ensures cursor == if sent != [] && accepted then sent[|sent| - 1].id else old(cursor)
    {
      var after := ReadUploadCursor();
      sent := QueryEventsForUpload(after, batchSize);
      if sent != [] && accepted {
        AdvanceUploadCursor(sent[|sent| - 1].id);
      }
    }

    /**
     The writer thread: records and time-outs from the channel, flushed when the batch is full or the
     interval is over (`due`), and once more at the end. Every event whose insert and transaction
     succeed is stored once, in arrival order.
     */
    method WriteLoop(commands: seq<Command>, batchSize: nat, due: seq<bool>) returns (stored: seq<Event>)
      requires Valid() && |due| == |commands| && batchSize > 0
      modifies this`events, this`lastId
      ensures Valid() && SameButId(Survivors(commands), stored) && Ascending(stored, old(lastId), lastId)
      ensures events == old(events) + Elements(stored)
    {
      hide Valid, SameButId, Ascending, Survivors;
      var batch: seq<Command> := [];
      stored := [];
      SameButIdNone(lastId);
      ghost var flushed: seq<Event> := [];
      for n := 0 to |commands|
        invariant Valid() && Flushed(flushed, stored, old(events), old(lastId))
        invariant Survivors(commands[..n]) == flushed + Survivors(batch)
      {
        assert commands[..n + 1] == commands[..n] + [commands[n]];
        OneMoreReceived(commands[..n], flushed, batch, commands[n]);
        if commands[n].Record? {
          batch := batch + [commands[n]];
        }
        if |batch| >= batchSize || (due[n] && batch != []) {
          stored := FlushMore(batch, flushed, stored, old(events), old(lastId));
          flushed, batch := flushed + Survivors(batch), [];
          assert flushed + Survivors(batch) == flushed;
        }
      }
      assert commands[..|commands|] == commands;
      if batch != [] {
        stored := FlushMore(batch, flushed, stored, old(events), old(lastId));
      } else {
        assert flushed + Survivors(batch) == flushed;
      }
    }

    /** `stored` is what the table gained since `before`, and stands for the received `flushed`. */
    ghost predicate Flushed(flushed: seq<Event>, stored: seq<Event>, before: set<Event>, low: nat)
      reads this
    {
      && SameButId(flushed, stored) && Ascending(stored, low, lastId) && low <= lastId
      && events == before + Elements(stored)
    }

    method FlushMore(batch: seq<Command>, ghost flushed: seq<Event>, stored: seq<Event>, ghost before: set<Event>,
        ghost low: nat)
      returns (all: seq<Event>)
      requires Valid() && Flushed(flushed, stored, before, low)
      modifies this`events, this`lastId
      ensures Valid() && Flushed(flushed + Survivors(batch), all, before, low)
    {
      hide Valid;
      var more := FlushBatch(batch);
      AppendStored(flushed, stored, Survivors(batch), more, low, old(lastId), lastId);
      all := stored + more;
    }

    /** One transaction; a record whose insert fails is skipped. */
    method FlushBatch(batch: seq<Command>) returns (stored: seq<Event>)
      requires Valid()
      modifies this`events, this`lastId
      ensures Valid() && lastId >= old(lastId)
      ensures SameButId(Survivors(batch), stored) && Ascending(stored, old(lastId), lastId)
      ensures events == old(events) + Elements(stored)
    {
      hide Valid, SameButId, Ascending, Survivors;
      stored := [];
      SameButIdNone(lastId);
      for n := 0 to |batch|
        invariant Valid() && Flushed(Survivors(batch[..n]), stored, old(events), old(lastId))
      {
        assert batch[..n + 1] == batch[..n] + [batch[n]];
        OneMoreSurvivor(batch[..n], batch[n]);
        if batch[n].Record? && batch[n].survives {
          ghost var middle := lastId;
          var e := InsertEvent(batch[n].e);
          AppendStored(Survivors(batch[..n]), stored, [batch[n].e], [e], old(lastId), middle, lastId);
          stored := stored + [e];
        }
      }
      assert batch[..|batch|] == batch;
    }
  }

  /**
   What the channel delivers. Whether an event survives, that is whether its insert succeeds and its
   transaction is begun and committed, is up to SQLite.
   */
  datatype Command = Record(e: Event, survives: bool) | Timeout

  /** The stored events are the received ones, each with the id it was given. */
  ghost predicate SameButId(received: seq<Event>, stored: seq<Event>) {
    |stored| == |received| && forall i :: 0 <= i < |stored| ==> stored[i] == received[i].(id := stored[i].id)
  }

  ghost predicate Ascending(stored: seq<Event>, above: int, top: int) {
    && (forall i :: 0 <= i < |stored| ==> above < stored[i].id <= top)
    && (forall i, j :: 0 <= i < j < |stored| ==> stored[i].id < stored[j].id)
  }

  function Elements(s: seq<Event>): set<Event> { set e | e in s }

  function Survivors(commands: seq<Command>): seq<Event> {
    if commands == [] then []
    else
      var last := commands[|commands| - 1];
      Survivors(commands[..|commands| - 1]) + if last.Record? && last.survives then [last.e] else []
  }

  lemma OneMoreSurvivor(commands: seq<Command>, c: Command)
    ensures Survivors(commands + [c]) ==
            if c.Record? && c.survives then Survivors(commands) + [c.e] else Survivors(commands)
  {
    assert (commands + [c])[..|commands|] == commands;
  }

  lemma OneMoreReceived(before: seq<Command>, flushed: seq<Event>, batch: seq<Command>, c: Command)
    requires Survivors(before) == flushed + Survivors(batch)
    ensures Survivors(before + [c]) == flushed + Survivors(if c.Record? then batch + [c] else batch)
  {
    OneMoreSurvivor(before, c);
    OneMoreSurvivor(batch, c);
  }

  lemma SameButIdNone(low: int)
    ensures SameButId([], []) && Ascending([], low, low) && Survivors([]) == []
  {
  }

  lemma AppendStored(flushed: seq<Event>, stored: seq<Event>, batch: seq<Event>, more: seq<Event>, low: int,
      middle: int, high: int)
    requires SameButId(flushed, stored) && Ascending(stored, low, middle)
    requires SameButId(batch, more) && Ascending(more, middle, high) && low <= middle <= high
    ensures SameButId(flushed + batch, stored + more) && Ascending(stored + more, low, high)
    ensures Elements(stored + more) == Elements(stored) + Elements(more)
  {
  }

  ghost function MergedRows(src: set<Row>, w: Width, groups: set<Group>): set<Row> {
    set g | g in groups :: MergedRow(src, w, g)
  }

  lemma AllGroupsMerged(src: set<Row>, w: Width, groups: set<Group>)
    requires groups == set r | r in src :: RowGroup(w, r)
    ensures MergedRows(src, w, groups) == MergeRows(src, w)
  {
    forall r | r in src ensures MergedRow(src, w, RowGroup(w, r)) in MergedRows(src, w, groups) {
      assert RowGroup(w, r) in groups;
    }
  }

  /** `b` holds the smallest ids beyond `after` in order, `rest` the others. */
  ghost predicate Split(es: set<Event>, after: int, b: seq<Event>, rest: set<Event>) {
    && (forall e :: e in rest ==> e in es && e.id > after)
    && (forall i :: 0 <= i < |b| ==> b[i] in es && b[i].id > after)
    && (forall e :: e in es && e.id > after ==> e in rest || e in b)
    && (forall i, j :: 0 <= i < j < |b| ==> b[i].id < b[j].id)
    && (forall e, i :: e in rest && 0 <= i < |b| ==> b[i].id < e.id)
  }

  lemma TakeLeast(es: set<Event>, after: int, b: seq<Event>, rest: set<Event>, least: Event)
    requires Split(es, after, b, rest) && least in rest
    requires forall e, f :: e in es && f in es && e.id == f.id ==> e == f
    requires forall e :: e in rest ==> least.id <= e.id
    ensures Split(es, after, b + [least], rest - {least})
  {
    forall e | e in es && e.id > after ensures e in rest - {least} || e in b + [least] {
      if e !in rest {
        assert e in b;
      } else if e == least {
        assert (b + [least])[|b|] == least;
      }
    }
  }

  lemma DisplacedByOneMore(r: Row, rows: set<Row>, row: Row)
    ensures Displaced(r, rows + {row}) <==> Displaced(r, rows) || KeyOf(row) == KeyOf(r)
  {
    if Displaced(r, rows) {
      var q :| q in rows && KeyOf(q) == KeyOf(r);
      assert q in rows + {row};
    }
    assert row in rows + {row};
  }

  function Replaced(t: set<Row>, row: Row): set<Row> { (set r | r in t && KeyOf(r) != KeyOf(row)) + {row} }

  lemma ReplacedIsUnique(t: set<Row>, row: Row)
    requires Unique(t)
    ensures Unique(Replaced(t, row))
  {
  }

  lemma UpsertNone(t: set<Row>)
    requires Unique(t)
    ensures Upserted(t, {}, t)
  {
  }

  /** Replacing one more row keeps the meaning of the statement so far. */
  lemma UpsertOne(t: set<Row>, rows: set<Row>, t1: set<Row>, row: Row)
    requires Upserted(t, rows, t1)
    ensures Upserted(t, rows + {row}, Replaced(t1, row))
  {
    var all, t2 := rows + {row}, Replaced(t1, row);
    ReplacedIsUnique(t1, row);
    forall r | r in t2 ensures r in all || (r in t && !Displaced(r, all)) {
      DisplacedByOneMore(r, rows, row);
    }
    forall r | r in t && !Displaced(r, all) ensures r in t2 {
      DisplacedByOneMore(r, rows, row);
    }
    forall q | q in all ensures Landed(KeyOf(q), all, t2) {
      KeyStaysInserted(t, rows, t1, row, q);
    }
  }

  function RowSet(order: seq<Row>): set<Row> { set r | r in order }

  function ReplaceAll(t: set<Row>, order: seq<Row>): set<Row> {
    if order == [] then t
    else Replaced(ReplaceAll(t, order[..|order| - 1]), order[|order| - 1])
  }

  lemma OneMoreReplaced(t: set<Row>, order: seq<Row>, row: Row)
    ensures RowSet(order + [row]) == RowSet(order) + {row}
    ensures ReplaceAll(t, order + [row]) == Replaced(ReplaceAll(t, order), row)
  {
    assert (order + [row])[..|order|] == order;
  }

  lemma {:induction false} ReplaceAllUpserts(t: set<Row>, order: seq<Row>)
    requires Unique(t)
    ensures Upserted(t, RowSet(order), ReplaceAll(t, order))
  {
    if order == [] {
      UpsertNone(t);
    } else {
      var before, row := order[..|order| - 1], order[|order| - 1];
      ReplaceAllUpserts(t, before);
      UpsertOne(t, RowSet(before), ReplaceAll(t, before), row);
      assert order == before + [row];
      assert RowSet(order) == RowSet(before) + {row};
    }
  }

  lemma KeyStaysInserted(t: set<Row>, rows: set<Row>, t1: set<Row>, row: Row, q: Row)
    requires Upserted(t, rows, t1) && q in rows + {row}
    ensures Landed(KeyOf(q), rows + {row}, Replaced(t1, row))
  {
    if KeyOf(q) == KeyOf(row) {
      assert row in Replaced(t1, row) && row in rows + {row};
    } else {
      assert Landed(KeyOf(q), rows, t1);
      var r :| r in t1 && r in rows && KeyOf(r) == KeyOf(q);
      assert r in Replaced(t1, row) && r in rows + {row};
    }
  }
}
