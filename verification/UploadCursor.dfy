/**
 The upload cursor against retention: a state machine over the steps of three independent threads,
 the event writer, the uploader and the cleaner, in any interleaving.
 */
module UploadCursor {
  import opened Rollup
  import opened Retention

  /** `WHERE id > after ORDER BY id LIMIT limit`. */
  ghost predicate IsBatch(es: set<Event>, after: int, limit: nat, b: seq<Event>) {
    && |b| <= limit
    && (forall i :: 0 <= i < |b| ==> b[i] in es && b[i].id > after)
    && (forall i, j :: 0 <= i < j < |b| ==> b[i].id < b[j].id)
    && (forall e :: e in es && e.id > after && e !in b ==> |b| == limit && forall i :: 0 <= i < |b| ==> b[i].id < e.id)
  }

  /** The uploader between rounds, waiting for the server, or told that the batch was accepted. */
  datatype Phase = Idle | Sent(batch: seq<Event>) | Accepted(batch: seq<Event>)

  /**
   `inserted`, `uploaded` and `deleted` are the ids of all events so far, and `purged` of those that were
   deleted while they lay beyond the cursor; the program stores none of them.
   */
  datatype State = State(
    events: set<Event>, lastId: nat, cursor: nat, phase: Phase,
    inserted: set<nat>, uploaded: set<nat>, deleted: set<nat>, purged: set<nat>)

  datatype Step =
    | Insert(e: Event)
    | Query(limit: nat, batch: seq<Event>)
    | Accept
    | Fail
    | Advance
    | Cleanup(cutoff: int, uploadEnabled: bool)

  function Ids(b: seq<Event>): set<nat> { set e | e in b :: e.id }

  function SetIds(es: set<Event>): set<nat> { set e | e in es :: e.id }

  ghost predicate Next(s: State, step: Step, s': State) {
    match step
    case Insert(e) =>
      e.id > s.lastId && s' == s.(events := s.events + {e}, lastId := e.id, inserted := s.inserted + {e.id})
    case Query(limit, batch) =>
      s.phase == Idle && IsBatch(s.events, s.cursor, limit, batch) &&
      s' == s.(phase := if batch == [] then Idle else Sent(batch))
    case Accept =>
      s.phase.Sent? && s' == s.(phase := Accepted(s.phase.batch), uploaded := s.uploaded + Ids(s.phase.batch))
    case Fail => s.phase != Idle && s' == s.(phase := Idle)
    case Advance =>
      s.phase.Accepted? && |s.phase.batch| > 0
      && s' == s.(phase := Idle, cursor := s.phase.batch[|s.phase.batch| - 1].id)
    case Cleanup(cutoff, uploadEnabled) =>
      var kept := Retained(s.events, cutoff, uploadEnabled, s.cursor);
      s' == s.(events := kept, deleted := s.deleted + SetIds(s.events - kept),
               purged := s.purged + Beyond(SetIds(s.events - kept), s.cursor))
  }

  function Beyond(ids: set<nat>, cursor: nat): set<nat> { set id | id in ids && id > cursor }

  const INITIAL := State({}, 0, 0, Idle, {}, {}, {}, {})

  ghost predicate BatchCovers(s: State, b: seq<Event>) {
    && |b| > 0
    && (forall i :: 0 <= i < |b| ==> b[i].id in s.inserted && b[i].id > s.cursor)
    && (forall i, j :: 0 <= i < j < |b| ==> b[i].id < b[j].id)
    && (forall id :: id in s.inserted && s.cursor < id <= b[|b| - 1].id ==> id in Ids(b) || id in s.purged)
  }

  ghost predicate Inv(s: State) {
    && s.inserted == SetIds(s.events) + s.deleted
    && SetIds(s.events) !! s.deleted
    && (forall e, f :: e in s.events && f in s.events && e.id == f.id ==> e == f)
    && (forall id :: id in s.inserted ==> 0 < id <= s.lastId)
    && s.cursor <= s.lastId
    && (forall id :: id in s.inserted && id <= s.cursor ==> id in s.uploaded || id in s.purged)
    && (forall id :: id in s.deleted ==> id <= s.cursor || id in s.purged)
    && s.uploaded <= s.inserted && s.purged <= s.deleted
    && (s.phase != Idle ==> BatchCovers(s, s.phase.batch))
    && (s.phase.Accepted? ==> Ids(s.phase.batch) <= s.uploaded)
  }

  lemma QueryCovers(s: State, limit: nat, b: seq<Event>)
    requires Inv(s) && IsBatch(s.events, s.cursor, limit, b) && b != []
    ensures BatchCovers(s, b)
  {
    forall i | 0 <= i < |b| ensures b[i].id in s.inserted {
      assert b[i].id in SetIds(s.events);
    }
    forall id | id in s.inserted && s.cursor < id <= b[|b| - 1].id
      ensures id in Ids(b) || id in s.purged
    {
      if id in SetIds(s.events) {
        var e :| e in s.events && e.id == id;
        assert e in b;
      }
    }
  }

  lemma InsertKeepsInv(s: State, e: Event, s': State)
    requires Inv(s) && Next(s, Insert(e), s')
    ensures Inv(s')
  {
    assert SetIds(s'.events) == SetIds(s.events) + {e.id};
    assert forall id :: id in SetIds(s.events) ==> id in s.inserted;
    assert e.id !in SetIds(s.events);
    assert s.phase != Idle ==> BatchCovers(s', s.phase.batch) by {
      if s.phase != Idle {
        var b := s.phase.batch;
        assert b[|b| - 1].id in s.inserted;
      }
    }
  }

  lemma CleanupKeepsInv(s: State, cutoff: int, uploadEnabled: bool, s': State)
    requires Inv(s) && Next(s, Cleanup(cutoff, uploadEnabled), s')
    ensures Inv(s')
  {
    var gone := s.events - s'.events;
    assert SetIds(s.events) == SetIds(s'.events) + SetIds(gone) by {
      forall id | id in SetIds(s.events) ensures id in SetIds(s'.events) + SetIds(gone) {
        var e :| e in s.events && e.id == id;
        assert e in s'.events || e in gone;
      }
    }
    forall id | id in SetIds(gone) ensures id !in SetIds(s'.events) {
      var e :| e in gone && e.id == id;
    }
    assert s'.inserted == SetIds(s'.events) + s'.deleted;
    assert s.phase != Idle ==> BatchCovers(s', s.phase.batch);
  }

  lemma RoundKeepsInv(s: State, step: Step, s': State)
    requires Inv(s) && Next(s, step, s') && !step.Insert? && !step.Cleanup?
    ensures Inv(s')
  {
    match step
    case Query(limit, batch) =>
      if batch != [] {
        QueryCovers(s, limit, batch);
        assert BatchCovers(s', batch);
      }
    case Accept => assert BatchCovers(s', s.phase.batch);
    case Fail =>
    case Advance =>
      var b := s.phase.batch;
      assert b[|b| - 1].id in s.inserted;
  }

  lemma StepKeepsInv(s: State, step: Step, s': State)
    requires Inv(s) && Next(s, step, s')
    ensures Inv(s')
  {
    match step
    case Insert(e) => InsertKeepsInv(s, e, s');
    case Cleanup(cutoff, uploadEnabled) => CleanupKeepsInv(s, cutoff, uploadEnabled, s');
    case Query(_, _) => RoundKeepsInv(s, step, s');
    case Accept => RoundKeepsInv(s, step, s');
    case Fail => RoundKeepsInv(s, step, s');
    case Advance => RoundKeepsInv(s, step, s');
  }

  ghost predicate IsRun(states: seq<State>, steps: seq<Step>) {
    && |states| == |steps| + 1 && states[0] == INITIAL
    && forall i :: 0 <= i < |steps| ==> Next(states[i], steps[i], states[i + 1])
  }

  lemma {:induction false} RunInv(states: seq<State>, steps: seq<Step>, n: nat)
    requires IsRun(states, steps) && n <= |steps|
    ensures Inv(states[n])
  {
    if n > 0 {
      RunInv(states, steps, n - 1);
      StepKeepsInv(states[n - 1], steps[n - 1], states[n]);
    }
  }

  /** What a cleanup can check before it deletes: no event it would delete lies beyond the cursor. */
  ghost predicate NothingBeyond(s: State, step: Step)
    requires step.Cleanup?
  {
    forall e :: e in s.events && Expired(e, step.cutoff, step.uploadEnabled, s.cursor) ==> e.id <= s.cursor
  }

  /** With uploading enabled no cleanup purges; in general none does exactly if each one's check holds. */
  lemma {:induction false} PurgesExactly(states: seq<State>, steps: seq<Step>, n: nat)
    requires IsRun(states, steps) && n <= |steps|
    ensures states[n].purged == {} <==>
            forall i :: 0 <= i < n && steps[i].Cleanup? ==> NothingBeyond(states[i], steps[i])
    ensures (forall i :: 0 <= i < n && steps[i].Cleanup? ==> steps[i].uploadEnabled) ==> states[n].purged == {}
  {
    hide NothingBeyond;
    if n > 0 {
      PurgesExactly(states, steps, n - 1);
      assert Next(states[n - 1], steps[n - 1], states[n]);
      if steps[n - 1].Cleanup? {
        CleanupPurges(states[n - 1], steps[n - 1], states[n]);
      }
    }
  }

  lemma CleanupPurges(s: State, step: Step, s': State)
    requires Next(s, step, s') && step.Cleanup?
    ensures s'.purged == {} <==> s.purged == {} && NothingBeyond(s, step)
    ensures step.uploadEnabled ==> NothingBeyond(s, step)
  {
    var gone := s.events - s'.events;
    if NothingBeyond(s, step) {
      forall id | id in SetIds(gone) ensures id <= s.cursor {
        var e :| e in gone && e.id == id;
      }
      assert Beyond(SetIds(gone), s.cursor) == {};
    } else {
      var e :| e in s.events && Expired(e, step.cutoff, step.uploadEnabled, s.cursor) && e.id > s.cursor;
      assert e in gone && e.id in SetIds(gone);
      assert e.id in s'.purged;
    }
  }

  /**
   In every state of every run, whether its cleanups happen with uploading enabled or not: the cursor
   skips no event and no event was deleted unless it was uploaded or purged, so deletion never outran
   the upload exactly if every purged event was uploaded after all; and an id still to be assigned
   lies beyond the cursor.
   */
  lemma RetentionNeverOutrunsUpload(states: seq<State>, steps: seq<Step>, n: nat)
    requires IsRun(states, steps) && n <= |steps|
    ensures var s := states[n];
            && (forall id :: id in s.inserted && id <= s.cursor ==> id in s.uploaded || id in s.purged)
            && s.deleted <= s.uploaded + s.purged
            && (s.deleted <= s.uploaded <==> s.purged <= s.uploaded)
            && (forall id :: id in s.inserted - s.uploaded - s.purged ==> exists e :: e in s.events && e.id == id)
            && (n < |steps| && steps[n].Insert? ==> steps[n].e.id > s.cursor)
  {
    RunInv(states, steps, n);
    var s := states[n];
    forall id | id in s.inserted - s.uploaded - s.purged ensures exists e :: e in s.events && e.id == id {
      assert id in SetIds(s.events);
    }
    if n < |steps| {
      assert Next(states[n], steps[n], states[n + 1]);
    }
  }

  /** While no cleanup purges, nothing is skipped and nothing is deleted before its upload. */
  lemma NothingIsLost(states: seq<State>, steps: seq<Step>, n: nat)
    requires IsRun(states, steps) && n <= |steps|
    requires forall i :: 0 <= i < n && steps[i].Cleanup? ==> NothingBeyond(states[i], steps[i])
    ensures var s := states[n];
            && (forall id :: id in s.inserted && id <= s.cursor ==> id in s.uploaded)
            && s.deleted <= s.uploaded
            && (forall id :: id in s.inserted - s.uploaded ==> exists e :: e in s.events && e.id == id)
  {
    PurgesExactly(states, steps, n);
    RetentionNeverOutrunsUpload(states, steps, n);
    var s := states[n];
    forall id | id in s.inserted - s.uploaded ensures exists e :: e in s.events && e.id == id {
      assert id in s.inserted - s.uploaded - s.purged;
    }
  }

  /** A query that finds nothing (with a positive limit) means that every event was uploaded or purged. */
  lemma EmptyQueryMeansDrained(states: seq<State>, steps: seq<Step>, n: nat)
    requires IsRun(states, steps) && n < |steps|
    requires steps[n].Query? && steps[n].limit > 0
    ensures steps[n].batch == [] <==> forall e :: e in states[n].events ==> e.id <= states[n].cursor
    ensures steps[n].batch == [] ==> states[n].inserted == states[n].uploaded + states[n].purged
  {
    RunInv(states, steps, n);
    var s, b := states[n], steps[n].batch;
    assert Next(states[n], steps[n], states[n + 1]);
    if b == [] {
      forall id | id in s.inserted ensures id in s.uploaded + s.purged {
        if id in SetIds(s.events) {
          var e :| e in s.events && e.id == id;
        }
      }
    } else {
      assert b[0] in s.events;
    }
  }

  /** With uploading enabled no query from the cursor on can tell whether a cleanup took place. */
  lemma CleanupHidesNothing(es: set<Event>, cutoff: int, cursor: nat, after: int, limit: nat, b: seq<Event>)
    requires after >= cursor
    ensures IsBatch(es, after, limit, b) <==> IsBatch(Retained(es, cutoff, true, cursor), after, limit, b)
  {
  }

  /**
   Retention is effective: a cleanup with uploading enabled, once no stored event lies beyond the cursor,
   leaves no event whose local date is before the cut-off, and one with uploading disabled never does.
   */
  lemma CleanupFinishes(states: seq<State>, steps: seq<Step>, n: nat)
    requires IsRun(states, steps) && n < |steps| && steps[n].Cleanup?
    requires steps[n].uploadEnabled ==> forall e :: e in states[n].events ==> e.id <= states[n].cursor
    ensures forall e :: e in states[n + 1].events <==>
              e in states[n].events && (e.utc + e.offset) / 86400 >= steps[n].cutoff / 86400
  {
    assert Next(states[n], steps[n], states[n + 1]);
  }

  /** A completed round moves the cursor forward. */
  lemma AdvanceMovesForward(states: seq<State>, steps: seq<Step>, n: nat)
    requires IsRun(states, steps) && n < |steps| && steps[n].Advance?
    ensures states[n + 1].cursor > states[n].cursor
  {
    RunInv(states, steps, n);
    assert Next(states[n], steps[n], states[n + 1]);
  }

  /**
   A cleanup with uploading disabled deletes only uploaded events exactly when the expired events
   beyond the cursor had been uploaded.
   */
  lemma DisabledCleanup(states: seq<State>, steps: seq<Step>, n: nat)
    requires IsRun(states, steps) && n < |steps| && steps[n].Cleanup? && !steps[n].uploadEnabled
    ensures states[n + 1].deleted - states[n].deleted <= states[n].uploaded <==>
            forall e :: e in states[n].events && e.id > states[n].cursor && !TextWindow(e, steps[n].cutoff) ==>
              e.id in states[n].uploaded
  {
    RunInv(states, steps, n);
    var s, s', cutoff := states[n], states[n + 1], steps[n].cutoff;
    assert Next(s, steps[n], s');
    var gone := s.events - s'.events;
    forall e | e in gone ensures e.id in s'.deleted - s.deleted {
      assert e.id in SetIds(gone) && e.id in SetIds(s.events);
    }
    if forall e :: e in s.events && e.id > s.cursor && !TextWindow(e, cutoff) ==> e.id in s.uploaded {
      forall id | id in s'.deleted - s.deleted ensures id in s.uploaded {
        var e :| e in gone && e.id == id;
        assert e.id in SetIds(s.events);
      }
    }
  }
}
