/** The minute level row by row: each row is exact or not whatever happens to any other. */
module MinuteHistory {
  import opened Common
  import opened Sums
  import opened Rollup
  import opened Aggregation
  import opened RollupHistory

  /** The unique key of the minute row that an event belongs to. */
  function MinuteKey(e: Event): Key { KeyOf(Row(Trunc(Minute, e.utc), Minute, e.dims, ZERO)) }

  function AtKey(es: set<Event>, k: Key): set<Event> { set e | e in es && MinuteKey(e) == k }

  function RowsAt(t: set<Row>, k: Key): set<Row> { set r | r in t && KeyOf(r) == k }

  lemma RowsOfAt(es: set<Event>, k: Key)
    requires k.width == Minute
    ensures RowsAt(RowsOf(es, Minute), k) == RowsOf(AtKey(es, k), Minute)
  {
    var f := (g: Group) => KeyOf(Row(g.bucket, Minute, g.dims, ZERO)) == k;
    SelectRows(es, Minute, f);
    assert RowsAt(RowsOf(es, Minute), k) == set r | r in RowsOf(es, Minute) && f(OwnGroup(r));
    assert AtKey(es, k) == set e | e in es && f(GroupOf(Minute, e));
  }

  lemma UpsertedAt(t: set<Row>, rows: set<Row>, t': set<Row>, k: Key)
    requires Upserted(t, rows, t')
    ensures Upserted(RowsAt(t, k), RowsAt(rows, k), RowsAt(t', k))
  {
    hide Upserted;
    var f := (key: Key) => key == k;
    UpsertedWhere(t, rows, t', f);
    assert RowsWhere(t, f) == RowsAt(t, k) && RowsWhere(rows, f) == RowsAt(rows, k);
    assert RowsWhere(t', f) == RowsAt(t', k);
  }

  /** A run reads every new event of the row, and reads the row's events all or not at all. */
  ghost predicate MetAt(s: State, now: Times, k: Key) {
    && (forall e :: e in AtKey(s.ever, k) - AtKey(Seen(s), k) && Closed(e) ==> Visible(e, s.events, now))
    && NoStraddle(s.events, AtKey(s.ever, k), now)
  }

  ghost predicate AllMetAt(states: seq<State>, steps: seq<Step>, n: nat, k: Key)
    requires n <= |steps| <= |states|
  {
    forall i :: 0 <= i < n && steps[i].Aggregate? ==> MetAt(states[i], steps[i].now, k)
  }

  /** The row under key `k` is the one recomputed from its events seen, or missing if there are none. */
  ghost predicate ExactAt(s: State, k: Key) { RowsAt(s.aggs, k) == RowsOf(AtKey(Seen(s), k), Minute) }

  lemma RunAtKey(stored: set<Event>, now: Times, t: set<Row>, t1: set<Row>, t2: set<Row>, t3: set<Row>, k: Key)
    requires Aggregated(stored, now, t, t1, t2, t3) && k.width == Minute
    ensures Upserted(RowsAt(t, k), RowsOf(MinuteWindow(AtKey(stored, k), now), Minute), RowsAt(t3, k))
  {
    hide Upserted, RowsOf, MergeRows;
    var rows := RowsOf(MinuteWindow(stored, now), Minute);
    UpsertedAt(t, rows, t1, k);
    RowsOfAt(MinuteWindow(stored, now), k);
    assert AtKey(MinuteWindow(stored, now), k) == MinuteWindow(AtKey(stored, k), now);
    RunLevels(stored, now, t, t1, t2, t3);
    SameAtLevel(t1, t3, k);
  }

  lemma SameAtLevel(t: set<Row>, t': set<Row>, k: Key)
    requires Level(t, k.width) == Level(t', k.width)
    ensures RowsAt(t, k) == RowsAt(t', k)
  {
    assert forall r :: r in t && KeyOf(r) == k ==> r in Level(t, k.width);
    assert forall r :: r in t' && KeyOf(r) == k ==> r in Level(t', k.width);
  }

  lemma OnlyMinutes(es: set<Event>, t: set<Row>, k: Key)
    requires k.width == Minute
    ensures Level(RowsOf(es, Minute), Minute) == RowsOf(es, Minute) && Level(RowsAt(t, k), Minute) == RowsAt(t, k)
  {
  }

  lemma StepKeepsExactAt(s: State, step: Step, s': State, k: Key)
    requires Inv(s) && Next(s, step, s') && NotBefore(DayOf(k.bucket), s'.floor) && k.width == Minute && ExactAt(s, k)
    requires step.Aggregate? ==> MetAt(s, step.now, k) && NoCollision(AtKey(s.ever, k))
    ensures ExactAt(s', k)
  {
    hide Aggregated, RowsOf, MinuteKey, NoCollision, Upserted;
    match step
    case Insert(e) =>
      assert Seen(s') == Seen(s);
    case Aggregate(now, t1, t2) =>
      assert Seen(s') == s.ever;
      RunAtKey(s.events, now, s.aggs, t1, t2, s'.aggs, k);
      OnlyMinutes(AtKey(Seen(s), k), s'.aggs, k);
      WholeAtKey(s, now, k);
      UpsertExact(RowsAt(s.aggs, k), RowsAt(s'.aggs, k), Minute,
                  AtKey(Seen(s), k), MinuteWindow(AtKey(s.events, k), now), AtKey(s.ever, k));
    case Cleanup(_, _, _, _, _) =>
      assert RowsAt(s'.aggs, k) == RowsAt(s.aggs, k);
  }

  lemma WholeAtKey(s: State, now: Times, k: Key)
    requires Inv(s) && MetAt(s, now, k)
    ensures Whole(AtKey(Seen(s), k), MinuteWindow(AtKey(s.events, k), now), AtKey(s.ever, k), Minute)
  {
    hide MinuteKey, Whole;
    var stored := AtKey(s.events, k);
    forall e | e in AtKey(s.ever, k) ensures Visible(e, s.events, now) <==> Visible(e, stored, now) {
    }
    assert NoStraddle(stored, AtKey(s.ever, k), now);
    MinuteWhole(AtKey(Seen(s), k), stored, AtKey(s.ever, k), now);
  }

  lemma NothingIsExactAt(k: Key)
    ensures ExactAt(INITIAL, k)
  {
    assert AtKey({}, k) == {} && RowsOf({}, Minute) == {};
  }

  lemma {:induction false} MetIsExactAt(states: seq<State>, steps: seq<Step>, n: nat, k: Key)
    requires IsRun(states, steps) && n <= |steps| && NotBefore(DayOf(k.bucket), states[n].floor) && k.width == Minute
    requires AllMetAt(states, steps, n, k) && NoCollision(AtKey(Seen(states[n]), k))
    ensures ExactAt(states[n], k)
  {
    hide Aggregated, MetAt, ExactAt, MinuteKey;
    if n == 0 {
      NothingIsExactAt(k);
    } else {
      var s, step, s' := states[n - 1], steps[n - 1], states[n];
      assert Next(s, step, s');
      RunInv(states, steps, n - 1);
      assert Seen(s) <= Seen(s');
      MetIsExactAt(states, steps, n - 1, k);
      StepKeepsExactAt(s, step, s', k);
    }
  }

  /** A run that does not meet the condition of a row misses one of its events for good. */
  lemma UnmetMissesAt(s: State, step: Step, s': State, k: Key) returns (e: Event)
    requires Inv(s) && Next(s, step, s') && step.Aggregate? && !MetAt(s, step.now, k)
    ensures e in AtKey(Seen(s'), k) && Closed(e)
    ensures Lacks(s'.aggs, Minute, e, Seen(s')) && Out(s', Minute, e)
  {
    hide Counted, Aggregated, Lacks, Out, MinuteKey;
    var now := step.now;
    assert Seen(s') == s.ever;
    if e' :| e' in AtKey(s.ever, k) - AtKey(Seen(s), k) && Closed(e') && !Visible(e', s.events, now) {
      e := e';
      UnreachedMisses(s, step, s', Minute, e);
    } else {
      var f, g :| f in AtKey(s.ever, k) && g in AtKey(s.ever, k) && Closed(f) && Closed(g) &&
                  GroupOf(Minute, f) == GroupOf(Minute, g) &&
                  !(Visible(f, s.events, now) <==> Visible(g, s.events, now));
      if Visible(f, s.events, now) {
        e := g;
        LeftOutMisses(s, step, s', g, f);
      } else {
        e := f;
        LeftOutMisses(s, step, s', f, g);
      }
    }
  }

  lemma UnmetIsInexactAt(states: seq<State>, steps: seq<Step>, i: nat, n: nat, k: Key)
    requires IsRun(states, steps) && i < n <= |steps| && steps[i].Aggregate? && k.width == Minute
    requires !MetAt(states[i], steps[i].now, k)
    ensures !ExactAt(states[n], k)
  {
    hide MetAt, ExactAt, Lacks, Out, Inv, Next, AtKey;
    RunInv(states, steps, i);
    var e := UnmetMissesAt(states[i], steps[i], states[i + 1], k);
    MemberAt(Seen(states[i + 1]), k, e);
    MissingForGood(states, steps, i + 1, n, Minute, e);
    MemberAt(Seen(states[n]), k, e);
    LackingRowIsInexact(states[n], e, k);
  }

  lemma MemberAt(es: set<Event>, k: Key, e: Event)
    ensures e in AtKey(es, k) <==> e in es && MinuteKey(e) == k
  {
  }

  lemma LackingRowIsInexact(s: State, e: Event, k: Key)
    requires e in AtKey(Seen(s), k) && Closed(e) && Lacks(s.aggs, Minute, e, Seen(s)) && k.width == Minute
    ensures !ExactAt(s, k)
  {
    hide RowsOf, Lacks;
    LackingIsInexact(s.aggs, Minute, e, Seen(s));
    RowsOfAt(Seen(s), k);
    assert EventRow(Seen(s), Minute, GroupOf(Minute, e)) in RowsAt(RowsOf(Seen(s), Minute), k);
  }

  /** Under one key no two groups can both have a row. */
  lemma ExactHasNoCollision(s: State, k: Key)
    requires Inv(s) && ExactAt(s, k)
    ensures NoCollision(AtKey(Seen(s), k))
  {
    var es := AtKey(Seen(s), k);
    forall e, f | e in es && f in es && Closed(e) && Closed(f) ensures e.dims == f.dims {
      assert GroupOf(Minute, e) in GroupsOf(es, Minute) && GroupOf(Minute, f) in GroupsOf(es, Minute);
      var r, q := EventRow(es, Minute, GroupOf(Minute, e)), EventRow(es, Minute, GroupOf(Minute, f));
      assert r in RowsAt(s.aggs, k) && q in RowsAt(s.aggs, k);
    }
  }

  /**
   For every run, every retention and every minute row of a kept day: the row is the one recomputed
   from all its events ever seen if and only if each run read its new events and read its events all or
   not at all, and no two groups share its key. Losses elsewhere do not matter.
   */
  lemma MinuteIsExact(states: seq<State>, steps: seq<Step>, n: nat, k: Key)
    requires IsRun(states, steps) && n <= |steps| && NotBefore(DayOf(k.bucket), states[n].floor) && k.width == Minute
    ensures ExactAt(states[n], k) <==> AllMetAt(states, steps, n, k) && NoCollision(AtKey(Seen(states[n]), k))
  {
    hide MetAt, NoCollision, Next, ExactAt;
    if AllMetAt(states, steps, n, k) && NoCollision(AtKey(Seen(states[n]), k)) {
      MetIsExactAt(states, steps, n, k);
    }
    if ExactAt(states[n], k) {
      RunInv(states, steps, n);
      ExactHasNoCollision(states[n], k);
      forall i | 0 <= i < n && steps[i].Aggregate? ensures MetAt(states[i], steps[i].now, k) {
        if !MetAt(states[i], steps[i].now, k) {
          UnmetIsInexactAt(states, steps, i, n, k);
        }
      }
    }
  }
}
