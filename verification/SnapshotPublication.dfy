/**
 How the snapshot thread hands the connection list to the UI loop: data under a lock and a generation
 counter outside it. The steps of the two threads interleave in any order.
 */
module SnapshotPublication {
  import opened Common

  datatype Publisher = Waiting | Holding | Stored | Bumped

  datatype Ui = Top | Sampled(tick: bool) | Refreshing | Pulled

  /**
   `data` numbers the published lists, `view` is the number of the list the UI shows, `sampled` the
   generation it read at the top of the iteration.
   */
  datatype State = State(
    data: nat, generation: nat, publisher: Publisher,
    ui: Ui, sampled: nat, view: nat, lastSeen: nat, needsRefresh: bool)

  datatype Step =
    | Lock | Store | Bump | Unlock
    | SampleGeneration(tick: bool) | BeginRefresh | Skip | Pull | Remember | UserEvent

  const INITIAL := State(0, 0, Waiting, Top, 0, 0, U64_MAX, true)

  predicate Locked(s: State) { s.publisher != Waiting }

  predicate MustRefresh(s: State)
    requires s.ui.Sampled?
  {
    s.needsRefresh || (s.ui.tick && s.sampled != s.lastSeen)
  }

  ghost predicate Next(s: State, step: Step, s': State) {
    match step
    case Lock => s.publisher == Waiting && s' == s.(publisher := Holding)
    case Store => s.publisher == Holding && s' == s.(publisher := Stored, data := s.data + 1)
    case Bump => s.publisher == Stored && s' == s.(publisher := Bumped, generation := s.generation + 1)
    case Unlock => s.publisher == Bumped && s' == s.(publisher := Waiting)
    case SampleGeneration(tick) => s.ui == Top && s' == s.(ui := Sampled(tick), sampled := s.generation)
    case BeginRefresh => s.ui.Sampled? && MustRefresh(s) && s' == s.(ui := Refreshing)
    case Skip => s.ui.Sampled? && !MustRefresh(s) && s' == s.(ui := Top)
    case Pull => s.ui == Refreshing && !Locked(s) && s' == s.(ui := Pulled, view := s.data)
    case Remember => s.ui == Pulled && s' == s.(ui := Top, lastSeen := s.sampled, needsRefresh := false)
    case UserEvent => s.ui == Top && s' == s.(needsRefresh := true)
  }

  ghost predicate Inv(s: State) {
    && s.data == s.generation + (if s.publisher == Stored then 1 else 0)
    && s.view <= s.data
    && s.sampled <= s.generation
    && (s.lastSeen != U64_MAX ==> s.lastSeen <= s.view)
    && (s.ui == Pulled ==> s.sampled <= s.view)
    && (s.lastSeen == U64_MAX ==> s.needsRefresh || s.generation >= U64_MAX)
  }

  ghost predicate IsRun(states: seq<State>, steps: seq<Step>) {
    && |states| == |steps| + 1 && states[0] == INITIAL
    && forall i :: 0 <= i < |steps| ==> Next(states[i], steps[i], states[i + 1])
  }

  lemma {:induction false} RunInv(states: seq<State>, steps: seq<Step>, n: nat)
    requires IsRun(states, steps) && n <= |steps|
    ensures Inv(states[n])
  {
    if n > 0 {
      RunInv(states, steps, n - 1);
      assert Next(states[n - 1], steps[n - 1], states[n]);
    }
  }

  /**
   No update is lost: when a tick decides to skip the refresh, the list on screen is at least as new
   as the last publication completed when the tick sampled the generation. The 64-bit counter must
   not have run through all its values.
   */
  lemma SkippedTickIsUpToDate(states: seq<State>, steps: seq<Step>, n: nat, m: nat)
    requires IsRun(states, steps) && m < n < |steps|
    requires steps[m].SampleGeneration? && steps[m].tick && steps[n].Skip?
    requires forall i :: m < i < n ==> !steps[i].SampleGeneration?
    requires states[n].generation < U64_MAX
    ensures states[n].view >= states[m].generation
    ensures states[m].publisher in {Waiting, Holding, Bumped} ==> states[n].view >= states[m].data
  {
    RunInv(states, steps, m);
    RunInv(states, steps, n);
    SampleStays(states, steps, m, n);
    assert Next(states[n], steps[n], states[n + 1]);
  }

  /** The sampled generation and the tick flag stay put until the decision. */
  lemma {:induction false} SampleStays(states: seq<State>, steps: seq<Step>, m: nat, n: nat)
    requires IsRun(states, steps) && m < n <= |steps|
    requires steps[m].SampleGeneration?
    requires forall i :: m < i < n ==> !steps[i].SampleGeneration?
    ensures states[n].sampled == states[m].generation
    ensures states[n].ui.Sampled? ==> states[n].ui.tick == steps[m].tick
  {
    assert Next(states[n - 1], steps[n - 1], states[n]);
    if n > m + 1 {
      SampleStays(states, steps, m, n - 1);
    }
  }
}
