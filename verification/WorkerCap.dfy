/**
 The request-handler cap of the HTTP server: one acceptor thread that loads the counter, adds to it
 and spawns, and workers that subtract when they finish. Load and add are separate atomic steps.
 */
module WorkerCap {
  const MAX_CONCURRENT_REQUESTS := 32

  datatype Acceptor = Accepting | Checking | Admitted | Spawning | SpawnFailed

  /** `crashed` counts workers that panicked: they never reach their subtraction. */
  datatype State = State(active: int, acceptor: Acceptor, running: nat, crashed: nat)

  datatype Step = Arrive | PassCheck | Backpressure | Add | SpawnOk | SpawnError | TakeBack | Finish | Panic

  const INITIAL := State(0, Accepting, 0, 0)

  ghost predicate Next(s: State, step: Step, s': State) {
    match step
    case Arrive => s.acceptor == Accepting && s' == s.(acceptor := Checking)
    case PassCheck => s.acceptor == Checking && s.active < MAX_CONCURRENT_REQUESTS && s' == s.(acceptor := Admitted)
    case Backpressure => s.acceptor == Checking && s.active >= MAX_CONCURRENT_REQUESTS && s' == s
    case Add => s.acceptor == Admitted && s' == s.(acceptor := Spawning, active := s.active + 1)
    case SpawnOk => s.acceptor == Spawning && s' == s.(acceptor := Accepting, running := s.running + 1)
    case SpawnError => s.acceptor == Spawning && s' == s.(acceptor := SpawnFailed)
    case TakeBack => s.acceptor == SpawnFailed && s' == s.(acceptor := Accepting, active := s.active - 1)
    case Finish => s.running > 0 && s' == s.(running := s.running - 1, active := s.active - 1)
    case Panic => s.running > 0 && s' == s.(running := s.running - 1, crashed := s.crashed + 1)
  }

  function InHand(a: Acceptor): nat { if a == Spawning || a == SpawnFailed then 1 else 0 }

  ghost predicate Inv(s: State) {
    && s.active == s.running + s.crashed + InHand(s.acceptor)
    && s.active <= MAX_CONCURRENT_REQUESTS
    && (s.acceptor == Admitted ==> s.active < MAX_CONCURRENT_REQUESTS)
  }

  ghost predicate IsRun(states: seq<State>, steps: seq<Step>) {
    && |states| == |steps| + 1 && states[0] == INITIAL
    && forall i :: 0 <= i < |steps| ==> Next(states[i], steps[i], states[i + 1])
  }

  /**
   In every state of every interleaving the counter is the live workers, plus those that crashed,
   plus at most the one being spawned, and it never exceeds the cap.
   */
  lemma {:induction false} CapHolds(states: seq<State>, steps: seq<Step>, n: nat)
    requires IsRun(states, steps) && n <= |steps|
    ensures Inv(states[n]) && states[n].active <= 32 && states[n].running + states[n].crashed <= 32
  {
    if n > 0 {
      CapHolds(states, steps, n - 1);
      assert Next(states[n - 1], steps[n - 1], states[n]);
    }
  }

  /** Without panics the counter is exact, so the cap is reached only by that many live requests. */
  lemma {:induction false} ExactWithoutPanics(states: seq<State>, steps: seq<Step>, n: nat)
    requires IsRun(states, steps) && n <= |steps|
    requires forall i :: 0 <= i < n ==> steps[i] != Panic
    ensures states[n].crashed == 0 && states[n].active == states[n].running + InHand(states[n].acceptor)
  {
    CapHolds(states, steps, n);
    if n > 0 {
      ExactWithoutPanics(states, steps, n - 1);
      assert Next(states[n - 1], steps[n - 1], states[n]);
    }
  }

  lemma CrashesOnlyGrow(s: State, step: Step, s': State)
    requires Next(s, step, s')
    ensures s'.crashed >= s.crashed
  {
  }

  /** A crashed worker's slot is never given back: after 32 panics no request is admitted any more. */
  lemma {:induction false} CrashesBlockForever(states: seq<State>, steps: seq<Step>, n: nat, m: nat)
    requires IsRun(states, steps) && n <= m < |steps|
    requires states[n].crashed == MAX_CONCURRENT_REQUESTS
    ensures states[m].crashed == MAX_CONCURRENT_REQUESTS
    ensures steps[m] != PassCheck && steps[m] != Add && steps[m] != SpawnOk
  {
    if n < m {
      CrashesBlockForever(states, steps, n, m - 1);
      CapHolds(states, steps, m - 1);
      CrashesOnlyGrow(states[m - 1], steps[m - 1], states[m]);
    }
    CapHolds(states, steps, m);
    assert Next(states[m], steps[m], states[m + 1]);
  }

  // ----- Exactly when the server can still admit a request

  /** The state that `steps` lead to from `s`, in which each step is possible where it is taken. */
  ghost predicate Leads(s: State, steps: seq<Step>, s': State)
    decreases |steps|
  {
    if steps == [] then s == s'
    else exists mid :: Next(s, steps[0], mid) && Leads(mid, steps[1..], s')
  }

  /** Some continuation admits a request. */
  ghost predicate CanAdmit(s: State) {
    exists steps, mid, s' :: Leads(s, steps, mid) && Next(mid, PassCheck, s')
  }

  lemma LeadsAfter(s: State, step: Step, mid: State, steps: seq<Step>, s': State)
    requires Next(s, step, mid) && Leads(mid, steps, s')
    ensures Leads(s, [step] + steps, s')
  {
    assert ([step] + steps)[1..] == steps;
  }

  /** Let the live workers finish, then the check passes. */
  lemma {:induction false} FinishThenAdmit(s: State)
    requires Inv(s) && s.acceptor == Checking && s.crashed < MAX_CONCURRENT_REQUESTS
    ensures CanAdmit(s)
    decreases s.running
  {
    if s.running == 0 {
      assert Leads(s, [], s) && Next(s, PassCheck, s.(acceptor := Admitted));
    } else {
      var mid := s.(running := s.running - 1, active := s.active - 1);
      FinishThenAdmit(mid);
      FirstStep(s, Finish, mid);
    }
  }

  lemma FirstStep(s: State, step: Step, mid: State)
    requires Next(s, step, mid) && CanAdmit(mid)
    ensures CanAdmit(s)
  {
    var steps, last, s' :| Leads(mid, steps, last) && Next(last, PassCheck, s');
    LeadsAfter(s, step, mid, steps, last);
  }

  function StepsToCheck(a: Acceptor): nat {
    match a
    case Checking => 0
    case Accepting => 1
    case SpawnFailed => 2
    case Spawning => 3
    case Admitted => 4
  }

  /** The acceptor comes back to its check from wherever it is. */
  lemma ReachCheck(s: State)
    requires Inv(s) && s.crashed < MAX_CONCURRENT_REQUESTS
    ensures CanAdmit(s)
    decreases StepsToCheck(s.acceptor)
  {
    match s.acceptor
    case Checking => FinishThenAdmit(s);
    case Accepting =>
      ReachCheck(s.(acceptor := Checking));
      FirstStep(s, Arrive, s.(acceptor := Checking));
    case SpawnFailed =>
      var mid := s.(acceptor := Accepting, active := s.active - 1);
      ReachCheck(mid);
      FirstStep(s, TakeBack, mid);
    case Spawning =>
      ReachCheck(s.(acceptor := SpawnFailed));
      FirstStep(s, SpawnError, s.(acceptor := SpawnFailed));
    case Admitted =>
      var mid := s.(acceptor := Spawning, active := s.active + 1);
      ReachCheck(mid);
      FirstStep(s, Add, mid);
  }

  lemma StepKeepsInv(s: State, step: Step, s': State)
    requires Inv(s) && Next(s, step, s')
    ensures Inv(s') && s'.crashed >= s.crashed
  {
  }

  lemma {:induction false} FullStaysFull(s: State, steps: seq<Step>, s': State)
    requires Inv(s) && s.crashed == MAX_CONCURRENT_REQUESTS && Leads(s, steps, s')
    ensures Inv(s') && s'.crashed == MAX_CONCURRENT_REQUESTS
    decreases |steps|
  {
    if steps != [] {
      var mid :| Next(s, steps[0], mid) && Leads(mid, steps[1..], s');
      StepKeepsInv(s, steps[0], mid);
      FullStaysFull(mid, steps[1..], s');
    }
  }

  /** In every reachable state: some continuation admits a request exactly while fewer than 32 workers crashed. */
  lemma AdmitsUnlessAllCrashed(states: seq<State>, steps: seq<Step>, n: nat)
    requires IsRun(states, steps) && n <= |steps|
    ensures CanAdmit(states[n]) <==> states[n].crashed < 32
  {
    CapHolds(states, steps, n);
    var s := states[n];
    if s.crashed < MAX_CONCURRENT_REQUESTS {
      ReachCheck(s);
    } else if CanAdmit(s) {
      var more, mid, s' :| Leads(s, more, mid) && Next(mid, PassCheck, s');
      FullStaysFull(s, more, mid);
    }
  }

  /** One request whose worker panics. */
  const CRASH := [Arrive, PassCheck, Add, SpawnOk, Panic]

  /** A run in which `k` requests in a row panic: the server that admits nothing can be reached. */
  lemma {:induction false} CrashRun(k: nat) returns (states: seq<State>, steps: seq<Step>)
    requires k <= 32
    ensures IsRun(states, steps) && states[|steps|] == State(k, Accepting, 0, k)
  {
    if k == 0 {
      states, steps := [INITIAL], [];
    } else {
      states, steps := CrashRun(k - 1);
      var n := |steps|;
      states := states + [State(k - 1, Checking, 0, k - 1), State(k - 1, Admitted, 0, k - 1),
                          State(k, Spawning, 0, k - 1), State(k, Accepting, 1, k - 1), State(k, Accepting, 0, k)];
      steps := steps + CRASH;
      forall i | 0 <= i < |steps| ensures Next(states[i], steps[i], states[i + 1]) {
        if i >= n {
          assert steps[i] == CRASH[i - n];
        }
      }
    }
  }
}
