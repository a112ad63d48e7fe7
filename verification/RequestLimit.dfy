/** Limiting concurrent requests by testing a counter and raising it later, under any interleaving. */
module RequestLimit {
  /** The trace exporter counts starts and finishes as well; the topology sink has the one counter only. */
  datatype Client = TraceExporter | TopologySink

  /** How far a thread is in its call; every move to the next phase is one atomic access. */
  datatype Phase = Idle | Entered | Admitted | Counted | Raised

  datatype State = State(client: Client, max: nat, threads: seq<Phase>, start: nat, finished: nat, running: int,
                         inFlight: nat, leaving: nat, shutdown: bool)

  datatype Step =
    | Enter(thread: nat)
    | Admit(thread: nat)
    | CountStart(thread: nat)
    | Raise(thread: nat)
    | Launch(thread: nat)
    | Leave
    | Finish
    | Shutdown

  function Initial(client: Client, max: nat, threads: nat): State {
    State(client, max, seq(threads, _ => Idle), 0, 0, 0, 0, 0, false)
  }

  /** What the two tests come to: the exporter refuses at `max`, the sink above `max`. */
  predicate Admits(s: State) {
    if s.client == TraceExporter then !(s.running >= s.max) else !(s.running > s.max)
  }

  function Limit(s: State): nat { if s.client == TraceExporter then s.max else s.max + 1 }

  predicate At(s: State, t: nat, p: Phase) { t < |s.threads| && s.threads[t] == p }

  function Move(s: State, t: nat, p: Phase): State
    requires t < |s.threads|
  {
    s.(threads := s.threads[t := p])
  }

  /** One atomic step; a step that is not possible changes nothing. */
  function Next(s: State, step: Step): State {
    match step
    case Enter(t) =>
      if At(s, t, Idle) && !(s.client == TraceExporter && s.shutdown) then Move(s, t, Entered) else s
    case Admit(t) =>
      if At(s, t, Entered) then Move(s, t, if Admits(s) then Admitted else Idle) else s
    case CountStart(t) =>
      if At(s, t, Admitted) && s.client == TraceExporter then Move(s, t, Counted).(start := s.start + 1) else s
    case Raise(t) =>
      if At(s, t, if s.client == TraceExporter then Counted else Admitted)
      then Move(s, t, Raised).(running := s.running + 1) else s
    case Launch(t) =>
      if At(s, t, Raised) then Move(s, t, Idle).(inFlight := s.inFlight + 1) else s
    case Leave =>
      if s.inFlight == 0 then s
      else s.(inFlight := s.inFlight - 1, running := s.running - 1,
              leaving := if s.client == TraceExporter then s.leaving + 1 else s.leaving)
    case Finish =>
      if s.leaving == 0 then s else s.(leaving := s.leaving - 1, finished := s.finished + 1)
    case Shutdown => s.(shutdown := true)
  }

  function Run(s: State, steps: seq<Step>): State
    decreases |steps|
  {
    if steps == [] then s else Run(Next(s, steps[0]), steps[1..])
  }

  /** How many threads are in a phase. */
  function Count(threads: seq<Phase>, p: Phase): (n: nat)
    ensures n <= |threads|
  {
    if threads == [] then 0 else (if threads[0] == p then 1 else 0) + Count(threads[1..], p)
  }

  function One(b: bool): nat { if b then 1 else 0 }

  lemma {:induction false} CountMoved(threads: seq<Phase>, t: nat, p: Phase, q: Phase)
    requires t < |threads|
    ensures Count(threads[t := p], q) == Count(threads, q) - One(threads[t] == q) + One(p == q)
  {
    if t > 0 {
      assert threads[t := p][1..] == threads[1..][t - 1 := p];
      CountMoved(threads[1..], t - 1, p, q);
    } else {
      assert threads[t := p][1..] == threads[1..];
    }
  }

  lemma {:induction false} DifferentPhases(threads: seq<Phase>, p: Phase, q: Phase, r: Phase)
    requires p != q && q != r && p != r
    ensures Count(threads, p) + Count(threads, q) + Count(threads, r) <= |threads|
  {
    if threads != [] {
      DifferentPhases(threads[1..], p, q, r);
    }
  }

  lemma {:induction false} NoneElsewhere(n: nat, p: Phase)
    ensures Count(seq(n, _ => Idle), p) == if p == Idle then n else 0
  {
    if n > 0 {
      assert seq(n, _ => Idle)[1..] == seq(n - 1, _ => Idle);
      NoneElsewhere(n - 1, p);
    }
  }

  /** Requests admitted but not yet counted as running. */
  function Pending(s: State): nat { Count(s.threads, Admitted) + Count(s.threads, Counted) }

  predicate Balanced(s: State) {
    s.client == TraceExporter ==> s.start == s.finished + s.running + Count(s.threads, Counted) + s.leaving
  }

  predicate RunningIsReal(s: State) { s.running == s.inFlight + Count(s.threads, Raised) }

  predicate Bounded(s: State) { s.running + Pending(s) <= Limit(s) - 1 + |s.threads| }

  lemma MoveCounts(s: State, t: nat, p: Phase)
    requires t < |s.threads|
    ensures forall q :: Count(Move(s, t, p).threads, q) == Count(s.threads, q) - One(s.threads[t] == q) + One(p == q)
  {
    forall q
      ensures Count(Move(s, t, p).threads, q) == Count(s.threads, q) - One(s.threads[t] == q) + One(p == q)
    {
      CountMoved(s.threads, t, p, q);
    }
  }

  lemma StepBalanced(s: State, step: Step)
    requires Balanced(s)
    ensures Balanced(Next(s, step))
  {
    match step {
      case Enter(t) =>
        if t < |s.threads| { MoveCounts(s, t, Entered); }
      case Admit(t) =>
        if t < |s.threads| { MoveCounts(s, t, Admitted); MoveCounts(s, t, Idle); }
      case CountStart(t) =>
        if t < |s.threads| { MoveCounts(s, t, Counted); }
      case Raise(t) =>
        if t < |s.threads| { MoveCounts(s, t, Raised); }
      case Launch(t) =>
        if t < |s.threads| { MoveCounts(s, t, Idle); }
      case Leave =>
      case Finish =>
      case Shutdown =>
    }
  }

  lemma StepReal(s: State, step: Step)
    requires RunningIsReal(s)
    ensures RunningIsReal(Next(s, step))
  {
    match step {
      case Enter(t) =>
        if t < |s.threads| { MoveCounts(s, t, Entered); }
      case Admit(t) =>
        if t < |s.threads| { MoveCounts(s, t, Admitted); MoveCounts(s, t, Idle); }
      case CountStart(t) =>
        if t < |s.threads| { MoveCounts(s, t, Counted); }
      case Raise(t) =>
        if t < |s.threads| { MoveCounts(s, t, Raised); }
      case Launch(t) =>
        if t < |s.threads| { MoveCounts(s, t, Idle); }
      case Leave =>
      case Finish =>
      case Shutdown =>
    }
  }

  lemma AdmitBounded(s: State, t: nat)
    requires At(s, t, Entered) && Admits(s) && Bounded(s)
    ensures Bounded(Move(s, t, Admitted))
  {
    MoveCounts(s, t, Admitted);
    DifferentPhases(s.threads[t := Admitted], Admitted, Counted, Idle);
  }

  lemma StepBounded(s: State, step: Step)
    requires Bounded(s)
    ensures Bounded(Next(s, step))
  {
    match step {
      case Enter(t) =>
        if t < |s.threads| { MoveCounts(s, t, Entered); }
      case Admit(t) =>
        if t < |s.threads| { MoveCounts(s, t, Idle); }
        if At(s, t, Entered) && Admits(s) { AdmitBounded(s, t); }
      case CountStart(t) =>
        if t < |s.threads| { MoveCounts(s, t, Counted); }
      case Raise(t) =>
        if t < |s.threads| { MoveCounts(s, t, Raised); }
      case Launch(t) =>
        if t < |s.threads| { MoveCounts(s, t, Idle); }
      case Leave =>
      case Finish =>
      case Shutdown =>
    }
  }

  lemma StepFrame(s: State, step: Step)
    ensures var n := Next(s, step); n.client == s.client && n.max == s.max && |n.threads| == |s.threads|
  {
  }

  lemma {:induction false} RunKeeps(s: State, steps: seq<Step>)
    requires Balanced(s) && RunningIsReal(s) && Bounded(s)
    ensures var r := Run(s, steps);
            && Balanced(r) && RunningIsReal(r) && Bounded(r)
            && r.client == s.client && r.max == s.max && |r.threads| == |s.threads|
    decreases |steps|
  {
    if steps != [] {
      StepBalanced(s, steps[0]);
      StepReal(s, steps[0]);
      StepBounded(s, steps[0]);
      StepFrame(s, steps[0]);
      RunKeeps(Next(s, steps[0]), steps[1..]);
    }
  }

  /** In every reachable state the counters account for every call, and the exporter passes the limit by less than one
      request a thread, the sink by at most one. */
  lemma Reachable(client: Client, max: nat, n: nat, steps: seq<Step>)
    requires n >= 1
    ensures var s := Run(Initial(client, max, n), steps);
            && (client == TraceExporter ==>
                  s.start == s.finished + s.running + Count(s.threads, Counted) + s.leaving && s.running <= max - 1 + n)
            && (client == TopologySink ==> s.running <= max + n)
            && 0 <= s.running
  {
    var init := Initial(client, max, n);
    NoneElsewhere(n, Admitted);
    NoneElsewhere(n, Counted);
    NoneElsewhere(n, Raised);
    RunKeeps(init, steps);
  }

  // ----- after shutdown -----

  /** Calls that are past the shutdown test but have not been counted as started. */
  function Passed(s: State): nat { Count(s.threads, Entered) + Count(s.threads, Admitted) }

  lemma StepAfterShutdown(s: State, step: Step)
    requires s.shutdown && s.client == TraceExporter
    ensures var n := Next(s, step); n.start + Passed(n) <= s.start + Passed(s) && n.shutdown && n.client == s.client
  {
    match step {
      case Enter(t) =>
      case Admit(t) =>
        if t < |s.threads| { MoveCounts(s, t, Admitted); MoveCounts(s, t, Idle); }
      case CountStart(t) =>
        if t < |s.threads| { MoveCounts(s, t, Counted); }
      case Raise(t) =>
        if t < |s.threads| { MoveCounts(s, t, Raised); }
      case Launch(t) =>
        if t < |s.threads| { MoveCounts(s, t, Idle); }
      case Leave =>
      case Finish =>
      case Shutdown =>
    }
  }

  /** After a shutdown only calls that had already passed the test can still start: at most one a thread. */
  lemma {:induction false} AfterShutdown(s: State, steps: seq<Step>)
    requires s.shutdown && s.client == TraceExporter
    ensures Run(s, steps).start + Passed(Run(s, steps)) <= s.start + Passed(s) <= s.start + |s.threads|
    decreases |steps|
  {
    DifferentPhases(s.threads, Entered, Admitted, Counted);
    if steps != [] {
      StepAfterShutdown(s, steps[0]);
      AfterShutdown(Next(s, steps[0]), steps[1..]);
    }
  }

  // ----- the bound is reached -----

  lemma {:induction false} RunConcat(s: State, a: seq<Step>, b: seq<Step>)
    ensures Run(s, a + b) == Run(Run(s, a), b)
    decreases |a|
  {
    if a == [] {
      assert a + b == b;
    } else {
      assert (a + b)[0] == a[0] && (a + b)[1..] == a[1..] + b;
      RunConcat(Next(s, a[0]), a[1..], b);
    }
  }

  /** The step that takes a thread into a phase, when it is in the phase before. */
  function Into(p: Phase, t: nat): Step {
    match p
    case Idle => Launch(t)
    case Entered => Enter(t)
    case Admitted => Admit(t)
    case Counted => CountStart(t)
    case Raised => Raise(t)
  }

  predicate Ready(s: State, p: Phase, q: Phase) {
    match p
    case Idle => q == Raised
    case Entered => q == Idle && !s.shutdown
    case Admitted => q == Entered && Admits(s)
    case Counted => q == Admitted && s.client == TraceExporter
    case Raised => q == if s.client == TraceExporter then Counted else Admitted
  }

  predicate SameSetting(s: State, r: State) {
    r.client == s.client && r.max == s.max && |r.threads| == |s.threads| && r.shutdown == s.shutdown
  }

  /** Every thread from `k` on makes the same step. */
  lemma {:induction false} Sweep(s: State, p: Phase, q: Phase, k: nat) returns (steps: seq<Step>)
    requires k <= |s.threads| && Ready(s, p, q)
    requires forall i :: 0 <= i < |s.threads| ==> s.threads[i] == if i < k then p else q
    ensures var r := Run(s, steps);
            && SameSetting(s, r) && (forall i :: 0 <= i < |r.threads| ==> r.threads[i] == p)
            && r.running == s.running + One(p == Raised) * (|s.threads| - k)
    decreases |s.threads| - k
  {
    if k == |s.threads| {
      steps := [];
    } else {
      var n := Next(s, Into(p, k));
      var rest := Sweep(n, p, q, k + 1);
      steps := [Into(p, k)] + rest;
      assert steps[1..] == rest;
    }
  }

  predicate AllAt(s: State, p: Phase) { forall i :: 0 <= i < |s.threads| ==> s.threads[i] == p }

  /** One thread takes a call all the way; the others stand still. */
  lemma OneCall(s: State) returns (steps: seq<Step>)
    requires AllAt(s, Idle) && |s.threads| >= 1 && Admits(s) && (s.client == TraceExporter ==> !s.shutdown)
    ensures var r := Run(s, steps); SameSetting(s, r) && AllAt(r, Idle) && r.running == s.running + 1
  {
    var admitted := if s.client == TraceExporter then [Enter(0), Admit(0), CountStart(0)] else [Enter(0), Admit(0)];
    var a := Next(Next(s, Enter(0)), Admit(0));
    var b := if s.client == TraceExporter then Next(a, CountStart(0)) else a;
    RunTwo(s, Enter(0), Admit(0));
    assert Run(s, admitted) == b by {
      if s.client == TraceExporter {
        RunConcat(s, [Enter(0), Admit(0)], [CountStart(0)]);
        assert [Enter(0), Admit(0)] + [CountStart(0)] == admitted;
        RunOne(a, CountStart(0));
      }
    }
    steps := admitted + [Raise(0), Launch(0)];
    RunConcat(s, admitted, [Raise(0), Launch(0)]);
    RunTwo(b, Raise(0), Launch(0));
  }

  lemma RunOne(s: State, x: Step)
    ensures Run(s, [x]) == Next(s, x)
  {
    assert Run(Next(s, x), []) == Next(s, x);
  }

  lemma RunTwo(s: State, x: Step, y: Step)
    ensures Run(s, [x, y]) == Next(Next(s, x), y)
  {
    assert [x, y][1..] == [y];
    RunOne(Next(s, x), y);
  }

  lemma {:induction false} Fill(s: State, c: nat) returns (steps: seq<Step>)
    requires AllAt(s, Idle) && |s.threads| >= 1 && !s.shutdown && s.running + c <= Limit(s)
    ensures var r := Run(s, steps); SameSetting(s, r) && AllAt(r, Idle) && r.running == s.running + c
    decreases c
  {
    if c == 0 {
      steps := [];
    } else {
      var first := OneCall(s);
      var rest := Fill(Run(s, first), c - 1);
      steps := first + rest;
      RunConcat(s, first, rest);
    }
  }

  /** All threads test before any of them raises the counter. */
  lemma Together(s: State) returns (steps: seq<Step>)
    requires AllAt(s, Idle) && !s.shutdown && Admits(s)
    ensures Run(s, steps).running == s.running + |s.threads|
  {
    var e := Sweep(s, Entered, Idle, 0);
    var s1 := Run(s, e);
    var a := Sweep(s1, Admitted, Entered, 0);
    var s2 := Run(s1, a);
    RunConcat(s, e, a);
    var c, q := [], Admitted;
    if s.client == TraceExporter {
      c := Sweep(s2, Counted, Admitted, 0);
      q := Counted;
    }
    var s3 := Run(s2, c);
    RunConcat(s, e + a, c);
    var r := Sweep(s3, Raised, q, 0);
    RunConcat(s, e + a + c, r);
    steps := e + a + c + r;
  }

  /** The overshoot is real: some interleaving brings the counter to the bound. */
  lemma BoundIsReached(client: Client, max: nat, n: nat) returns (steps: seq<Step>)
    requires n >= 1 && (client == TraceExporter ==> max >= 1)
    ensures Run(Initial(client, max, n), steps).running == if client == TraceExporter then max - 1 + n else max + n
  {
    var init := Initial(client, max, n);
    var filled := Fill(init, Limit(init) - 1);
    var rest := Together(Run(init, filled));
    steps := filled + rest;
    RunConcat(init, filled, rest);
  }

  /** An exporter that allows no requests admits none, whatever the interleaving. */
  lemma {:induction false} NoneAllowed(n: nat, steps: seq<Step>)
    ensures Run(Initial(TraceExporter, 0, n), steps).running == 0
  {
    NoneElsewhere(n, Admitted);
    NoneElsewhere(n, Counted);
    NoneElsewhere(n, Raised);
    NoneRun(Initial(TraceExporter, 0, n), steps);
  }

  predicate Shut(s: State) {
    && s.client == TraceExporter && s.max == 0
    && s.running == 0 && Pending(s) == 0 && Count(s.threads, Raised) == 0 && s.inFlight == 0
  }

  lemma {:induction false} CountedAt(threads: seq<Phase>, t: nat)
    requires t < |threads|
    ensures Count(threads, threads[t]) > 0
  {
    if t > 0 {
      CountedAt(threads[1..], t - 1);
    }
  }

  lemma {:induction false} NoneRun(s: State, steps: seq<Step>)
    requires Shut(s)
    ensures Shut(Run(s, steps))
    decreases |steps|
  {
    if steps != [] {
      NoneStep(s, steps[0]);
      NoneRun(Next(s, steps[0]), steps[1..]);
    }
  }

  lemma NoneStep(s: State, step: Step)
    requires Shut(s)
    ensures Shut(Next(s, step))
  {
    match step {
      case Enter(t) =>
        if t < |s.threads| { MoveCounts(s, t, Entered); }
      case Admit(t) =>
        if t < |s.threads| { MoveCounts(s, t, Idle); }
      case CountStart(t) =>
        if t < |s.threads| { CountedAt(s.threads, t); }
      case Raise(t) =>
        if t < |s.threads| { CountedAt(s.threads, t); }
      case Launch(t) =>
        if t < |s.threads| { CountedAt(s.threads, t); }
      case Leave =>
      case Finish =>
      case Shutdown =>
    }
  }

  // ----- what a shutdown stops -----

  lemma {:induction false} NoneAt(threads: seq<Phase>, p: Phase, q: Phase)
    requires p != q && forall i :: 0 <= i < |threads| ==> threads[i] == p
    ensures Count(threads, q) == 0
  {
    if threads != [] {
      NoneAt(threads[1..], p, q);
    }
  }

  lemma {:induction false} StartGrows(s: State, steps: seq<Step>)
    ensures s.start <= Run(s, steps).start
    decreases |steps|
  {
    if steps != [] {
      StartGrows(Next(s, steps[0]), steps[1..]);
    }
  }

  /** An exporter that is shut down while no call is under way never starts another one. */
  lemma ShutdownStops(s: State, steps: seq<Step>)
    requires s.client == TraceExporter && AllAt(s, Idle)
    ensures Run(s, [Shutdown] + steps).start == s.start
  {
    var n := Next(s, Shutdown);
    assert ([Shutdown] + steps)[1..] == steps;
    NoneAt(n.threads, Idle, Entered);
    NoneAt(n.threads, Idle, Admitted);
    AfterShutdown(n, steps);
    StartGrows(n, steps);
  }

  /** The sink takes calls after a shutdown as before. */
  lemma SinkGoesOn(s: State) returns (steps: seq<Step>)
    requires s.client == TopologySink && AllAt(s, Idle) && |s.threads| >= 1 && s.running <= s.max
    ensures Run(s, [Shutdown] + steps).running == s.running + 1
  {
    steps := OneCall(Next(s, Shutdown));
    assert ([Shutdown] + steps)[1..] == steps;
  }

  // ----- every call can come to its end -----

  /** The sink has no phase between the test and the counter. */
  predicate SinkUncounted(s: State) {
    s.client == TopologySink ==> forall i :: 0 <= i < |s.threads| ==> s.threads[i] != Counted
  }

  lemma {:induction false} StaysUncounted(s: State, steps: seq<Step>)
    requires SinkUncounted(s)
    ensures SinkUncounted(Run(s, steps))
    decreases |steps|
  {
    if steps != [] {
      StaysUncounted(Next(s, steps[0]), steps[1..]);
    }
  }

  /** One thread finishes what it has begun. */
  lemma Settle(s: State, t: nat) returns (steps: seq<Step>)
    requires t < |s.threads| && SinkUncounted(s)
    ensures Run(s, steps).threads == s.threads[t := Idle] && Run(s, steps).client == s.client
  {
    var a := Next(s, Admit(t));
    var b := Next(a, CountStart(t));
    var c := Next(b, Raise(t));
    RunTwo(s, Admit(t), CountStart(t));
    RunTwo(b, Raise(t), Launch(t));
    steps := [Admit(t), CountStart(t)] + [Raise(t), Launch(t)];
    RunConcat(s, [Admit(t), CountStart(t)], [Raise(t), Launch(t)]);
    assert Next(c, Launch(t)).threads == s.threads[t := Idle];
  }

  lemma {:induction false} SettleAll(s: State, k: nat) returns (steps: seq<Step>)
    requires k <= |s.threads| && SinkUncounted(s) && forall i :: 0 <= i < k ==> s.threads[i] == Idle
    ensures AllAt(Run(s, steps), Idle)
    decreases |s.threads| - k
  {
    if k == |s.threads| {
      steps := [];
    } else {
      var first := Settle(s, k);
      var rest := SettleAll(Run(s, first), k + 1);
      steps := first + rest;
      RunConcat(s, first, rest);
    }
  }

  /** Every launched call leaves, and every one that left is counted as finished. */
  lemma {:induction false} LeaveAll(s: State) returns (steps: seq<Step>)
    ensures var r := Run(s, steps); r.inFlight == 0 && r.leaving == 0 && r.threads == s.threads
    decreases s.inFlight, s.leaving
  {
    if s.inFlight > 0 {
      var rest := LeaveAll(Next(s, Leave));
      steps := [Leave] + rest;
      assert steps[1..] == rest;
    } else if s.leaving > 0 {
      var rest := LeaveAll(Next(s, Finish));
      steps := [Finish] + rest;
      assert steps[1..] == rest;
    } else {
      steps := [];
    }
  }

  /** From every reachable state the calls can all end: nothing is left running, and every start has its finish. */
  lemma Drains(client: Client, max: nat, n: nat, steps: seq<Step>) returns (more: seq<Step>)
    requires n >= 1
    ensures var s := Run(Initial(client, max, n), steps + more);
            && s.running == 0 && s.inFlight == 0 && s.leaving == 0 && AllAt(s, Idle)
            && (client == TraceExporter ==> s.start == s.finished)
  {
    var init := Initial(client, max, n);
    var s := Run(init, steps);
    StaysUncounted(init, steps);
    var settle := SettleAll(s, 0);
    var leave := LeaveAll(Run(s, settle));
    more := settle + leave;
    RunConcat(s, settle, leave);
    RunConcat(init, steps, more);
    var r := Run(init, steps + more);
    NoneElsewhere(n, Admitted);
    NoneElsewhere(n, Counted);
    NoneElsewhere(n, Raised);
    RunKeeps(init, steps + more);
    NoneAt(r.threads, Idle, Raised);
    NoneAt(r.threads, Idle, Counted);
  }
}
