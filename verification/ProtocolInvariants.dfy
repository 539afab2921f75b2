/** What every run of a session keeps. */
module ProtocolInvariants {
  import opened MachTypes
  import opened MachExceptions
  import opened ProtocolSpec
  import opened ReplyEffects

  const LOW_BITS: bv64 := 0xFFFF_FFFE

  /** The kernel's own bookkeeping. */
  ghost predicate KernelOk(k: Kernel) {
    && k.mdscr.Keys == k.threads.Keys && k.base.Keys == k.threads.Keys && k.blocked <= k.threads.Keys
    && (forall t | t in k.threads :: k.threads[t] in k.live)
    && k.live.Keys <= k.usedPorts && k.threads.Keys <= k.usedThreads
    && NULL in k.usedPorts && NULL in k.usedThreads && NULL !in k.live && NULL !in k.threads
  }

  /** The exception the exception thread is working on. */
  function Aloft(f: Flight): seq<Raw> {
    match f
    case Nothing => []
    case Received(raw) => [raw]
    case Decoded(m) => [m.raw]
  }

  /** The exceptions not yet held: in flight, then queued. */
  function Coming(s: Sys): seq<Raw> {
    Aloft(s.flight) + s.k.queue
  }

  function Pending(s: Sys): seq<Raw> {
    Raws(s.held) + Coming(s)
  }

  /** Every raised exception is replied, held, in flight or queued, once and in order. */
  ghost predicate FifoOk(s: Sys) {
    s.k.raised == s.k.replied + Pending(s)
  }

  ghost predicate Genuine(k: Kernel, raw: Raw) {
    raw.thread in k.usedThreads && raw.thread != NULL && raw.task in k.usedPorts && raw.task != NULL
  }

  ghost predicate DistinctThreads(raws: seq<Raw>) {
    forall i, j | 0 <= i < j < |raws| :: raws[i].thread != raws[j].thread
  }

  /** A thread is blocked exactly when one of its exceptions is pending, and it has at most one of those. */
  ghost predicate BlockedOk(k: Kernel, pending: seq<Raw>) {
    && DistinctThreads(pending)
    && (forall raw | raw in pending :: Genuine(k, raw))
    && (forall t | t in k.threads :: t in k.blocked <==> t in ThreadsOf(pending))
  }

  ghost predicate HeldOk(s: Sys, m: Message) {
    && m.state.taskPort in s.k.usedPorts
    && (m.state.taskPort == s.taskPort || m.state.taskPort !in s.k.live)
  }

  /** The exception thread's port is the tracked port; a held message belongs to the tracked task or to a dead one, and
      a decoded one to the tracked task. */
  ghost predicate PortsOk(s: Sys) {
    && s.loopTask == s.taskPort && s.taskPort in s.k.usedPorts
    && (forall m | m in s.held :: HeldOk(s, m))
    && (s.flight.Decoded? ==> s.flight.m.state.taskPort == s.taskPort)
  }

  /** The session has ended. */
  predicate Over(s: Sys) {
    !s.routed && s.status == DETACH
  }

  /** A live task is suspended once if it is the one the bundle suspended, and else not at all; and a bundle suspended
      the task of its first message unless that task was dead. */
  ghost predicate SuspendOk(s: Sys) {
    && (forall p | p in s.k.live :: s.k.live[p].suspendCount == if s.suspended == Some(p) then 1 else 0)
    && (s.held == [] || Over(s) ==> s.suspended == None)
    && (s.held != [] && !Over(s) ==>
          var first := s.held[0].state.taskPort;
          s.suspended == Some(first) || (s.suspended == None && first !in s.k.live))
  }

  /** Bits 1 to 31 agree. */
  predicate SameLowBits(x: bv64, y: bv64) {
    x & LOW_BITS == y & LOW_BITS
  }

  /** A step bit is set only in the tracked task and only during a step; bits 1 to 31 are as they were when the thread
      began. */
  ghost predicate StepsOk(s: Sys) {
    forall t | t in s.k.threads && t in s.k.mdscr && t in s.k.base ::
      && (StepBitSet(s.k.mdscr[t]) ==> s.singleStep && s.k.threads[t] == s.taskPort)
      && SameLowBits(s.k.mdscr[t], s.k.base[t])
  }

  ghost predicate ControlOk(s: Sys) {
    && (s.running ==> s.routed)
    && (!s.flight.Nothing? ==> s.running)
    && (s.call.StepWait? ==> s.status == RUNNING)
    && (s.call.Detaching? ==> s.status == STOP && !s.routed)
  }

  ghost predicate Good(s: Sys) {
    && ControlOk(s) && KernelOk(s.k) && FifoOk(s) && BlockedOk(s.k, Pending(s))
    && PortsOk(s) && SuspendOk(s) && StepsOk(s)
  }

  /** What every reachable state satisfies. */
  ghost predicate Inv(s: Sys) {
    s.aborted || Good(s)
  }

  // ---- helpers ----

  lemma {:induction false} ThreadsOfJoin(a: seq<Raw>, b: seq<Raw>)
    ensures ThreadsOf(a + b) == ThreadsOf(a) + ThreadsOf(b)
  {
    if a == [] {
      assert a + b == b;
    } else {
      assert (a + b)[0] == a[0] && (a + b)[1..] == a[1..] + b;
      ThreadsOfJoin(a[1..], b);
    }
  }

  lemma {:induction false} ThreadsOfMember(raws: seq<Raw>, t: Thread)
    ensures t in ThreadsOf(raws) <==> exists raw :: raw in raws && raw.thread == t
  {
    if raws != [] {
      ThreadsOfMember(raws[1..], t);
      assert forall raw :: raw in raws <==> raw == raws[0] || raw in raws[1..];
    }
  }

  lemma {:induction false} RawsJoin(a: seq<Message>, b: seq<Message>)
    ensures Raws(a + b) == Raws(a) + Raws(b)
  {
    if a == [] {
      assert a + b == b;
    } else {
      assert (a + b)[0] == a[0] && (a + b)[1..] == a[1..] + b;
      RawsJoin(a[1..], b);
    }
  }

  // ---- the target's steps ----

  lemma GoodAfterRaise(s: Sys, raw: Raw)
    requires Good(s) && CanRun(s.k, raw.thread) && raw.task == s.k.threads[raw.thread]
    ensures Good(s.(k := RaiseException(s.k, raw)))
  {
    hide Raws, ThreadsOf, SuspendOk, StepsOk;
    var s1 := s.(k := RaiseException(s.k, raw));
    var p := Pending(s);
    assert Pending(s1) == p + [raw];
    assert s.k.replied + p + [raw] == s.k.replied + (p + [raw]);
    ThreadsOfJoin(p, [raw]);
    ThreadsOfMember([raw], raw.thread);
    forall t ensures t in ThreadsOf([raw]) <==> t == raw.thread { ThreadsOfMember([raw], t); }
    forall i | 0 <= i < |p| ensures p[i].thread != raw.thread {
      ThreadsOfMember(p, raw.thread);
      assert p[i] in p;
    }
    assert SuspendOk(s1) && StepsOk(s1) by { SameElsewhere(s, raw); }
  }

  lemma SameElsewhere(s: Sys, raw: Raw)
    requires SuspendOk(s) && StepsOk(s)
    ensures SuspendOk(s.(k := RaiseException(s.k, raw))) && StepsOk(s.(k := RaiseException(s.k, raw)))
  {
  }

  lemma GoodAfterAddThread(s: Sys, t: Thread, p: Port, bits: bv64)
    requires Good(s) && t !in s.k.usedThreads && p in s.k.live
    requires StepBitSet(bits) ==> s.singleStep && p == s.taskPort
    ensures Good(s.(k := AddThread(s.k, t, p, bits)))
  {
    hide Raws, ThreadsOf, StepsOk, StepBitSet, SameLowBits;
    var s1 := s.(k := AddThread(s.k, t, p, bits));
    assert BlockedOk(s1.k, Pending(s1)) by {
      ThreadsOfMember(Pending(s), t);
    }
    assert StepsOk(s1) by { StepsAfterAddThread(s, t, p, bits); }
    assert PortsOk(s1) && SuspendOk(s1);
  }

  lemma StepsAfterAddThread(s: Sys, t: Thread, p: Port, bits: bv64)
    requires StepsOk(s) && (StepBitSet(bits) ==> s.singleStep && p == s.taskPort)
    requires s.k.mdscr.Keys == s.k.threads.Keys && s.k.base.Keys == s.k.threads.Keys
    ensures StepsOk(s.(k := AddThread(s.k, t, p, bits)))
  {
    assert SameLowBits(bits, bits);
    hide StepBitSet, SameLowBits;
  }

  lemma GoodAfterAddTask(s: Sys, p: Port, pid: nat)
    requires Good(s) && p !in s.k.usedPorts
    ensures Good(s.(k := AddTask(s.k, p, pid)))
  {
    hide Raws, ThreadsOf, StepBitSet, SameLowBits;
    if s.held != [] { assert HeldOk(s, s.held[0]); }
  }

  lemma GoodAfterRemoveThreads(s: Sys, gone: set<Thread>)
    requires Good(s)
    ensures Good(s.(k := RemoveThreads(s.k, gone)))
  {
    hide Raws, ThreadsOf, StepBitSet, SameLowBits;
  }

  /** A task without threads may go. */
  lemma GoodAfterTaskGone(s: Sys, p: Port)
    requires Good(s) && forall t | t in s.k.threads :: s.k.threads[t] != p
    ensures Good(s.(k := s.k.(live := s.k.live - {p})))
  {
    hide Raws, ThreadsOf, StepBitSet, SameLowBits;
    var s1 := s.(k := s.k.(live := s.k.live - {p}));
    assert Pending(s1) == Pending(s);
    assert StepsOk(s1) && FifoOk(s1);
    assert BlockedOk(s1.k, Pending(s1));
    assert SuspendOk(s1);
  }

  lemma GoodAfterRemoveTask(s: Sys, p: Port)
    requires Good(s)
    ensures Good(s.(k := RemoveTask(s.k, p)))
  {
    hide Good;
    var gone := set t | t in s.k.threads && s.k.threads[t] == p;
    GoodAfterRemoveThreads(s, gone);
    GoodAfterTaskGone(s.(k := RemoveThreads(s.k, gone)), p);
  }

  // ---- the debugger's operations ----

  lemma StepBitsFacts(x: bv64, on: bool)
    ensures SameLowBits(StepBits(x, on), x)
    ensures StepBitSet(StepBits(x, on)) <==> on
  {
  }

  /** In numbers: the step bit is bit 0, and setting it keeps every other bit. */
  lemma StepBitOn(x: bv64)
    ensures StepBits(x, true) & 1 == 1
    ensures StepBits(x, true) & 0xFFFF_FFFF_FFFF_FFFE == x & 0xFFFF_FFFF_FFFF_FFFE
  {
  }

  /** Clearing it keeps bits 1 to 31. */
  lemma StepBitOff(x: bv64)
    ensures StepBits(x, false) & 1 == 0
    ensures StepBits(x, false) & 0xFFFF_FFFE == x & 0xFFFF_FFFE
  {
  }

  lemma StepBitIsBitZero(x: bv64)
    ensures StepBitSet(x) <==> x & 1 != 0
  {
  }

  lemma SameLowTransitive(x: bv64, y: bv64, z: bv64)
    requires SameLowBits(x, y) && SameLowBits(y, z)
    ensures SameLowBits(x, z)
  {
  }

  lemma GoodAfterEnable(s: Sys)
    requires Good(s) && s.singleStep
    ensures Good(s.(k := SetSteps(s.k, s.taskPort, true)))
  {
    hide Raws, ThreadsOf, StepBitSet, SameLowBits, StepBits, SuspendOk;
    var s1 := s.(k := SetSteps(s.k, s.taskPort, true));
    forall t | t in s.k.threads ensures SameLowBits(s1.k.mdscr[t], s.k.base[t]) {
      StepBitsFacts(s.k.mdscr[t], true);
      if s.k.threads[t] == s.taskPort { SameLowTransitive(s1.k.mdscr[t], s.k.mdscr[t], s.k.base[t]); }
    }
    assert SuspendOk(s1) by { SuspendNeedsNoSteps(s, true); }
  }

  /** Clearing the tracked task's step bits clears them all, and keeps bits 1 to 31. */
  lemma StepsAfterDisable(s: Sys)
    requires StepsOk(s) && KernelOk(s.k)
    ensures StepsOk(s.(k := SetSteps(s.k, s.taskPort, false), singleStep := false))
  {
    hide StepBitSet, SameLowBits, StepBits;
    var s1 := s.(k := SetSteps(s.k, s.taskPort, false), singleStep := false);
    forall t | t in s.k.threads ensures SameLowBits(s1.k.mdscr[t], s.k.base[t]) && !StepBitSet(s1.k.mdscr[t]) {
      StepBitsFacts(s.k.mdscr[t], false);
      if s.k.threads[t] == s.taskPort { SameLowTransitive(s1.k.mdscr[t], s.k.mdscr[t], s.k.base[t]); }
    }
  }

  lemma SuspendNeedsNoSteps(s: Sys, on: bool)
    requires SuspendOk(s)
    ensures SuspendOk(s.(k := SetSteps(s.k, s.taskPort, on)))
  {
  }

  /** A live task that the bundle suspended is the tracked one. */
  lemma SuspendedIsTracked(s: Sys, p: Port)
    requires Good(s) && s.suspended == Some(p) && p in s.k.live
    ensures p == s.taskPort
  {
    hide Raws, ThreadsOf, StepsOk, KernelOk, BlockedOk, FifoOk;
    assert HeldOk(s, s.held[0]);
  }

  lemma GoodAfterTaskResume(s: Sys)
    requires ControlOk(s) && KernelOk(s.k) && FifoOk(s) && BlockedOk(s.k, Pending(s)) && PortsOk(s) && StepsOk(s)
    requires forall p | p in s.k.live :: s.k.live[p].suspendCount == if s.suspended == Some(p) then 1 else 0
    requires s.suspended.Some? && s.suspended.value in s.k.live ==> s.suspended.value == s.taskPort
    requires s.held == [] || Over(s)
    ensures Good(TaskResume(s))
    ensures forall p | p in s.k.live :: p in TaskResume(s).k.live && TaskResume(s).k.live[p].suspendCount == 0
  {
    hide KernelOk, FifoOk, BlockedOk, PortsOk, SuspendOk, StepsOk, TaskResume;
    ResumedBasics(s);
    ResumedPorts(s);
    ResumedSuspends(s);
    SameSteps(s, TaskResume(s));
  }

  lemma ResumedBasics(s: Sys)
    requires KernelOk(s.k) && FifoOk(s) && BlockedOk(s.k, Pending(s))
    ensures var r := TaskResume(s);
            && KernelOk(r.k) && FifoOk(r) && BlockedOk(r.k, Pending(r))
            && r == s.(k := r.k, suspended := None) && r.k == s.k.(live := r.k.live)
  {
    hide Raws, ThreadsOf, DistinctThreads, Aloft;
    assert Pending(TaskResume(s)) == Pending(s);
  }

  lemma ResumedPorts(s: Sys)
    requires PortsOk(s)
    ensures PortsOk(TaskResume(s))
  {
  }

  lemma ResumedSuspends(s: Sys)
    requires forall p | p in s.k.live :: s.k.live[p].suspendCount == if s.suspended == Some(p) then 1 else 0
    requires s.suspended.Some? && s.suspended.value in s.k.live ==> s.suspended.value == s.taskPort
    requires s.held == [] || Over(s)
    ensures SuspendOk(TaskResume(s))
    ensures forall p | p in s.k.live :: p in TaskResume(s).k.live && TaskResume(s).k.live[p].suspendCount == 0
  {
  }

  /** Replying to the whole bundle leaves the exceptions still to come as the only ones that block a thread. */
  lemma BlockedAfterReplies(s: Sys)
    requires Good(s)
    ensures var k := Replied(s.k, s.taskPort, s.pid, s.held);
            KernelOk(k) && BlockedOk(k, Coming(s)) && k.raised == k.replied + Coming(s)
  {
    hide Raws, ThreadsOf, StepsOk, SuspendOk, PortsOk, ActsOf, Coming;
    var k := Replied(s.k, s.taskPort, s.pid, s.held);
    var held, coming := Raws(s.held), Coming(s);
    ThreadsOfJoin(held, coming);
    assert forall raw | raw in coming :: raw in held + coming;
    forall i, j | 0 <= i < j < |coming| ensures coming[i].thread != coming[j].thread {
      assert (held + coming)[|held| + i] == coming[i] && (held + coming)[|held| + j] == coming[j];
    }
    forall i, j | 0 <= i < |held| && 0 <= j < |coming| ensures held[i].thread != coming[j].thread {
      assert (held + coming)[i] == held[i] && (held + coming)[|held| + j] == coming[j];
    }
    forall t ensures !(t in ThreadsOf(held) && t in ThreadsOf(coming)) {
      ThreadsOfMember(held, t);
      ThreadsOfMember(coming, t);
    }
    assert s.k.replied + (held + coming) == s.k.replied + held + coming;
  }

  /** Some held message is a soft signal of a task that is no longer tracked. */
  ghost predicate ForeignSignalHeld(s: Sys) {
    exists m :: m in s.held && m.state.SoftSignal() != 0 && m.state.taskPort != s.taskPort
  }

  /** Resume dies exactly when the bundle holds a soft signal of a task that is no longer the tracked one; otherwise it
      replies to every held message, once and in arrival order, leaves no task suspended, and keeps the invariant. */
  lemma ResumeEffect(s: Sys)
    requires Good(s) && !s.aborted && s.call.NoCall? && s.status == STOP
    ensures Resume(s).aborted <==> ForeignSignalHeld(s)
    ensures !Resume(s).aborted ==>
              && Good(Resume(s)) && Resume(s).held == [] && Resume(s).suspended == None
              && Resume(s).k.replied == s.k.replied + Raws(s.held)
              && Resume(s).k.acts == s.k.acts + ActsOf(s.k.live, s.taskPort, s.pid, s.held)
              && Resume(s).k.threads == s.k.threads && Resume(s).k.mdscr == s.k.mdscr
              && Resume(s).singleStep == s.singleStep
              && (forall p | p in Resume(s).k.live :: Resume(s).k.live[p].suspendCount == 0)
  {
    hide Raws, ThreadsOf, StepBitSet, SameLowBits, ActsOf, BlockedOk, KernelOk, ReplyEach, FifoOk, StepsOk, Coming;
    ReplyEachEffect(s.k, s.taskPort, s.pid, s.held);
    forall m | m in s.held
      ensures Fatal(s.k, s.taskPort, m) <==> m.state.SoftSignal() != 0 && m.state.taskPort != s.taskPort
    {
      assert HeldOk(s, m);
    }
    if !Resume(s).aborted {
      BlockedAfterReplies(s);
      var s1 := s.(k := Replied(s.k, s.taskPort, s.pid, s.held), held := []);
      NothingHeld(s, s1);
      if s.suspended.Some? && s.suspended.value in s.k.live { SuspendedIsTracked(s, s.suspended.value); }
      assert StepsOk(s1) by { SameSteps(s, s1); }
      GoodAfterTaskResume(s1);
      var s2 := TaskResume(s1);
      assert Resume(s) == s2.(status := Resume(s).status);
      GoodIgnoresControl(s2, Resume(s));
    }
  }

  lemma NothingHeld(s: Sys, s1: Sys)
    requires s1.held == [] && s1.flight == s.flight && s1.k.queue == s.k.queue
    ensures Coming(s1) == Coming(s) && Pending(s1) == Coming(s)
    ensures s1.k.raised == s1.k.replied + Coming(s) ==> FifoOk(s1)
  {
  }

  lemma SameSteps(s: Sys, s1: Sys)
    requires StepsOk(s) && s1.singleStep == s.singleStep && s1.taskPort == s.taskPort
    requires s1.k.threads == s.k.threads && s1.k.mdscr == s.k.mdscr && s1.k.base == s.k.base
    ensures StepsOk(s1)
  {
  }

  /** The invariant looks at what the controlling and the exception thread are doing only to tell whether the session
      has ended. */
  lemma GoodIgnoresControl(s: Sys, s1: Sys)
    requires Good(s) && s1 == s.(status := s1.status, call := s1.call, received := s1.received,
                                 running := s1.running, routed := s1.routed)
    requires ControlOk(s1) && Over(s1) == Over(s)
    ensures Good(s1)
  {
    hide Raws, ThreadsOf, StepBitSet, SameLowBits;
  }

  // ---- the exception thread's steps ----

  lemma GoodAfterTake(s: Sys)
    requires Good(s) && s.running && s.flight.Nothing? && s.k.queue != []
    ensures Good(Take(s)) && Pending(Take(s)) == Pending(s)
  {
    hide Raws, ThreadsOf, StepBitSet, SameLowBits, DistinctThreads;
    assert Coming(Take(s)) == [s.k.queue[0]] + s.k.queue[1..] == s.k.queue == Coming(s);
  }

  /** The tracked task once the message in flight has been decoded. */
  function TrackedAfter(s: Sys): Port
    requires s.flight.Received?
  {
    var m := Decode(s.flight.raw, s.loopTask, s.loopTask in s.k.live);
    if m.state.taskPort != s.loopTask && m.state.IsValid() then m.state.taskPort else s.taskPort
  }

  lemma DecodeFields(s: Sys)
    requires s.flight.Received? && s.loopTask == s.taskPort
    ensures var m, r := Decode(s.flight.raw, s.loopTask, s.loopTask in s.k.live), DecodeTaken(s);
            && m.raw == s.flight.raw
            && r == s.(flight := Decoded(m), received := s.received + 1,
                       taskPort := TrackedAfter(s), loopTask := TrackedAfter(s))
  {
  }

  /** A message is decoded for the task that is tracked once it has been, and a task that stops being tracked is
      dead. */
  lemma DecodedForTracked(s: Sys)
    requires Good(s) && s.flight.Received?
    ensures Genuine(s.k, s.flight.raw)
    ensures Decode(s.flight.raw, s.loopTask, s.loopTask in s.k.live).state.taskPort == TrackedAfter(s)
    ensures TrackedAfter(s) in s.k.usedPorts && (TrackedAfter(s) != s.taskPort ==> s.taskPort !in s.k.live)
  {
    hide Raws, ThreadsOf, StepsOk, SuspendOk;
    assert s.flight.raw in Pending(s);
  }

  lemma GoodAfterDecode(s: Sys)
    requires Good(s) && s.flight.Received?
    ensures Good(DecodeTaken(s)) && Pending(DecodeTaken(s)) == Pending(s)
  {
    hide Raws, ThreadsOf, StepBitSet, SameLowBits, Decode, DecodeTaken, TrackedAfter, DistinctThreads;
    DecodeFields(s);
    DecodedForTracked(s);
    assert Pending(DecodeTaken(s)) == Pending(s);
  }

  /** The parts of the state after a message has been held. */
  ghost predicate HeldAs(s: Sys, r: Sys, m: Message) {
    && r == s.(held := s.held + [m], flight := Nothing, singleStep := false, suspended := r.suspended, k := r.k)
    && r.suspended == (if s.held != [] then s.suspended
                       else if s.taskPort in s.k.live then Some(s.taskPort) else None)
    && r.k == s.k.(live := if s.held != [] then s.k.live else SuspendIn(s.k.live, s.taskPort),
                   mdscr := if s.singleStep then SteppedIn(s.k.mdscr, s.k.threads, s.taskPort, false) else s.k.mdscr)
  }

  /** Holding a message ends the debugger exactly when that message ends a step of a task that is dead. */
  lemma HoldFields(s: Sys)
    requires s.flight.Decoded? && !s.aborted
    ensures HoldDecoded(s).aborted <==> s.singleStep && s.taskPort !in s.k.live
    ensures !HoldDecoded(s).aborted ==> HeldAs(s, HoldDecoded(s), s.flight.m)
  {
    hide SteppedIn, SuspendIn, SuspendForFirst, EndStep;
    var s1 := s.(flight := Nothing);
    SuspendFields(s1);
    EndStepFields(SuspendForFirst(s1));
  }

  lemma SuspendFields(s: Sys)
    ensures var r := SuspendForFirst(s);
            && r == s.(k := r.k, suspended := r.suspended) && r.k == s.k.(live := r.k.live)
            && r.suspended == (if s.held != [] then s.suspended
                               else if s.taskPort in s.k.live then Some(s.taskPort) else None)
            && r.k.live == (if s.held != [] then s.k.live else SuspendIn(s.k.live, s.taskPort))
            && r.k.live.Keys == s.k.live.Keys
  {
  }

  lemma EndStepFields(s: Sys)
    requires !s.aborted
    ensures EndStep(s).aborted <==> s.singleStep && s.taskPort !in s.k.live
    ensures var r := EndStep(s);
            !r.aborted ==>
              && r == s.(k := r.k, singleStep := false) && r.k == s.k.(mdscr := r.k.mdscr)
              && r.k.mdscr == if s.singleStep then SteppedIn(s.k.mdscr, s.k.threads, s.taskPort, false) else s.k.mdscr
  {
    hide SteppedIn;
  }

  /** A held message that does not end the debugger keeps the invariant. */
  lemma GoodAfterHold(s: Sys)
    requires Good(s) && !s.aborted && s.flight.Decoded?
    ensures !HoldDecoded(s).aborted ==> Good(HoldDecoded(s)) && Pending(HoldDecoded(s)) == Pending(s)
  {
    hide HoldDecoded, Raws, ThreadsOf, KernelOk, FifoOk, BlockedOk, PortsOk, SuspendOk, StepsOk, Pending;
    if !HoldDecoded(s).aborted {
      HoldFields(s);
      var r := HoldDecoded(s);
      PendingAfterHold(s, r);
      HeldBasics(s, r);
      HeldPorts(s, r);
      HeldSuspends(s, r);
      HeldSteps(s, r);
    }
  }

  /** Holding the message in flight does not change what is pending. */
  lemma PendingAfterHold(s: Sys, r: Sys)
    requires s.flight.Decoded? && r.flight.Nothing? && r.held == s.held + [s.flight.m] && r.k.queue == s.k.queue
    ensures Pending(r) == Pending(s)
  {
    hide Raws;
    RawsJoin(s.held, [s.flight.m]);
    OneRaw(s.flight.m);
  }

  lemma OneRaw(m: Message)
    ensures Raws([m]) == [m.raw]
  {
    assert Raws([m]) == [m.raw] + Raws([m][1..]);
  }

  lemma HeldBasics(s: Sys, r: Sys)
    requires Good(s) && s.flight.Decoded? && HeldAs(s, r, s.flight.m) && Pending(r) == Pending(s)
    ensures KernelOk(r.k) && FifoOk(r) && BlockedOk(r.k, Pending(r))
  {
    hide Pending, ThreadsOf, PortsOk, SuspendOk, StepsOk, StepBits;
  }

  lemma HeldPorts(s: Sys, r: Sys)
    requires Good(s) && s.flight.Decoded? && HeldAs(s, r, s.flight.m)
    ensures PortsOk(r)
  {
    hide FifoOk, BlockedOk, SuspendOk, StepsOk, SteppedIn;
  }

  lemma HeldSuspends(s: Sys, r: Sys)
    requires Good(s) && s.flight.Decoded? && HeldAs(s, r, s.flight.m)
    ensures SuspendOk(r)
  {
    hide FifoOk, BlockedOk, StepsOk, SteppedIn;
  }

  /** Whether it ends a step or comes outside one, a held message leaves no step bit set. */
  lemma HeldSteps(s: Sys, r: Sys)
    requires Good(s) && s.flight.Decoded? && HeldAs(s, r, s.flight.m)
    ensures StepsOk(r)
  {
    hide FifoOk, BlockedOk, PortsOk, SuspendOk, StepBitSet, SameLowBits, StepBits, SteppedIn;
    if s.singleStep {
      StepsAfterDisable(s);
      SameSteps(s.(k := SetSteps(s.k, s.taskPort, false), singleStep := false), r);
    }
  }
}
