/** The session's theorems, over every run. */
module ProtocolTheorems {
  import opened MachTypes
  import opened MachExceptions
  import opened ProtocolSpec
  import opened ReplyEffects
  import opened ProtocolInvariants

  lemma InitIsGood(s: Sys)
    requires Init(s)
    ensures Good(s)
  {
    assert Pending(s) == [];
    forall t | t in s.k.threads ensures SameLowBits(s.k.mdscr[t], s.k.base[t]) {}
  }

  lemma SingleStepKeepsGood(s: Sys)
    requires Good(s) && !s.aborted && Enabled(s, SingleStepCall)
    ensures SingleStepStart(s).aborted || Good(SingleStepStart(s))
  {
    hide Raws, ThreadsOf, StepBitSet, SameLowBits, KernelOk, FifoOk, BlockedOk, PortsOk, SuspendOk, Resume;
    var s1 := s.(singleStep := true);
    FlagKeepsGood(s);
    if s1.taskPort in s1.k.live {
      GoodAfterEnable(s1);
      var s2 := s1.(k := SetSteps(s1.k, s1.taskPort, true));
      ResumeEffect(s2);
      ResumeRuns(s2);
      if !Resume(s2).aborted {
        GoodIgnoresControl(Resume(s2), Resume(s2).(call := StepWait));
      }
    }
  }

  lemma FlagKeepsGood(s: Sys)
    requires Good(s)
    ensures Good(s.(singleStep := true))
  {
    hide Raws, ThreadsOf, StepBitSet, SameLowBits;
  }

  lemma ResumeRuns(s: Sys)
    requires !s.aborted && s.taskPort in s.k.live
    ensures !Resume(s).aborted ==> Resume(s).status == RUNNING
  {
    ReplyEachEffect(s.k, s.taskPort, s.pid, s.held);
  }

  lemma LetGoKeepsGood(s: Sys, portGiven: bool)
    requires Good(s) && s.call.Detaching?
    ensures Good(LetGo(s, portGiven))
    ensures portGiven && ProcessExists(s.k, s.pid) ==>
              forall p | p in s.k.live ::
                p in LetGo(s, portGiven).k.live && LetGo(s, portGiven).k.live[p].suspendCount == 0
  {
    hide Raws, ThreadsOf, StepBitSet, SameLowBits, KernelOk, BlockedOk, StepsOk, ProcessExists, Coming;
    if portGiven && ProcessExists(s.k, s.pid) {
      var s1 := s.(call := NoCall, status := DETACH);
      assert Pending(s1) == Pending(s) by { SameComing(s, s1); }
      assert StepsOk(s1) by { SameSteps(s, s1); }
      if s.suspended.Some? && s.suspended.value in s.k.live { SuspendedIsTracked(s, s.suspended.value); }
      GoodAfterTaskResume(s1);
    } else {
      GoodIgnoresControl(s, LetGo(s, portGiven));
    }
  }

  lemma SameComing(s: Sys, s1: Sys)
    requires s1.flight == s.flight && s1.k.queue == s.k.queue
    ensures Coming(s1) == Coming(s)
  {
  }

  /** Every step keeps the invariant. */
  lemma StepKeepsInvariant(s: Sys, e: Event)
    requires Inv(s) && Enabled(s, e)
    ensures Inv(Step(s, e))
  {
    hide Raws, ThreadsOf, StepBitSet, SameLowBits, KernelOk, FifoOk, BlockedOk, PortsOk, SuspendOk, StepsOk,
      Resume, Take, DecodeTaken, HoldDecoded, LetGo, SingleStepStart, ProcessExists,
      RaiseException, AddThread, AddTask, RemoveThreads, RemoveTask;
    match e
    case ResumeCall => ResumeEffect(s);
    case SingleStepCall => SingleStepKeepsGood(s);
    case DetachDone(portGiven) => LetGoKeepsGood(s, portGiven);
    case ReceiveOne => GoodAfterTake(s);
    case DecodeOne => GoodAfterDecode(s);
    case HoldOne => GoodAfterHold(s);
    case Raise(raw) => GoodAfterRaise(s, raw);
    case CreateThread(c, t, bits) => CreateKeepsGood(s, c, t, bits);
    case ExitThread(t) => GoodAfterRemoveThreads(s, {t});
    case Fork(t, p, pid, c, bits) =>
      GoodAfterAddTask(s, p, pid);
      NewTask(s, p, pid, c);
      GoodAfterAddThread(s.(k := AddTask(s.k, p, pid)), c, p, bits);
    case Exec(t, p, n, bits) =>
      var a := s.k.threads[t];
      var s1 := s.(k := RemoveTask(s.k, a));
      GoodAfterRemoveTask(s, a);
      Removed(s, a);
      GoodAfterAddTask(s1, p, s.k.live[a].pid);
      NewTask(s1, p, s.k.live[a].pid, n);
      GoodAfterAddThread(s1.(k := AddTask(s1.k, p, s.k.live[a].pid)), n, p, bits);
    case Kill(p) => GoodAfterRemoveTask(s, p);
    case _ => GoodIgnoresControl(s, Step(s, e));
  }

  lemma CreateKeepsGood(s: Sys, c: Thread, t: Thread, bits: bv64)
    requires Good(s) && Enabled(s, CreateThread(c, t, bits))
    ensures Good(s.(k := AddThread(s.k, t, s.k.threads[c], bits)))
  {
    hide Raws, ThreadsOf, StepBitSet, SameLowBits, FifoOk, BlockedOk, PortsOk, SuspendOk;
    GoodAfterAddThread(s, t, s.k.threads[c], bits);
  }

  lemma NewTask(s: Sys, p: Port, pid: nat, t: Thread)
    ensures p in AddTask(s.k, p, pid).live && AddTask(s.k, p, pid).usedThreads == s.k.usedThreads
  {
  }

  lemma Removed(s: Sys, p: Port)
    ensures RemoveTask(s.k, p).usedThreads == s.k.usedThreads && RemoveTask(s.k, p).usedPorts == s.k.usedPorts
  {
  }

  /** Every state that a session can reach satisfies the invariant. */
  lemma {:induction false} EveryRunKeepsInvariant(s: Sys, es: seq<Event>)
    requires Inv(s) && Runs(s, es)
    ensures Inv(After(s, es))
    decreases |es|
  {
    hide Inv, Step, Enabled;
    if es != [] {
      StepKeepsInvariant(s, es[0]);
      EveryRunKeepsInvariant(Step(s, es[0]), es[1..]);
    }
  }

  // ---- what the invariant says of every reachable state ----

  /** A state reached from the start of a session, with the debugger alive. */
  ghost predicate Reached(s0: Sys, es: seq<Event>, s: Sys) {
    Init(s0) && Runs(s0, es) && s == After(s0, es) && !s.aborted
  }

  lemma ReachedIsGood(s0: Sys, es: seq<Event>, s: Sys)
    requires Reached(s0, es, s)
    ensures Good(s)
  {
    InitIsGood(s0);
    EveryRunKeepsInvariant(s0, es);
  }

  /** Exactly once: the exceptions raised are those replied, then those held, then the one in flight, then those queued,
      in one order; a thread is blocked exactly when an exception of its is not yet replied, and no thread has two. */
  lemma ExceptionsExactlyOnce(s0: Sys, es: seq<Event>, s: Sys)
    requires Reached(s0, es, s)
    ensures s.k.raised == s.k.replied + Raws(s.held) + Aloft(s.flight) + s.k.queue
    ensures forall t | t in s.k.threads ::
              t in s.k.blocked <==> exists raw :: raw in Raws(s.held) + Aloft(s.flight) + s.k.queue && raw.thread == t
    ensures DistinctThreads(Raws(s.held) + Aloft(s.flight) + s.k.queue)
  {
    ReachedIsGood(s0, es, s);
    hide Raws, ThreadsOf, Aloft;
    var held, aloft, queue := Raws(s.held), Aloft(s.flight), s.k.queue;
    assert Pending(s) == held + aloft + queue;
    assert s.k.replied + (held + (aloft + queue)) == s.k.replied + held + aloft + queue;
    forall t | t in s.k.threads
      ensures t in s.k.blocked <==> exists raw: Raw :: raw in held + aloft + queue && raw.thread == t
    {
      ThreadsOfMember(Pending(s), t);
    }
  }

  /** Suspend balance, for a live tracked task: it is suspended once if the bundle is not empty and its first message
      was for this very task, and not at all otherwise. So a bundle suspends the task exactly once unless the port has
      moved since its first message. */
  lemma SuspendBalance(s0: Sys, es: seq<Event>, s: Sys)
    requires Reached(s0, es, s) && !Over(s) && s.taskPort in s.k.live
    ensures s.k.live[s.taskPort].suspendCount ==
            if s.held != [] && s.held[0].state.taskPort == s.taskPort then 1 else 0
    ensures (s.k.live[s.taskPort].suspendCount == 1 <==> s.held != []) <==>
            (s.held == [] || s.held[0].state.taskPort == s.taskPort)
    ensures forall p | p in s.k.live && p != s.taskPort :: s.k.live[p].suspendCount == 0
  {
    hide Raws, ThreadsOf, KernelOk, FifoOk, BlockedOk, StepsOk;
    ReachedIsGood(s0, es, s);
    if s.held != [] { assert HeldOk(s, s.held[0]); }
    forall p | p in s.k.live && p != s.taskPort ensures s.suspended != Some(p) {
      if s.suspended == Some(p) { SuspendedIsTracked(s, p); }
    }
  }

  /** While such a bundle is held no thread of the tracked task can execute. */
  lemma NothingRunsWhileHeld(s0: Sys, es: seq<Event>, s: Sys)
    requires Reached(s0, es, s) && !Over(s) && s.held != [] && s.held[0].state.taskPort == s.taskPort
    ensures forall t | t in s.k.threads && s.k.threads[t] == s.taskPort :: !CanRun(s.k, t)
  {
    if s.taskPort in s.k.live { SuspendBalance(s0, es, s); }
  }

  /** The tracked task is live and a bundle of its own messages is held. */
  ghost predicate BundleSuspends(s: Sys) {
    s.taskPort in s.k.live && s.held != [] && s.held[0].state.taskPort == s.taskPort
  }

  /** The port is given up and the process exists: Detach gets to its end. */
  ghost predicate LetsGo(s: Sys, portGiven: bool) {
    portGiven && ProcessExists(s.k, s.pid)
  }

  /** Detach leaves every task unsuspended exactly when it gets to its end, or no bundle suspends the task now tracked.
      When it gets there, a thread can then execute exactly when none of its exceptions was still held or queued, for
      Detach replies to none. */
  lemma DetachFreesTarget(s0: Sys, es: seq<Event>, s: Sys, portGiven: bool)
    requires Reached(s0, es, s) && Enabled(s, DetachDone(portGiven))
    ensures var r := LetGo(s, portGiven);
            && ((forall p | p in r.k.live :: r.k.live[p].suspendCount == 0) <==>
                LetsGo(s, portGiven) || !BundleSuspends(s))
            && (r.status == DETACH <==> LetsGo(s, portGiven))
            && (LetsGo(s, portGiven) ==>
                  forall t | t in s.k.threads ::
                    CanRun(r.k, t) <==> !exists raw :: raw in Raws(s.held) + s.k.queue && raw.thread == t)
  {
    hide Raws, ThreadsOf, ProcessExists;
    ReachedIsGood(s0, es, s);
    LetGoKeepsGood(s, portGiven);
    if s.taskPort in s.k.live { SuspendBalance(s0, es, s); }
    assert Pending(s) == Raws(s.held) + s.k.queue;
    forall t | t in s.k.threads && LetsGo(s, portGiven)
      ensures CanRun(LetGo(s, portGiven).k, t) <==> !exists raw :: raw in Raws(s.held) + s.k.queue && raw.thread == t
    {
      ThreadsOfMember(Pending(s), t);
    }
    if !LetsGo(s, portGiven) && !BundleSuspends(s) {
      forall p | p in s.k.live ensures s.k.live[p].suspendCount == 0 {
        if s.suspended == Some(p) { SuspendedIsTracked(s, p); }
      }
    }
  }

  /** The exception thread always tracks the same port as the task object, and a step moves that port exactly when it
      decodes a message that is a SIGTRAP soft signal of another task while the tracked one is dead. */
  lemma PortTracking(s0: Sys, es: seq<Event>, s: Sys, e: Event)
    requires Reached(s0, es, s) && Enabled(s, e)
    ensures s.loopTask == s.taskPort
    ensures Step(s, e).taskPort != s.taskPort <==>
            && e == DecodeOne && s.taskPort !in s.k.live
            && s.flight.raw.excType == 5 && s.flight.raw.codes == [0x10003, 5] && s.flight.raw.task != s.taskPort
    ensures Step(s, e).taskPort != s.taskPort ==> Step(s, e).taskPort == s.flight.raw.task
  {
    hide Raws, ThreadsOf, KernelOk, FifoOk, BlockedOk, StepsOk, SuspendOk, Resume, Hold, DecodeTaken, SetSteps,
      ProcessExists, SingleStepStart;
    ReachedIsGood(s0, es, s);
    match e
    case DecodeOne =>
      DecodeFields(s);
      DecodedForTracked(s);
    case HoldOne => HoldKeepsPort(s.(flight := Nothing), s.flight.m);
    case ResumeCall => ResumeKeepsPort(s);
    case SingleStepCall => SingleStepKeepsPort(s);
    case _ =>
  }

  lemma HoldKeepsPort(s: Sys, m: Message)
    ensures Hold(s, m).taskPort == s.taskPort && Hold(s, m).loopTask == s.loopTask
    ensures Hold(s, m).received == s.received && Hold(s, m).flight == s.flight && Hold(s, m).pid == s.pid
    ensures Hold(s, m).call == s.call && Hold(s, m).status == s.status
    ensures Hold(s, m).routed == s.routed && Hold(s, m).running == s.running
  {
    hide SuspendForFirst, EndStep;
    SuspendFields(s);
    EndStepKeeps(SuspendForFirst(s));
  }

  lemma EndStepKeeps(s: Sys)
    ensures EndStep(s) == s.(k := EndStep(s).k, singleStep := EndStep(s).singleStep, aborted := EndStep(s).aborted)
  {
    hide SetSteps;
  }

  lemma ResumeKeepsPort(s: Sys)
    ensures Resume(s).taskPort == s.taskPort && Resume(s).loopTask == s.loopTask
    ensures Resume(s).received == s.received && Resume(s).flight == s.flight
    ensures Resume(s).running == s.running && Resume(s).routed == s.routed && Resume(s).pid == s.pid
  {
    hide ReplyEach, ResumeTask;
  }

  lemma SingleStepKeepsPort(s: Sys)
    ensures SingleStepStart(s).taskPort == s.taskPort && SingleStepStart(s).loopTask == s.loopTask
    ensures SingleStepStart(s).received == s.received && SingleStepStart(s).flight == s.flight
    ensures SingleStepStart(s).running == s.running && SingleStepStart(s).routed == s.routed
    ensures SingleStepStart(s).pid == s.pid
  {
    hide Resume, SetSteps;
    ResumeKeepsPort(s.(singleStep := true, k := SetSteps(s.k, s.taskPort, true)));
  }

  /** No message is dropped, doubled or reordered on its way from the port into the bundle, and only Resume, by itself
      or in SingleStep, empties the bundle. */
  lemma BundleGrows(s0: Sys, es: seq<Event>, s: Sys, e: Event)
    requires Reached(s0, es, s) && Enabled(s, e) && !Step(s, e).aborted
    ensures Raws(Step(s, e).held) ==
            if e == HoldOne then Raws(s.held) + Aloft(s.flight)
            else if e == ResumeCall || (e == SingleStepCall && s.taskPort in s.k.live) then []
            else Raws(s.held)
  {
    hide Raws, ThreadsOf, KernelOk, FifoOk, BlockedOk, StepsOk, SuspendOk, PortsOk, Resume, HoldDecoded, SetSteps,
      ProcessExists;
    ReachedIsGood(s0, es, s);
    match e
    case HoldOne =>
      HoldFields(s);
      RawsJoin(s.held, [s.flight.m]);
      OneRaw(s.flight.m);
    case ResumeCall =>
      ResumeEffect(s);
      NoRaws();
    case SingleStepCall =>
      if s.taskPort in s.k.live {
        StepResumes(s);
        NoRaws();
      }
    case _ =>
  }

  lemma NoRaws()
    ensures Raws([]) == []
  {
  }

  /** What the Resume in a SingleStep finds and does. */
  lemma StepResumes(s: Sys)
    requires Good(s) && !s.aborted && Enabled(s, SingleStepCall) && s.taskPort in s.k.live
    ensures SingleStepStart(s).aborted <==> ForeignSignalHeld(s)
    ensures !SingleStepStart(s).aborted ==>
              && SingleStepStart(s).held == [] && SingleStepStart(s).singleStep
              && SingleStepStart(s).status == RUNNING && SingleStepStart(s).call == StepWait
              && SingleStepStart(s).k.replied == s.k.replied + Raws(s.held)
              && SingleStepStart(s).k.threads == s.k.threads
              && SingleStepStart(s).k.mdscr == SteppedIn(s.k.mdscr, s.k.threads, s.taskPort, true)
  {
    hide Raws, ThreadsOf, KernelOk, FifoOk, BlockedOk, StepsOk, SuspendOk, PortsOk, Resume, SetSteps;
    FlagKeepsGood(s);
    var s1 := s.(singleStep := true);
    GoodAfterEnable(s1);
    var s2 := s1.(k := SetSteps(s1.k, s1.taskPort, true));
    StepsSet(s1.k, s1.taskPort, true);
    ResumeEffect(s2);
    ResumeRuns(s2);
  }

  lemma StepsSet(k: Kernel, p: Port, on: bool)
    ensures SetSteps(k, p, on) == k.(mdscr := SteppedIn(k.mdscr, k.threads, p, on))
  {
  }

  /** Resume dies exactly when the bundle holds a soft signal of a task that is no longer tracked: its pid is asked of a
      dead port. Otherwise every soft signal it answers is suppressed before its reply. */
  lemma ResumeSuppressesSignals(s0: Sys, es: seq<Event>, s: Sys)
    requires Reached(s0, es, s) && Enabled(s, ResumeCall)
    ensures Resume(s).aborted <==> ForeignSignalHeld(s)
    ensures !Resume(s).aborted ==>
              var acts := ActsOf(s.k.live, s.taskPort, s.pid, s.held);
              && Resume(s).k.acts == s.k.acts + acts
              && RepliesIn(acts) == Raws(s.held)
              && (forall i | 0 <= i < |acts| && acts[i].ThreadUpdate? :: acts[i].signal == 0 && acts[i].pid == s.pid)
              && (forall m | m in s.held && m.state.SoftSignal() != 0 :: UpdatedFirst(s.pid, m, acts))
  {
    hide Raws, Resume, ActsOf, UpdatedFirst, RepliesIn;
    ReachedIsGood(s0, es, s);
    ResumeEffect(s);
    if !Resume(s).aborted {
      SignalsSuppressed(s.k.live, s.taskPort, s.pid, s.held);
    }
  }

  /** The only steps that end the debugger: holding a message that ends a step of a task that is dead, and a Resume, by
      itself or in SingleStep, with a foreign soft signal held. */
  lemma DebuggerDies(s0: Sys, es: seq<Event>, s: Sys, e: Event)
    requires Reached(s0, es, s) && Enabled(s, e)
    ensures Step(s, e).aborted <==>
            || (e == HoldOne && s.singleStep && s.taskPort !in s.k.live)
            || (e == ResumeCall && ForeignSignalHeld(s))
            || (e == SingleStepCall && s.taskPort in s.k.live && ForeignSignalHeld(s))
  {
    hide Raws, ThreadsOf, KernelOk, FifoOk, BlockedOk, StepsOk, SuspendOk, PortsOk, Resume, HoldDecoded, SetSteps,
      ProcessExists;
    ReachedIsGood(s0, es, s);
    match e
    case HoldOne => HoldFields(s);
    case ResumeCall => ResumeEffect(s);
    case SingleStepCall => if s.taskPort in s.k.live { StepResumes(s); }
    case _ =>
  }

  /** SingleStep starts, in a task that is live and unless Resume dies, with the step bit of every thread of the task
      set and no other register or bit changed, the bundle replied to, and the target running. */
  lemma StepStarts(s0: Sys, es: seq<Event>, s: Sys)
    requires Reached(s0, es, s) && Enabled(s, SingleStepCall) && s.taskPort in s.k.live
    requires !Step(s, SingleStepCall).aborted
    ensures var r := Step(s, SingleStepCall);
            && r.status == RUNNING && r.call == StepWait && r.singleStep && r.held == []
            && r.k.replied == s.k.replied + Raws(s.held) && r.k.threads == s.k.threads
            && (forall t | t in s.k.threads :: t in s.k.mdscr && t in r.k.mdscr)
            && (forall t | t in s.k.threads && s.k.threads[t] == s.taskPort ::
                  && r.k.mdscr[t] & 1 == 1
                  && r.k.mdscr[t] & 0xFFFF_FFFF_FFFF_FFFE == s.k.mdscr[t] & 0xFFFF_FFFF_FFFF_FFFE)
            && (forall t | t in s.k.threads && s.k.threads[t] != s.taskPort :: r.k.mdscr[t] == s.k.mdscr[t])
  {
    hide Raws, ThreadsOf, FifoOk, BlockedOk, StepsOk, SuspendOk, PortsOk, StepBits;
    ReachedIsGood(s0, es, s);
    StepIsStart(s);
    hide Step, SingleStepStart;
    StepResumes(s);
    forall t | t in s.k.threads && s.k.threads[t] == s.taskPort
      ensures Step(s, SingleStepCall).k.mdscr[t] & 1 == 1
      ensures Step(s, SingleStepCall).k.mdscr[t] & 0xFFFF_FFFF_FFFF_FFFE == s.k.mdscr[t] & 0xFFFF_FFFF_FFFF_FFFE
    {
      StepBitOn(s.k.mdscr[t]);
    }
  }

  lemma StepIsStart(s: Sys)
    requires Enabled(s, SingleStepCall)
    ensures Step(s, SingleStepCall) == SingleStepStart(s)
  {
  }

  /** Resume that does not die ends with the target running exactly when the task is live, and else the target counts
      as stopped, as before. */
  lemma ResumeRunsTarget(s0: Sys, es: seq<Event>, s: Sys)
    requires Reached(s0, es, s) && Enabled(s, ResumeCall) && !Resume(s).aborted
    ensures Resume(s).status == if s.taskPort in s.k.live then RUNNING else STOP
    ensures Resume(s).k.live.Keys == s.k.live.Keys
    ensures Resume(s).singleStep == s.singleStep && Resume(s).call == s.call && Resume(s).held == []
  {
    ReplyEachEffect(s.k, s.taskPort, s.pid, s.held);
  }

  /** A step under way is ended by the first message held, and by nothing else. */
  lemma StepEndsAtFirstMessage(s0: Sys, es: seq<Event>, s: Sys, e: Event)
    requires Reached(s0, es, s) && Enabled(s, e) && s.singleStep && !Step(s, e).aborted
    ensures !Step(s, e).singleStep <==> e == HoldOne
  {
    hide Raws, ThreadsOf, KernelOk, FifoOk, BlockedOk, StepsOk, SuspendOk, PortsOk, Resume, HoldDecoded, SetSteps,
      ProcessExists;
    ReachedIsGood(s0, es, s);
    match e
    case HoldOne => HoldFields(s);
    case ResumeCall => ResumeEffect(s);
    case SingleStepCall => if s.taskPort in s.k.live { StepResumes(s); }
    case _ =>
  }

  /** Outside a step no thread's step bit is set, so none is when SingleStep returns, whatever threads came and went;
      and bits 1 to 31 of every thread are as they were when it began. */
  lemma StepBitsAreClean(s0: Sys, es: seq<Event>, s: Sys)
    requires Reached(s0, es, s)
    ensures Enabled(s, SingleStepDone) ==>
              forall t | t in s.k.threads :: t in s.k.mdscr && !StepBitSet(Step(s, SingleStepDone).k.mdscr[t])
    ensures !s.singleStep ==> forall t | t in s.k.threads :: t in s.k.mdscr && !StepBitSet(s.k.mdscr[t])
    ensures forall t | t in s.k.threads ::
              t in s.k.mdscr && t in s.k.base && SameLowBits(s.k.mdscr[t], s.k.base[t])
  {
    hide Raws, ThreadsOf, FifoOk, BlockedOk, SuspendOk, StepBitSet, SameLowBits;
    ReachedIsGood(s0, es, s);
  }

  /** Setting and clearing the step bit gives a debug register back if and only if it had neither that bit nor any upper
      bit. */
  lemma StepRestoresRegister(x: bv64)
    ensures StepBits(StepBits(x, true), false) == x <==> x & 0xFFFF_FFFF_0000_0001 == 0
  {
  }
}
