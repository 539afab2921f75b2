/** Runs of whole sessions that end badly: each shows that a condition in the session's theorems is needed. */
module ProtocolRuns {
  import opened MachTypes
  import opened MachExceptions
  import opened ProtocolSpec

  const TASK_A: Port := 1
  const TASK_B: Port := 2

  /** A soft signal of task A. */
  const SIGNALLED: Raw := Raw(1, TASK_A, EXC_SOFTWARE, [EXC_SOFT_SIGNAL, 17])
  /** A breakpoint in task A. */
  const STOPPED: Raw := Raw(1, TASK_A, 6, [1, 2])
  /** The trap of task B. */
  const TRAPPED: Raw := Raw(3, TASK_B, EXC_SOFTWARE, [EXC_SOFT_SIGNAL, SIGTRAP])

  /** Task A of process 100, with threads 1 and 2. */
  const BOTH_THREADS: Kernel :=
    Kernel(map[TASK_A := TaskInfo(100, 0)], map[1 := TASK_A, 2 := TASK_A], {}, map[1 := 0, 2 := 0], [], [], [], [],
           map[1 := 0, 2 := 0], {NULL, TASK_A}, {NULL, 1, 2})

  /** The start of a session on task A. */
  const BEGIN: Sys :=
    Sys(DETACH, false, NoCall, [], Nothing, None, 100, TASK_A, TASK_A, 0, true, true, false, BOTH_THREADS)

  lemma BeginsSession()
    ensures Init(BEGIN)
  {
  }

  lemma FourSteps(s0: Sys, e0: Event, s1: Sys, e1: Event, s2: Sys, e2: Event, s3: Sys, e3: Event, s4: Sys)
    requires Enabled(s0, e0) && Step(s0, e0) == s1 && Enabled(s1, e1) && Step(s1, e1) == s2
    requires Enabled(s2, e2) && Step(s2, e2) == s3 && Enabled(s3, e3) && Step(s3, e3) == s4
    ensures Leads(s0, [e0, e1, e2, e3], s4)
  {
    hide Step, Enabled;
    assert Leads(s0, [], s0) && [] + [e0] == [e0] && [e0] + [e1] == [e0, e1];
    assert [e0, e1] + [e2] == [e0, e1, e2] && [e0, e1, e2] + [e3] == [e0, e1, e2, e3];
    OneMore(s0, [], s0, e0);
    OneMore(s0, [e0], s1, e1);
    OneMore(s0, [e0, e1], s2, e2);
    OneMore(s0, [e0, e1, e2], s3, e3);
  }

  /** A message goes from the port into the bundle. */
  const TAKE_ONE: seq<Event> := [ReceiveOne, DecodeOne, HoldOne]

  lemma TakesOne(s0: Sys, es: seq<Event>, s: Sys)
    requires Leads(s0, es, s) && !s.aborted && s.running && s.flight.Nothing? && s.k.queue != []
    ensures var t := HoldDecoded(DecodeTaken(Take(s)));
            Leads(s0, es + TAKE_ONE, t)
  {
    hide Leads, Step, Enabled, Take, DecodeTaken, HoldDecoded;
    CatcherSteps(s);
    CatcherSteps(Take(s));
    CatcherSteps(DecodeTaken(Take(s)));
    OneMore(s0, es, s, ReceiveOne);
    OneMore(s0, es + [ReceiveOne], Take(s), DecodeOne);
    OneMore(s0, es + [ReceiveOne] + [DecodeOne], DecodeTaken(Take(s)), HoldOne);
    assert es + [ReceiveOne] + [DecodeOne] + [HoldOne] == es + TAKE_ONE;
  }

  // ---- a task that dies in a single step ----

  const STEPPING: Sys :=
    BEGIN.(status := RUNNING, singleStep := true, call := StepWait,
           k := BOTH_THREADS.(mdscr := map[1 := 1, 2 := 1]))

  lemma Attaches()
    ensures Enabled(BEGIN, AttachDone) && Step(BEGIN, AttachDone) == BEGIN.(status := STOP)
  {
  }

  lemma StartsStep()
    ensures Enabled(BEGIN.(status := STOP), SingleStepCall)
    ensures Step(BEGIN.(status := STOP), SingleStepCall) == STEPPING
  {
    assert SetSteps(BOTH_THREADS, TASK_A, true) == STEPPING.k by {
      assert SteppedIn(BOTH_THREADS.mdscr, BOTH_THREADS.threads, TASK_A, true) == map[1 := 1, 2 := 1];
    }
    hide SetSteps;
  }

  /** Nothing is left of task A but the exception it raised. */
  lemma RaisesAndDies()
    ensures Enabled(STEPPING, Raise(STOPPED))
    ensures var s := Step(STEPPING, Raise(STOPPED));
            && Enabled(s, Kill(TASK_A))
            && var t := Step(s, Kill(TASK_A));
            && t == STEPPING.(k := t.k) && t.k.live == map[] && t.k.queue == [STOPPED]
  {
  }

  lemma DiesHolding(s: Sys)
    requires s == STEPPING.(k := s.k) && s.k.live == map[] && s.k.queue == [STOPPED]
    ensures HoldDecoded(DecodeTaken(Take(s))).aborted
  {
  }

  /** A thread raises an exception in a single step, and its task is killed before the message is taken: clearing the
      step bits fails, and the exception it throws ends the debugger. */
  lemma KillInStepEndsDebugger()
    ensures Init(BEGIN)
    ensures var es := [AttachDone, SingleStepCall, Raise(STOPPED), Kill(TASK_A)] + TAKE_ONE;
            Runs(BEGIN, es) && After(BEGIN, es).aborted
  {
    BeginsSession();
    Attaches();
    StartsStep();
    RaisesAndDies();
    var raised := Step(STEPPING, Raise(STOPPED));
    var killed := Step(raised, Kill(TASK_A));
    DiesHolding(killed);
    hide Init, Step, Enabled, Runs, After, Take, DecodeTaken, HoldDecoded, RaiseException, RemoveTask;
    FourSteps(BEGIN, AttachDone, BEGIN.(status := STOP), SingleStepCall, STEPPING, Raise(STOPPED), raised,
              Kill(TASK_A), killed);
    TakesOne(BEGIN, [AttachDone, SingleStepCall, Raise(STOPPED), Kill(TASK_A)], killed);
  }

  // ---- an exec in the middle of a bundle ----

  /** Task B alone, with thread 3, after the exceptions in `queue`. */
  function OnlyB(info: TaskInfo, blocked: set<Thread>, queue: seq<Raw>): Kernel {
    Kernel(map[TASK_B := info], map[3 := TASK_B], blocked, map[3 := 0], queue, queue, [], [],
           map[3 := 0], {NULL, TASK_A, TASK_B}, {NULL, 1, 2, 3})
  }

  const ONE_SIGNALLED: Sys := BEGIN.(k := BOTH_THREADS.(blocked := {1}, queue := [SIGNALLED], raised := [SIGNALLED]))

  lemma ExecStep()
    ensures var e := Exec(2, TASK_B, 3, 0);
            && Enabled(ONE_SIGNALLED, e)
            && Step(ONE_SIGNALLED, e) == BEGIN.(k := OnlyB(TaskInfo(100, 0), {}, [SIGNALLED]))
  {
    var k := ONE_SIGNALLED.k;
    var gone := set t | t in k.threads && k.threads[t] == TASK_A;
    assert gone == {1, 2};
    var left := RemoveTask(k, TASK_A);
    assert left.threads == map[] && left.mdscr == map[] && left.base == map[] && left.live == map[];
    var k2 := AddThread(AddTask(left, TASK_B, 100), 3, TASK_B, 0);
    assert k2.usedPorts == {NULL, TASK_A, TASK_B} && k2.usedThreads == {NULL, 1, 2, 3};
    assert k2 == OnlyB(TaskInfo(100, 0), {}, [SIGNALLED]);
  }

  const TWO_QUEUED: Sys := BEGIN.(k := OnlyB(TaskInfo(100, 0), {3}, [SIGNALLED, TRAPPED]))

  lemma FirstRaise()
    ensures Enabled(BEGIN, Raise(SIGNALLED)) && Step(BEGIN, Raise(SIGNALLED)) == ONE_SIGNALLED
  {
    assert RaiseException(BOTH_THREADS, SIGNALLED) == ONE_SIGNALLED.k;
  }

  lemma SecondRaise()
    ensures var s := BEGIN.(k := OnlyB(TaskInfo(100, 0), {}, [SIGNALLED]));
            Enabled(s, Raise(TRAPPED)) && Step(s, Raise(TRAPPED)) == TWO_QUEUED
    ensures Enabled(TWO_QUEUED, AttachDone) && Step(TWO_QUEUED, AttachDone) == TWO_QUEUED.(status := STOP)
  {
    assert RaiseException(OnlyB(TaskInfo(100, 0), {}, [SIGNALLED]), TRAPPED) == TWO_QUEUED.k;
  }

  const FIRST: Message := Message(SIGNALLED, true, Data(TASK_A, 1, EXC_SOFTWARE, [EXC_SOFT_SIGNAL, 17]))
  const SECOND: Message := Message(TRAPPED, true, Data(TASK_B, 3, EXC_SOFTWARE, [EXC_SOFT_SIGNAL, SIGTRAP]))

  /** The message of the old, dead task is held first and suspends nothing. */
  lemma HoldsFirst()
    ensures var s := TWO_QUEUED.(status := STOP);
            HoldDecoded(DecodeTaken(Take(s))) == ONE_HELD
  {
  }

  const ONE_HELD: Sys :=
    TWO_QUEUED.(status := STOP, k := TWO_QUEUED.k.(queue := [TRAPPED]), received := 1, held := [FIRST])
  const BOTH_HELD: Sys :=
    ONE_HELD.(k := ONE_HELD.k.(queue := []), received := 2, held := [FIRST, SECOND],
              taskPort := TASK_B, loopTask := TASK_B)

  /** The message of the new task moves the tracked port, but comes too late to suspend. */
  lemma HoldsSecond()
    ensures HoldDecoded(DecodeTaken(Take(ONE_HELD))) == BOTH_HELD
  {
  }

  lemma ResumeDies()
    ensures Enabled(BOTH_HELD, ResumeCall) && Resume(BOTH_HELD).aborted
  {
    assert Reply(BOTH_HELD.k, TASK_B, 100, FIRST, 0, true, true).died;
    assert BOTH_HELD.held[0] == FIRST;
  }

  /** The two messages are both held; but the new task is not suspended, and Resume ends the debugger. */
  lemma ExecInBundleBreaksBalance()
    ensures Init(BEGIN)
    ensures var es := [Raise(SIGNALLED), Exec(2, TASK_B, 3, 0), Raise(TRAPPED), AttachDone] + TAKE_ONE + TAKE_ONE;
            && Runs(BEGIN, es) && var s := After(BEGIN, es);
            && !s.aborted && |s.held| == 2 && s.taskPort == TASK_B && TASK_B in s.k.live
            && s.k.live[TASK_B].suspendCount == 0
            && Enabled(s, ResumeCall) && Resume(s).aborted
  {
    hide Init, Step, Enabled, Runs, After, Take, DecodeTaken, HoldDecoded, Resume;
    BeginsSession();
    FirstRaise();
    SecondRaise();
    ExecStep();
    HoldsFirst();
    HoldsSecond();
    ResumeDies();
    var queued := TWO_QUEUED.(status := STOP);
    FourSteps(BEGIN, Raise(SIGNALLED), ONE_SIGNALLED, Exec(2, TASK_B, 3, 0),
              BEGIN.(k := OnlyB(TaskInfo(100, 0), {}, [SIGNALLED])), Raise(TRAPPED), TWO_QUEUED, AttachDone, queued);
    var es := [Raise(SIGNALLED), Exec(2, TASK_B, 3, 0), Raise(TRAPPED), AttachDone];
    TakesOne(BEGIN, es, queued);
    TakesOne(BEGIN, es + TAKE_ONE, ONE_HELD);
  }

  // ---- a process that dies, and a child of its that is tracked ----

  const ATTACHED: Sys := BEGIN.(status := STOP)

  /** Task A has a child, task B of process 200. */
  const FORKED: Sys :=
    ATTACHED.(k := Kernel(map[TASK_A := TaskInfo(100, 0), TASK_B := TaskInfo(200, 0)],
                          map[1 := TASK_A, 2 := TASK_A, 3 := TASK_B], {}, map[1 := 0, 2 := 0, 3 := 0], [], [], [], [],
                          map[1 := 0, 2 := 0, 3 := 0], {NULL, TASK_A, TASK_B}, {NULL, 1, 2, 3}))

  lemma ForkStep()
    ensures Enabled(BEGIN, AttachDone) && Step(BEGIN, AttachDone) == ATTACHED
    ensures var e := Fork(2, TASK_B, 200, 3, 0);
            Enabled(ATTACHED, e) && Step(ATTACHED, e) == FORKED
  {
    assert AddThread(AddTask(BOTH_THREADS, TASK_B, 200), 3, TASK_B, 0) == FORKED.k;
  }

  lemma KillStep()
    ensures Enabled(FORKED, Kill(TASK_A))
    ensures Step(FORKED, Kill(TASK_A)) == ATTACHED.(k := OnlyB(TaskInfo(200, 0), {}, []))
  {
    LeavesB();
    hide RemoveTask;
  }

  lemma LeavesB()
    ensures RemoveTask(FORKED.k, TASK_A) == OnlyB(TaskInfo(200, 0), {}, [])
  {
    var k := FORKED.k;
    var gone := set t | t in k.threads && k.threads[t] == TASK_A;
    assert gone == {1, 2};
    var left := RemoveTask(k, TASK_A);
    assert left.threads == map[3 := TASK_B] && left.mdscr == map[3 := 0] && left.base == map[3 := 0];
    assert left.live == map[TASK_B := TaskInfo(200, 0)];
    assert left == OnlyB(TaskInfo(200, 0), {}, []);
  }

  const CHILD_TRAPPED: Sys := ATTACHED.(k := OnlyB(TaskInfo(200, 0), {3}, [TRAPPED]))

  lemma ChildTraps()
    ensures var s := ATTACHED.(k := OnlyB(TaskInfo(200, 0), {}, []));
            Enabled(s, Raise(TRAPPED)) && Step(s, Raise(TRAPPED)) == CHILD_TRAPPED
  {
    assert RaiseException(OnlyB(TaskInfo(200, 0), {}, []), TRAPPED) == CHILD_TRAPPED.k;
  }

  const CHILD_HELD: Sys :=
    CHILD_TRAPPED.(k := OnlyB(TaskInfo(200, 1), {3}, [TRAPPED]).(queue := []), received := 1, held := [SECOND],
                   taskPort := TASK_B, loopTask := TASK_B, suspended := Some(TASK_B))

  /** The trap is taken for an exec: the child is tracked and suspended. */
  lemma ChildIsTracked()
    ensures HoldDecoded(DecodeTaken(Take(CHILD_TRAPPED))) == CHILD_HELD
  {
  }

  lemma DetachFails()
    ensures Enabled(CHILD_HELD, DetachCall) && Step(CHILD_HELD, DetachCall) == ShutDown(CHILD_HELD)
    ensures Enabled(ShutDown(CHILD_HELD), DetachDone(true))
    ensures Step(ShutDown(CHILD_HELD), DetachDone(true)) == CHILD_HELD.(routed := false, running := false)
  {
    assert !ProcessExists(CHILD_HELD.k, 100);
  }

  /** Detach then fails, for the process is gone, and leaves the child suspended. */
  lemma DetachLeavesChildSuspended()
    ensures Init(BEGIN)
    ensures var es := [AttachDone, Fork(2, TASK_B, 200, 3, 0), Kill(TASK_A), Raise(TRAPPED)] + TAKE_ONE
                      + [DetachCall] + [DetachDone(true)];
            && Runs(BEGIN, es) && var s := After(BEGIN, es);
            && !s.aborted && s.status == STOP && !s.routed
            && TASK_B in s.k.live && s.k.live[TASK_B].suspendCount == 1
  {
    hide Init, Step, Enabled, Runs, After, Take, DecodeTaken, HoldDecoded;
    BeginsSession();
    ForkStep();
    KillStep();
    ChildTraps();
    ChildIsTracked();
    DetachFails();
    var es := [AttachDone, Fork(2, TASK_B, 200, 3, 0), Kill(TASK_A), Raise(TRAPPED)];
    FourSteps(BEGIN, AttachDone, ATTACHED, Fork(2, TASK_B, 200, 3, 0), FORKED, Kill(TASK_A),
              ATTACHED.(k := OnlyB(TaskInfo(200, 0), {}, [])), Raise(TRAPPED), CHILD_TRAPPED);
    TakesOne(BEGIN, es, CHILD_TRAPPED);
    OneMore(BEGIN, es + TAKE_ONE, CHILD_HELD, DetachCall);
    OneMore(BEGIN, es + TAKE_ONE + [DetachCall], ShutDown(CHILD_HELD), DetachDone(true));
  }

  // ---- holding a message is not one step in the source ----

  const RAISED: Sys := STEPPING.(k := STEPPING.k.(queue := [STOPPED], raised := [STOPPED], blocked := {1}))
  const STOP_MESSAGE: Message := Message(STOPPED, true, Data(TASK_A, 1, 6, [1, 2]))
  const IN_HAND: Sys :=
    RAISED.(k := RAISED.k.(queue := []), received := 1, flight := Decoded(STOP_MESSAGE))

  lemma ComesToHand()
    ensures Enabled(STEPPING, Raise(STOPPED)) && Step(STEPPING, Raise(STOPPED)) == RAISED
    ensures Take(RAISED).flight.Received? && DecodeTaken(Take(RAISED)) == IN_HAND
  {
    assert RaiseException(STEPPING.k, STOPPED) == RAISED.k;
  }

  /** ExceptionMessageReceived but for its last statement, which appends the message. */
  function AllButAppend(s: Sys): Sys {
    EndStep(SuspendForFirst(s))
  }

  lemma AppendIsLast(s: Sys, m: Message)
    ensures var r := AllButAppend(s);
            Hold(s, m) == if r.aborted then r else r.(held := r.held + [m])
  {
  }

  /** The suspended task, its step bits cleared again, and no message held yet. */
  const ENDED: Sys :=
    IN_HAND.(singleStep := false, suspended := Some(TASK_A),
             k := IN_HAND.k.(live := map[TASK_A := TaskInfo(100, 1)], mdscr := map[1 := 0, 2 := 0]))

  lemma StepEnds()
    ensures AllButAppend(IN_HAND) == ENDED
  {
    assert SuspendForFirst(IN_HAND) ==
           IN_HAND.(suspended := Some(TASK_A), k := IN_HAND.k.(live := map[TASK_A := TaskInfo(100, 1)]));
    assert SteppedIn(IN_HAND.k.mdscr, IN_HAND.k.threads, TASK_A, false) == map[1 := 0, 2 := 0];
  }

  /** SingleStep sees the flag and comes back, and Resume finds nothing to reply to and resumes the task. */
  lemma ResumedTooSoon()
    ensures var back := ENDED.(status := STOP, call := NoCall);
            && Enabled(ENDED, SingleStepDone) && Step(ENDED, SingleStepDone) == back
            && Enabled(back, ResumeCall)
            && Resume(back) == back.(status := RUNNING, suspended := None, held := [],
                                     k := back.k.(live := map[TASK_A := TaskInfo(100, 0)]))
  {
  }

  /** Statement by statement the suspend balance does not hold. A message is held while its task is not suspended and a
      thread of it can execute, when SingleStep returns and Resume is called after the flag is cleared and before the
      message is appended. */
  lemma UnlockedHoldBreaksBalance()
    ensures Init(BEGIN)
    ensures var es := [AttachDone, SingleStepCall, Raise(STOPPED), ReceiveOne] + [DecodeOne];
            && Runs(BEGIN, es) && After(BEGIN, es) == IN_HAND && IN_HAND.flight == Decoded(STOP_MESSAGE)
            && var ended := AllButAppend(IN_HAND);
            && Enabled(ended, SingleStepDone) && Enabled(Step(ended, SingleStepDone), ResumeCall)
            && var resumed := Resume(Step(ended, SingleStepDone));
            && var held := resumed.(held := resumed.held + [STOP_MESSAGE], flight := Nothing);
            && !held.aborted && held.held[0].state.taskPort == held.taskPort == TASK_A && TASK_A in held.k.live
            && held.k.live[TASK_A].suspendCount == 0 && CanRun(held.k, 2)
  {
    hide Init, Step, Enabled, Runs, After, Take, DecodeTaken, Resume, AllButAppend;
    BeginsSession();
    Attaches();
    StartsStep();
    ComesToHand();
    CatcherSteps(RAISED);
    CatcherSteps(Take(RAISED));
    FourSteps(BEGIN, AttachDone, BEGIN.(status := STOP), SingleStepCall, STEPPING, Raise(STOPPED), RAISED,
              ReceiveOne, Take(RAISED));
    OneMore(BEGIN, [AttachDone, SingleStepCall, Raise(STOPPED), ReceiveOne], Take(RAISED), DecodeOne);
    StepEnds();
    ResumedTooSoon();
  }
}
