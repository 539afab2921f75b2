/** MachTask and MachProcess: the debugger's objects, proved to do what the transition system's steps say. */
module MachProcesses {
  import opened MachTypes
  import opened MachExceptions
  import opened ProtocolSpec
  import opened ReplyEffects
  import opened ProtocolInvariants
  import opened ProtocolTheorems
  import opened Interleaving

  /** The kernel as the debugger's calls see it. */
  class KernelCalls {
    var k: Kernel

    constructor (k: Kernel)
      ensures this.k == k
    {
      this.k := k;
    }

    method TaskSuspend(p: Port)
      modifies this
      ensures k == SuspendTask(old(k), p)
    {
      k := SuspendTask(k, p);
    }

    method TaskResume(p: Port)
      modifies this
      ensures k == ResumeTask(old(k), p)
    {
      k := ResumeTask(k, p);
    }

    /** task_info(TASK_BASIC_INFO); fails on a dead port. */
    method BasicInfo(p: Port) returns (ok: bool, suspendCount: nat)
      ensures ok <==> p in k.live
      ensures ok ==> suspendCount == k.live[p].suspendCount
    {
      ok := p in k.live;
      suspendCount := if ok then k.live[p].suspendCount else 0;
    }

    /** pid_for_task; -1 on a dead port. */
    method PidForTask(p: Port) returns (pid: int)
      ensures pid == if p in k.live then k.live[p].pid else -1
    {
      pid := if p in k.live then k.live[p].pid else -1;
    }

    /** task_threads: each thread of a live task once. */
    method TaskThreads(p: Port) returns (ok: bool, list: seq<Thread>)
      ensures ok <==> p in k.live
      ensures ok ==> (forall t :: t in list <==> t in k.threads && k.threads[t] == p)
      ensures forall i, j | 0 <= i < j < |list| :: list[i] != list[j]
    {
      list := [];
      ok := p in k.live;
      if ok {
        var all := set t | t in k.threads && k.threads[t] == p;
        var rest := all;
        while rest != {}
          invariant rest <= all
          invariant forall t :: t in list <==> t in all - rest
          invariant forall i, j | 0 <= i < j < |list| :: list[i] != list[j]
          decreases rest
        {
          var t :| t in rest;
          assert forall i | 0 <= i < |list| :: list[i] in list;
          list := list + [t];
          rest := rest - {t};
        }
      }
    }

    /** thread_get_state(ARM_DEBUG_STATE64). */
    method ThreadGetState(t: Thread) returns (mdscr: bv64)
      requires t in k.mdscr
      ensures mdscr == k.mdscr[t]
    {
      mdscr := k.mdscr[t];
    }

    method ThreadSetState(t: Thread, mdscr: bv64)
      modifies this
      ensures k == old(k).(mdscr := old(k).mdscr[t := mdscr])
    {
      k := k.(mdscr := k.mdscr[t := mdscr]);
    }

    /** ptrace(PT_THUPDATE). */
    method PtraceThreadUpdate(pid: nat, t: Thread, signal: int, succeeds: bool)
      modifies this
      ensures k == TryUpdate(old(k), pid, t, signal, succeeds)
    {
      if succeeds {
        k := UpdateThread(k, pid, t, signal);
      }
    }

    /** kill and ptrace(PT_DETACH), as far as they tell whether there is such a process. */
    method FindProcess(pid: nat) returns (ok: bool)
      ensures ok <==> ProcessExists(k, pid)
    {
      ok := ProcessExists(k, pid);
    }

    /** mach_msg sending a reply. */
    method Send(m: Message, succeeds: bool)
      modifies this
      ensures k == TrySend(old(k), m, succeeds)
    {
      if succeeds {
        k := SendReply(k, m);
      }
    }

    /** mach_msg receiving from the exception port. */
    method ReceiveMessage() returns (raw: Raw)
      requires k.queue != []
      modifies this
      ensures raw == old(k).queue[0] && k == old(k).(queue := old(k).queue[1..])
    {
      raw := k.queue[0];
      k := k.(queue := k.queue[1..]);
    }
  }

  class MachTask {
    const kernel: KernelCalls
    var task: Port

    constructor (kernel: KernelCalls, task: Port)
      ensures this.kernel == kernel && this.task == task
    {
      this.kernel, this.task := kernel, task;
    }

    method Suspend()
      modifies kernel
      ensures kernel.k == SuspendTask(old(kernel.k), task)
    {
      kernel.TaskSuspend(task);
    }

    /** A task that is not suspended is left alone; a dead one is an error. */
    method Resume() returns (ok: bool)
      requires NULL !in kernel.k.live
      modifies kernel
      ensures ok <==> task in old(kernel.k).live
      ensures kernel.k == ResumeTask(old(kernel.k), task)
    {
      if task == NULL {
        return false;
      }
      var suspendCount;
      ok, suspendCount := kernel.BasicInfo(task);
      if ok && suspendCount > 0 {
        kernel.TaskResume(task);
      }
    }

    method TaskPortChanged(p: Port)
      modifies this
      ensures task == p
    {
      task := p;
    }

    method IsValid(p: Port) returns (valid: bool)
      ensures valid <==> p in kernel.k.live
    {
      var suspendCount;
      valid, suspendCount := kernel.BasicInfo(p);
    }

    /** EnableSingleStep and DisableSingleStep, which differ in one operator: false stands for the exception they
        throw. */
    method SetSingleStep(on: bool) returns (ok: bool)
      requires kernel.k.threads.Keys <= kernel.k.mdscr.Keys
      modifies kernel
      ensures ok <==> task in old(kernel.k).live
      ensures kernel.k == if ok then SetSteps(old(kernel.k), task, on) else old(kernel.k)
    {
      hide StepBits;
      var list;
      ok, list := kernel.TaskThreads(task);
      if !ok {
        return;
      }
      ghost var k0 := kernel.k;
      var i := 0;
      while i < |list|
        invariant i <= |list|
        invariant kernel.k == k0.(mdscr := kernel.k.mdscr) && kernel.k.mdscr.Keys == k0.mdscr.Keys
        invariant forall t | t in k0.mdscr ::
                    kernel.k.mdscr[t] == if t in list[..i] then StepBits(k0.mdscr[t], on) else k0.mdscr[t]
      {
        var mdscr := kernel.ThreadGetState(list[i]);
        assert list[i] !in list[..i];
        kernel.ThreadSetState(list[i], StepBits(mdscr, on));
        i := i + 1;
      }
      assert list[..i] == list;
      assert kernel.k.mdscr == SteppedIn(k0.mdscr, k0.threads, task, on);
    }
  }

  /** What of the system's state is not in the debugger's objects: the exception thread's variables, and where the
      controlling thread and the exception port are. */
  datatype Elsewhere = Elsewhere(call: Call, flight: Flight, loopTask: Port, received: nat, running: bool, routed: bool)

  class MachProcess {
    const task: MachTask
    const pid: nat
    var status: Status
    var singleStep: bool
    var held: seq<Message>        // m_exception_messages
    var suspended: Option<Port>   // history: the task that the bundle suspended

    constructor (task: MachTask, pid: nat)
      ensures this.task == task && this.pid == pid
      ensures status == DETACH && !singleStep && held == [] && suspended == None
    {
      this.task, this.pid := task, pid;
      status, singleStep, held, suspended := DETACH, false, [], None;
    }

    /** The state of the transition system that these objects stand for. */
    function View(e: Elsewhere, died: bool): Sys
      reads this, task, task.kernel
    {
      Sys(status, singleStep, e.call, held, e.flight, suspended, pid, task.task, e.loopTask, e.received, e.running,
          e.routed, died, task.kernel.k)
    }

    ghost predicate Valid()
      reads this, task, task.kernel
    {
      KernelOk(task.kernel.k)
    }

    /** `died` when the step could not be ended, which the exception thread does not survive. */
    method ExceptionMessageReceived(m: Message, ghost e: Elsewhere) returns (died: bool)
      requires Valid()
      modifies this, task.kernel
      ensures View(e, died) == Hold(old(View(e, false)), m)
    {
      if held == [] {
        suspended := if task.task in task.kernel.k.live then Some(task.task) else None;
        task.Suspend();
      }
      if singleStep {
        var ok := task.SetSingleStep(false);
        if !ok {
          return true;
        }
        singleStep := false;
      }
      held := held + [m];
      died := false;
    }

    /** Message::Reply. Whether the update and the reply succeed is told to the method, which goes on either way. */
    method Reply(m: Message, signal: int, updates: bool, sends: bool) returns (died: bool)
      modifies task.kernel
      ensures ProtocolSpec.Reply(old(task.kernel.k), task.task, pid, m, signal, updates, sends) ==
              Replies(task.kernel.k, died)
    {
      var softSignal := m.state.SoftSignal();
      if softSignal != 0 {
        var statePid: int := -1;
        if task.task == m.state.taskPort {
          statePid := pid;
          softSignal := signal;
        } else {
          statePid := task.kernel.PidForTask(m.state.taskPort);
        }
        if statePid == -1 {
          return true;
        }
        task.kernel.PtraceThreadUpdate(statePid, m.state.threadPort, softSignal, updates);
      }
      task.kernel.Send(m, sends);
      died := false;
    }

    method ReplyToAllExceptions(ghost e: Elsewhere) returns (died: bool)
      modifies this, task.kernel
      ensures View(e, died) == ProtocolSpec.ReplyToAllExceptions(old(View(e, false)))
    {
      if held != [] {
        var i := 0;
        while i < |held|
          invariant i <= |held|
          invariant ReplyEach(old(task.kernel.k), task.task, pid, held) ==
                    ReplyEach(task.kernel.k, task.task, pid, held[i..])
          invariant View(e, false) == old(View(e, false)).(k := task.kernel.k)
        {
          assert held[i..][0] == held[i] && held[i..][1..] == held[i + 1..];
          died := Reply(held[i], 0, true, true);
          if died {
            return;
          }
          i := i + 1;
        }
        held := [];
      }
      died := false;
    }

    /** `thrown` when the task is dead. */
    method Resume(ghost e: Elsewhere) returns (died: bool, thrown: bool)
      requires Valid() && status == STOP
      modifies this, task.kernel
      ensures View(e, died) == ProtocolSpec.Resume(old(View(e, false)))
      ensures thrown <==> !died && task.task !in old(task.kernel.k).live
      ensures !died ==> held == [] && singleStep == old(singleStep) && status == if thrown then STOP else RUNNING
    {
      thrown := false;
      died := ReplyToAllExceptions(e);
      if died {
        return;
      }
      RepliesKeepLive(old(View(e, false)));
      suspended := None;
      var ok := task.Resume();
      if !ok {
        return false, true;
      }
      status := RUNNING;
    }

    /** `thrown` when the process is gone; its status is then kept. */
    method Stop(ghost e: Elsewhere) returns (thrown: bool)
      requires status == RUNNING
      modifies this
      ensures View(e, false) == ProtocolSpec.Stop(old(View(e, false)))
      ensures thrown <==> !ProcessExists(task.kernel.k, pid)
      ensures status == if thrown then RUNNING else STOP
    {
      var ok := task.kernel.FindProcess(pid);
      if !ok {
        return true;
      }
      status := STOP;
      thrown := false;
    }

    /** SingleStep up to its wait; it waits unless it died or threw. */
    method SingleStepStart(ghost e: Elsewhere) returns (died: bool, thrown: bool)
      requires Valid() && status == STOP && e.call.NoCall?
      modifies this, task.kernel
      ensures View(e.(call := if thrown then NoCall else StepWait), died) ==
              ProtocolSpec.SingleStepStart(old(View(e, false)))
      ensures thrown <==> task.task !in old(task.kernel.k).live
      ensures !died ==> singleStep && status == if thrown then STOP else RUNNING
    {
      hide SetSteps, ProtocolSpec.Resume;
      singleStep := true;
      var ok := task.SetSingleStep(true);
      if !ok {
        return false, true;
      }
      StepsKeepKernel(old(task.kernel.k), task.task, true);
      died, thrown := Resume(e);
    }

    /** SingleStep with what the others do during its wait. `waiting` when they are done before the step is. */
    method SingleStep(others: seq<Event>, e: Elsewhere)
      returns (died: bool, thrown: bool, waiting: bool, e': Elsewhere)
      requires Inv(View(e, false)) && status == STOP && e.call.NoCall?
      modifies this, task, task.kernel
      ensures View(e', died) == WholeStep(old(View(e, false)), others)
      ensures thrown <==> old(task.task !in task.kernel.k.live)
      ensures waiting <==> !died && !thrown && singleStep
      ensures !died && !thrown && !waiting ==> status == STOP && e'.call == NoCall
    {
      hide ProtocolSpec.SingleStepStart, Inv, Others;
      assert Valid() by { InvHasKernel(View(e, false)); }
      ghost var started := ProtocolSpec.SingleStepStart(View(e, false));
      died, thrown := SingleStepStart(e);
      e' := e.(call := if thrown then NoCall else StepWait);
      if died || thrown {
        return died, thrown, false, e';
      }
      var i := 0;
      while singleStep && i < |others|
        invariant i <= |others| && !died
        invariant Wait(View(e', false), others[i..]) == Wait(started, others)
      {
        assert others[i..][..1] == others[i..i + 1] && others[i..][1..] == others[i + 1..];
        died, e' := Act(Controller, others[i..i + 1], e');
        if died {
          return true, false, false, e';
        }
        i := i + 1;
      }
      if singleStep {
        return false, false, true, e';
      }
      status := STOP;
      e' := e'.(call := NoCall);
      return false, false, false, e';
    }

    /** What the other parties do to the debugger's objects and the kernel while this one waits or works: a part of the
        model's surroundings, and of no function of the source. */
    method Act(me: Party, events: seq<Event>, e: Elsewhere) returns (died: bool, e': Elsewhere)
      modifies this, task, task.kernel
      ensures View(e', died) == Others(old(View(e, false)), me, events)
    {
      var s := Others(View(e, false), me, events);
      OthersKeep(View(e, false), me, events);
      status, singleStep, held, suspended := s.status, s.singleStep, s.held, s.suspended;
      task.task := s.taskPort;
      task.kernel.k := s.k;
      died, e' := s.aborted, Elsewhere(s.call, s.flight, s.loopTask, s.received, s.running, s.routed);
    }

    /** Stops a running target first. The exception thread is gone between messages, and others act before the process
        is let go. `thrown` when the exception port cannot be given up or the process is gone, and then the status is
        kept; or when only the task is dead, and then it is detached all the same. */
    method Detach(others: seq<Event>, portGiven: bool, e: Elsewhere)
      returns (died: bool, thrown: bool, e': Elsewhere)
      requires Inv(View(e, false)) && (status == RUNNING || status == STOP)
      requires e.call.NoCall? && e.routed && e.flight.Nothing?
      modifies this, task, task.kernel
      ensures old(status == RUNNING && !ProcessExists(task.kernel.k, pid)) ==>
                thrown && !died && View(e', died) == old(View(e, false))
      ensures !old(status == RUNNING && !ProcessExists(task.kernel.k, pid)) ==>
                var s := Others(ShutDown(old(View(e, false)).(status := STOP)), Controller, others);
                && View(e', died) == (if s.aborted then s else LetGo(s, portGiven))
                && (!died ==> !e'.routed && !e'.running && e'.call == NoCall)
                && (!died ==> status == if portGiven && ProcessExists(s.k, s.pid) then DETACH else STOP)
                && (thrown <==>
                    !s.aborted && (!portGiven || !ProcessExists(s.k, s.pid) || s.taskPort !in s.k.live))
    {
      hide Others, Inv, ResumeTask, ProcessExists;
      died, thrown, e' := false, false, e;
      ghost var s0 := View(e, false);
      if status == RUNNING {
        DetachSteps(s0);
        thrown := Stop(e);
        if thrown {
          return;
        }
      }
      ghost var s1 := View(e, false);
      DetachSteps(s1);
      OthersKeep(ShutDown(s1), Controller, others);
      OthersLeaveController(ShutDown(s1), others);
      e' := e.(routed := false, running := false, call := Detaching);
      died, e' := Act(Controller, others, e');
      if died {
        return;
      }
      assert Valid() by { InvHasKernel(View(e', false)); }
      e' := e'.(call := NoCall);
      if !portGiven {
        return false, true, e';
      }
      var ok := task.kernel.FindProcess(pid);
      if !ok {
        return false, true, e';
      }
      status := DETACH;
      suspended := None;
      ok := task.Resume();
      thrown := !ok;
    }
  }

  /** The loop's pass for a message, with what the others do once it has been taken and once it has been decoded. */
  method ReceivePass(process: MachProcess, taken: seq<Event>, decoded: seq<Event>, e: Elsewhere)
    returns (died: bool, e': Elsewhere)
    requires process.task.kernel.k.queue != [] && Good(process.View(e, false)) && e.running && e.flight.Nothing?
    modifies process, process.task, process.task.kernel
    ensures process.View(e', died) == Handle(old(process.View(e, false)), taken, decoded)
  {
    hide Decode, Hold, Others, Inv, Good, KernelOk;
    ghost var s := process.View(e, false);
    TakenIsGood(s, taken);
    var raw := process.task.kernel.ReceiveMessage();
    e' := e.(flight := Received(raw));
    assert process.View(e', false) == Take(s);
    OthersLeaveCatcher(Take(s), taken);
    died, e' := process.Act(Catcher, taken, e');
    if died {
      return;
    }
    ghost var s1 := process.View(e', false);
    DecodedIsGood(s1, decoded);
    var taskIsValid := process.task.IsValid(e'.loopTask);
    var success, m := CatchExceptionRaise(raw, e'.loopTask, taskIsValid);
    assert success;
    var loopTask := e'.loopTask;
    if m.state.taskPort != loopTask {
      if m.state.IsValid() {
        loopTask := m.state.taskPort;
        process.task.TaskPortChanged(m.state.taskPort);
      }
    }
    e' := e'.(flight := Decoded(m), loopTask := loopTask, received := e'.received + 1);
    assert process.View(e', false) == DecodeTaken(s1);
    OthersLeaveCatcher(DecodeTaken(s1), decoded);
    died, e' := process.Act(Catcher, decoded, e');
    if died {
      return;
    }
    assert process.Valid() by { InvHasKernel(process.View(e', false)); }
    e' := e'.(flight := Nothing);
    died := process.ExceptionMessageReceived(m, e');
  }

  /** One pass of MachTask::ExceptionThread's loop, from its cancellation point on, with what the others do in it. What
      it comes to is said of the state in which it receives, after the others' first steps. */
  method LoopPass(process: MachProcess, turn: Turn, e: Elsewhere) returns (died: bool, e': Elsewhere)
    requires Good(process.View(e, false)) && e.running && e.flight.Nothing?
    modifies process, process.task, process.task.kernel
    ensures process.View(e', died) == Pass(old(process.View(e, false)), turn)
    ensures var s := Others(old(process.View(e, false)), Catcher, turn.before);
            if s.aborted || !s.running then process.View(e', died) == s
            else PassDoes(s, turn.outcome, process.View(e', died))
    ensures Inv(process.View(e', died)) && (!died ==> e'.flight.Nothing?)
  {
    hide Others, Handle, Good, PassDoes;
    ghost var head := process.View(e, false);
    PassKeepsInvariant(head, turn);
    PassEffect(head, turn);
    OthersLeaveCatcher(head, turn.before);
    died, e' := process.Act(Catcher, turn.before, e);
    if died || !e'.running {
      return;
    }
    match turn.outcome {
      case GotMessage =>
        if process.task.kernel.k.queue != [] {
          died, e' := ReceivePass(process, turn.taken, turn.decoded, e');
        }
      case TimedOut =>
        if e'.received > 0 {
          var taskIsValid := process.task.IsValid(e'.loopTask);
          e' := e'.(received := 0, running := taskIsValid);
        }
      case Interrupted =>
        var taskIsValid := process.task.IsValid(e'.loopTask);
        e' := e'.(running := taskIsValid);
      case OtherError =>
    }
  }

  /** MachTask::ExceptionThread, with what the others do in each turn of its loop. Left alone with messages on the
      port, it holds them one by one, in order. */
  method ExceptionThread(process: MachProcess, turns: seq<Turn>, e: Elsewhere) returns (died: bool, e': Elsewhere)
    requires Good(process.View(e, false)) && e.running && e.flight.Nothing? && e.received == 0
    modifies process, process.task, process.task.kernel
    ensures process.View(e', died) == Passes(old(process.View(e, false)), turns)
    ensures Inv(process.View(e', died))
    ensures var queue := old(process.task.kernel.k.queue);
            turns == Deliveries(|turns|) && |turns| <= |queue| && !died ==>
              && Raws(process.held) == old(Raws(process.held)) + queue[..|turns|]
              && process.task.kernel.k.queue == queue[|turns|..] && e'.received == |turns|
  {
    hide Pass, PassDoes, Good, Raws, Deliveries;
    died, e' := false, e;
    var i := 0;
    ghost var s := process.View(e, false);
    if turns == Deliveries(|turns|) && |turns| <= |process.task.kernel.k.queue| { LoopHoldsQueue(s, |turns|); }
    while i < |turns|
      invariant i <= |turns| && !died && e'.running && e'.flight.Nothing?
      invariant Good(process.View(e', false))
      invariant Passes(process.View(e', false), turns[i..]) == Passes(s, turns)
    {
      assert turns[i..][0] == turns[i] && turns[i..][1..] == turns[i + 1..];
      died, e' := LoopPass(process, turns[i], e');
      if died || !e'.running {
        return;
      }
      i := i + 1;
    }
  }

  lemma RepliesKeepLive(s: Sys)
    ensures ProtocolSpec.ReplyToAllExceptions(s).k.live == s.k.live
    ensures ProtocolSpec.ReplyToAllExceptions(s).taskPort == s.taskPort
  {
    EachKeepsLive(s.k, s.taskPort, s.pid, s.held);
  }

  lemma {:induction false} EachKeepsLive(k: Kernel, own: Port, pid: nat, ms: seq<Message>)
    ensures ReplyEach(k, own, pid, ms).k.live == k.live
    decreases |ms|
  {
    if ms != [] {
      EachKeepsLive(ProtocolSpec.Reply(k, own, pid, ms[0], 0, true, true).k, own, pid, ms[1..]);
    }
  }

  lemma StepsKeepKernel(k: Kernel, p: Port, on: bool)
    requires KernelOk(k)
    ensures KernelOk(SetSteps(k, p, on)) && SetSteps(k, p, on).live == k.live
  {
  }

  lemma InvHasKernel(s: Sys)
    requires Inv(s) && !s.aborted
    ensures KernelOk(s.k) && Good(s)
  {
  }
}
