/** The attach, stop, resume and exception protocol as a transition system of three parties: the controlling thread, the
    exception thread, and the target in the kernel. What is one step: ExceptionMessageReceived; Resume; the start of
    SingleStep; the end of its wait; the two halves of Detach; and in the exception thread's loop, taking a message off
    the port, and decoding it and following its task port. */
module ProtocolSpec {
  import opened MachTypes
  import opened MachExceptions

  const SS_ENABLE: bv64 := 1
  /** ~SS_ENABLE computed in 32 bits and then widened: it clears the upper half as well. */
  const SS_DISABLE_MASK: bv64 := 0xFFFF_FFFE

  datatype Status = DETACH | RUNNING | STOP

  datatype TaskInfo = TaskInfo(pid: nat, suspendCount: nat)

  /** Something the debugger did to the target on resuming it. */
  datatype Act = ThreadUpdate(pid: nat, thread: Thread, signal: int) | ReplySent(raw: Raw, accepted: bool)

  /** The kernel's side. `raised`, `replied`, `acts`, `base` and the `used` sets are history. */
  datatype Kernel = Kernel(
    live: map<Port, TaskInfo>,
    threads: map<Thread, Port>,
    blocked: set<Thread>,
    mdscr: map<Thread, bv64>,
    queue: seq<Raw>,
    raised: seq<Raw>,
    replied: seq<Raw>,
    acts: seq<Act>,
    base: map<Thread, bv64>,
    usedPorts: set<Port>,
    usedThreads: set<Thread>)

  /** The message the exception thread is working on: none, one just received, or one decoded and not yet held. */
  datatype Flight = Nothing | Received(raw: Raw) | Decoded(m: Message)

  /** Where the controlling thread is: outside any call, in SingleStep's wait, or between the halves of Detach. */
  datatype Call = NoCall | StepWait | Detaching

  /** The whole system. `suspended` is history: the task that the first held message suspended, until it is resumed.
      `routed` says the target's exceptions come to our port, `running` that the exception thread has not left its
      loop, `aborted` that the debugger has died. */
  datatype Sys = Sys(
    status: Status,
    singleStep: bool,
    call: Call,
    held: seq<Message>,
    flight: Flight,
    suspended: Option<Port>,
    pid: nat,
    taskPort: Port,
    loopTask: Port,
    received: nat,
    running: bool,
    routed: bool,
    aborted: bool,
    k: Kernel)

  // ---- kernel calls ----

  function SuspendIn(live: map<Port, TaskInfo>, p: Port): map<Port, TaskInfo> {
    if p in live then live[p := live[p].(suspendCount := live[p].suspendCount + 1)] else live
  }

  function SuspendTask(k: Kernel, p: Port): Kernel {
    k.(live := SuspendIn(k.live, p))
  }

  function ResumeTask(k: Kernel, p: Port): Kernel {
    if p in k.live && k.live[p].suspendCount > 0
    then k.(live := k.live[p := k.live[p].(suspendCount := k.live[p].suspendCount - 1)]) else k
  }

  function StepBits(x: bv64, on: bool): bv64 {
    if on then x | SS_ENABLE else x & SS_DISABLE_MASK
  }

  /** The debug registers with the step bit of every thread of task `p` set or cleared. */
  function SteppedIn(mdscr: map<Thread, bv64>, threads: map<Thread, Port>, p: Port, on: bool): map<Thread, bv64> {
    map t | t in mdscr :: if t in threads && threads[t] == p then StepBits(mdscr[t], on) else mdscr[t]
  }

  function SetSteps(k: Kernel, p: Port, on: bool): Kernel {
    k.(mdscr := SteppedIn(k.mdscr, k.threads, p, on))
  }

  function SendReply(k: Kernel, m: Message): Kernel {
    k.(acts := k.acts + [ReplySent(m.raw, m.accepted)],
       replied := k.replied + [m.raw],
       blocked := k.blocked - {m.raw.thread})
  }

  function UpdateThread(k: Kernel, pid: nat, t: Thread, signal: int): Kernel {
    k.(acts := k.acts + [ThreadUpdate(pid, t, signal)])
  }

  /** kill and ptrace find the process: some live task has its id. */
  predicate ProcessExists(k: Kernel, pid: nat) {
    exists p | p in k.live :: k.live[p].pid == pid
  }

  // ---- the debugger's operations ----

  /** The first message of a bundle suspends the task. */
  function SuspendForFirst(s: Sys): Sys {
    if s.held != [] then s
    else s.(k := SuspendTask(s.k, s.taskPort), suspended := if s.taskPort in s.k.live then Some(s.taskPort) else None)
  }

  /** A message ends a step. Clearing step bits throws, and so ends the debugger, when the task is dead. */
  function EndStep(s: Sys): Sys {
    if !s.singleStep then s
    else if s.taskPort !in s.k.live then s.(aborted := true)
    else s.(k := SetSteps(s.k, s.taskPort, false), singleStep := false)
  }

  /** MachProcess::ExceptionMessageReceived. */
  function Hold(s: Sys, m: Message): Sys {
    var s1 := EndStep(SuspendForFirst(s));
    if s1.aborted then s1 else s1.(held := s1.held + [m])
  }

  /** The exception thread follows the task port of a valid message that carries another one. */
  function Follow(s: Sys, m: Message): Sys {
    if m.state.taskPort != s.loopTask && m.state.IsValid()
    then s.(loopTask := m.state.taskPort, taskPort := m.state.taskPort) else s
  }

  /** The exception thread takes a message off the port. */
  function Take(s: Sys): Sys
    requires s.k.queue != []
  {
    s.(k := s.k.(queue := s.k.queue[1..]), flight := Received(s.k.queue[0]))
  }

  /** It decodes the message it took, counts it and follows its task port. */
  function DecodeTaken(s: Sys): Sys
    requires s.flight.Received?
  {
    var m := Decode(s.flight.raw, s.loopTask, s.loopTask in s.k.live);
    Follow(s.(flight := Decoded(m), received := s.received + 1), m)
  }

  /** It hands the decoded message to the process object. */
  function HoldDecoded(s: Sys): Sys
    requires s.flight.Decoded?
  {
    Hold(s.(flight := Nothing), s.flight.m)
  }

  /** The kernel after some replies, and whether the debugger died on the way. */
  datatype Replies = Replies(k: Kernel, died: bool)

  /** The thread update is carried out, or refused and only printed. */
  function TryUpdate(k: Kernel, pid: nat, t: Thread, signal: int, updates: bool): Kernel {
    if updates then UpdateThread(k, pid, t, signal) else k
  }

  /** The reply is sent, or it fails and that is only printed. */
  function TrySend(k: Kernel, m: Message, sends: bool): Kernel {
    if sends then SendReply(k, m) else k
  }

  /** Message::Reply. The tracked task `own` has process id `pid` and goes on with `signal`; for a soft signal of any
      other task the kernel is asked for the process id, and the debugger dies if that task is dead. */
  function Reply(k: Kernel, own: Port, pid: nat, m: Message, signal: int, updates: bool, sends: bool): Replies {
    var soft, task, thread := m.state.SoftSignal(), m.state.taskPort, m.state.threadPort;
    if soft == 0 then Replies(TrySend(k, m, sends), false)
    else if own == task then Replies(TrySend(TryUpdate(k, pid, thread, signal, updates), m, sends), false)
    else if task in k.live then Replies(TrySend(TryUpdate(k, k.live[task].pid, thread, soft, updates), m, sends), false)
    else Replies(k, true)
  }

  /** Replies to the messages in order, with no signal, as far as the debugger survives. No reply or update fails. */
  function ReplyEach(k: Kernel, own: Port, pid: nat, ms: seq<Message>): Replies
    decreases |ms|
  {
    if ms == [] then Replies(k, false)
    else
      var r := Reply(k, own, pid, ms[0], 0, true, true);
      if r.died then r else ReplyEach(r.k, own, pid, ms[1..])
  }

  function ReplyToAllExceptions(s: Sys): Sys {
    var r := ReplyEach(s.k, s.taskPort, s.pid, s.held);
    if r.died then s.(k := r.k, aborted := true) else s.(k := r.k, held := [])
  }

  /** MachTask::Resume; it fails only when the task is dead. */
  function TaskResume(s: Sys): Sys {
    s.(k := ResumeTask(s.k, s.taskPort), suspended := None)
  }

  function Resume(s: Sys): Sys {
    var s1 := ReplyToAllExceptions(s);
    if s1.aborted then s1
    else TaskResume(s1).(status := if s1.taskPort in s1.k.live then RUNNING else s1.status)
  }

  /** SingleStep up to its wait; without a task it throws after setting the flag. */
  function SingleStepStart(s: Sys): Sys {
    var s1 := s.(singleStep := true);
    if s1.taskPort !in s1.k.live then s1
    else Resume(s1.(k := SetSteps(s1.k, s1.taskPort, true))).(call := StepWait)
  }

  function SingleStepFinish(s: Sys): Sys {
    s.(status := STOP, call := NoCall)
  }

  /** Without the process the signal cannot be sent and Stop throws. */
  function Stop(s: Sys): Sys {
    if ProcessExists(s.k, s.pid) then s.(status := STOP) else s
  }

  /** The first half of Detach: the table is restored and the exception thread is gone. */
  function ShutDown(s: Sys): Sys {
    s.(routed := false, running := false, call := Detaching)
  }

  /** The second half: if the exception port cannot be given up, or PT_DETACH fails for want of the process, Detach
      throws; else the task is resumed. */
  function LetGo(s: Sys, portGiven: bool): Sys {
    var s1 := s.(call := NoCall);
    if portGiven && ProcessExists(s.k, s.pid) then TaskResume(s1.(status := DETACH)) else s1
  }

  // ---- the target's own steps ----

  /** Thread `t` can execute: it waits for no reply and its task is not suspended. */
  predicate CanRun(k: Kernel, t: Thread) {
    t in k.threads && t !in k.blocked && k.threads[t] in k.live && k.live[k.threads[t]].suspendCount == 0
  }

  function RaiseException(k: Kernel, raw: Raw): Kernel {
    k.(queue := k.queue + [raw], raised := k.raised + [raw], blocked := k.blocked + {raw.thread})
  }

  function AddThread(k: Kernel, t: Thread, p: Port, bits: bv64): Kernel {
    k.(threads := k.threads[t := p], mdscr := k.mdscr[t := bits], base := k.base[t := bits],
       usedThreads := k.usedThreads + {t})
  }

  function AddTask(k: Kernel, p: Port, pid: nat): Kernel {
    k.(live := k.live[p := TaskInfo(pid, 0)], usedPorts := k.usedPorts + {p})
  }

  function RemoveThreads(k: Kernel, gone: set<Thread>): Kernel {
    k.(threads := k.threads - gone, mdscr := k.mdscr - gone, base := k.base - gone, blocked := k.blocked - gone)
  }

  function RemoveTask(k: Kernel, p: Port): Kernel {
    RemoveThreads(k, set t | t in k.threads && k.threads[t] == p).(live := k.live - {p})
  }

  // ---- events ----

  datatype Event =
    | AttachDone | ResumeCall | StopCall | SingleStepCall | SingleStepDone | DetachCall | DetachDone(portGiven: bool)
    | ReceiveOne | DecodeOne | HoldOne | ReceiveTimedOut | ReceiveInterrupted
    | Raise(raw: Raw)
    | CreateThread(creator: Thread, t: Thread, bits: bv64)
    | ExitThread(t: Thread)
    | Fork(t: Thread, port: Port, childPid: nat, child: Thread, bits: bv64)
    | Exec(t: Thread, port: Port, newThread: Thread, bits: bv64)
    | Kill(port: Port)

  predicate StepBitSet(x: bv64) {
    x & SS_ENABLE != 0
  }

  predicate Enabled(s: Sys, e: Event) {
    !s.aborted &&
    match e
    case AttachDone => s.status == DETACH && s.routed
    case ResumeCall => s.status == STOP && s.call.NoCall?
    case StopCall => s.status == RUNNING && s.call.NoCall?
    case SingleStepCall => s.status == STOP && s.call.NoCall?
    case SingleStepDone => s.call.StepWait? && !s.singleStep
    case DetachCall => s.status == STOP && s.call.NoCall? && s.routed && s.flight.Nothing?
    case DetachDone(portGiven) => s.call.Detaching?
    case ReceiveOne => s.running && s.flight.Nothing? && s.k.queue != []
    case DecodeOne => s.running && s.flight.Received?
    case HoldOne => s.running && s.flight.Decoded?
    case ReceiveTimedOut => s.running && s.flight.Nothing? && s.received > 0
    case ReceiveInterrupted => s.running && s.flight.Nothing?
    case Raise(raw) => s.routed && CanRun(s.k, raw.thread) && raw.task == s.k.threads[raw.thread]
    case CreateThread(c, t, bits) =>
      CanRun(s.k, c) && t !in s.k.usedThreads && (StepBitSet(bits) ==> c in s.k.mdscr && StepBitSet(s.k.mdscr[c]))
    case ExitThread(t) => CanRun(s.k, t)
    case Fork(t, p, pid, c, bits) =>
      CanRun(s.k, t) && p !in s.k.usedPorts && c !in s.k.usedThreads && !StepBitSet(bits)
    case Exec(t, p, n, bits) =>
      CanRun(s.k, t) && p !in s.k.usedPorts && n !in s.k.usedThreads && !StepBitSet(bits)
    case Kill(p) => p in s.k.live
  }

  function Step(s: Sys, e: Event): Sys
    requires Enabled(s, e)
  {
    match e
    case AttachDone => s.(status := STOP)
    case ResumeCall => Resume(s)
    case StopCall => Stop(s)
    case SingleStepCall => SingleStepStart(s)
    case SingleStepDone => SingleStepFinish(s)
    case DetachCall => ShutDown(s)
    case DetachDone(portGiven) => LetGo(s, portGiven)
    case ReceiveOne => Take(s)
    case DecodeOne => DecodeTaken(s)
    case HoldOne => HoldDecoded(s)
    case ReceiveTimedOut => s.(received := 0, running := s.loopTask in s.k.live)
    case ReceiveInterrupted => s.(running := s.loopTask in s.k.live)
    case Raise(raw) => s.(k := RaiseException(s.k, raw))
    case CreateThread(c, t, bits) => s.(k := AddThread(s.k, t, s.k.threads[c], bits))
    case ExitThread(t) => s.(k := RemoveThreads(s.k, {t}))
    case Fork(t, p, pid, c, bits) => s.(k := AddThread(AddTask(s.k, p, pid), c, p, bits))
    case Exec(t, p, n, bits) =>
      var a := s.k.threads[t];
      s.(k := AddThread(AddTask(RemoveTask(s.k, a), p, s.k.live[a].pid), n, p, bits))
    case Kill(p) => s.(k := RemoveTask(s.k, p))
  }

  /** Events can happen one after another from `s`. */
  ghost predicate Runs(s: Sys, es: seq<Event>)
    decreases |es|
  {
    es == [] || (Enabled(s, es[0]) && Runs(Step(s, es[0]), es[1..]))
  }

  ghost function After(s: Sys, es: seq<Event>): Sys
    requires Runs(s, es)
    decreases |es|
  {
    if es == [] then s else After(Step(s, es[0]), es[1..])
  }

  /** The events can happen one after another from `s` and end in `t`. */
  ghost predicate Leads(s: Sys, es: seq<Event>, t: Sys) {
    Runs(s, es) && After(s, es) == t
  }

  /** One more event at the end of a run. */
  lemma {:induction false} OneMore(s: Sys, es: seq<Event>, t: Sys, e: Event)
    requires Leads(s, es, t) && Enabled(t, e)
    ensures Leads(s, es + [e], Step(t, e))
    decreases |es|
  {
    hide Step, Enabled;
    if es == [] {
      assert es + [e] == [e] && [e][1..] == [];
      assert Runs(Step(s, e), []) && After(Step(s, e), []) == Step(s, e);
    } else {
      assert (es + [e])[0] == es[0] && (es + [e])[1..] == es[1..] + [e];
      OneMore(Step(s, es[0]), es[1..], t, e);
    }
  }

  /** The exception thread's steps with a message, one after the other. */
  lemma CatcherSteps(s: Sys)
    requires !s.aborted && s.running
    ensures s.flight.Nothing? && s.k.queue != [] ==>
              && Enabled(s, ReceiveOne) && Step(s, ReceiveOne) == Take(s)
              && Take(s).flight.Received? && Take(s).running && !Take(s).aborted
    ensures s.flight.Received? ==>
              && Enabled(s, DecodeOne) && Step(s, DecodeOne) == DecodeTaken(s)
              && DecodeTaken(s).flight.Decoded? && DecodeTaken(s).running && !DecodeTaken(s).aborted
    ensures s.flight.Decoded? ==>
              && Enabled(s, HoldOne) && Step(s, HoldOne) == HoldDecoded(s) && HoldDecoded(s).flight.Nothing?
  {
    hide SetSteps, SuspendTask, Decode;
  }

  /** A session begins when the exception thread starts: nothing is raised or held, the target is live and not
      suspended, no step bit is set, and the null port and thread belong to nobody. */
  ghost predicate Init(s: Sys) {
    && s.status == DETACH && !s.singleStep && s.call.NoCall? && s.held == [] && s.flight.Nothing? && s.suspended == None
    && s.taskPort == s.loopTask && s.taskPort in s.k.live && s.k.live[s.taskPort].pid == s.pid
    && s.received == 0 && s.running && s.routed && !s.aborted
    && s.k.blocked == {} && s.k.queue == [] && s.k.raised == [] && s.k.replied == [] && s.k.acts == []
    && s.k.mdscr.Keys == s.k.threads.Keys && s.k.base == s.k.mdscr
    && (forall p | p in s.k.live :: s.k.live[p].suspendCount == 0)
    && (forall t | t in s.k.threads :: s.k.threads[t] in s.k.live && !StepBitSet(s.k.mdscr[t]))
    && s.k.live.Keys <= s.k.usedPorts && s.k.threads.Keys <= s.k.usedThreads
    && NULL in s.k.usedPorts && NULL in s.k.usedThreads && NULL !in s.k.live && NULL !in s.k.threads
  }
}
