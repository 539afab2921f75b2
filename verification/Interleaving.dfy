/** The exception thread's loop and SingleStep's wait with the other parties' steps in between, and that both are runs
    of the transition system, so that the session's theorems hold of what they do. */
module Interleaving {
  import opened MachExceptions
  import opened ProtocolSpec
  import opened ReplyEffects
  import opened ProtocolInvariants
  import opened ProtocolTheorems

  datatype Party = Controller | Catcher | Target

  function PartyOf(e: Event): Party {
    match e
    case AttachDone | ResumeCall | StopCall | SingleStepCall | SingleStepDone | DetachCall | DetachDone(_) => Controller
    case ReceiveOne | DecodeOne | HoldOne | ReceiveTimedOut | ReceiveInterrupted => Catcher
    case _ => Target
  }

  /** What parties other than `me` do: the events in order, up to the first that cannot happen. */
  function Others(s: Sys, me: Party, es: seq<Event>): Sys
    decreases |es|
  {
    if es == [] || PartyOf(es[0]) == me || !Enabled(s, es[0]) then s else Others(Step(s, es[0]), me, es[1..])
  }

  /** The others' steps are steps of the system. */
  lemma {:induction false} OthersRun(s0: Sys, es0: seq<Event>, s: Sys, me: Party, es: seq<Event>)
    returns (run: seq<Event>)
    requires Leads(s0, es0, s)
    ensures Leads(s0, run, Others(s, me, es))
    decreases |es|
  {
    hide Leads, Step, Enabled;
    if es == [] || PartyOf(es[0]) == me || !Enabled(s, es[0]) {
      run := es0;
    } else {
      OneMore(s0, es0, s, es[0]);
      run := OthersRun(s0, es0 + [es[0]], Step(s, es[0]), me, es[1..]);
    }
  }

  /** Events that others can do one after another are all done. */
  lemma {:induction false} OthersDo(s: Sys, me: Party, es: seq<Event>)
    requires Runs(s, es) && forall e | e in es :: PartyOf(e) != me
    ensures Others(s, me, es) == After(s, es)
    decreases |es|
  {
    hide Step, Enabled;
    if es != [] {
      assert es[0] in es && forall e | e in es[1..] :: e in es;
      OthersDo(Step(s, es[0]), me, es[1..]);
    }
  }

  /** No step changes the process id, and only the exception thread changes its own variables and the tracked port. */
  lemma StepKeeps(s: Sys, e: Event)
    requires Enabled(s, e)
    ensures Step(s, e).pid == s.pid
    ensures PartyOf(e) != Catcher ==>
              && Step(s, e).flight == s.flight && Step(s, e).loopTask == s.loopTask
              && Step(s, e).taskPort == s.taskPort && Step(s, e).received == s.received
  {
    hide Resume, SingleStepStart, ProcessExists, ResumeTask, Hold;
    match e
    case ResumeCall => ResumeKeepsPort(s);
    case SingleStepCall => SingleStepKeepsPort(s);
    case HoldOne => HoldKeepsPort(s.(flight := Nothing), s.flight.m);
    case _ =>
  }

  lemma {:induction false} OthersKeep(s: Sys, me: Party, es: seq<Event>)
    ensures Others(s, me, es).pid == s.pid
    ensures Inv(s) ==> Inv(Others(s, me, es))
    decreases |es|
  {
    hide Step, Enabled, Inv;
    if es != [] && PartyOf(es[0]) != me && Enabled(s, es[0]) {
      StepKeeps(s, es[0]);
      if Inv(s) { StepKeepsInvariant(s, es[0]); }
      OthersKeep(Step(s, es[0]), me, es[1..]);
    }
  }

  lemma {:induction false} OthersLeaveCatcher(s: Sys, es: seq<Event>)
    ensures var t := Others(s, Catcher, es);
            && t.flight == s.flight && t.loopTask == s.loopTask && t.taskPort == s.taskPort && t.received == s.received
            && (s.running && !s.flight.Nothing? ==> t.running)
    decreases |es|
  {
    hide Step, Enabled;
    if es != [] && PartyOf(es[0]) != Catcher && Enabled(s, es[0]) {
      StepKeeps(s, es[0]);
      StepLeavesFlight(s, es[0]);
      OthersLeaveCatcher(Step(s, es[0]), es[1..]);
    }
  }

  /** The others leave what the controlling thread does alone, and an exception thread that is gone stays so. */
  lemma {:induction false} OthersLeaveController(s: Sys, es: seq<Event>)
    ensures var t := Others(s, Controller, es);
            t.status == s.status && t.call == s.call && (!s.routed ==> !t.routed) && (!s.running ==> !t.running)
    decreases |es|
  {
    hide Step, Enabled;
    if es != [] && PartyOf(es[0]) != Controller && Enabled(s, es[0]) {
      StepLeavesController(s, es[0]);
      OthersLeaveController(Step(s, es[0]), es[1..]);
    }
  }

  lemma StepLeavesController(s: Sys, e: Event)
    requires Enabled(s, e) && PartyOf(e) != Controller
    ensures var t := Step(s, e);
            t.status == s.status && t.call == s.call && t.routed == s.routed && (!s.running ==> !t.running)
  {
    hide Hold;
    if e == HoldOne { HoldKeepsPort(s.(flight := Nothing), s.flight.m); }
  }

  /** Detach waits for the exception thread to finish with its message. */
  lemma StepLeavesFlight(s: Sys, e: Event)
    requires Enabled(s, e) && PartyOf(e) != Catcher
    ensures s.running && !s.flight.Nothing? ==> Step(s, e).running
  {
    hide Resume, SingleStepStart, ProcessExists, ResumeTask;
    match e
    case ResumeCall => ResumeKeepsPort(s);
    case SingleStepCall => SingleStepKeepsPort(s);
    case _ =>
  }

  // ---- the exception thread's loop ----

  /** What receiving on the exception port comes back with. */
  datatype Outcome = GotMessage | TimedOut | Interrupted | OtherError

  /** One pass of the loop: how receiving ends, and what the others do before it, once a message has been taken, and
      once it has been decoded. */
  datatype Turn = Turn(before: seq<Event>, outcome: Outcome, taken: seq<Event>, decoded: seq<Event>)

  /** A message is taken, decoded and held. */
  function Handle(s: Sys, taken: seq<Event>, decoded: seq<Event>): Sys
    requires s.k.queue != []
  {
    var s1 := Others(Take(s), Catcher, taken);
    OthersLeaveCatcher(Take(s), taken);
    if s1.aborted then s1
    else
      var s2 := Others(DecodeTaken(s1), Catcher, decoded);
      OthersLeaveCatcher(DecodeTaken(s1), decoded);
      if s2.aborted then s2 else HoldDecoded(s2)
  }

  function Pass(s: Sys, turn: Turn): Sys {
    var s1 := Others(s, Catcher, turn.before);
    if s1.aborted || !s1.running then s1
    else
      match turn.outcome
      case GotMessage => if s1.k.queue != [] then Handle(s1, turn.taken, turn.decoded) else s1
      case TimedOut =>
        if s1.received > 0 then s1.(received := 0, running := s1.loopTask in s1.k.live) else s1
      case Interrupted => s1.(running := s1.loopTask in s1.k.live)
      case OtherError => s1
  }

  /** The loop, pass after pass, until the thread leaves it or the turns are used up. */
  function Passes(s: Sys, turns: seq<Turn>): Sys
    decreases |turns|
  {
    if turns == [] || s.aborted || !s.running then s else Passes(Pass(s, turns[0]), turns[1..])
  }

  lemma HandleRuns(s0: Sys, es0: seq<Event>, s: Sys, taken: seq<Event>, decoded: seq<Event>) returns (run: seq<Event>)
    requires Leads(s0, es0, s) && !s.aborted && s.running && s.flight.Nothing? && s.k.queue != []
    ensures Leads(s0, run, Handle(s, taken, decoded))
    ensures Handle(s, taken, decoded).aborted || Handle(s, taken, decoded).flight.Nothing?
  {
    hide Leads, Step, Enabled, Take, DecodeTaken, HoldDecoded, Others;
    CatcherSteps(s);
    OneMore(s0, es0, s, ReceiveOne);
    OthersLeaveCatcher(Take(s), taken);
    run := OthersRun(s0, es0 + [ReceiveOne], Take(s), Catcher, taken);
    var s1 := Others(Take(s), Catcher, taken);
    if !s1.aborted {
      CatcherSteps(s1);
      OneMore(s0, run, s1, DecodeOne);
      OthersLeaveCatcher(DecodeTaken(s1), decoded);
      run := OthersRun(s0, run + [DecodeOne], DecodeTaken(s1), Catcher, decoded);
      var s2 := Others(DecodeTaken(s1), Catcher, decoded);
      if !s2.aborted {
        CatcherSteps(s2);
        OneMore(s0, run, s2, HoldOne);
        run := run + [HoldOne];
      }
    }
  }

  lemma PassRuns(s0: Sys, es0: seq<Event>, s: Sys, turn: Turn) returns (run: seq<Event>)
    requires Leads(s0, es0, s) && s.flight.Nothing?
    ensures Leads(s0, run, Pass(s, turn))
    ensures Pass(s, turn).aborted || Pass(s, turn).flight.Nothing?
  {
    hide Leads, Others, Handle;
    run := OthersRun(s0, es0, s, Catcher, turn.before);
    OthersLeaveCatcher(s, turn.before);
    var s1 := Others(s, Catcher, turn.before);
    if !s1.aborted && s1.running {
      match turn.outcome
      case GotMessage => if s1.k.queue != [] { run := HandleRuns(s0, run, s1, turn.taken, turn.decoded); }
      case TimedOut =>
        if s1.received > 0 {
          OneMore(s0, run, s1, ReceiveTimedOut);
          run := run + [ReceiveTimedOut];
        }
      case Interrupted =>
        OneMore(s0, run, s1, ReceiveInterrupted);
        run := run + [ReceiveInterrupted];
      case OtherError =>
    }
  }

  /** The others' steps after a message has been taken, or decoded, keep the invariant. */
  lemma TakenIsGood(s: Sys, taken: seq<Event>)
    requires Good(s) && s.running && s.flight.Nothing? && s.k.queue != []
    ensures Inv(Others(Take(s), Catcher, taken))
  {
    hide Good, Others, Take;
    GoodAfterTake(s);
    OthersKeep(Take(s), Catcher, taken);
  }

  lemma DecodedIsGood(s: Sys, decoded: seq<Event>)
    requires Inv(s) && !s.aborted && s.flight.Received?
    ensures Inv(Others(DecodeTaken(s), Catcher, decoded))
  {
    hide Good, Others, DecodeTaken;
    GoodAfterDecode(s);
    OthersKeep(DecodeTaken(s), Catcher, decoded);
  }

  /** A pass keeps the invariant, and unless it ends the debugger or the loop it ends with no message in flight. */
  lemma PassKeepsInvariant(s: Sys, turn: Turn)
    requires Good(s) && s.flight.Nothing?
    ensures Inv(Pass(s, turn))
    ensures Pass(s, turn).aborted || (Good(Pass(s, turn)) && Pass(s, turn).flight.Nothing?)
    ensures var s1 := Others(s, Catcher, turn.before);
            Inv(s1) && s1.flight.Nothing?
  {
    hide Good, Pass, Others;
    assert Leads(s, [], s);
    var run := PassRuns(s, [], s, turn);
    EveryRunKeepsInvariant(s, run);
    OthersKeep(s, Catcher, turn.before);
    OthersLeaveCatcher(s, turn.before);
  }

  /** Whatever the others do in between, the loop's passes are a run of the system. */
  lemma {:induction false} PassesRun(s0: Sys, es0: seq<Event>, s: Sys, turns: seq<Turn>) returns (run: seq<Event>)
    requires Leads(s0, es0, s) && s.flight.Nothing?
    ensures Leads(s0, run, Passes(s, turns))
    decreases |turns|
  {
    hide Leads, Pass;
    run := es0;
    if turns != [] && !s.aborted && s.running {
      run := PassRuns(s0, es0, s, turns[0]);
      if !Pass(s, turns[0]).aborted {
        run := PassesRun(s0, run, Pass(s, turns[0]), turns[1..]);
      }
    }
  }

  /** So after any passes, from any point of a session, the debugger is in a state that the session's theorems are
      about. */
  lemma PassesAreReached(s0: Sys, es0: seq<Event>, s: Sys, turns: seq<Turn>)
    requires Reached(s0, es0, s) && s.flight.Nothing? && !Passes(s, turns).aborted
    ensures exists run :: Reached(s0, run, Passes(s, turns))
  {
    hide Passes;
    var run := PassesRun(s0, es0, s, turns);
    assert Reached(s0, run, Passes(s, turns));
  }

  // ---- what the loop does ----

  /** The exceptions that have been handed to the process object, in order: those replied to and those held. */
  function Dealt(s: Sys): seq<Raw> {
    s.k.replied + Raws(s.held)
  }

  /** Only holding a message adds to them. */
  lemma StepDeals(s: Sys, e: Event)
    requires Good(s) && Enabled(s, e) && !Step(s, e).aborted
    ensures Dealt(Step(s, e)) == Dealt(s) + if e == HoldOne then Aloft(s.flight) else []
  {
    hide Raws, ThreadsOf, KernelOk, FifoOk, BlockedOk, StepsOk, SuspendOk, PortsOk, Resume, SingleStepStart,
      HoldDecoded, ProcessExists;
    match e
    case HoldOne =>
      HoldFields(s);
      RawsJoin(s.held, [s.flight.m]);
      OneRaw(s.flight.m);
    case ResumeCall =>
      ResumeEffect(s);
      NoRaws();
    case SingleStepCall =>
      if s.taskPort in s.k.live {
        StepResumes(s);
        NoRaws();
      } else {
        assert SingleStepStart(s) == s.(singleStep := true) by { StepThrows(s); }
      }
    case _ =>
  }

  lemma StepThrows(s: Sys)
    requires s.taskPort !in s.k.live
    ensures SingleStepStart(s) == s.(singleStep := true)
  {
  }

  lemma {:induction false} OthersDeal(s: Sys, es: seq<Event>)
    requires Inv(s)
    ensures Inv(Others(s, Catcher, es))
    ensures !Others(s, Catcher, es).aborted ==> Dealt(Others(s, Catcher, es)) == Dealt(s)
    decreases |es|
  {
    hide Step, Enabled, Good, Dealt;
    if es != [] && PartyOf(es[0]) != Catcher && Enabled(s, es[0]) {
      NotAborted(s, es[0]);
      StepKeepsInvariant(s, es[0]);
      OthersDeal(Step(s, es[0]), es[1..]);
      if !Step(s, es[0]).aborted { StepDeals(s, es[0]); } else { OthersStop(Step(s, es[0]), es[1..]); }
    }
  }

  lemma NotAborted(s: Sys, e: Event)
    requires Enabled(s, e)
    ensures !s.aborted
  {
  }

  lemma OthersStop(s: Sys, es: seq<Event>)
    requires s.aborted
    ensures Others(s, Catcher, es) == s
  {
  }

  /** A message taken is held after all that was dealt with before, whatever the others do in between. */
  lemma HandleDeals(s: Sys, taken: seq<Event>, decoded: seq<Event>)
    requires Good(s) && !s.aborted && s.running && s.flight.Nothing? && s.k.queue != []
    ensures var r := Handle(s, taken, decoded);
            !r.aborted ==> r.received == s.received + 1 && Dealt(r) == Dealt(s) + [s.k.queue[0]]
  {
    hide Good, Dealt, Take, DecodeTaken, HoldDecoded, Others, Step, Enabled, Decode;
    CatcherSteps(s);
    StepDeals(s, ReceiveOne);
    GoodAfterTake(s);
    TakeIs(s);
    OthersDeal(Take(s), taken);
    OthersLeaveCatcher(Take(s), taken);
    var s1 := Others(Take(s), Catcher, taken);
    if !s1.aborted {
      CatcherSteps(s1);
      StepDeals(s1, DecodeOne);
      GoodAfterDecode(s1);
      DecodeIs(s1);
      OthersDeal(DecodeTaken(s1), decoded);
      OthersLeaveCatcher(DecodeTaken(s1), decoded);
      var s2 := Others(DecodeTaken(s1), Catcher, decoded);
      if !s2.aborted {
        CatcherSteps(s2);
        HoldKeepsReceived(s2);
        if !HoldDecoded(s2).aborted { StepDeals(s2, HoldOne); }
      }
    }
  }

  lemma TakeIs(s: Sys)
    requires s.k.queue != []
    ensures Take(s).flight == Received(s.k.queue[0]) && Take(s).received == s.received
  {
  }

  lemma DecodeIs(s: Sys)
    requires s.flight.Received?
    ensures Aloft(DecodeTaken(s).flight) == [s.flight.raw] && DecodeTaken(s).received == s.received + 1
  {
  }

  lemma HoldKeepsReceived(s: Sys)
    requires s.flight.Decoded?
    ensures HoldDecoded(s).received == s.received
  {
    HoldKeepsPort(s.(flight := Nothing), s.flight.m);
  }

  /** What one pass does, said of the state in which it receives: a message that is there is dealt with next and
      counted; the end of a bundle resets the count; and the thread leaves its loop when it is woken up to find its
      task dead. */
  lemma PassEffect(s: Sys, turn: Turn)
    requires Good(s) && s.flight.Nothing?
    ensures var s1, r := Others(s, Catcher, turn.before), Pass(s, turn);
            if s1.aborted || !s1.running then r == s1
            else PassDoes(s1, turn.outcome, r)
  {
    hide Good, Raws, Others, Handle;
    OthersDeal(s, turn.before);
    OthersLeaveCatcher(s, turn.before);
    var s1 := Others(s, Catcher, turn.before);
    if !s1.aborted && s1.running && turn.outcome.GotMessage? && s1.k.queue != [] {
      HandleDeals(s1, turn.taken, turn.decoded);
    }
  }

  /** The effect of a pass that receives in state `s` and ends in `r`. */
  predicate PassDoes(s: Sys, outcome: Outcome, r: Sys) {
    match outcome
    case GotMessage =>
      if s.k.queue == [] then r == s
      else !r.aborted ==>
             && r.received == s.received + 1
             && r.k.replied + Raws(r.held) == s.k.replied + Raws(s.held) + [s.k.queue[0]]
    case TimedOut => r == if s.received == 0 then s else s.(received := 0, running := s.loopTask in s.k.live)
    case Interrupted => r == s.(running := s.loopTask in s.k.live)
    case OtherError => r == s
  }

  /** `n` turns in each of which a message is received and nobody else acts. */
  function Deliveries(n: nat): seq<Turn> {
    seq(n, _ => Turn([], GotMessage, [], []))
  }

  /** Left alone, the loop moves the messages from the port into the bundle, one in each turn and in order; it dies
      only if the first ends a step of a dead task. */
  lemma {:induction false} LoopHoldsQueue(s: Sys, n: nat)
    requires Good(s) && !s.aborted && s.running && s.flight.Nothing? && n <= |s.k.queue|
    ensures var r := Passes(s, Deliveries(n));
            && (r.aborted ==> s.singleStep && n > 0)
            && (!r.aborted ==>
                  && r.k.replied == s.k.replied && Raws(r.held) == Raws(s.held) + s.k.queue[..n]
                  && r.k.queue == s.k.queue[n..] && r.received == s.received + n)
    decreases n
  {
    hide Good, Raws, Handle, Take, DecodeTaken, HoldDecoded;
    var turns := Deliveries(n);
    if n > 0 {
      var r := Handle(s, [], []);
      assert turns[0] == Turn([], GotMessage, [], []) && Pass(s, turns[0]) == r && turns[1..] == Deliveries(n - 1);
      HandleAlone(s);
      HandleDeals(s, [], []);
      if !r.aborted {
        PassKeepsInvariant(s, turns[0]);
        LoopHoldsQueue(r, n - 1);
        assert s.k.queue[..n] == [s.k.queue[0]] + s.k.queue[1..][..n - 1];
        assert Raws(s.held) + [s.k.queue[0]] + s.k.queue[1..][..n - 1] == Raws(s.held) + s.k.queue[..n];
        SameReplied(s.k.replied, Raws(r.held), Raws(s.held) + [s.k.queue[0]]);
      }
    }
  }

  lemma SameReplied(replied: seq<Raw>, a: seq<Raw>, b: seq<Raw>)
    requires replied + a == replied + b
    ensures a == b
  {
    assert a == (replied + a)[|replied|..];
  }

  /** A message handled while nobody else acts. */
  lemma HandleAlone(s: Sys)
    requires Good(s) && !s.aborted && s.running && s.flight.Nothing? && s.k.queue != []
    ensures var r := Handle(s, [], []);
            && (r.aborted ==> s.singleStep)
            && (!r.aborted ==>
                  && !r.singleStep && r.running && r.flight.Nothing?
                  && r.k.replied == s.k.replied && r.k.queue == s.k.queue[1..])
  {
    hide Good, Raws, Decode, TrackedAfter;
    TakeKeeps(s);
    var s1 := Take(s);
    GoodPorts(s);
    DecodeFields(s1);
    HoldFields(DecodeTaken(s1));
  }

  lemma GoodPorts(s: Sys)
    requires Good(s)
    ensures s.loopTask == s.taskPort
  {
  }

  lemma TakeKeeps(s: Sys)
    requires s.k.queue != []
    ensures Take(s) == s.(flight := Received(s.k.queue[0]), k := s.k.(queue := s.k.queue[1..]))
  {
  }

  /** The steps that Detach is made of. */
  lemma DetachSteps(s: Sys)
    requires Inv(s) && !s.aborted && s.call.NoCall?
    ensures s.status == RUNNING ==> Inv(Stop(s))
    ensures s.status == STOP && s.routed && s.flight.Nothing? ==> Inv(ShutDown(s))
  {
    hide Good, ProcessExists;
    if s.status == RUNNING { StepKeepsInvariant(s, StopCall); }
    if s.status == STOP && s.routed && s.flight.Nothing? { StepKeepsInvariant(s, DetachCall); }
  }

  // ---- SingleStep's wait ----

  /** The others' events, one at a time, for as long as the step lasts. */
  function Wait(s: Sys, es: seq<Event>): Sys
    decreases |es|
  {
    if es == [] || s.aborted || !s.singleStep then s else Wait(Others(s, Controller, es[..1]), es[1..])
  }

  /** All of SingleStep. It is still waiting when the events are used up before the step ends. */
  function WholeStep(s: Sys, es: seq<Event>): Sys {
    var s1 := SingleStepStart(s);
    if s1.aborted || !s1.call.StepWait? then s1
    else
      var s2 := Wait(s1, es);
      if s2.aborted || s2.singleStep then s2 else SingleStepFinish(s2)
  }

  lemma {:induction false} WaitRuns(s0: Sys, es0: seq<Event>, s: Sys, es: seq<Event>) returns (run: seq<Event>)
    requires Leads(s0, es0, s) && s.call.StepWait?
    ensures Leads(s0, run, Wait(s, es)) && Wait(s, es).call.StepWait?
    decreases |es|
  {
    hide Leads, Others;
    run := es0;
    if es != [] && !s.aborted && s.singleStep {
      run := OthersRun(s0, es0, s, Controller, es[..1]);
      OneLeavesCall(s, es[..1]);
      run := WaitRuns(s0, run, Others(s, Controller, es[..1]), es[1..]);
    }
  }

  /** Only the controlling thread changes what it is doing. */
  lemma OneLeavesCall(s: Sys, es: seq<Event>)
    requires |es| == 1
    ensures Others(s, Controller, es).call == s.call && Others(s, Controller, es).pid == s.pid
  {
    hide Hold;
    if PartyOf(es[0]) != Controller && Enabled(s, es[0]) {
      assert Others(s, Controller, es) == Others(Step(s, es[0]), Controller, es[1..]) == Step(s, es[0]);
      if es[0].HoldOne? { HoldKeepsPort(s.(flight := Nothing), s.flight.m); }
    }
  }

  lemma QuietStep(s: Sys, e: Event)
    requires Enabled(s, e) && PartyOf(e) != Controller
    ensures e != HoldOne ==> Step(s, e).singleStep == s.singleStep && !Step(s, e).aborted
    ensures e == HoldOne ==> Step(s, e).aborted || !Step(s, e).singleStep
  {
    hide HoldDecoded;
    if e == HoldOne { HoldEndsStep(s); }
  }

  lemma HoldEndsStep(s: Sys)
    requires s.flight.Decoded? && !s.aborted
    ensures HoldDecoded(s).aborted || !HoldDecoded(s).singleStep
  {
    HoldFields(s);
  }

  /** The wait ends exactly when the first message is held. */
  lemma {:induction false} WaitEndsAtHold(s: Sys, es: seq<Event>, i: nat)
    requires s.singleStep && i < |es| && Runs(s, es[..i + 1]) && es[i] == HoldOne
    requires forall j | 0 <= j <= i :: PartyOf(es[j]) != Controller
    requires forall j | 0 <= j < i :: es[j] != HoldOne
    ensures Wait(s, es) == After(s, es[..i + 1])
    decreases i
  {
    hide Step, Enabled;
    var e, s1 := es[0], Step(s, es[0]);
    assert es[..i + 1][0] == e && es[..i + 1][1..] == es[1..][..i];
    NotAborted(s, e);
    OneOther(s, es[..1]);
    QuietStep(s, e);
    if i > 0 {
      assert forall j | 0 <= j < i :: es[1..][j] == es[j + 1];
      WaitEndsAtHold(s1, es[1..], i - 1);
    } else {
      assert es[..1][1..] == [];
    }
  }

  lemma OneOther(s: Sys, es: seq<Event>)
    requires |es| == 1 && PartyOf(es[0]) != Controller && Enabled(s, es[0])
    ensures Others(s, Controller, es) == Step(s, es[0])
  {
    assert Others(s, Controller, es) == Others(Step(s, es[0]), Controller, es[1..]);
  }

  /** SingleStep comes back, stopped, right after the first message of its wait has been held. */
  lemma StepComesBack(s: Sys, es: seq<Event>, i: nat)
    requires Good(s) && Enabled(s, SingleStepCall) && s.taskPort in s.k.live && !SingleStepStart(s).aborted
    requires i < |es| && Runs(SingleStepStart(s), es[..i + 1]) && es[i] == HoldOne
    requires forall j | 0 <= j <= i :: PartyOf(es[j]) != Controller
    requires forall j | 0 <= j < i :: es[j] != HoldOne
    ensures var h := After(SingleStepStart(s), es[..i + 1]);
            !h.aborted ==> WholeStep(s, es) == h.(status := STOP, call := NoCall)
  {
    hide SingleStepStart, Runs, After, Wait, Good;
    StepResumes(s);
    WaitEndsAtHold(SingleStepStart(s), es, i);
    RunEndsStep(SingleStepStart(s), es[..i + 1]);
  }

  lemma {:induction false} RunEndsStep(s: Sys, es: seq<Event>)
    requires Runs(s, es) && es != [] && es[|es| - 1] == HoldOne
    ensures After(s, es).aborted || !After(s, es).singleStep
    decreases |es|
  {
    hide Step, Enabled;
    if |es| == 1 {
      assert es[1..] == [];
      QuietStep(s, es[0]);
    } else {
      assert es[1..][|es| - 2] == es[|es| - 1];
      RunEndsStep(Step(s, es[0]), es[1..]);
    }
  }

  /** Whatever the others do in its wait, a SingleStep that has ended its step is back, and its target counts as
      stopped. */
  lemma EndedStepIsBack(s: Sys, es: seq<Event>)
    requires Enabled(s, SingleStepCall) && s.taskPort in s.k.live
    ensures var r := WholeStep(s, es);
            !r.aborted && !r.singleStep ==> r.status == STOP && r.call == NoCall
  {
    hide Wait, SetSteps, Resume;
  }

  /** A whole SingleStep, whatever the others do while it waits, is a run of the system; and when it comes back no
      thread has its step bit set. */
  lemma WholeStepIsReached(s0: Sys, es0: seq<Event>, s: Sys, es: seq<Event>)
    requires Reached(s0, es0, s) && Enabled(s, SingleStepCall) && !WholeStep(s, es).aborted
    ensures exists run :: Reached(s0, run, WholeStep(s, es))
    ensures WholeStep(s, es).call.NoCall? && s.taskPort in s.k.live ==>
              forall t | t in WholeStep(s, es).k.threads ::
                t in WholeStep(s, es).k.mdscr && !StepBitSet(WholeStep(s, es).k.mdscr[t])
  {
    hide Runs, After, Wait, StepBitSet, Resume, SetSteps;
    OneMore(s0, es0, s, SingleStepCall);
    var run := es0 + [SingleStepCall];
    var s1 := SingleStepStart(s);
    if s1.call.StepWait? {
      run := WaitRuns(s0, run, s1, es);
      var s2 := Wait(s1, es);
      if !s2.singleStep {
        OneMore(s0, run, s2, SingleStepDone);
        run := run + [SingleStepDone];
      }
    }
    assert Reached(s0, run, WholeStep(s, es));
    StepBitsAreClean(s0, run, WholeStep(s, es));
  }
}
