/** What replying to a bundle does, message by message and all at once. */
module ReplyEffects {
  import opened MachExceptions
  import opened ProtocolSpec

  function Raws(ms: seq<Message>): seq<Raw> {
    if ms == [] then [] else [ms[0].raw] + Raws(ms[1..])
  }

  function ThreadsOf(raws: seq<Raw>): set<Thread> {
    if raws == [] then {} else {raws[0].thread} + ThreadsOf(raws[1..])
  }

  /** The message stops the debugger: a soft signal of a dead task that is not the tracked one. */
  predicate Fatal(k: Kernel, own: Port, m: Message) {
    m.state.SoftSignal() != 0 && m.state.taskPort != own && m.state.taskPort !in k.live
  }

  /** What the debugger does for one message, in order: a soft signal's thread is updated first, with no signal when
      the task is the tracked one, and then the reply is sent. */
  function ActsFor(live: map<Port, TaskInfo>, own: Port, pid: nat, m: Message): seq<Act> {
    if m.state.SoftSignal() == 0 then [ReplySent(m.raw, m.accepted)]
    else if own == m.state.taskPort then [ThreadUpdate(pid, m.state.threadPort, 0), ReplySent(m.raw, m.accepted)]
    else if m.state.taskPort in live then
      [ThreadUpdate(live[m.state.taskPort].pid, m.state.threadPort, m.state.SoftSignal()),
       ReplySent(m.raw, m.accepted)]
    else []
  }

  function ActsOf(live: map<Port, TaskInfo>, own: Port, pid: nat, ms: seq<Message>): seq<Act> {
    if ms == [] then [] else ActsFor(live, own, pid, ms[0]) + ActsOf(live, own, pid, ms[1..])
  }

  /** A message that is not a soft signal is only replied to, and ends nothing. */
  lemma PlainMessage(k: Kernel, own: Port, pid: nat, m: Message)
    requires m.state.excType != 5 || |m.state.excData| != 2 || m.state.excData[0] != 0x10003
    ensures ActsFor(k.live, own, pid, m) == [ReplySent(m.raw, m.accepted)] && !Fatal(k, own, m)
  {
  }

  /** The thread of a soft signal is updated before the reply: with no signal in the tracked task, and with the signal
      itself in another one. */
  lemma SoftMessage(k: Kernel, own: Port, pid: nat, m: Message, n: int)
    requires m.state.excType == 5 && m.state.excData == [0x10003, n] && 0 < n < 32
    ensures Fatal(k, own, m) <==> m.state.taskPort != own && m.state.taskPort !in k.live
    ensures m.state.taskPort == own ==>
              ActsFor(k.live, own, pid, m) ==
              [ThreadUpdate(pid, m.state.threadPort, 0), ReplySent(m.raw, m.accepted)]
    ensures m.state.taskPort != own && m.state.taskPort in k.live ==>
              ActsFor(k.live, own, pid, m) ==
              [ThreadUpdate(k.live[m.state.taskPort].pid, m.state.threadPort, n), ReplySent(m.raw, m.accepted)]
  {
    assert m.state.SoftSignal() == n;
  }

  /** Message::Reply with any signal, whether its update and its reply succeed or fail. It ends the debugger exactly on
      a fatal message. Else the thread of a soft signal is told its signal, if it can be; and whether or not it can,
      the reply goes out and frees its thread, if it can. */
  lemma ReplyOutcome(k: Kernel, own: Port, pid: nat, m: Message, signal: int, updates: bool, sends: bool)
    ensures var r, soft, task := Reply(k, own, pid, m, signal, updates, sends), m.state.SoftSignal(), m.state.taskPort;
            && (r.died <==> Fatal(k, own, m))
            && (r.died ==> r.k == k)
            && (!r.died ==>
                  && (soft != 0 && updates && task == own ==>
                        Told(k, r.k, [ThreadUpdate(pid, m.state.threadPort, signal)], m, sends))
                  && (soft != 0 && updates && task != own ==>
                        && task in k.live
                        && Told(k, r.k, [ThreadUpdate(k.live[task].pid, m.state.threadPort, soft)], m, sends))
                  && (soft == 0 || !updates ==> Told(k, r.k, [], m, sends)))
  {
  }

  /** After `k` come some updates, and then the reply to `m` if it was sent. */
  predicate Told(k: Kernel, k': Kernel, updates: seq<Act>, m: Message, sent: bool) {
    && k'.acts == k.acts + updates + (if sent then [ReplySent(m.raw, m.accepted)] else [])
    && k'.replied == k.replied + (if sent then [m.raw] else [])
    && k'.blocked == k.blocked - (if sent then {m.raw.thread} else {})
    && k' == k.(acts := k'.acts, replied := k'.replied, blocked := k'.blocked)
  }

  /** The kernel after replies to all of `ms`. */
  function Replied(k: Kernel, own: Port, pid: nat, ms: seq<Message>): Kernel {
    k.(acts := k.acts + ActsOf(k.live, own, pid, ms),
       replied := k.replied + Raws(ms),
       blocked := k.blocked - ThreadsOf(Raws(ms)))
  }

  /** Replying fails exactly when some message is fatal, and otherwise replies to each message once, in order. */
  lemma {:induction false} ReplyEachEffect(k: Kernel, own: Port, pid: nat, ms: seq<Message>)
    ensures ReplyEach(k, own, pid, ms).died <==> exists m :: m in ms && Fatal(k, own, m)
    ensures !ReplyEach(k, own, pid, ms).died ==> ReplyEach(k, own, pid, ms).k == Replied(k, own, pid, ms)
    decreases |ms|
  {
    if ms == [] {
      assert k == Replied(k, own, pid, ms);
    } else {
      var r := Reply(k, own, pid, ms[0], 0, true, true);
      if !r.died {
        ReplyEachEffect(r.k, own, pid, ms[1..]);
        forall m ensures Fatal(r.k, own, m) <==> Fatal(k, own, m) {}
        assert forall m :: m in ms <==> m == ms[0] || m in ms[1..];
        ReplyOneMore(k, own, pid, ms);
      } else {
        assert ms[0] in ms && Fatal(k, own, ms[0]);
      }
    }
  }

  lemma ReplyOneMore(k: Kernel, own: Port, pid: nat, ms: seq<Message>)
    requires ms != [] && !Reply(k, own, pid, ms[0], 0, true, true).died
    ensures Replied(Reply(k, own, pid, ms[0], 0, true, true).k, own, pid, ms[1..]) == Replied(k, own, pid, ms)
  {
    hide Reply, ActsFor, ActsOf, Raws, ThreadsOf;
    var here, raw := ActsFor(k.live, own, pid, ms[0]), ms[0].raw;
    ReplyActs(k, own, pid, ms[0]);
    Unfold(k.live, own, pid, ms);
    RepliedTwice(k, own, pid, here, raw, ms[1..]);
    Regroup(k, here, ActsOf(k.live, own, pid, ms[1..]), raw, Raws(ms[1..]), ThreadsOf(Raws(ms[1..])));
  }

  /** Replying to more messages after one whose acts were `here`. */
  lemma RepliedTwice(k: Kernel, own: Port, pid: nat, here: seq<Act>, raw: Raw, rest: seq<Message>)
    ensures var k1 := k.(acts := k.acts + here, replied := k.replied + [raw], blocked := k.blocked - {raw.thread});
            Replied(k1, own, pid, rest) ==
            k.(acts := k.acts + here + ActsOf(k.live, own, pid, rest),
               replied := k.replied + [raw] + Raws(rest),
               blocked := k.blocked - {raw.thread} - ThreadsOf(Raws(rest)))
  {
    hide ActsOf, Raws, ThreadsOf;
  }

  lemma Regroup(k: Kernel, here: seq<Act>, later: seq<Act>, raw: Raw, raws: seq<Raw>, threads: set<Thread>)
    ensures k.(acts := k.acts + here + later,
               replied := k.replied + [raw] + raws,
               blocked := k.blocked - {raw.thread} - threads) ==
            k.(acts := k.acts + (here + later),
               replied := k.replied + ([raw] + raws),
               blocked := k.blocked - ({raw.thread} + threads))
  {
    assert k.acts + here + later == k.acts + (here + later);
    assert k.replied + [raw] + raws == k.replied + ([raw] + raws);
    assert k.blocked - {raw.thread} - threads == k.blocked - ({raw.thread} + threads);
  }

  lemma ReplyActs(k: Kernel, own: Port, pid: nat, m: Message)
    requires !Reply(k, own, pid, m, 0, true, true).died
    ensures Reply(k, own, pid, m, 0, true, true).k ==
            k.(acts := k.acts + ActsFor(k.live, own, pid, m),
               replied := k.replied + [m.raw],
               blocked := k.blocked - {m.raw.thread})
  {
    if m.state.SoftSignal() != 0 {
      var u := ActsFor(k.live, own, pid, m)[0];
      assert k.acts + [u] + [ReplySent(m.raw, m.accepted)] == k.acts + ActsFor(k.live, own, pid, m);
    }
  }

  lemma Unfold(live: map<Port, TaskInfo>, own: Port, pid: nat, ms: seq<Message>)
    requires ms != []
    ensures ActsOf(live, own, pid, ms) == ActsFor(live, own, pid, ms[0]) + ActsOf(live, own, pid, ms[1..])
    ensures Raws(ms) == [ms[0].raw] + Raws(ms[1..])
    ensures ThreadsOf(Raws(ms)) == {ms[0].raw.thread} + ThreadsOf(Raws(ms[1..]))
  {
    assert Raws(ms)[1..] == Raws(ms[1..]);
  }

  /** The replies among some acts, in order. */
  function RepliesIn(acts: seq<Act>): seq<Raw> {
    if acts == [] then []
    else (if acts[0].ReplySent? then [acts[0].raw] else []) + RepliesIn(acts[1..])
  }

  lemma {:induction false} RepliesInJoin(a: seq<Act>, b: seq<Act>)
    ensures RepliesIn(a + b) == RepliesIn(a) + RepliesIn(b)
  {
    if a == [] {
      assert a + b == b;
    } else {
      assert (a + b)[0] == a[0] && (a + b)[1..] == a[1..] + b;
      assert RepliesIn(a + b) == (if a[0].ReplySent? then [a[0].raw] else []) + RepliesIn(a[1..] + b);
      RepliesInJoin(a[1..], b);
    }
  }

  /** The reply to `m` comes right after its thread is told to go on without a signal. */
  ghost predicate UpdatedFirst(pid: nat, m: Message, acts: seq<Act>) {
    exists i :: 0 <= i < |acts| - 1 &&
                acts[i] == ThreadUpdate(pid, m.state.threadPort, 0) && acts[i + 1] == ReplySent(m.raw, m.accepted)
  }

  /** The acts of a bundle with no foreign soft signal: one reply for each message, in arrival order; every thread
      update carries signal 0 and is followed by a reply; and the reply to a soft signal comes right after the update
      of its thread. */
  lemma {:induction false} SignalsSuppressed(live: map<Port, TaskInfo>, own: Port, pid: nat, ms: seq<Message>)
    requires forall m | m in ms :: m.state.SoftSignal() == 0 || m.state.taskPort == own
    ensures var acts := ActsOf(live, own, pid, ms);
            && RepliesIn(acts) == Raws(ms)
            && (forall i | 0 <= i < |acts| && acts[i].ThreadUpdate? ::
                  acts[i].signal == 0 && acts[i].pid == pid && i + 1 < |acts| && acts[i + 1].ReplySent?)
            && (forall m | m in ms && m.state.SoftSignal() != 0 :: UpdatedFirst(pid, m, acts))
  {
    if ms != [] {
      var m, rest := ms[0], ms[1..];
      SignalsSuppressed(live, own, pid, rest);
      var acts, here, later := ActsOf(live, own, pid, ms), ActsFor(live, own, pid, m), ActsOf(live, own, pid, rest);
      assert acts == here + later;
      RepliesInJoin(here, later);
      assert RepliesIn(here) == [m.raw] by {
        assert here[1..] == [] || here[1..] == [ReplySent(m.raw, m.accepted)];
      }
      forall x | x in ms && x.state.SoftSignal() != 0 ensures UpdatedFirst(pid, x, acts) {
        if x == m {
          assert acts[0] == here[0] && acts[0 + 1] == here[1];
        } else {
          assert x in rest && UpdatedFirst(pid, x, later);
          UpdatedLater(pid, x, here, later);
        }
      }
    }
  }

  lemma UpdatedLater(pid: nat, m: Message, here: seq<Act>, later: seq<Act>)
    requires UpdatedFirst(pid, m, later)
    ensures UpdatedFirst(pid, m, here + later)
  {
    var i :| 0 <= i < |later| - 1 &&
             later[i] == ThreadUpdate(pid, m.state.threadPort, 0) && later[i + 1] == ReplySent(m.raw, m.accepted);
    var acts, j := here + later, |here| + i;
    assert acts[j] == later[i] && acts[j + 1] == later[i + 1];
  }
}
