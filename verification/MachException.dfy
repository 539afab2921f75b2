/** Exception messages: what the kernel sends, how one is decoded, and what a reply does. */
module MachExceptions {
  import opened MachTypes

  type Port = nat
  type Thread = nat

  const NULL: nat := 0
  const EXC_SOFTWARE: nat := 5
  const EXC_SOFT_SIGNAL: int := 0x10003
  const SIGTRAP: int := 5

  /** An exception as the kernel raises it. */
  datatype Raw = Raw(thread: Thread, task: Port, excType: nat, codes: seq<int>)

  /** MachException::Data. */
  datatype Data = Data(taskPort: Port, threadPort: Thread, excType: nat, excData: seq<int>) {
    predicate IsValid() {
      taskPort != NULL && threadPort != NULL && excType != 0
    }

    /** The signal of a soft-signal exception, or zero. */
    function SoftSignal(): int {
      if excType == EXC_SOFTWARE && |excData| == 2 && excData[0] == EXC_SOFT_SIGNAL then Int32(excData[1]) else 0
    }
  }

  /** MachException::Message: the message received, whether the reply to it reports success, and the decoded state. */
  datatype Message = Message(raw: Raw, accepted: bool, state: Data)

  /** A SIGTRAP soft signal, the sign of an exec. */
  predicate ExecTrap(raw: Raw) {
    raw.excType == EXC_SOFTWARE && |raw.codes| == 2 && raw.codes[0] == EXC_SOFT_SIGNAL && raw.codes[1] == SIGTRAP
  }

  /** Our task's own exception, or a SIGTRAP while our task's port is dead. */
  predicate Accepted(raw: Raw, task: Port, taskIsValid: bool) {
    raw.task == task || (!taskIsValid && ExecTrap(raw))
  }

  function Decode(raw: Raw, task: Port, taskIsValid: bool): Message {
    if Accepted(raw, task, taskIsValid)
    then Message(raw, true, Data(raw.task, raw.thread, raw.excType, raw.codes))
    else Message(raw, false, Data(task, NULL, 0, []))
  }

  /** Data::AppendExceptionData. */
  method AppendExceptionData(excData: seq<int>, codes: seq<int>) returns (r: seq<int>)
    ensures r == excData + codes
  {
    r := excData;
    for i := 0 to |codes|
      invariant r == excData + codes[..i]
    {
      r := r + [codes[i]];
    }
    assert codes[..|codes|] == codes;
  }

  /** catch_mach_exception_raise, filling in the data that `g_message` points to. */
  method CatchMachExceptionRaise(message: Data, raw: Raw, taskIsValid: bool) returns (accepted: bool, r: Data)
    ensures accepted == Accepted(raw, message.taskPort, taskIsValid)
    ensures r == if accepted then Data(raw.task, raw.thread, raw.excType, raw.codes)
                 else message.(excType := 0, excData := [])
  {
    r := message.(excType := 0, excData := []);
    if raw.task == r.taskPort {
      r := r.(taskPort := raw.task, threadPort := raw.thread, excType := raw.excType);
      var d := AppendExceptionData(r.excData, raw.codes);
      return true, r.(excData := d);
    } else if !taskIsValid {
      if raw.excType == EXC_SOFTWARE && |raw.codes| == 2 && raw.codes[0] == EXC_SOFT_SIGNAL && raw.codes[1] == SIGTRAP {
        r := r.(taskPort := raw.task, threadPort := raw.thread, excType := raw.excType);
        var d := AppendExceptionData(r.excData, raw.codes);
        return true, r.(excData := d);
      }
    }
    accepted := false;
  }

  /** Message::CatchExceptionRaise: every exception message is taken, accepted or not. */
  method CatchExceptionRaise(raw: Raw, task: Port, taskIsValid: bool) returns (success: bool, m: Message)
    ensures success && m == Decode(raw, task, taskIsValid)
  {
    var state := Data(task, NULL, 0, []);
    var accepted;
    accepted, state := CatchMachExceptionRaise(state, raw, taskIsValid);
    success, m := true, Message(raw, accepted, state);
  }

  /** The tracked port moves exactly when it is dead and a SIGTRAP soft signal arrives from another, real task and
      thread. */
  lemma PortMovesExactlyOnExec(raw: Raw, task: Port, taskIsValid: bool)
    ensures var d := Decode(raw, task, taskIsValid).state;
            && (d.taskPort != task && d.IsValid() <==>
                && !taskIsValid && raw.excType == 5 && raw.codes == [0x10003, 5]
                && raw.task != task && raw.task != 0 && raw.thread != 0)
            && (d.taskPort == task || d.taskPort == raw.task)
  {
  }

  /** What is accepted, in numbers, and what is decoded of it: everything the kernel sent. Of what is not accepted
      nothing is, and it is no soft signal. */
  lemma DecodeExactly(raw: Raw, task: Port, taskIsValid: bool)
    ensures var m := Decode(raw, task, taskIsValid);
            && m.raw == raw
            && (m.accepted <==> raw.task == task || (!taskIsValid && raw.excType == 5 && raw.codes == [0x10003, 5]))
            && (m.accepted ==>
                  && m.state.taskPort == raw.task && m.state.threadPort == raw.thread
                  && m.state.excType == raw.excType && m.state.excData == raw.codes)
            && (!m.accepted ==> m.state.taskPort == task && !m.state.IsValid() && m.state.SoftSignal() == 0)
  {
  }

  /** Which data is a soft signal: exception type 5 with two codes, of which the first is 0x10003 and the second, as a
      32-bit int, is the signal. */
  lemma SoftSignalExactly(d: Data)
    ensures d.SoftSignal() != 0 <==>
            d.excType == 5 && |d.excData| == 2 && d.excData[0] == 0x10003 && d.excData[1] % 0x1_0000_0000 != 0
    ensures d.SoftSignal() != 0 ==>
              && -0x8000_0000 <= d.SoftSignal() < 0x8000_0000
              && (d.excData[1] - d.SoftSignal()) % 0x1_0000_0000 == 0
  {
    hide Int32;
    if |d.excData| == 2 { Int32Exactly(d.excData[1]); }
  }
}
