/** The target's table of exception ports: saving it, taking exceptions over, and putting it back. */
module ExceptionPorts {
  import opened MachTypes

  /** EXCEPTION_DEFAULT | MACH_EXCEPTION_CODES, and THREAD_STATE_NONE. */
  const EXCEPTION_DEFAULT_CODES: nat := 0x8000_0001
  const THREAD_STATE_NONE: nat := 5

  /** An exception mask as the set of the exception types in it. */
  type Mask = set<nat>

  datatype Handler = Handler(port: nat, behavior: nat, flavor: nat)

  type Table = map<nat, Handler>

  /** One entry of the parallel arrays `masks`, `ports`, `behaviors` and `flavors`. */
  datatype Saved = Saved(mask: Mask, handler: Handler)

  function Rerouted(table: Table, mask: Mask, h: Handler): Table {
    map t | t in table :: if t in mask then h else table[t]
  }

  /** The types in some entry. */
  function Covered(saved: seq<Saved>): Mask {
    if saved == [] then {} else Covered(saved[..|saved| - 1]) + saved[|saved| - 1].mask
  }

  /** The saved entries cover `mask`, no type twice, and agree with `table`; none is empty. */
  ghost predicate Partition(saved: seq<Saved>, mask: Mask, table: Table) {
    && Covered(saved) == mask <= table.Keys
    && (forall i | 0 <= i < |saved| :: saved[i].mask != {})
    && (forall i, t | 0 <= i < |saved| && t in saved[i].mask :: t in table && table[t] == saved[i].handler)
    && (forall i, j | 0 <= i < j < |saved| :: saved[i].mask !! saved[j].mask)
  }

  lemma {:induction false} EntryIsCovered(saved: seq<Saved>, i: nat)
    requires i < |saved|
    ensures saved[i].mask <= Covered(saved)
  {
    if i < |saved| - 1 { EntryIsCovered(saved[..|saved| - 1], i); }
  }

  lemma NoEntries(table: Table)
    ensures Partition([], {}, table)
  {
  }

  lemma OneMoreEntry(saved: seq<Saved>, mask: Mask, table: Table, same: Mask, h: Handler)
    requires Partition(saved, mask, table) && same != {} && same !! mask
    requires forall t | t in same :: t in table && table[t] == h
    ensures Partition(saved + [Saved(same, h)], mask + same, table)
  {
    var more := saved + [Saved(same, h)];
    forall i | 0 <= i < |saved| ensures saved[i].mask !! same { EntryIsCovered(saved, i); }
    assert more[..|more| - 1] == saved;
  }

  lemma {:induction false} CoveredByEntry(saved: seq<Saved>, t: nat)
    requires t in Covered(saved)
    ensures exists i :: 0 <= i < |saved| && t in saved[i].mask
    decreases |saved|
  {
    var last := |saved| - 1;
    if t !in saved[last].mask {
      CoveredByEntry(saved[..last], t);
      var i :| 0 <= i < last && t in saved[..last][i].mask;
      assert t in saved[i].mask;
    }
  }

  /** How many entries, from the first on, have a port that can be set. */
  function Restorable(saved: seq<Saved>, refused: set<nat>): (k: nat)
    ensures k <= |saved| && forall i | 0 <= i < k :: saved[i].handler.port !in refused
    ensures k < |saved| ==> saved[k].handler.port in refused
    decreases |saved|
  {
    if saved == [] || saved[0].handler.port in refused then 0 else 1 + Restorable(saved[1..], refused)
  }

  /** The kernel's side: the table and the calls on it. */
  class ExceptionTable {
    const supported: Mask       // the exception types this system knows
    const answers: bool         // the task is alive
    const refused: set<nat>     // ports that cannot be set: their rights are dead
    var table: Table

    ghost predicate Valid()
      reads this
    {
      table.Keys == supported
    }

    constructor (answers: bool, refused: set<nat>, table: Table)
      ensures Valid() && this.answers == answers && this.refused == refused && this.table == table
    {
      this.supported, this.answers, this.refused, this.table := table.Keys, answers, refused, table;
    }

    /** task_get_exception_ports: one entry for each handler in use in the mask. */
    method GetExceptionPorts(mask: Mask) returns (kr: nat, saved: seq<Saved>)
      requires Valid()
      ensures kr == KERN_SUCCESS <==> answers && mask <= supported
      ensures kr == KERN_INVALID_ARGUMENT <==> answers && !(mask <= supported)
      ensures kr == KERN_SUCCESS ==> Partition(saved, mask, table)
    {
      hide Partition;
      saved := [];
      NoEntries(table);
      if !answers {
        return KERN_INVALID_TASK, saved;
      }
      if !(mask <= supported) {
        return KERN_INVALID_ARGUMENT, saved;
      }
      var rest := mask;
      assert mask - rest == {};
      while rest != {}
        invariant rest <= mask
        invariant Partition(saved, mask - rest, table)
        decreases rest
      {
        var t :| t in rest;
        var same := set u | u in rest && table[u] == table[t];
        assert t in same && (mask - rest) + same == mask - (rest - same);
        OneMoreEntry(saved, mask - rest, table, same, table[t]);
        saved := saved + [Saved(same, table[t])];
        rest := rest - same;
      }
      assert mask - rest == mask;
      kr := KERN_SUCCESS;
    }

    /** task_set_exception_ports. */
    method SetExceptionPorts(mask: Mask, h: Handler) returns (kr: nat)
      requires Valid()
      modifies this`table
      ensures Valid()
      ensures kr == KERN_SUCCESS <==> answers && mask <= supported && h.port !in refused
      ensures table == if kr == KERN_SUCCESS then Rerouted(old(table), mask, h) else old(table)
    {
      if !answers || !(mask <= supported) {
        return KERN_INVALID_ARGUMENT;
      }
      if h.port in refused {
        return KERN_INVALID_RIGHT;
      }
      table := Rerouted(table, mask, h);
      kr := KERN_SUCCESS;
    }
  }

  /** MachException::PortInfo. */
  class PortInfo {
    const allMask: Mask     // EXC_MASK_ALL
    const prevMask: Mask    // PREV_EXC_MASK_ALL
    var mask: Mask
    var saved: seq<Saved>
    var count: nat

    constructor (allMask: Mask, prevMask: Mask)
      ensures mask == {} && count == 0 && this.allMask == allMask && this.prevMask == prevMask
    {
      this.allMask, this.prevMask, mask, saved, count := allMask, prevMask, {}, [], 0;
    }

    /** The saved entries describe `table` on the types in `m`. */
    ghost predicate Describes(m: Mask, table: Table)
      reads this
    {
      count == |saved| && Partition(saved, m, table)
    }

    /** Backs off from all exceptions to the older set when the system does not know all of them. */
    method Save(task: ExceptionTable) returns (kr: nat)
      requires task.Valid()
      modifies this
      ensures kr == KERN_SUCCESS ==> Describes(mask, task.table) && mask <= task.supported && task.answers
      ensures kr == KERN_SUCCESS ==> mask == if allMask <= task.supported then allMask else prevMask
      ensures kr != KERN_SUCCESS ==> mask == {} && count == 0
      ensures kr == KERN_SUCCESS <==> task.answers && (allMask <= task.supported || prevMask <= task.supported)
    {
      mask := allMask;
      kr, saved := task.GetExceptionPorts(mask);
      count := |saved|;
      if kr == KERN_INVALID_ARGUMENT && mask != prevMask {
        mask := prevMask;
        kr, saved := task.GetExceptionPorts(mask);
        count := |saved|;
      }
      if kr != KERN_SUCCESS {
        mask := {};
        count := 0;
      }
    }

    /** The types whose handlers Restore will put back: those of the entries before the first that cannot be set. */
    ghost function Returned(task: ExceptionTable): Mask
      requires count == |saved|
      reads this
    {
      Covered(saved[..Restorable(saved, task.refused)])
    }

    /** Puts the saved handlers back, one by one, up to the first that cannot be set, and forgets them all. */
    method Restore(task: ExceptionTable, ghost m: Mask, ghost was: Table) returns (kr: nat)
      requires task.Valid()
      requires count == 0 || (Describes(m, was) && m <= task.supported && task.answers)
      modifies this`count, task`table
      ensures task.Valid() && count == 0
      ensures old(count) == 0 ==> kr == KERN_SUCCESS && task.table == old(task.table)
      ensures old(count) > 0 ==>
                && (kr == KERN_SUCCESS <==> Restorable(saved, task.refused) == |saved|)
                && old(Returned(task)) <= m
                && forall t | t in task.table ::
                     task.table[t] == if t in old(Returned(task)) then was[t] else old(task.table)[t]
    {
      kr := KERN_SUCCESS;
      if count > 0 {
        ghost var k := Restorable(saved, task.refused);
        var i := 0;
        while i < count
          invariant i <= k <= count == old(count) && task.Valid() && kr == KERN_SUCCESS
          invariant Covered(saved[..i]) <= m
          invariant forall t | t in task.table ::
                      task.table[t] == if t in Covered(saved[..i]) then was[t] else old(task.table)[t]
        {
          EntryIsCovered(saved, i);
          assert saved[..i + 1][..i] == saved[..i];
          kr := task.SetExceptionPorts(saved[i].mask, saved[i].handler);
          if kr != KERN_SUCCESS {
            break;
          }
          i := i + 1;
        }
        assert i == k;
      }
      count := 0;
    }
  }

  /** The types in some ignored mask. */
  function AnyOf(masks: seq<Mask>): Mask {
    if masks == [] then {} else AnyOf(masks[..|masks| - 1]) + masks[|masks| - 1]
  }

  /** A type is ignored exactly when some mask in the list has it. */
  predicate Ignored(masks: seq<Mask>, t: nat) {
    exists i :: 0 <= i < |masks| && t in masks[i]
  }

  lemma {:induction false} AnyOfExactly(masks: seq<Mask>, t: nat)
    ensures t in AnyOf(masks) <==> Ignored(masks, t)
    decreases |masks|
  {
    if masks != [] {
      var last := |masks| - 1;
      AnyOfExactly(masks[..last], t);
      if Ignored(masks[..last], t) {
        var i :| 0 <= i < last && t in masks[..last][i];
        assert t in masks[i];
      }
      if Ignored(masks, t) {
        var i :| 0 <= i < |masks| && t in masks[i];
        assert i < last ==> t in masks[..last][i];
      }
    }
  }

  /** `table` with the types of `used` that are not ignored given to `newPort`, with the behaviour and flavor that
      EXCEPTION_DEFAULT | MACH_EXCEPTION_CODES and THREAD_STATE_NONE stand for. */
  predicate TakenOver(was: Table, table: Table, used: Mask, ignored: seq<Mask>, newPort: nat) {
    && table.Keys == was.Keys
    && forall t | t in table ::
         table[t] == if t in used && !Ignored(ignored, t) then Handler(newPort, 0x8000_0001, 5) else was[t]
  }

  lemma ReroutedIsTakenOver(was: Table, used: Mask, ignored: seq<Mask>, newPort: nat)
    ensures TakenOver(was, Rerouted(was, used - AnyOf(ignored), OurHandler(newPort)), used, ignored, newPort)
  {
    hide AnyOf, Ignored;
    forall t ensures t in AnyOf(ignored) <==> Ignored(ignored, t) { AnyOfExactly(ignored, t); }
  }

  /** The part of MachTask that owns the exception port. */
  class TaskExceptionPorts {
    const task: ExceptionTable
    const portInfo: PortInfo
    var exceptionPort: nat
    var threadRuns: bool

    constructor (task: ExceptionTable, allMask: Mask, prevMask: Mask)
      ensures this.task == task && fresh(portInfo) && exceptionPort == 0 && !threadRuns
      ensures portInfo.mask == {} && portInfo.count == 0 && portInfo.allMask == allMask && portInfo.prevMask == prevMask
    {
      this.task := task;
      this.portInfo := new PortInfo(allMask, prevMask);
      exceptionPort, threadRuns := 0, false;
    }

    /** The mask that Save ends with. */
    function UsableMask(): Option<Mask>
      reads this, portInfo, task
    {
      if !task.answers then None
      else if portInfo.allMask <= task.supported then Some(portInfo.allMask)
      else if portInfo.prevMask <= task.supported then Some(portInfo.prevMask)
      else None
    }

    /** All exceptions where the system knows them all, else the older ones where it knows those; and none when the
        task is dead. */
    lemma UsableMaskIs()
      ensures UsableMask().Some? <==>
              task.answers && (portInfo.allMask <= task.supported || portInfo.prevMask <= task.supported)
      ensures UsableMask().Some? ==> UsableMask().value <= task.supported
      ensures UsableMask().Some? && portInfo.allMask <= task.supported ==> UsableMask().value == portInfo.allMask
      ensures UsableMask().Some? && !(portInfo.allMask <= task.supported) ==> UsableMask().value == portInfo.prevMask
    {
    }

    /** Routes to `newPort` the types of the usable mask that are not ignored, and remembers what the whole mask was.
        When the table cannot be saved nothing changes. */
    method StartExceptionThread(ignored: seq<Mask>, newPort: nat, threadStarts: bool) returns (ok: bool)
      requires task.Valid() && portInfo.count == 0 && portInfo.allMask != {} && portInfo.prevMask != {}
      requires newPort !in task.refused
      modifies this, portInfo, task`table
      ensures task.Valid()
      ensures ok <==> UsableMask().Some? && threadStarts
      ensures ok ==> threadRuns
      ensures UsableMask().None? ==> task.table == old(task.table) && portInfo.count == 0
      ensures UsableMask().Some? ==>
                && var used := UsableMask().value;
                && task.table == Rerouted(old(task.table), used - AnyOf(ignored), OurHandler(newPort))
                && TakenOver(old(task.table), task.table, used, ignored, newPort)
                && portInfo.Describes(used, old(task.table))
    {
      ReroutedIsTakenOver(task.table, if UsableMask().Some? then UsableMask().value else {}, ignored, newPort);
      hide TakenOver;
      if !task.answers {
        return false;
      }
      exceptionPort := newPort;
      var _ := portInfo.Save(task);
      if portInfo.mask == {} {
        return false;
      }
      ghost var used := portInfo.mask;
      var i := 0;
      while i < |ignored|
        invariant i <= |ignored|
        invariant task.table == old(task.table) && portInfo.Describes(used, task.table) && exceptionPort == newPort
        invariant portInfo.mask == used - AnyOf(ignored[..i])
      {
        assert ignored[..i + 1][..i] == ignored[..i];
        portInfo.mask := portInfo.mask - ignored[i];
        i := i + 1;
      }
      assert ignored[..i] == ignored;
      var kr := task.SetExceptionPorts(portInfo.mask, OurHandler(exceptionPort));
      assert kr == KERN_SUCCESS;
      threadRuns := threadStarts;
      return threadStarts;
    }

    /** Puts the saved handlers back, ignored types included, as far as they can be set, ends the thread and gives the
        port up. What it returns is whether the port could be given up: a handler that could not be put back is not
        reported. */
    method ShutDownExceptionThread(portGiven: bool, ghost m: Mask, ghost was: Table) returns (kr: nat)
      requires task.Valid() && threadRuns
      requires portInfo.count == 0 || (portInfo.Describes(m, was) && m <= task.supported && task.answers)
      modifies this, portInfo, task`table
      ensures task.Valid() && exceptionPort == 0 && portInfo.count == 0 && !threadRuns
      ensures kr == KERN_SUCCESS <==> portGiven
      ensures old(portInfo.count) == 0 ==> task.table == old(task.table)
      ensures old(portInfo.count) > 0 ==>
                && old(portInfo.Returned(task)) <= m
                && forall t | t in task.table ::
                     task.table[t] == if t in old(portInfo.Returned(task)) then was[t] else old(task.table)[t]
    {
      kr := portInfo.Restore(task, m, was);
      exceptionPort := 0;
      threadRuns := false;
      kr := if portGiven then KERN_SUCCESS else KERN_FAILURE;
    }

    /** MachProcess::Attach up to the tracing of the process: it throws unless every part works, and when only the
        thread or the tracing fails it leaves the types rerouted. */
    method Attach(pid: nat, processExists: bool, ignored: seq<Mask>, newPort: nat, threadStarts: bool, traced: bool)
      returns (attached: bool)
      requires task.Valid() && portInfo.count == 0 && portInfo.allMask != {} && portInfo.prevMask != {}
      requires newPort !in task.refused
      modifies this, portInfo, task`table
      ensures task.Valid()
      ensures attached <==> pid != 0 && processExists && UsableMask().Some? && threadStarts && traced
      ensures attached ==> threadRuns
      ensures pid == 0 || !processExists || UsableMask().None? ==> task.table == old(task.table) && portInfo.count == 0
      ensures pid != 0 && processExists && UsableMask().Some? ==>
                && var used := UsableMask().value;
                && task.table == Rerouted(old(task.table), used - AnyOf(ignored), OurHandler(newPort))
                && TakenOver(old(task.table), task.table, used, ignored, newPort)
                && portInfo.Describes(used, old(task.table))
    {
      hide TakenOver;
      if pid == 0 {
        return false;
      }
      if !processExists {
        return false;
      }
      var ok := StartExceptionThread(ignored, newPort, threadStarts);
      if !ok {
        return false;
      }
      return traced;
    }
  }

  function OurHandler(port: nat): Handler {
    Handler(port, EXCEPTION_DEFAULT_CODES, THREAD_STATE_NONE)
  }

  /** No type is left out exactly when every saved port can be set, and a type whose port cannot be set always is. */
  lemma AllReturned(saved: seq<Saved>, mask: Mask, table: Table, refused: set<nat>)
    requires Partition(saved, mask, table)
    ensures var returned := Covered(saved[..Restorable(saved, refused)]);
            && returned <= mask
            && (returned == mask <==> forall t | t in mask :: table[t].port !in refused)
            && (forall t | t in mask && table[t].port in refused :: t !in returned)
  {
    var k := Restorable(saved, refused);
    forall t | t in mask && table[t].port in refused ensures t !in Covered(saved[..k]) {
      if t in Covered(saved[..k]) {
        CoveredByEntry(saved[..k], t);
      }
    }
    forall t | t in Covered(saved[..k]) ensures t in mask {
      CoveredByEntry(saved[..k], t);
      var i :| 0 <= i < k && t in saved[..k][i].mask;
      EntryIsCovered(saved, i);
    }
    if k == |saved| {
      assert saved[..k] == saved;
      forall t | t in mask ensures table[t].port !in refused {
        CoveredByEntry(saved, t);
      }
    } else {
      var t :| t in saved[k].mask;
      EntryIsCovered(saved, k);
    }
  }

  /** From attaching to detaching. Ignored types are never rerouted. An attach that fails after rerouting leaves it in
      place. After one that works, the table is as it was found if every saved port of the mask can still be set, and
      only if every type whose port cannot be set is ignored. What lies between depends on `saved`, the entries in the
      kernel's order: the `lost` types are those from the first entry on that cannot be set, and the table is restored
      exactly when those of them that were rerouted had our handler before. */
  method Session(owner: TaskExceptionPorts, pid: nat, processExists: bool, ignored: seq<Mask>, newPort: nat,
                 threadStarts: bool, traced: bool, portGiven: bool)
    returns (during: Table, attached: bool, ghost saved: seq<Saved>, ghost lost: Mask)
    requires owner.task.Valid() && owner.portInfo.count == 0
    requires owner.portInfo.allMask != {} && owner.portInfo.prevMask != {} && newPort !in owner.task.refused
    modifies owner, owner.portInfo, owner.task`table
    ensures attached <==> pid != 0 && processExists && old(owner.UsableMask()).Some? && threadStarts && traced
    ensures forall t | Ignored(ignored, t) && t in old(owner.task.table) ::
              && t in during && during[t] == old(owner.task.table)[t]
              && t in owner.task.table && owner.task.table[t] == old(owner.task.table)[t]
    ensures pid == 0 || !processExists || old(owner.UsableMask()).None? ==> during == old(owner.task.table)
    ensures pid != 0 && processExists && old(owner.UsableMask()).Some? ==>
              && var used := old(owner.UsableMask()).value;
              && TakenOver(old(owner.task.table), during, used, ignored, newPort)
    ensures !attached ==> owner.task.table == during
    ensures attached ==>
              && Partition(saved, old(owner.UsableMask()).value, old(owner.task.table))
              && lost == old(owner.UsableMask()).value - Covered(saved[..Restorable(saved, owner.task.refused)])
              && (lost == {} <==> forall t | t in old(owner.UsableMask()).value ::
                                    t in old(owner.task.table) && old(owner.task.table)[t].port !in owner.task.refused)
              && (forall t | t in old(owner.UsableMask()).value && t in old(owner.task.table)
                             && old(owner.task.table)[t].port in owner.task.refused ::
                    t in lost && (!Ignored(ignored, t) ==> owner.task.table != old(owner.task.table)))
              && (owner.task.table == old(owner.task.table) <==>
                  forall t | t in lost && !Ignored(ignored, t) ::
                    t in old(owner.task.table) && old(owner.task.table)[t] == Handler(newPort, 0x8000_0001, 5))
  {
    hide Ignored;
    ghost var was := owner.task.table;
    forall t ensures t in AnyOf(ignored) <==> Ignored(ignored, t) { AnyOfExactly(ignored, t); }
    attached := owner.Attach(pid, processExists, ignored, newPort, threadStarts, traced);
    during := owner.task.table;
    saved, lost := [], {};
    if attached {
      ghost var used := owner.UsableMask().value;
      saved := owner.portInfo.saved;
      AllReturned(saved, used, was, owner.task.refused);
      NotEmpty(saved, used, was);
      ghost var returned := owner.portInfo.Returned(owner.task);
      lost := used - returned;
      var _ := owner.ShutDownExceptionThread(portGiven, used, was);
      assert forall t | t in was ::
          owner.task.table[t] == if t in lost - AnyOf(ignored) then OurHandler(newPort) else was[t];
      assert owner.task.table.Keys == was.Keys;
    }
  }

  lemma NotEmpty(saved: seq<Saved>, mask: Mask, table: Table)
    requires Partition(saved, mask, table) && mask != {}
    ensures |saved| > 0
  {
  }
}
