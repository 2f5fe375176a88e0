/**
  The process table in shared memory, as src/controller/main.c keeps it: 64
  slots, pid 0 marking a free one. The functions say what each operation makes
  of the slots; the methods are the loops over the array.
 */
module ProcessTable {

  const SLOT_COUNT: nat := 64

  datatype Slot = Slot(pid: nat, flags: nat)

  const FREE := Slot(0, 0)

  /** The first slot holding `pid`, or the table size. */
  function FirstWith(slots: seq<Slot>, pid: nat): (i: nat)
    ensures i <= |slots|
    ensures i < |slots| ==> slots[i].pid == pid
    ensures forall j | 0 <= j < i :: slots[j].pid != pid
  {
    if slots == [] || slots[0].pid == pid then 0 else 1 + FirstWith(slots[1..], pid)
  }

  function Registered(slots: seq<Slot>, pid: nat): seq<Slot> {
    if pid == 0 || FirstWith(slots, pid) < |slots| then slots
    else
      var free := FirstWith(slots, 0);
      if free < |slots| then slots[free := Slot(pid, 0)] else slots
  }

  function Reaped(slots: seq<Slot>, living: set<nat>): (r: seq<Slot>)
    ensures |r| == |slots|
  {
    seq(|slots|, i requires 0 <= i < |slots| => ReapedSlot(slots[i], living))
  }

  function ReapedSlot(slot: Slot, living: set<nat>): Slot {
    if slot.pid == 0 || slot.pid in living then slot else FREE
  }

  method RegisterProcess(slots: array<Slot>, pid: nat)
    modifies slots
    ensures slots[..] == Registered(old(slots[..]), pid)
  {
    if pid == 0 {
      return;
    }
    var empty: nat := slots.Length;
    for i := 0 to slots.Length
      invariant slots[..] == old(slots[..]) && empty <= slots.Length
      invariant forall j | 0 <= j < i :: slots[j].pid != pid
      invariant empty == slots.Length ==> forall j | 0 <= j < i :: slots[j].pid != 0
      invariant empty < slots.Length ==>
                  empty < i && slots[empty].pid == 0 && forall j | 0 <= j < empty :: slots[j].pid != 0
    {
      if slots[i].pid == pid {
        FirstIs(slots[..], pid, i);
        return;
      }
      if empty == slots.Length && slots[i].pid == 0 {
        empty := i;
      }
    }
    FirstIs(slots[..], pid, slots.Length);
    FirstIs(slots[..], 0, empty);
    if empty < slots.Length {
      slots[empty] := Slot(pid, 0);
    }
  }

  lemma FirstIs(slots: seq<Slot>, pid: nat, i: nat)
    requires i <= |slots| && (i < |slots| ==> slots[i].pid == pid)
    requires forall j | 0 <= j < i :: slots[j].pid != pid
    ensures FirstWith(slots, pid) == i
  {}

  /** `living` answers `kill(pid, 0) == 0 || errno == EPERM`. */
  method ReapDeadProcesses(slots: array<Slot>, living: set<nat>)
    modifies slots
    ensures slots[..] == Reaped(old(slots[..]), living)
  {
    for i := 0 to slots.Length
      invariant forall j | 0 <= j < i :: slots[j] == ReapedSlot(old(slots[j]), living)
      invariant forall j | i <= j < slots.Length :: slots[j] == old(slots[j])
    {
      if slots[i].pid == 0 {
        continue;
      }
      if slots[i].pid in living {
        continue;
      }
      slots[i] := FREE;
    }
  }

  // ---- The table as a set of pids ------------------------------------------------

  function Pids(slots: seq<Slot>): set<nat> {
    set i | 0 <= i < |slots| && slots[i].pid != 0 :: slots[i].pid
  }

  ghost predicate Distinct(slots: seq<Slot>) {
    forall i, j | 0 <= i < j < |slots| :: slots[i].pid != 0 ==> slots[i].pid != slots[j].pid
  }

  /** Registration on the set: a full table turns newcomers away. */
  function SetRegistered(pids: set<nat>, pid: nat, capacity: nat): set<nat> {
    if pid == 0 || |pids| >= capacity then pids else pids + {pid}
  }

  ghost predicate AllUsed(slots: seq<Slot>) {
    forall i | 0 <= i < |slots| :: slots[i].pid != 0
  }

  lemma FreeSlotExists(slots: seq<Slot>)
    ensures AllUsed(slots) <==> FirstWith(slots, 0) == |slots|
  {}

  lemma PidsOfInit(slots: seq<Slot>)
    requires slots != []
    ensures var last := |slots| - 1;
            Pids(slots) == Pids(slots[..last]) + (if slots[last].pid == 0 then {} else {slots[last].pid})
  {
    var last := |slots| - 1;
    assert forall i | 0 <= i < last :: slots[..last][i] == slots[i];
  }

  /** Distinct pids fill the table exactly when no slot is free. */
  lemma {:induction false} FullExactlyWhenAllUsed(slots: seq<Slot>)
    requires Distinct(slots)
    ensures |Pids(slots)| <= |slots|
    ensures |Pids(slots)| == |slots| <==> AllUsed(slots)
  {
    if slots != [] {
      var last := |slots| - 1;
      var rest := slots[..last];
      FullExactlyWhenAllUsed(rest);
      PidsOfInit(slots);
      assert slots[last].pid !in Pids(rest);
      assert AllUsed(slots) <==> AllUsed(rest) && slots[last].pid != 0;
    }
  }

  lemma PidsOfUpdate(slots: seq<Slot>, i: nat, pid: nat)
    requires i < |slots| && slots[i].pid == 0 && pid != 0
    ensures Pids(slots[i := Slot(pid, 0)]) == Pids(slots) + {pid}
  {
    var slots' := slots[i := Slot(pid, 0)];
    assert slots'[i].pid == pid;
    forall p | p in Pids(slots)
      ensures p in Pids(slots')
    {
      var j :| 0 <= j < |slots| && slots[j].pid != 0 && slots[j].pid == p;
      assert slots'[j].pid == p;
    }
  }

  /** Registering refines insertion into a bounded set, also when a hole precedes the entry. */
  lemma RegisterRefinesInsert(slots: seq<Slot>, pid: nat)
    requires Distinct(slots)
    ensures Distinct(Registered(slots, pid))
    ensures Pids(Registered(slots, pid)) ==
            if pid in Pids(slots) then Pids(slots) else SetRegistered(Pids(slots), pid, |slots|)
  {
    hide FirstWith;
    FullExactlyWhenAllUsed(slots);
    FreeSlotExists(slots);
    var free := FirstWith(slots, 0);
    assert pid in Pids(slots) <==> pid != 0 && FirstWith(slots, pid) < |slots|;
    if Registered(slots, pid) != slots {
      PidsOfUpdate(slots, free, pid);
    }
  }

  /** No slot before `i` is free, and `i` is. */
  predicate IsFirstFree(slots: seq<Slot>, i: nat) {
    i < |slots| && slots[i].pid == 0 && forall j | 0 <= j < i :: slots[j].pid != 0
  }

  /** A pid that is not 0 and not in the table takes the first free slot, with no flags; otherwise the
      table stays as it is. */
  lemma NewPidTakesFirstFreeSlot(slots: seq<Slot>, pid: nat)
    ensures var news := pid != 0 && forall j | 0 <= j < |slots| :: slots[j].pid != pid;
            && (forall i: nat | IsFirstFree(slots, i) ::
                  Registered(slots, pid) == if news then slots[i := Slot(pid, 0)] else slots)
            && ((forall i | 0 <= i < |slots| :: slots[i].pid != 0) ==> Registered(slots, pid) == slots)
  {
    forall i: nat | IsFirstFree(slots, i)
      ensures FirstWith(slots, 0) == i
    {
      FirstIs(slots, 0, i);
    }
  }

  /** Registering twice is registering once, and only a free slot or none is touched. */
  lemma RegisterIsIdempotentAndLocal(slots: seq<Slot>, pid: nat)
    ensures Registered(Registered(slots, pid), pid) == Registered(slots, pid)
    ensures |Registered(slots, pid)| == |slots|
    ensures forall i | 0 <= i < |slots| && slots[i].pid != 0 :: Registered(slots, pid)[i] == slots[i]
    ensures pid != 0 && FirstWith(slots, pid) == |slots| && FirstWith(slots, 0) == |slots| ==>
              Registered(slots, pid) == slots
  {
    var free := FirstWith(slots, 0);
    if pid != 0 && FirstWith(slots, pid) == |slots| && free < |slots| {
      FirstIs(Registered(slots, pid), pid, free);
    }
  }

  /** Reaping removes exactly the dead pids and leaves the living in their slots. */
  lemma ReapRemovesExactlyTheDead(slots: seq<Slot>, living: set<nat>)
    ensures Pids(Reaped(slots, living)) == Pids(slots) * living
    ensures Distinct(slots) ==> Distinct(Reaped(slots, living))
    ensures forall i | 0 <= i < |slots| && slots[i].pid in living :: Reaped(slots, living)[i] == slots[i]
  {
    var r := Reaped(slots, living);
    forall p | p in Pids(slots) * living
      ensures p in Pids(r)
    {
      var i :| 0 <= i < |slots| && slots[i].pid != 0 && slots[i].pid == p;
      assert r[i].pid == p;
    }
  }

  // ---- Runs -------------------------------------------------------------------------

  datatype TableOp = Register(pid: nat) | Reap(living: set<nat>)

  function Apply(slots: seq<Slot>, op: TableOp): seq<Slot> {
    match op
    case Register(pid) => Registered(slots, pid)
    case Reap(living) => Reaped(slots, living)
  }

  function ApplySet(pids: set<nat>, op: TableOp): set<nat> {
    match op
    case Register(pid) => if pid in pids then pids else SetRegistered(pids, pid, SLOT_COUNT)
    case Reap(living) => pids * living
  }

  ghost function RunTable(slots: seq<Slot>, ops: seq<TableOp>): seq<Slot> {
    if ops == [] then slots else Apply(RunTable(slots, ops[..|ops| - 1]), ops[|ops| - 1])
  }

  ghost function RunSet(pids: set<nat>, ops: seq<TableOp>): set<nat> {
    if ops == [] then pids else ApplySet(RunSet(pids, ops[..|ops| - 1]), ops[|ops| - 1])
  }

  function EmptyTable(): (slots: seq<Slot>)
    ensures |slots| == SLOT_COUNT && forall i | 0 <= i < SLOT_COUNT :: slots[i] == FREE
  {
    seq(SLOT_COUNT, _ => FREE)
  }

  /** In every run from the empty table the slots hold pairwise distinct pids and behave as a set
      of at most 64 of them. */
  lemma {:induction false} TableRefinesBoundedSet(ops: seq<TableOp>)
    ensures var slots := RunTable(EmptyTable(), ops);
            |slots| == SLOT_COUNT && Distinct(slots) && Pids(slots) == RunSet({}, ops) && |Pids(slots)| <= SLOT_COUNT
  {
    if ops == [] {
      assert Pids(EmptyTable()) == {};
    } else {
      var last := |ops| - 1;
      TableRefinesBoundedSet(ops[..last]);
      var slots := RunTable(EmptyTable(), ops[..last]);
      match ops[last] {
        case Register(pid) =>
          RegisterRefinesInsert(slots, pid);
          RegisterIsIdempotentAndLocal(slots, pid);
        case Reap(living) =>
          ReapRemovesExactlyTheDead(slots, living);
      }
      FullExactlyWhenAllUsed(RunTable(EmptyTable(), ops));
    }
  }
}
