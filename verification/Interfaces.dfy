/** interfaces.c: the table of interfaces by id, and the allocator of fresh ids. */
module Interfaces {
  import opened Bytes

  const SVC_INF_ID := 0
  const AP_INF_ID := 1
  const INTF_START_ID := 2

  /** struct gb_interface is handed around by address; `handle` stands for that address. */
  datatype Interface = Interface(id: nat, handle: nat, hasCreate: bool, hasDestroy: bool)

  datatype Errno = EOVERFLOW | EALREADY | EBUSY | EINVAL | ECALLBACK

  /** The table as a value: what every operation keeps. */
  predicate Indexed(table: seq<Option<Interface>>) {
    forall i :: 0 <= i < |table| && table[i].Some? ==> table[i].value.id == i
  }

  /** Every slot that may be handed out, below `n`, is taken. */
  predicate FullBelow(table: seq<Option<Interface>>, n: nat)
    requires n <= |table|
  {
    forall i :: INTF_START_ID <= i < n ==> table[i].Some?
  }

  class Registry {
    const intfs: array<Option<Interface>>

    ghost predicate Valid()
      reads this, intfs
    {
      Indexed(intfs[..])
    }

    constructor (maxNodes: nat)
      ensures Valid() && fresh(intfs) && intfs.Length == maxNodes
      ensures forall i :: 0 <= i < maxNodes ==> intfs[i] == None
    {
      intfs := new Option<Interface>[maxNodes](_ => None);
    }

    /** new_interface_id. */
    method NewInterfaceId(lockFree: bool) returns (id: Option<nat>, error: Errno)
      ensures id.Some? ==> INTF_START_ID <= id.value < intfs.Length
      ensures id.Some? ==> intfs[id.value] == None && FullBelow(intfs[..], id.value)
      ensures id.None? <==> !lockFree || FullBelow(intfs[..], intfs.Length)
      ensures id.None? ==> error == if lockFree then EOVERFLOW else EBUSY
    {
      if !lockFree {
        return None, EBUSY;
      }
      var i := INTF_START_ID;
      while i < intfs.Length
        invariant i >= INTF_START_ID
        invariant forall j :: INTF_START_ID <= j < i && j < intfs.Length ==> intfs[j].Some?
      {
        if intfs[i].None? {
          return Some(i), EOVERFLOW;
        }
        i := i + 1;
      }
      return None, EOVERFLOW;
    }

    /** gb_interface_add. */
    method Add(intf: Interface, lockFree: bool) returns (error: Option<Errno>)
      requires Valid() && intf.id < intfs.Length
      modifies intfs
      ensures Valid()
      ensures error == if !lockFree then Some(EBUSY) else if old(intfs[intf.id]).Some? then Some(EALREADY) else None
      ensures intfs[..] == if error.None? then old(intfs[..])[intf.id := Some(intf)] else old(intfs[..])
      ensures intfs[..] == if lockFree then Apply(old(intfs[..]), AddOp(intf)) else old(intfs[..])
    {
      if !lockFree {
        return Some(EBUSY);
      }
      if intfs[intf.id].Some? {
        return Some(EALREADY);
      }
      intfs[intf.id] := Some(intf);
      return None;
    }

    /** gb_interface_remove. */
    method Remove(id: nat)
      requires Valid() && id < intfs.Length
      modifies intfs
      ensures Valid() && intfs[..] == old(intfs[..])[id := None] == Apply(old(intfs[..]), RemoveOp(id))
    {
      intfs[id] := None;
    }

    /** gb_interface_get. */
    function Get(id: nat): Option<Interface>
      requires id < intfs.Length
      reads intfs
    {
      intfs[id]
    }

    /**
     gb_interface_alloc. The mutex is recursive, so the two inner lock attempts succeed. The id is eight bits
     wide, and the result of the inner add is ignored.
     */
    method Alloc(lockFree: bool, heapOk: bool, handle: nat, hasCreate: bool, hasDestroy: bool)
      returns (intf: Option<Interface>)
      requires Valid()
      modifies intfs
      ensures Valid()
      ensures intf.None? <==> !lockFree || !heapOk || FullBelow(old(intfs[..]), intfs.Length)
      ensures intf.Some? ==> Allocated(old(intfs[..]), intf.value)
      ensures intf.Some? ==>
                && intf.value == Interface(intf.value.id, handle, hasCreate, hasDestroy)
                && intfs[..] == Apply(old(intfs[..]), AllocOp(handle, hasCreate, hasDestroy))
      ensures intf.None? ==> intfs[..] == old(intfs[..])
    {
      if !lockFree {
        return None;
      }
      var id, error := NewInterfaceId(true);
      if id.None? {
        return None;
      }
      if !heapOk {
        return None;
      }
      ghost var was := intfs[..];
      var made := Interface(id.value % 256, handle, hasCreate, hasDestroy);
      var ignored := Add(made, true);
      LeastFreeIs(was, id.value);
      return Some(made);
    }

    /** gb_interface_dealloc. */
    method Dealloc(intf: Interface)
      requires Valid() && intf.id < intfs.Length
      modifies intfs
      ensures Valid() && intfs[..] == old(intfs[..])[intf.id := None] == Apply(old(intfs[..]), RemoveOp(intf.id))
    {
      Remove(intf.id);
    }
  }

  /** The least free id from INTF_START_ID on, or the table size when there is none. */
  function LeastFree(table: seq<Option<Interface>>, from: nat): (i: nat)
    requires from <= |table|
    ensures from <= i <= |table|
    ensures i < |table| ==> table[i] == None
    ensures forall j :: from <= j < i ==> table[j].Some?
    decreases |table| - from
  {
    if from == |table| || table[from].None? then from else LeastFree(table, from + 1)
  }

  lemma LeastFreeIs(table: seq<Option<Interface>>, i: nat)
    requires INTF_START_ID <= i < |table| && table[i] == None && FullBelow(table, i)
    ensures LeastFree(table, INTF_START_ID) == i
  {
  }

  // ----- Any sequence of operations -----

  datatype Op = AddOp(intf: Interface) | RemoveOp(id: nat) | AllocOp(handle: nat, hasCreate: bool, hasDestroy: bool)

  /** One unhindered operation, with ids in range as the source requires. */
  function Apply(table: seq<Option<Interface>>, op: Op): (t: seq<Option<Interface>>)
    ensures |t| == |table|
  {
    match op
    case AddOp(intf) =>
      if intf.id < |table| && table[intf.id].None? then table[intf.id := Some(intf)] else table
    case RemoveOp(id) => if id < |table| then table[id := None] else table
    case AllocOp(handle, hasCreate, hasDestroy) =>
      if |table| < INTF_START_ID then table
      else
        var i := LeastFree(table, INTF_START_ID);
        if i == |table| || table[i % 256].Some? then table
        else table[i % 256 := Some(Interface(i % 256, handle, hasCreate, hasDestroy))]
  }

  /** The interface a successful allocation returns: its id is the least free one from 2 up, cut to eight bits. */
  predicate Allocated(before: seq<Option<Interface>>, intf: Interface) {
    && INTF_START_ID <= |before|
    && var i := LeastFree(before, INTF_START_ID);
    && i < |before| && intf.id == i % 256
  }

  /**
   Whether an allocated interface can be found under its id: exactly when the least free id fits eight bits, or
   what is left of it is the free slot 0 or 1. Otherwise the caller holds an interface that is in no slot.
   */
  lemma AllocatedIsFound(before: seq<Option<Interface>>, intf: Interface)
    requires Allocated(before, intf) && Some(intf) !in before
    ensures var i := LeastFree(before, INTF_START_ID);
            var after := Apply(before, AllocOp(intf.handle, intf.hasCreate, intf.hasDestroy));
            && (after[intf.id] == Some(intf) <==> i < 256 || (i % 256 < INTF_START_ID && before[i % 256].None?))
            && (Some(intf) in after <==> after[intf.id] == Some(intf))
            && (i < 256 ==> after == before[i := Some(intf)])
  {
    var i := LeastFree(before, INTF_START_ID);
    if i >= 256 && i % 256 >= INTF_START_ID {
      assert before[i % 256].Some?;
    }
  }

  function Run(table: seq<Option<Interface>>, ops: seq<Op>): (t: seq<Option<Interface>>)
    ensures |t| == |table|
    decreases |ops|
  {
    if ops == [] then table else Run(Apply(table, ops[0]), ops[1..])
  }

  /** Over every sequence of operations, slot i is empty or holds the interface whose id is i. */
  lemma {:induction false} AlwaysIndexed(table: seq<Option<Interface>>, ops: seq<Op>)
    requires Indexed(table)
    ensures Indexed(Run(table, ops))
    decreases |ops|
  {
    hide LeastFree;
    if ops != [] {
      assert Indexed(Apply(table, ops[0]));
      AlwaysIndexed(Apply(table, ops[0]), ops[1..]);
    }
  }

  function Allocs(n: nat): (ops: seq<Op>)
    ensures |ops| == n
  {
    seq(n, i requires 0 <= i < n => AllocOp(i, false, false))
  }

  /** Allocating from a table empty from 2 up hands out 2, 3, 4 and so on, as far as eight bits go. */
  lemma {:induction false} AllocationsFill(table: seq<Option<Interface>>, n: nat)
    requires INTF_START_ID + n <= |table| && INTF_START_ID + n <= 256
    requires forall i :: INTF_START_ID <= i < |table| ==> table[i].None?
    ensures var t := Run(table, Allocs(n));
            && (forall i :: INTF_START_ID <= i < INTF_START_ID + n ==>
                  t[i] == Some(Interface(i, i - INTF_START_ID, false, false)))
            && (forall i :: 0 <= i < INTF_START_ID ==> t[i] == table[i])
            && (forall i :: INTF_START_ID + n <= i < |t| ==> t[i].None?)
            && LeastFree(t, INTF_START_ID) == INTF_START_ID + n
    decreases n
  {
    if n == 0 {
      LeastFreeAt(table, INTF_START_ID);
    } else {
      var t := Run(table, Allocs(n - 1));
      AllocationsFill(table, n - 1);
      assert Allocs(n) == Allocs(n - 1) + [AllocOp(n - 1, false, false)];
      RunLast(table, Allocs(n - 1), AllocOp(n - 1, false, false));
      hide Run;
      LeastFreeAt(Apply(t, AllocOp(n - 1, false, false)), INTF_START_ID + n);
    }
  }

  lemma LeastFreeAt(table: seq<Option<Interface>>, i: nat)
    requires INTF_START_ID <= i <= |table| && (i < |table| ==> table[i].None?)
    requires forall j :: INTF_START_ID <= j < i ==> table[j].Some?
    ensures LeastFree(table, INTF_START_ID) == i
  {
  }

  lemma {:induction false} RunLast(table: seq<Option<Interface>>, ops: seq<Op>, op: Op)
    ensures Run(table, ops + [op]) == Apply(Run(table, ops), op)
    decreases |ops|
  {
    hide Apply;
    if ops == [] {
      assert [op][1..] == [];
      assert ops + [op] == [op];
      assert Run(table, [op]) == Run(Apply(table, op), []);
    } else {
      RunLast(Apply(table, ops[0]), ops[1..], op);
      assert (ops + [op])[1..] == ops[1..] + [op];
    }
  }

  function Empty(size: nat): (t: seq<Option<Interface>>)
    ensures |t| == size
  {
    seq(size, i => None)
  }

  /**
   With more than 256 slots this happens: once SVC, AP and 254 nodes are registered, the next allocation hands
   out an interface with the id of the SVC that is in no slot, and so does every later one.
   */
  lemma AllocationLost(size: nat, svc: Interface, ap: Interface, n: nat)
    requires size > 256 && svc.id == 0 && ap.id == 1
    ensures var t := Run(Empty(size), [AddOp(svc), AddOp(ap)] + Allocs(254));
            && LeastFree(t, INTF_START_ID) == 256
            && (forall i :: 0 <= i < 256 ==> t[i].Some?)
            && (forall i :: 256 <= i < size ==> t[i].None?)
            && Apply(t, AllocOp(n, false, false)) == t
  {
    var t2 := Empty(size)[0 := Some(svc)][1 := Some(ap)];
    RunTwo(Empty(size), svc, ap, Allocs(254));
    AllocationsFill(t2, 254);
    hide Run, Allocs, LeastFree, Empty;
  }

  lemma RunTwo(table: seq<Option<Interface>>, svc: Interface, ap: Interface, ops: seq<Op>)
    requires |table| > 1 && table[0].None? && table[1].None? && svc.id == 0 && ap.id == 1
    ensures Run(table, [AddOp(svc), AddOp(ap)] + ops) == Run(table[0 := Some(svc)][1 := Some(ap)], ops)
  {
    var all := [AddOp(svc), AddOp(ap)] + ops;
    assert all[1..][1..] == ops;
    var t := Apply(table, AddOp(svc));
    assert Apply(t, AddOp(ap)) == table[0 := Some(svc)][1 := Some(ap)];
    hide Apply;
    assert Run(table, all) == Run(t, all[1..]);
    assert Run(t, all[1..]) == Run(Apply(t, AddOp(ap)), ops);
  }
}
