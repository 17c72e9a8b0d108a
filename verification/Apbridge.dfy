/** apbridge.c: the forward table from AP cports to node endpoints, and its reverse by linear search. */
module Apbridge {
  import opened Bytes
  import opened Interfaces

  /** struct node_ap_item. */
  datatype Item = Item(intf: Option<Interface>, cport: nat)

  const EMPTY := Item(None, 0)

  /** One cport of one interface. */
  datatype Endpoint = Endpoint(id: nat, cport: nat)

  /** Where a message from an AP cport goes. */
  function Forward(items: seq<Item>, ap: nat): Option<Endpoint> {
    if ap < |items| && items[ap].intf.Some? then Some(Endpoint(items[ap].intf.value.id, items[ap].cport)) else None
  }

  ghost predicate IsReverse(items: seq<Item>, e: Endpoint, r: Option<nat>) {
    && (r.Some? ==> Forward(items, r.value) == Some(e))
    && (r.Some? ==> forall a: nat :: a < r.value ==> Forward(items, a) != Some(e))
    && (r.None? ==> forall a: nat :: Forward(items, a) != Some(e))
  }

  /** Where a message from an endpoint goes: the least AP cport bound to it. */
  function Reverse(items: seq<Item>, e: Endpoint): (r: Option<nat>)
    ensures IsReverse(items, e, r)
    decreases |items|
  {
    if items == [] then None
    else
      var k := |items| - 1;
      var r := Reverse(items[..k], e);
      assert forall a: nat :: a < k ==> Forward(items[..k], a) == Forward(items, a);
      if r.Some? then r
      else if Forward(items, k) == Some(e) then Some(k) else None
  }

  /** The connection callbacks of node interfaces, as they were invoked. */
  datatype Call = CreateConnection(handle: nat, cport: nat) | DestroyConnection(handle: nat, cport: nat)

  /** The AP and the node side of a connection request; none when neither side is the AP. */
  function Sides(id1: nat, cport1: nat, id2: nat, cport2: nat): Option<(nat, Endpoint)> {
    if id1 == AP_INF_ID then Some((cport1, Endpoint(id2, cport2)))
    else if id2 == AP_INF_ID then Some((cport2, Endpoint(id1, cport1)))
    else None
  }

  class Bridge {
    const nodeApMap: array<Item>
    const registry: Registry
    var calls: seq<Call>
    /** Interface handle and target cport of every write. */
    var written: seq<(nat, nat)>

    ghost predicate Valid()
      reads this, registry, registry.intfs
    {
      registry.Valid() && nodeApMap.Length == registry.intfs.Length
    }

    constructor (registry: Registry)
      requires registry.Valid()
      ensures Valid() && fresh(nodeApMap) && this.registry == registry && calls == [] && written == []
      ensures forall i :: 0 <= i < nodeApMap.Length ==> nodeApMap[i] == EMPTY
    {
      nodeApMap := new Item[registry.intfs.Length](_ => EMPTY);
      this.registry := registry;
      calls, written := [], [];
    }

    /** node_ap_add. */
    method NodeApAdd(ap: nat, cport: nat, intf: Interface) returns (error: Option<Errno>)
      modifies nodeApMap
      ensures error == if ap >= nodeApMap.Length then Some(EOVERFLOW)
                       else if old(nodeApMap[ap]).intf.Some? then Some(EALREADY) else None
      ensures nodeApMap[..] == if error.None? then old(nodeApMap[..])[ap := Item(Some(intf), cport)]
                               else old(nodeApMap[..])
    {
      if ap >= nodeApMap.Length {
        return Some(EOVERFLOW);
      }
      if nodeApMap[ap].intf.Some? {
        return Some(EALREADY);
      }
      nodeApMap[ap] := Item(Some(intf), cport);
      return None;
    }

    /** node_ap_remove. */
    method NodeApRemove(ap: nat) returns (error: Option<Errno>)
      modifies nodeApMap
      ensures error == if ap >= nodeApMap.Length then Some(EOVERFLOW) else None
      ensures nodeApMap[..] == if ap < nodeApMap.Length then old(nodeApMap[..])[ap := EMPTY] else old(nodeApMap[..])
    {
      if ap >= nodeApMap.Length {
        return Some(EOVERFLOW);
      }
      nodeApMap[ap] := EMPTY;
      return None;
    }

    /** node_to_ap_cport. */
    method NodeToApCport(e: Endpoint) returns (ap: Option<nat>)
      ensures ap == Reverse(nodeApMap[..], e)
    {
      var i := 0;
      while i < nodeApMap.Length
        invariant 0 <= i <= nodeApMap.Length
        invariant forall a: nat :: a < i ==> Forward(nodeApMap[..], a) != Some(e)
      {
        var item := nodeApMap[i];
        if item.intf.Some? && item.intf.value.id == e.id && item.cport == e.cport {
          ReverseUnique(nodeApMap[..], e, Some(i));
          return Some(i);
        }
        i := i + 1;
      }
      ReverseUnique(nodeApMap[..], e, None);
      return None;
    }

    /** gb_apbridge_deinit. */
    method Deinit()
      modifies nodeApMap
      ensures forall i :: 0 <= i < nodeApMap.Length ==> nodeApMap[i] == EMPTY
    {
      for i := 0 to nodeApMap.Length
        invariant forall j :: 0 <= j < i ==> nodeApMap[j] == EMPTY
      {
        nodeApMap[i] := EMPTY;
      }
    }

    /**
     gb_apbridge_connection_create. The node's own callback runs before the slot is claimed, so a full or
     out-of-range slot fails after the node has already been told.
     */
    method ConnectionCreate(id1: nat, cport1: nat, id2: nat, cport2: nat, callbackOk: bool)
      returns (error: Option<Errno>)
      requires Valid() && id1 < registry.intfs.Length && id2 < registry.intfs.Length
      modifies this`calls, nodeApMap
      ensures Valid()
      ensures var sides := Sides(id1, cport1, id2, cport2);
              var (items, log, err) := Created(old(nodeApMap[..]), registry.intfs[..], sides, callbackOk);
              nodeApMap[..] == items && calls == old(calls) + log && error == err
    {
      var node: Endpoint;
      var ap: nat;
      if id1 == AP_INF_ID {
        node, ap := Endpoint(id2, cport2), cport1;
      } else if id2 == AP_INF_ID {
        node, ap := Endpoint(id1, cport1), cport2;
      } else {
        return Some(EINVAL);
      }
      var intf := registry.Get(node.id);
      if intf.None? {
        return Some(EINVAL);
      }
      if intf.value.hasCreate {
        calls := calls + [CreateConnection(intf.value.handle, node.cport)];
        if !callbackOk {
          return Some(ECALLBACK);
        }
      }
      error := NodeApAdd(ap, node.cport, intf.value);
    }

    /** gb_apbridge_connection_destroy: the AP slot is cleared whatever it was bound to. */
    method ConnectionDestroy(id1: nat, cport1: nat, id2: nat, cport2: nat) returns (error: Option<Errno>)
      requires Valid() && id1 < registry.intfs.Length && id2 < registry.intfs.Length
      modifies this`calls, nodeApMap
      ensures Valid()
      ensures var sides := Sides(id1, cport1, id2, cport2);
              var (items, log, err) := Destroyed(old(nodeApMap[..]), registry.intfs[..], sides);
              nodeApMap[..] == items && calls == old(calls) + log && error == err
    {
      var node: Endpoint;
      var ap: nat;
      if id1 == AP_INF_ID {
        node, ap := Endpoint(id2, cport2), cport1;
      } else if id2 == AP_INF_ID {
        node, ap := Endpoint(id1, cport1), cport2;
      } else {
        return Some(EINVAL);
      }
      var intf := registry.Get(node.id);
      if intf.Some? && intf.value.hasDestroy {
        calls := calls + [DestroyConnection(intf.value.handle, node.cport)];
      }
      var ignored := NodeApRemove(ap);
      return None;
    }

    /**
     gb_apbridge_send. From the AP side the source indexes the table and follows the pointer unchecked, and from
     a node it follows the AP's; that these are there is asked of the caller. What the interface's own write
     function returns is an input.
     */
    method Send(id: nat, cport: nat, writeResult: Option<Errno>) returns (error: Option<Errno>)
      requires Valid() && AP_INF_ID < registry.intfs.Length
      requires id == AP_INF_ID ==> Forward(nodeApMap[..], cport).Some?
      requires id != AP_INF_ID ==> registry.intfs[AP_INF_ID].Some?
      modifies this`written
      ensures id == AP_INF_ID ==>
                && error == writeResult
                && written == old(written) + [(nodeApMap[cport].intf.value.handle, nodeApMap[cport].cport)]
      ensures id != AP_INF_ID ==>
                var r := Reverse(nodeApMap[..], Endpoint(id, cport));
                && (r.None? ==> error == Some(EINVAL) && written == old(written))
                && (r.Some? ==> error == writeResult)
                && (r.Some? ==> written == old(written) + [(registry.intfs[AP_INF_ID].value.handle, r.value)])
    {
      if id == AP_INF_ID {
        written := written + [(nodeApMap[cport].intf.value.handle, nodeApMap[cport].cport)];
      } else {
        var ap := NodeToApCport(Endpoint(id, cport));
        if ap.None? {
          return Some(EINVAL);
        }
        written := written + [(registry.Get(AP_INF_ID).value.handle, ap.value)];
      }
      return writeResult;
    }
  }

  function Bind(items: seq<Item>, ap: nat, item: Item): seq<Item> {
    if ap < |items| then items[ap := item] else items
  }

  /** The table, the callbacks invoked, and the result of a create request. */
  function Created(items: seq<Item>, table: seq<Option<Interface>>, sides: Option<(nat, Endpoint)>, callbackOk: bool)
    : (seq<Item>, seq<Call>, Option<Errno>)
  {
    if sides.None? then (items, [], Some(EINVAL))
    else
      var (ap, node) := sides.value;
      if node.id >= |table| || table[node.id].None? then (items, [], Some(EINVAL))
      else
        var intf := table[node.id].value;
        var log := if intf.hasCreate then [CreateConnection(intf.handle, node.cport)] else [];
        if intf.hasCreate && !callbackOk then (items, log, Some(ECALLBACK))
        else if ap >= |items| then (items, log, Some(EOVERFLOW))
        else if items[ap].intf.Some? then (items, log, Some(EALREADY))
        else (Bind(items, ap, Item(Some(intf), node.cport)), log, None)
  }

  function Destroyed(items: seq<Item>, table: seq<Option<Interface>>, sides: Option<(nat, Endpoint)>)
    : (seq<Item>, seq<Call>, Option<Errno>)
  {
    if sides.None? then (items, [], Some(EINVAL))
    else
      var (ap, node) := sides.value;
      var intf := if node.id < |table| then table[node.id] else None;
      var log := if intf.Some? && intf.value.hasDestroy then [DestroyConnection(intf.value.handle, node.cport)] else [];
      (Bind(items, ap, EMPTY), log, None)
  }

  // ----- Forward and reverse -----

  lemma ReverseUnique(items: seq<Item>, e: Endpoint, r: Option<nat>)
    requires IsReverse(items, e, r)
    ensures r == Reverse(items, e)
  {
    var q := Reverse(items, e);
    if q.Some? && r.Some? {
      assert !(q.value < r.value) && !(r.value < q.value);
    }
  }

  /** A successful reverse lookup leads back to its endpoint. */
  lemma ForwardOfReverse(items: seq<Item>, e: Endpoint)
    ensures Reverse(items, e).Some? ==> Forward(items, Reverse(items, e).value) == Some(e)
    ensures Reverse(items, e).None? <==> forall a: nat :: Forward(items, a) != Some(e)
  {
    hide Reverse;
    if Reverse(items, e).Some? {
      assert Forward(items, Reverse(items, e).value) == Some(e);
    }
  }

  /**
   A reply to what AP cport `ap` reaches comes back to the least AP cport with that route, which is `ap` exactly
   when no lower one shares it.
   */
  lemma ReverseOfForward(items: seq<Item>, ap: nat)
    requires Forward(items, ap).Some?
    ensures var r := Reverse(items, Forward(items, ap).value);
            && r.Some? && r.value <= ap
            && (r.value == ap <==> forall a: nat :: a < ap ==> Forward(items, a) != Forward(items, ap))
  {
    hide Reverse;
  }

  /** No endpoint is bound to two AP cports. */
  ghost predicate BoundOnce(items: seq<Item>) {
    forall a: nat, b: nat :: Forward(items, a).Some? && Forward(items, a) == Forward(items, b) ==> a == b
  }

  lemma ReplyReturns(items: seq<Item>, ap: nat)
    requires BoundOnce(items) && Forward(items, ap).Some?
    ensures Reverse(items, Forward(items, ap).value) == Some(ap)
  {
    ReverseOfForward(items, ap);
    hide Reverse;
  }

  // ----- Isolation -----

  /** Rebinding one slot leaves every other forward route, and every reverse route not involved, as it was. */
  lemma BindIsolated(items: seq<Item>, ap: nat, item: Item)
    ensures var now := Bind(items, ap, item);
            && |now| == |items|
            && (forall a: nat :: a != ap ==> Forward(now, a) == Forward(items, a))
            && (forall e :: Some(e) != Forward(items, ap) && Some(e) != Forward(now, ap) ==>
                  Reverse(now, e) == Reverse(items, e))
  {
    hide Reverse;
    var now := Bind(items, ap, item);
    forall e | Some(e) != Forward(items, ap) && Some(e) != Forward(now, ap)
      ensures Reverse(now, e) == Reverse(items, e)
    {
      var r := Reverse(items, e);
      assert forall a: nat :: Forward(now, a) == Some(e) <==> Forward(items, a) == Some(e);
      assert IsReverse(items, e, r);
      hide Bind, Forward;
      ReverseUnique(now, e, r);
    }
  }

  datatype Op =
    | CreateOp(ap: nat, node: Endpoint, callbackOk: bool)
    | DestroyOp(ap: nat, node: Endpoint)
    | DeinitOp

  function Cleared(items: seq<Item>): (c: seq<Item>)
    ensures |c| == |items|
  {
    seq(|items|, i => EMPTY)
  }

  /** One operation, the registry being what it is at that moment. */
  function Apply(items: seq<Item>, table: seq<Option<Interface>>, op: Op): (r: seq<Item>)
    ensures |r| == |items|
  {
    match op
    case CreateOp(ap, node, ok) => Created(items, table, Some((ap, node)), ok).0
    case DestroyOp(ap, node) => Destroyed(items, table, Some((ap, node))).0
    case DeinitOp => Cleared(items)
  }

  predicate Touches(op: Op, ap: nat) {
    op.DeinitOp? || op.ap == ap
  }

  function Run(items: seq<Item>, ops: seq<(Op, seq<Option<Interface>>)>): (r: seq<Item>)
    ensures |r| == |items|
    decreases |ops|
  {
    if ops == [] then items else Run(Apply(items, ops[0].1, ops[0].0), ops[1..])
  }

  /** The operations that concern one AP cport. */
  function Only(ops: seq<(Op, seq<Option<Interface>>)>, ap: nat): seq<(Op, seq<Option<Interface>>)>
    decreases |ops|
  {
    if ops == [] then []
    else if Touches(ops[0].0, ap) then [ops[0]] + Only(ops[1..], ap) else Only(ops[1..], ap)
  }

  lemma ApplyLocal(x: seq<Item>, y: seq<Item>, table: seq<Option<Interface>>, op: Op, ap: nat)
    requires |x| == |y| && ap < |x| && x[ap] == y[ap]
    ensures Touches(op, ap) ==> Apply(x, table, op)[ap] == Apply(y, table, op)[ap]
    ensures !Touches(op, ap) ==> Apply(x, table, op)[ap] == x[ap]
  {
  }

  /** Over every sequence of operations, the slot of one AP cport is what the operations on that cport alone make it. */
  lemma {:induction false} SlotsIndependent(
      x: seq<Item>, y: seq<Item>, ops: seq<(Op, seq<Option<Interface>>)>, ap: nat)
    requires |x| == |y| && ap < |x| && x[ap] == y[ap]
    ensures Run(x, ops)[ap] == Run(y, Only(ops, ap))[ap]
    decreases |ops|
  {
    hide Apply, Touches;
    if ops != [] {
      var (op, table) := ops[0];
      ApplyLocal(x, y, table, op, ap);
      if Touches(op, ap) {
        var rest := Only(ops[1..], ap);
        assert ([ops[0]] + rest)[1..] == rest;
        SlotsIndependent(Apply(x, table, op), Apply(y, table, op), ops[1..], ap);
      } else {
        SlotsIndependent(Apply(x, table, op), y, ops[1..], ap);
      }
    }
  }

  /** Every create in the sequence asks for an endpoint that is not bound at that moment. */
  ghost predicate FreshCreates(items: seq<Item>, ops: seq<(Op, seq<Option<Interface>>)>)
    decreases |ops|
  {
    ops != [] ==>
      && Indexed(ops[0].1)
      && (ops[0].0.CreateOp? ==> Reverse(items, ops[0].0.node).None?)
      && FreshCreates(Apply(items, ops[0].1, ops[0].0), ops[1..])
  }

  lemma ApplyBoundOnce(items: seq<Item>, table: seq<Option<Interface>>, op: Op)
    requires BoundOnce(items) && Indexed(table)
    requires op.CreateOp? ==> Reverse(items, op.node).None?
    ensures BoundOnce(Apply(items, table, op))
  {
    hide Reverse;
    var now := Apply(items, table, op);
    match op
    case DeinitOp => assert forall a: nat :: Forward(now, a).None?;
    case CreateOp(ap, node, ok) =>
      ForwardOfReverse(items, node);
      if now != items {
        BindIsolated(items, ap, now[ap]);
        assert Forward(now, ap) == Some(node);
      }
    case DestroyOp(ap, node) =>
      BindIsolated(items, ap, EMPTY);
      assert Forward(now, ap).None?;
  }

  /**
   So if no endpoint is ever created twice at once, every reply over every run goes back where the request came
   from.
   */
  lemma {:induction false} RepliesReturn(items: seq<Item>, ops: seq<(Op, seq<Option<Interface>>)>, ap: nat)
    requires BoundOnce(items) && FreshCreates(items, ops)
    ensures var now := Run(items, ops);
            Forward(now, ap).Some? ==> Reverse(now, Forward(now, ap).value) == Some(ap)
    decreases |ops|
  {
    hide BoundOnce, Apply, Reverse, Indexed;
    if ops == [] {
      if Forward(items, ap).Some? {
        ReplyReturns(items, ap);
      }
    } else {
      ApplyBoundOnce(items, ops[0].1, ops[0].0);
      RepliesReturn(Apply(items, ops[0].1, ops[0].0), ops[1..], ap);
    }
  }

  // ----- When a create succeeds, and what a failed one leaves behind -----

  /**
   A connection is created exactly when a side is the AP, the other side's interface is registered and agrees to
   it if it is asked, and the AP slot is in range and free. That the other side is not the AP as well is no part
   of it.
   */
  lemma CreatedIff(
      items: seq<Item>, table: seq<Option<Interface>>, id1: nat, cport1: nat, id2: nat, cport2: nat, ok: bool)
    ensures var (now, log, error) := Created(items, table, Sides(id1, cport1, id2, cport2), ok);
            && var node := if id1 == 1 then Endpoint(id2, cport2) else Endpoint(id1, cport1);
            && var ap := if id1 == 1 then cport1 else cport2;
            && (error.None? <==>
                  && (id1 == 1 || id2 == 1)
                  && node.id < |table| && table[node.id].Some?
                  && (table[node.id].value.hasCreate ==> ok)
                  && ap < |items| && items[ap].intf.None?)
            && (error.Some? ==> now == items)
            && (log == if (id1 == 1 || id2 == 1) && node.id < |table| && table[node.id].Some?
                          && table[node.id].value.hasCreate
                       then [CreateConnection(table[node.id].value.handle, node.cport)] else [])
            && (error.Some? ==>
                  error.value
                  == if !(id1 == 1 || id2 == 1) || node.id >= |table| || table[node.id].None? then EINVAL
                     else if table[node.id].value.hasCreate && !ok then ECALLBACK
                     else if ap >= |items| then EOVERFLOW else EALREADY)
            && (error.None? && Indexed(table) ==>
                  Forward(now, ap) == Some(node) && forall a: nat :: a != ap ==> Forward(now, a) == Forward(items, a))
  {
  }

  /**
   Two AP cports can be connected, although the header calls that unsupported. The first cport gets the route;
   messages from the second go wherever it was bound before.
   */
  lemma ApToApAccepted(items: seq<Item>, table: seq<Option<Interface>>, x: nat, y: nat, ok: bool)
    requires AP_INF_ID < |table| && table[AP_INF_ID].Some? && table[AP_INF_ID].value.id == AP_INF_ID
    requires x < |items| && items[x].intf.None? && (table[AP_INF_ID].value.hasCreate ==> ok)
    ensures var (now, log, error) := Created(items, table, Sides(AP_INF_ID, x, AP_INF_ID, y), ok);
            && error == None && Forward(now, x) == Some(Endpoint(AP_INF_ID, y))
            && (y != x ==> Forward(now, y) == Forward(items, y))
  {
  }

  /** A node is told of a connection that then does not exist exactly when the AP slot is taken or out of range. */
  lemma CreateToldInVainIff(items: seq<Item>, table: seq<Option<Interface>>, ap: nat, node: Endpoint)
    requires node.id < |table| && table[node.id].Some? && table[node.id].value.hasCreate
    ensures var (now, log, error) := Created(items, table, Some((ap, node)), true);
            && log == [CreateConnection(table[node.id].value.handle, node.cport)]
            && (now == items && error.Some? <==> ap >= |items| || items[ap].intf.Some?)
            && (error.None? ==> Forward(now, ap) == Some(Endpoint(table[node.id].value.id, node.cport)))
  {
  }

  /**
   What a destroy request does, over the raw ids: it succeeds exactly when a side is the AP; the node is then told,
   once, with its handle and its own cport, exactly when its interface is registered with a callback; and the AP
   slot has no route afterwards, whatever it was bound to, while every other route stays.
   */
  lemma DestroyedIff(
      items: seq<Item>, table: seq<Option<Interface>>, id1: nat, cport1: nat, id2: nat, cport2: nat)
    ensures var (now, log, error) := Destroyed(items, table, Sides(id1, cport1, id2, cport2));
            && var id := if id1 == 1 then id2 else id1;
            && var cport := if id1 == 1 then cport2 else cport1;
            && var ap := if id1 == 1 then cport1 else cport2;
            && var reached := id1 == 1 || id2 == 1;
            && (error.None? <==> reached)
            && (error.Some? ==> error == Some(EINVAL) && now == items && log == [])
            && (reached && id < |table| && table[id].Some? && table[id].value.hasDestroy ==>
                  log == [DestroyConnection(table[id].value.handle, cport)])
            && (!(reached && id < |table| && table[id].Some? && table[id].value.hasDestroy) ==> log == [])
            && (reached ==> Forward(now, ap).None?)
            && |now| == |items|
            && (forall a: nat :: !(reached && a == ap) ==> Forward(now, a) == Forward(items, a))
  {
  }
}
