/** The linked nodes of the handler registry and the operations that edit them in place.

    A list field (`handlers`, `idNodes`, `baseNodes`) is a sequence that the methods reassign;
    `owner` records the node whose list a node was created for, so two lists never share a
    node. Methods are proved against the functions of module Registry: the value of the node
    (`View`), the error, the heap blocks, and which context holds which argument. */
module RegistryNodes {
  import opened Allocator
  import opened Registry
  import opened RegistryIndex

  /** A handler node and the context it owns; the context's argument is the word stored in
      its block, so that an overwriting registration changes memory and no node. */
  class HandlerNode {
    const addr: nat
    const ctx: nat
    const handler: int

    constructor (addr: nat, ctx: nat, handler: int)
      ensures this.addr == addr && this.ctx == ctx && this.handler == handler
    {
      this.addr, this.ctx, this.handler := addr, ctx, handler;
    }
  }

  ghost function HView(hs: seq<HandlerNode>): (v: seq<Entry>)
    ensures |v| == |hs|
  {
    seq(|hs|, i requires 0 <= i < |hs| => Entry(hs[i].addr, hs[i].ctx, hs[i].handler))
  }

  ghost predicate NoDup<T>(s: seq<T>) {
    forall i, j | 0 <= i < j < |s| :: s[i] != s[j]
  }

  lemma AppendNoDup<T>(s: seq<T>, x: T)
    requires NoDup(s) && x !in s
    ensures NoDup(s + [x])
  {
  }

  lemma CutNoDup<T>(s: seq<T>, i: nat)
    requires NoDup(s) && i < |s|
    ensures NoDup(s[..i] + s[i + 1..]) && forall x | x in s[..i] + s[i + 1..] :: x in s
  {
  }

  /** The instance handle a registration hands out: none when it only overwrote an argument. */
  function NewHandle(ok: bool, hs: seq<Entry>, fn: int, legacy: bool, a: nat, n: nat): Option<nat> {
    if !ok || (legacy && HasFn(hs, fn)) then None else Some(LastBlock(a, n))
  }

  /** A registration that asks for the `n` blocks from `a` on succeeds if all are granted. */
  ghost predicate Outcome(err: Err, grants: nat -> bool, a: nat, n: nat, asked: nat) {
    err == (if Granted(grants, a, n) then Ok else NoMem) && (err == Ok ==> asked == a + n)
  }

  /** The words after a registration: its argument is written exactly if it succeeded. */
  function Written(err: Err, words: map<nat, int>, ctx: nat, arg: int): map<nat, int> {
    if err == Ok then words[ctx := arg] else words
  }

  // ---- handler lists ----------------------------------------------------------------

  /** The first half of handler_instances_add: a handler node that owns a new context. */
  method NewInstance(heap: Heap, fn: int, arg: int) returns (instance: HandlerNode?)
    requires heap.Valid()
    modifies heap
    ensures heap.Valid() && old(heap.asked) <= heap.asked <= old(heap.asked) + 2
    ensures instance != null <==> Granted(heap.grants, old(heap.asked), 2)
    ensures instance == null ==> heap.live == old(heap.live) && heap.words == old(heap.words)
    ensures instance != null ==>
              && heap.asked == old(heap.asked) + 2
              && heap.live == old(heap.live) + {old(heap.asked), old(heap.asked) + 1}
              && heap.words == old(heap.words)[old(heap.asked) + 1 := arg]
              && fresh(instance) && instance.addr == old(heap.asked)
              && instance.ctx == old(heap.asked) + 1 && instance.handler == fn
  {
    ghost var a := heap.asked;
    var node := heap.Calloc();
    if node.None? {
      assert !heap.grants(a);
      return null;
    }
    var ctx := heap.Calloc();
    if ctx.None? {
      assert !heap.grants(a + 1);
      heap.Free(node.value);
      return null;
    }
    heap.Store(ctx.value, arg);
    instance := new HandlerNode(node.value, ctx.value, fn);
  }

  /** A legacy registration of a function that is in the list: its argument changes, and the
      instance made for it is freed again. */
  method OverwriteArgument(heap: Heap, it: HandlerNode, instance: HandlerNode, arg: int,
                           ghost words: map<nat, int>, ghost live: set<nat>)
    requires heap.Valid() && it.ctx in live && words.Keys <= live
    requires instance.addr !in live && instance.ctx !in live && instance.addr != instance.ctx
    requires heap.live == live + {instance.addr, instance.ctx} && heap.words == words[instance.ctx := arg]
    modifies heap`live, heap`words
    ensures heap.Valid() && heap.live == live && heap.words == words[it.ctx := arg]
  {
    WordsBack(words, it.ctx, instance.addr, instance.ctx, arg);
    SetBack(live, instance.addr, instance.ctx);
    heap.Store(it.ctx, arg);
    heap.Free(instance.addr);
    heap.Free(instance.ctx);
  }

  lemma WordsBack(words: map<nat, int>, ctx: nat, x: nat, y: nat, arg: int)
    requires x !in words && y !in words && ctx != x && ctx != y
    ensures words[y := arg][ctx := arg] - {x} - {y} == words[ctx := arg]
  {
  }

  lemma SetBack(live: set<nat>, x: nat, y: nat)
    requires x !in live && y !in live
    ensures live + {x, y} - {x} - {y} == live
  {
  }

  method HandlerInstancesAdd(heap: Heap, handlers: seq<HandlerNode>, fn: int, arg: int, legacy: bool)
    returns (err: Err, handlers': seq<HandlerNode>, handle: Option<nat>)
    requires heap.Valid() && forall b :: BlocksH(HView(handlers), b) <= heap.Has(b)
    modifies heap
    ensures heap.Valid() && heap.asked >= old(heap.asked) && (err != Ok ==> heap.live == old(heap.live))
    ensures Outcome(err, heap.grants, old(heap.asked), 2, heap.asked)
    ensures HView(handlers')
         == if err == Ok then AddH(HView(handlers), fn, legacy, old(heap.asked)) else HView(handlers)
    ensures handle == NewHandle(err == Ok, HView(handlers), fn, legacy, old(heap.asked), 2)
    ensures heap.words == Written(err, old(heap.words), BoundH(HView(handlers), fn, legacy, old(heap.asked), 2), arg)
    ensures forall b :: heap.Has(b) + BlocksH(HView(handlers), b) == old(heap.Has(b)) + BlocksH(HView(handlers'), b)
  {
    hide Granted, BlocksH;
    handlers', handle := handlers, None;
    var instance := NewInstance(heap, fn, arg);
    if instance == null {
      return NoMem, handlers, None;
    }
    err := Ok;
    var i := 0;
    while i < |handlers|
      invariant 0 <= i <= |handlers|
      invariant legacy ==> forall j | 0 <= j < i :: handlers[j].handler != fn
    {
      var it := handlers[i];
      if legacy && it.handler == fn {
        FirstFnIs(HView(handlers), fn, i);
        BlockIn(HView(handlers), i);
        assert old(heap.Has(it.ctx)) >= 1;
        OverwriteArgument(heap, it, instance, arg, old(heap.words), old(heap.live));
        return;
      }
      i := i + 1;
    }
    assert legacy ==> !HasFn(HView(handlers), fn);
    ghost var e := Entry(instance.addr, instance.ctx, fn);
    handlers', handle := handlers + [instance], Some(instance.ctx);
    assert HView(handlers') == HView(handlers) + [e];
    forall b { BlocksHAdd(HView(handlers), e, b); }
  }

  lemma FirstFnIs(hs: seq<Entry>, fn: int, k: nat)
    requires k < |hs| && hs[k].fn == fn && forall j | 0 <= j < k :: hs[j].fn != fn
    ensures HasFn(hs, fn) && FirstFn(hs, fn) == k
  {
    var m := FirstFn(hs, fn);
    assert m >= k;
  }

  method HandlerInstancesRemove(heap: Heap, handlers: seq<HandlerNode>, sel: Sel)
    returns (found: bool, handlers': seq<HandlerNode>)
    requires heap.Valid() && forall b :: BlocksH(HView(handlers), b) <= heap.Has(b)
    modifies heap`live, heap`words
    ensures heap.Valid()
    ensures Freed(old(heap.words), old(heap.live), heap.words, heap.live)
    ensures HView(handlers') == RemoveH(HView(handlers), sel).0 && found == RemoveH(HView(handlers), sel).1
    ensures forall h | h in handlers' :: h in handlers
    ensures forall b :: heap.Has(b) + BlocksH(HView(handlers), b) == old(heap.Has(b)) + BlocksH(HView(handlers'), b)
  {
    var i := 0;
    while i < |handlers|
      invariant 0 <= i <= |handlers|
      invariant forall j | 0 <= j < i :: !Selects(HView(handlers)[j], sel)
    {
      var it := handlers[i];
      if match sel case ByCtx(c) => it.ctx == c case ByFn(f) => it.handler == f {
        assert Selects(HView(handlers)[i], sel);
        handlers' := handlers[..i] + handlers[i + 1..];
        RemoveHAt(HView(handlers), i, sel);
        assert HView(handlers') == HView(handlers)[..i] + HView(handlers)[i + 1..];
        forall b { BlocksHCut(HView(handlers), i, b); }
        FreeInstance(heap, it);
        return true, handlers';
      }
      i := i + 1;
    }
    RemoveHNone(HView(handlers), sel);
    return false, handlers;
  }

  /** Frees a context and the handler node that owns it. */
  method FreeInstance(heap: Heap, it: HandlerNode)
    requires heap.Valid()
    requires forall b :: (if it.addr == b then 1 else 0) + (if it.ctx == b then 1 else 0) <= heap.Has(b)
    modifies heap`live, heap`words
    ensures heap.Valid()
    ensures Freed(old(heap.words), old(heap.live), heap.words, heap.live)
    ensures forall b :: heap.Has(b) + (if it.addr == b then 1 else 0) + (if it.ctx == b then 1 else 0)
                     == old(heap.Has(b))
  {
    assert (if it.addr == it.ctx then 2 else 1) <= heap.Has(it.addr);
    assert 1 <= heap.Has(it.ctx);
    heap.Free(it.ctx);
    heap.Free(it.addr);
  }

  /** Frees every handler of a list. */
  method HandlerInstancesRemoveAll(heap: Heap, handlers: seq<HandlerNode>)
    requires heap.Valid() && forall b :: BlocksH(HView(handlers), b) <= heap.Has(b)
    modifies heap`live, heap`words
    ensures heap.Valid()
    ensures forall b :: heap.Has(b) + BlocksH(HView(handlers), b) == old(heap.Has(b))
  {
    var rest := handlers;
    while rest != []
      invariant heap.Valid()
      invariant forall b :: heap.Has(b) + BlocksH(HView(handlers), b) == old(heap.Has(b)) + BlocksH(HView(rest), b)
    {
      var it := rest[0];
      assert HView(rest)[1..] == HView(rest[1..]);
      assert forall b :: BlocksH(HView(rest), b)
                      == BlocksH(HView(rest[1..]), b) + (if it.addr == b then 1 else 0)
                         + (if it.ctx == b then 1 else 0);
      FreeInstance(heap, it);
      rest := rest[1..];
    }
  }

  // ---- id nodes and base nodes --------------------------------------------------------

  class IdNode {
    const addr: nat
    const id: int
    ghost const owner: BaseNode
    var handlers: seq<HandlerNode>

    constructor (addr: nat, id: int, ghost owner: BaseNode)
      ensures this.addr == addr && this.id == id && this.owner == owner && handlers == []
    {
      this.addr, this.id, this.owner, handlers := addr, id, owner, [];
    }

    ghost function View(): IdV
      reads this
    {
      IdV(addr, id, HView(handlers))
    }

    method Add(heap: Heap, fn: int, arg: int, legacy: bool)
      returns (err: Err, handle: Option<nat>)
      requires heap.Valid() && forall b :: BlocksId(View(), b) <= heap.Has(b)
      modifies heap, this
      ensures heap.Valid() && heap.asked >= old(heap.asked) && (err != Ok ==> heap.live == old(heap.live))
      ensures Outcome(err, heap.grants, old(heap.asked), 2, heap.asked)
      ensures View() == if err == Ok
                        then IdV(addr, id, AddH(old(View()).handlers, fn, legacy, old(heap.asked)))
                        else old(View())
      ensures handle == NewHandle(err == Ok, old(View()).handlers, fn, legacy, old(heap.asked), 2)
      ensures heap.words == Written(err, old(heap.words),
                                    BoundH(old(View()).handlers, fn, legacy, old(heap.asked), 2), arg)
      ensures forall b :: heap.Has(b) + BlocksId(old(View()), b) == old(heap.Has(b)) + BlocksId(View(), b)
    {
      hide AddH, BoundH, Granted, BlocksH, HView, NewHandle;
      var hs;
      err, hs, handle := HandlerInstancesAdd(heap, handlers, fn, arg, legacy);
      handlers := hs;
    }

    method Remove(heap: Heap, sel: Sel) returns (found: bool)
      requires heap.Valid() && forall b :: BlocksId(View(), b) <= heap.Has(b)
      modifies heap`live, heap`words, this
      ensures heap.Valid()
      ensures Freed(old(heap.words), old(heap.live), heap.words, heap.live)
      ensures forall h | h in handlers :: h in old(handlers)
      ensures View() == old(View()).(handlers := RemoveH(old(View()).handlers, sel).0)
      ensures found == RemoveH(old(View()).handlers, sel).1
      ensures forall b :: heap.Has(b) + BlocksId(old(View()), b) == old(heap.Has(b)) + BlocksId(View(), b)
    {
      hide BlocksH, HView, RemoveH;
      forall b ensures BlocksH(HView(handlers), b) <= heap.Has(b) {
        assert BlocksId(View(), b) <= heap.Has(b);
      }
      var hs;
      found, hs := HandlerInstancesRemove(heap, handlers, sel);
      handlers := hs;
    }
  }

  ghost function IdsView(ids: seq<IdNode>): seq<IdV>
    reads ids
  {
    seq(|ids|, i requires 0 <= i < |ids| reads ids => ids[i].View())
  }

  class BaseNode {
    const addr: nat
    const base: nat
    ghost const owner: LoopNode
    var handlers: seq<HandlerNode>
    var idNodes: seq<IdNode>

    constructor (addr: nat, base: nat, ghost owner: LoopNode)
      ensures this.addr == addr && this.base == base && this.owner == owner
      ensures handlers == [] && idNodes == []
    {
      this.addr, this.base, this.owner, handlers, idNodes := addr, base, owner, [], [];
    }

    ghost function View(): BaseV
      reads this, idNodes
    {
      BaseV(addr, base, HView(handlers), IdsView(idNodes))
    }

    ghost predicate Valid()
      reads this, idNodes
    {
      && NoDup(idNodes)
      && (forall d | d in idNodes :: d.owner == this)
    }

    /** The last id node for `id`, as the search loop leaves it. */
    method FindId(id: int) returns (k: int)
      ensures -1 <= k < |idNodes|
      ensures k >= 0 ==> idNodes[k].id == id
      ensures forall j | k < j < |idNodes| :: idNodes[j].id != id
    {
      k := -1;
      var i := 0;
      while i < |idNodes|
        invariant 0 <= i <= |idNodes| && -1 <= k < i
        invariant k >= 0 ==> idNodes[k].id == id
        invariant forall j | k < j < i :: idNodes[j].id != id
      {
        if idNodes[i].id == id {
          k := i;
        }
        i := i + 1;
      }
    }

    method AddHandler(heap: Heap, id: int, fn: int, arg: int, legacy: bool)
      returns (err: Err, handle: Option<nat>)
      requires heap.Valid() && Valid() && forall b :: BlocksBase(View(), b) <= heap.Has(b)
      modifies heap, this, idNodes
      ensures heap.Valid() && heap.asked >= old(heap.asked) && (err != Ok ==> heap.live == old(heap.live))
      ensures Valid() && forall d | d in idNodes && d !in old(idNodes) :: fresh(d)
      ensures var n := CostBase(old(View()), id);
              var hs := TargetBase(old(View()), id);
              var a := old(heap.asked);
              && Outcome(err, heap.grants, a, n, heap.asked)
              && View() == (if err == Ok then AddBase(old(View()), id, fn, legacy, a) else old(View()))
              && handle == NewHandle(err == Ok, hs, fn, legacy, a, n)
              && heap.words == Written(err, old(heap.words), BoundH(hs, fn, legacy, a, n), arg)
      ensures forall b :: heap.Has(b) + BlocksBase(old(View()), b) == old(heap.Has(b)) + BlocksBase(View(), b)
    {
      hide AddH, AddIds, BoundH, BlocksH, BlocksIds, TargetIds, CostIds, Granted, NewHandle, HView;
      forall b
        ensures BlocksH(HView(handlers), b) <= heap.Has(b) && BlocksIds(IdsView(idNodes), b) <= heap.Has(b)
      {
        assert BlocksBase(View(), b) <= heap.Has(b);
      }
      if id == ANY_ID {
        var hs;
        err, hs, handle := HandlerInstancesAdd(heap, handlers, fn, arg, legacy);
        handlers := hs;
        assert IdsView(idNodes) == old(IdsView(idNodes));
      } else {
        var k := FindId(id);
        if k < 0 {
          err, handle := AddNewId(heap, id, fn, arg, legacy);
        } else {
          err, handle := AddToId(heap, k, id, fn, arg, legacy);
        }
      }
    }

    /** The id has no node yet: one is created and inserted at the end, or freed again. */
    method AddNewId(heap: Heap, id: int, fn: int, arg: int, legacy: bool)
      returns (err: Err, handle: Option<nat>)
      requires heap.Valid() && Valid()
      requires id != ANY_ID && forall j | 0 <= j < |idNodes| :: idNodes[j].id != id
      modifies heap, this`idNodes
      ensures heap.Valid() && heap.asked >= old(heap.asked) && (err != Ok ==> heap.live == old(heap.live))
      ensures Valid() && forall d | d in idNodes && d !in old(idNodes) :: fresh(d)
      ensures var n := CostIds(old(IdsView(idNodes)), id);
              var hs := TargetIds(old(IdsView(idNodes)), id);
              var a := old(heap.asked);
              && Outcome(err, heap.grants, a, n, heap.asked)
              && IdsView(idNodes)
                 == (if err == Ok then AddIds(old(IdsView(idNodes)), id, fn, legacy, a) else old(IdsView(idNodes)))
              && handle == NewHandle(err == Ok, hs, fn, legacy, a, n)
              && heap.words == Written(err, old(heap.words), BoundH(hs, fn, legacy, a, n), arg)
      ensures forall b :: heap.Has(b) + BlocksIds(old(IdsView(idNodes)), b)
                       == old(heap.Has(b)) + BlocksIds(IdsView(idNodes), b)
    {
      ghost var v := IdsView(idNodes);
      ghost var a := heap.asked;
      assert !HasId(v, id);
      AddIdsNew(v, id, fn, legacy, a);
      GrantedNext(heap.grants, a, 2);
      hide AddH, AddIds, BoundH, TargetIds, Granted, BlocksIds, BlocksId, HasFn, HView, NewHandle;
      var d;
      err, d, handle := NewIdNode(heap, id, fn, arg, legacy);
      if err == Ok {
        idNodes := idNodes + [d];
        assert IdsView(idNodes) == v + [d.View()];
        forall b { BlocksIdsAdd(v, d.View(), b); }
      }
    }

    /** An id node holding its first handler, not yet linked; nothing remains if that fails. */
    method NewIdNode(heap: Heap, id: int, fn: int, arg: int, legacy: bool)
      returns (err: Err, d: IdNode?, handle: Option<nat>)
      requires heap.Valid()
      modifies heap
      ensures heap.Valid() && heap.asked >= old(heap.asked) && (err != Ok ==> heap.live == old(heap.live))
      ensures var a := old(heap.asked);
              && Outcome(err, heap.grants, a, 3, heap.asked)
              && (err == Ok <==> d != null)
              && handle == NewHandle(err == Ok, [], fn, legacy, a, 3)
              && heap.words == Written(err, old(heap.words), BoundH([], fn, legacy, a, 3), arg)
      ensures d != null ==> fresh(d) && d.owner == this
                            && d.View() == IdV(old(heap.asked), id, AddH([], fn, legacy, old(heap.asked) + 1))
      ensures forall b :: heap.Has(b) == old(heap.Has(b)) + if d != null then BlocksId(d.View(), b) else 0
    {
      ghost var a := heap.asked;
      GrantedNext(heap.grants, a, 2);
      NoBlocks();
      hide AddH, BoundH, Granted, BlocksH, HasFn, HView;
      var addr := heap.Calloc();
      if addr.None? {
        return NoMem, null, None;
      }
      d := new IdNode(addr.value, id, this);
      ghost var empty := d.View();
      assert empty == IdV(addr.value, id, []);
      assert forall b :: BlocksId(empty, b) == if b == addr.value then 1 else 0;
      label L:
      err, handle := d.Add(heap, fn, arg, legacy);
      if err != Ok {
        heap.Free(addr.value);
        d := null;
      } else {
        forall b ensures heap.Has(b) == old(heap.Has(b)) + BlocksId(d.View(), b) {
          assert heap.Has(b) + BlocksId(empty, b) == old@L(heap.Has(b)) + BlocksId(d.View(), b);
          assert old@L(heap.Has(b)) == old(heap.Has(b)) + BlocksId(empty, b);
        }
      }
    }

    method AddToId(heap: Heap, k: nat, id: int, fn: int, arg: int, legacy: bool)
      returns (err: Err, handle: Option<nat>)
      requires heap.Valid() && Valid() && forall b :: BlocksIds(IdsView(idNodes), b) <= heap.Has(b)
      requires id != ANY_ID && k < |idNodes| && idNodes[k].id == id
      requires forall j | k < j < |idNodes| :: idNodes[j].id != id
      modifies heap, idNodes[k]
      ensures heap.Valid() && heap.asked >= old(heap.asked) && (err != Ok ==> heap.live == old(heap.live))
      ensures Valid()
      ensures var n := CostIds(old(IdsView(idNodes)), id);
              var hs := TargetIds(old(IdsView(idNodes)), id);
              var a := old(heap.asked);
              && Outcome(err, heap.grants, a, n, heap.asked)
              && IdsView(idNodes)
                 == (if err == Ok then AddIds(old(IdsView(idNodes)), id, fn, legacy, a) else old(IdsView(idNodes)))
              && handle == NewHandle(err == Ok, hs, fn, legacy, a, n)
              && heap.words == Written(err, old(heap.words), BoundH(hs, fn, legacy, a, n), arg)
      ensures forall b :: heap.Has(b) + BlocksIds(old(IdsView(idNodes)), b)
                       == old(heap.Has(b)) + BlocksIds(IdsView(idNodes), b)
    {
      ghost var v := IdsView(idNodes);
      ghost var a := heap.asked;
      AddIdsAt(v, k, id, fn, legacy, a);
      assert v[k].id == id;
      hide AddH, AddIds, BoundH, TargetIds, Granted, NewHandle, BlocksIds, BlocksId, HView;
      var d := idNodes[k];
      forall b ensures BlocksId(d.View(), b) <= heap.Has(b) { BlocksIdsAt(v, k, b); }
      err, handle := d.Add(heap, fn, arg, legacy);
      assert IdsView(idNodes) == v[k := d.View()];
      forall b { BlocksIdsSet(v, k, d.View(), b); }
    }

    method RemoveHandler(heap: Heap, id: int, sel: Sel) returns (ok: bool)
      requires heap.Valid() && Valid() && forall b :: BlocksBase(View(), b) <= heap.Has(b)
      modifies heap`live, heap`words, this, idNodes
      ensures heap.Valid() && Valid() && forall d | d in idNodes :: d in old(idNodes)
      ensures Freed(old(heap.words), old(heap.live), heap.words, heap.live)
      ensures View() == RemoveBase(old(View()), id, sel).0 && ok == RemoveBase(old(View()), id, sel).1
      ensures forall b :: heap.Has(b) + BlocksBase(old(View()), b) == old(heap.Has(b)) + BlocksBase(View(), b)
    {
      hide BlocksH, BlocksIds, HView, RemoveH, RemoveIds;
      forall b
        ensures BlocksH(HView(handlers), b) <= heap.Has(b) && BlocksIds(IdsView(idNodes), b) <= heap.Has(b)
      {
        assert BlocksBase(View(), b) <= heap.Has(b);
      }
      if id == ANY_ID {
        var hs;
        ok, hs := HandlerInstancesRemove(heap, handlers, sel);
        handlers := hs;
        assert IdsView(idNodes) == old(IdsView(idNodes));
      } else {
        ok := RemoveFromIds(heap, id, sel);
      }
    }

    /** The walk over the id nodes: it ends at the first one that becomes empty. */
    method RemoveFromIds(heap: Heap, id: int, sel: Sel) returns (ok: bool)
      requires heap.Valid() && Valid() && forall b :: BlocksIds(IdsView(idNodes), b) <= heap.Has(b)
      modifies heap`live, heap`words, this`idNodes, idNodes
      ensures heap.Valid() && Valid() && forall d | d in idNodes :: d in old(idNodes)
      ensures Freed(old(heap.words), old(heap.live), heap.words, heap.live)
      ensures IdsView(idNodes) == RemoveIds(old(IdsView(idNodes)), id, sel).0
      ensures ok == RemoveIds(old(IdsView(idNodes)), id, sel).1
      ensures forall b :: heap.Has(b) + BlocksIds(old(IdsView(idNodes)), b)
                       == old(heap.Has(b)) + BlocksIds(IdsView(idNodes), b)
    {
      hide RemoveIds, RemoveH, IdsDone, BlocksIds, HView, NoDup, Freed;
      ghost var v := IdsView(idNodes);
      ghost var done: seq<IdV>, rest := [], v;
      IdsDoneStart(v, id, sel);
      FreedNone(heap.words, heap.live);
      var i := 0;
      while i < |idNodes|
        invariant 0 <= i <= |idNodes| && idNodes == old(idNodes)
        invariant heap.Valid() && Valid()
        invariant Freed(old(heap.words), old(heap.live), heap.words, heap.live)
        invariant |done| == i && IdsView(idNodes) == done + rest && IdsDone(v, done, rest, id, sel)
        invariant forall b :: heap.Has(b) + BlocksIds(v, b) == old(heap.Has(b)) + BlocksIds(IdsView(idNodes), b)
      {
        var it := idNodes[i];
        ghost var d := rest[0].(handlers := RemoveH(rest[0].handlers, sel).0);
        IdsDoneStep(v, done, rest, id, sel);
        AtSeam(done, rest, d);
        if it.id == id {
          ghost var w, l := heap.words, heap.live;
          var emptied := RemoveAt(heap, i, sel);
          FreedThen(old(heap.words), old(heap.live), w, l, heap.words, heap.live);
          if emptied {
            return true;
          }
          done, rest := done + [d], rest[1..];
        } else {
          done, rest := done + [rest[0]], rest[1..];
        }
        i := i + 1;
      }
      IdsDoneStep(v, done, rest, id, sel);
      return false;
    }

    /** Removes a handler from the node at `i`; the node goes too when that empties it. */
    method RemoveAt(heap: Heap, i: nat, sel: Sel) returns (emptied: bool)
      requires heap.Valid() && Valid() && i < |idNodes|
      requires forall b :: BlocksIds(IdsView(idNodes), b) <= heap.Has(b)
      modifies heap`live, heap`words, this`idNodes, idNodes[i]
      ensures heap.Valid() && Valid() && forall d | d in idNodes :: d in old(idNodes)
      ensures Freed(old(heap.words), old(heap.live), heap.words, heap.live)
      ensures var was := old(IdsView(idNodes));
              var (hs, found) := RemoveH(was[i].handlers, sel);
              && emptied == (found && hs == [])
              && (emptied ==> IdsView(idNodes) == was[..i] + was[i + 1..])
              && (!emptied ==> idNodes == old(idNodes)
                               && IdsView(idNodes) == was[i := was[i].(handlers := hs)])
      ensures forall b :: heap.Has(b) + BlocksIds(old(IdsView(idNodes)), b)
                       == old(heap.Has(b)) + BlocksIds(IdsView(idNodes), b)
    {
      ghost var v := IdsView(idNodes);
      var it := idNodes[i];
      hide BlocksId, BlocksIds, HView, RemoveH, NoDup;
      forall b ensures BlocksId(it.View(), b) <= heap.Has(b) { BlocksIdsAt(v, i, b); }
      var found := it.Remove(heap, sel);
      assert IdsView(idNodes) == v[i := it.View()];
      forall b { BlocksIdsSet(v, i, it.View(), b); }
      emptied := found && it.handlers == [];
      if emptied {
        UnlinkId(heap, i);
        assert v[i := it.View()][..i] == v[..i] && v[i := it.View()][i + 1..] == v[i + 1..];
      }
    }

    method UnlinkId(heap: Heap, i: nat)
      requires heap.Valid() && Valid() && i < |idNodes| && idNodes[i].handlers == []
      requires forall b :: BlocksIds(IdsView(idNodes), b) <= heap.Has(b)
      modifies heap`live, heap`words, this`idNodes
      ensures heap.Valid() && Valid() && forall d | d in idNodes :: d in old(idNodes)
      ensures Freed(old(heap.words), old(heap.live), heap.words, heap.live)
      ensures IdsView(idNodes) == old(IdsView(idNodes)[..i] + IdsView(idNodes)[i + 1..])
      ensures forall b :: heap.Has(b) + BlocksIds(old(IdsView(idNodes)), b)
                       == old(heap.Has(b)) + BlocksIds(IdsView(idNodes), b)
    {
      hide BlocksIds, HView, NoDup;
      CutEmptyId(IdsView(idNodes), i);
      CutNoDup(idNodes, i);
      assert IdsView(idNodes[..i] + idNodes[i + 1..]) == IdsView(idNodes)[..i] + IdsView(idNodes)[i + 1..];
      assert heap.Has(idNodes[i].addr) >= 1;
      heap.Free(idNodes[i].addr);
      idNodes := idNodes[..i] + idNodes[i + 1..];
    }

    /** Frees the handlers and id nodes below this node. */
    method RemoveAllHandler(heap: Heap)
      requires heap.Valid() && forall b :: BlocksBase(View(), b) <= heap.Has(b)
      modifies heap`live, heap`words
      ensures heap.Valid()
      ensures forall b :: heap.Has(b) + BlocksBase(old(View()), b) == old(heap.Has(b)) + if addr == b then 1 else 0
    {
      hide BlocksH, BlocksIds, HView;
      forall b
        ensures BlocksH(HView(handlers), b) + BlocksIds(IdsView(idNodes), b) <= heap.Has(b)
      {
        assert BlocksBase(View(), b) <= heap.Has(b);
      }
      HandlerInstancesRemoveAll(heap, handlers);
      RemoveAllIds(heap);
    }

    method RemoveAllIds(heap: Heap)
      requires heap.Valid() && forall b :: BlocksIds(IdsView(idNodes), b) <= heap.Has(b)
      modifies heap`live, heap`words
      ensures heap.Valid() && forall b :: heap.Has(b) + BlocksIds(old(IdsView(idNodes)), b) == old(heap.Has(b))
    {
      hide BlocksH, HView;
      var rest := idNodes;
      ghost var v := IdsView(idNodes);
      ghost var u := v;
      while rest != []
        invariant heap.Valid() && u == IdsView(rest)
        invariant forall b :: heap.Has(b) + BlocksIds(v, b) == old(heap.Has(b)) + BlocksIds(u, b)
      {
        var it := rest[0];
        assert u[0] == it.View() && u[1..] == IdsView(rest[1..]);
        assert forall b :: BlocksIds(u, b)
                        == (if it.addr == b then 1 else 0) + BlocksH(u[0].handlers, b) + BlocksIds(u[1..], b);
        rest := rest[1..];
        HandlerInstancesRemoveAll(heap, it.handlers);
        assert heap.Has(it.addr) >= 1;
        heap.Free(it.addr);
        u := u[1..];
      }
    }
  }

  lemma NoBlocks()
    ensures HView([]) == [] && forall b :: BlocksH([], b) == 0
  {
  }

  /** A granted block in front of the `n` others. */
  lemma OutcomeNext(err: Err, grants: nat -> bool, a: nat, n: nat, asked: nat, fn: int, legacy: bool)
    requires n > 0 && grants(a) && Outcome(err, grants, a + 1, n, asked)
    ensures Outcome(err, grants, a, n + 1, asked)
    ensures BoundH([], fn, legacy, a, n + 1) == BoundH([], fn, legacy, a + 1, n)
    ensures NewHandle(err == Ok, [], fn, legacy, a, n + 1) == NewHandle(err == Ok, [], fn, legacy, a + 1, n)
  {
  }

  lemma GrantedNext(grants: nat -> bool, a: nat, n: nat)
    ensures Granted(grants, a, n + 1) <==> grants(a) && Granted(grants, a + 1, n)
  {
  }

  // ---- loop nodes ---------------------------------------------------------------------

  ghost function IdsOf(bs: seq<BaseNode>): (ds: set<IdNode>)
    reads bs
    ensures forall i, d | 0 <= i < |bs| && d in bs[i].idNodes :: d in ds
  {
    set b, d | b in bs && d in b.idNodes :: d
  }

  ghost function BasesView(bs: seq<BaseNode>): (v: seq<BaseV>)
    reads bs, IdsOf(bs)
    ensures |v| == |bs|
  {
    seq(|bs|, i requires 0 <= i < |bs| reads bs, IdsOf(bs) => bs[i].View())
  }

  class LoopNode {
    const addr: nat
    var handlers: seq<HandlerNode>
    var baseNodes: seq<BaseNode>

    constructor (addr: nat)
      ensures this.addr == addr && handlers == [] && baseNodes == []
    {
      this.addr, handlers, baseNodes := addr, [], [];
    }

    ghost function View(): LoopV
      reads this, baseNodes, IdsOf(baseNodes)
    {
      LoopV(addr, HView(handlers), BasesView(baseNodes))
    }

    ghost predicate Valid()
      reads this, baseNodes, IdsOf(baseNodes)
    {
      ValidBases(baseNodes)
    }

    ghost predicate ValidBases(bs: seq<BaseNode>)
      reads bs, IdsOf(bs)
    {
      NoDup(bs) && forall i | 0 <= i < |bs| :: bs[i].owner == this && bs[i].Valid()
    }

    method AddHandler(heap: Heap, base: nat, id: int, fn: int, arg: int, legacy: bool)
      returns (err: Err, handle: Option<nat>)
      requires heap.Valid() && Valid() && forall x :: BlocksLoop(View(), x) <= heap.Has(x)
      modifies heap, this, baseNodes, IdsOf(baseNodes)
      ensures heap.Valid() && heap.asked >= old(heap.asked) && (err != Ok ==> heap.live == old(heap.live))
      ensures Valid()
      ensures forall b | b in baseNodes && b !in old(baseNodes) :: fresh(b)
      ensures forall d | d in IdsOf(baseNodes) && d !in old(IdsOf(baseNodes)) :: fresh(d)
      ensures var n := CostLoop(old(View()), base, id);
              var hs := TargetLoop(old(View()), base, id);
              var a := old(heap.asked);
              && Outcome(err, heap.grants, a, n, heap.asked)
              && View() == (if err == Ok then AddLoop(old(View()), base, id, fn, legacy, a) else old(View()))
              && handle == NewHandle(err == Ok, hs, fn, legacy, a, n)
              && heap.words == Written(err, old(heap.words), BoundH(hs, fn, legacy, a, n), arg)
      ensures forall b :: heap.Has(b) + BlocksLoop(old(View()), b) == old(heap.Has(b)) + BlocksLoop(View(), b)
    {
      hide AddLoop, BoundH, CostLoop, TargetLoop, BlocksBases, BlocksH, Granted, NewHandle, HView, NoDup;
      hide AddBelowV, CostBelow, TargetBelow;
      forall x ensures BlocksBases(BasesView(baseNodes), x) <= heap.Has(x) {
        assert BlocksLoop(View(), x) <= heap.Has(x);
      }
      if base == ANY_BASE && id == ANY_ID {
        err, handle := AddLoopLevel(heap, fn, arg, legacy);
      } else {
        AddLoopBelow(View(), base, id, fn, legacy, heap.asked);
        err, handle := AddBelow(heap, base, id, fn, arg, legacy);
      }
    }

    method AddLoopLevel(heap: Heap, fn: int, arg: int, legacy: bool)
      returns (err: Err, handle: Option<nat>)
      requires heap.Valid() && Valid() && forall x :: BlocksLoop(View(), x) <= heap.Has(x)
      modifies heap, this`handlers
      ensures heap.Valid() && heap.asked >= old(heap.asked) && (err != Ok ==> heap.live == old(heap.live))
      ensures Valid()
      ensures var n := CostLoop(old(View()), ANY_BASE, ANY_ID);
              var hs := TargetLoop(old(View()), ANY_BASE, ANY_ID);
              var a := old(heap.asked);
              && Outcome(err, heap.grants, a, n, heap.asked)
              && View() == (if err == Ok then AddLoop(old(View()), ANY_BASE, ANY_ID, fn, legacy, a) else old(View()))
              && handle == NewHandle(err == Ok, hs, fn, legacy, a, n)
              && heap.words == Written(err, old(heap.words), BoundH(hs, fn, legacy, a, n), arg)
      ensures forall b :: heap.Has(b) + BlocksLoop(old(View()), b) == old(heap.Has(b)) + BlocksLoop(View(), b)
    {
      hide AddH, BoundH, BlocksH, BlocksBases, Granted, NewHandle, HView, NoDup;
      forall x ensures BlocksH(HView(handlers), x) <= heap.Has(x) {
        assert BlocksLoop(View(), x) <= heap.Has(x);
      }
      var hs;
      err, hs, handle := HandlerInstancesAdd(heap, handlers, fn, arg, legacy);
      handlers := hs;
      assert BasesView(baseNodes) == old(BasesView(baseNodes));
    }

    method AddBelow(heap: Heap, base: nat, id: int, fn: int, arg: int, legacy: bool)
      returns (err: Err, handle: Option<nat>)
      requires heap.Valid() && ValidBases(baseNodes) && forall x :: BlocksBases(BasesView(baseNodes), x) <= heap.Has(x)
      modifies heap, this`baseNodes, baseNodes, IdsOf(baseNodes)
      ensures heap.Valid() && heap.asked >= old(heap.asked) && (err != Ok ==> heap.live == old(heap.live))
      ensures ValidBases(baseNodes)
      ensures forall b | b in baseNodes && b !in old(baseNodes) :: fresh(b)
      ensures forall d | d in IdsOf(baseNodes) && d !in old(IdsOf(baseNodes)) :: fresh(d)
      ensures var v := old(BasesView(baseNodes));
              var n := CostBelow(v, base, id);
              var hs := TargetBelow(v, base, id);
              var a := old(heap.asked);
              && Outcome(err, heap.grants, a, n, heap.asked)
              && BasesView(baseNodes) == (if err == Ok then AddBelowV(v, base, id, fn, legacy, a) else v)
              && handle == NewHandle(err == Ok, hs, fn, legacy, a, n)
              && heap.words == Written(err, old(heap.words), BoundH(hs, fn, legacy, a, n), arg)
      ensures forall x :: heap.Has(x) + BlocksBases(old(BasesView(baseNodes)), x)
                       == old(heap.Has(x)) + BlocksBases(BasesView(baseNodes), x)
    {
      ghost var v := BasesView(baseNodes);
      hide OpensBase, HasBase, LastOf, BoundH, BlocksBases, Granted, NewHandle, HView, TargetBase, CostBase, AddBase,
           NoDup;
      var k, opens := FindBase(base, id);
      assert BasesView(baseNodes) == v;
      if opens {
        err, handle := AddNewBase(heap, base, id, fn, arg, legacy);
      } else {
        err, handle := AddToBase(heap, k, id, fn, arg, legacy);
      }
    }

    /** The search loop: the last node for `base`, and whether a new one must be opened. */
    method FindBase(base: nat, id: int) returns (k: int, opens: bool)
      ensures opens == OpensBase(BasesView(baseNodes), base, id)
      ensures !opens ==> 0 <= k < |baseNodes| && HasBase(BasesView(baseNodes), base)
                         && LastOf(BasesView(baseNodes), base) == k
    {
      var last, i := |baseNodes| - 1, 0;
      k := -1;
      while i < |baseNodes|
        invariant 0 <= i <= |baseNodes| && -1 <= k < i
        invariant k >= 0 ==> baseNodes[k].base == base
        invariant forall j | k < j < i :: baseNodes[j].base != base
      {
        if baseNodes[i].base == base {
          k := i;
        }
        i := i + 1;
      }
      OpensBaseIs(BasesView(baseNodes), base, id, k);
      opens := || last < 0
               || k < 0
               || (baseNodes[k].idNodes != [] && id == ANY_ID)
               || (baseNodes[last].base != base && baseNodes[last].idNodes != [] && id == ANY_ID);
    }

    /** A new base node is created for the handler and inserted at the end, or freed again. */
    method AddNewBase(heap: Heap, base: nat, id: int, fn: int, arg: int, legacy: bool)
      returns (err: Err, handle: Option<nat>)
      requires heap.Valid() && ValidBases(baseNodes)
      modifies heap, this`baseNodes
      ensures heap.Valid() && heap.asked >= old(heap.asked) && (err != Ok ==> heap.live == old(heap.live))
      ensures ValidBases(baseNodes)
      ensures forall b | b in baseNodes && b !in old(baseNodes) :: fresh(b)
      ensures forall d | d in IdsOf(baseNodes) && d !in old(IdsOf(baseNodes)) :: fresh(d)
      ensures var n := 1 + CostBase(BaseV(0, base, [], []), id);
              var a := old(heap.asked);
              && Outcome(err, heap.grants, a, n, heap.asked)
              && BasesView(baseNodes)
                 == (if err == Ok
                     then old(BasesView(baseNodes)) + [AddBase(BaseV(a, base, [], []), id, fn, legacy, a + 1)]
                     else old(BasesView(baseNodes)))
              && handle == NewHandle(err == Ok, [], fn, legacy, a, n)
              && heap.words == Written(err, old(heap.words), BoundH([], fn, legacy, a, n), arg)
      ensures forall x :: heap.Has(x) + BlocksBases(old(BasesView(baseNodes)), x)
                       == old(heap.Has(x)) + BlocksBases(BasesView(baseNodes), x)
    {
      ghost var v := BasesView(baseNodes);
      hide AddBase, BoundH, CostBase, Granted, BlocksBases, BlocksBase, HView, NewHandle, NoDup;
      var b;
      err, b, handle := NewBaseNode(heap, base, id, fn, arg, legacy);
      if err == Ok {
        AppendNoDup<BaseNode>(baseNodes, b);
        baseNodes := baseNodes + [b];
        assert BasesView(baseNodes) == v + [b.View()];
        forall x { BlocksBasesAdd(v, b.View(), x); }
      }
    }

    /** A base node holding its first handler, not yet linked; nothing remains if that fails. */
    method NewBaseNode(heap: Heap, base: nat, id: int, fn: int, arg: int, legacy: bool)
      returns (err: Err, b: BaseNode?, handle: Option<nat>)
      requires heap.Valid()
      modifies heap
      ensures heap.Valid() && heap.asked >= old(heap.asked) && (err != Ok ==> heap.live == old(heap.live))
      ensures var n := 1 + CostBase(BaseV(0, base, [], []), id);
              var a := old(heap.asked);
              && Outcome(err, heap.grants, a, n, heap.asked)
              && (err == Ok <==> b != null)
              && handle == NewHandle(err == Ok, [], fn, legacy, a, n)
              && heap.words == Written(err, old(heap.words), BoundH([], fn, legacy, a, n), arg)
      ensures b != null ==>
                && fresh(b) && (forall d | d in b.idNodes :: fresh(d)) && b.owner == this && b.Valid()
                && b.View() == AddBase(BaseV(old(heap.asked), base, [], []), id, fn, legacy, old(heap.asked) + 1)
      ensures forall x :: heap.Has(x) == old(heap.Has(x)) + if b != null then BlocksBase(b.View(), x) else 0
    {
      ghost var a := heap.asked;
      GrantedNext(heap.grants, a, CostBase(BaseV(0, base, [], []), id));
      EmptyBase(a, base, id);
      NoBlocks();
      hide AddBase, BoundH, Granted, HView, TargetBase, CostBase, BlocksBase;
      var addr := heap.Calloc();
      if addr.None? {
        return NoMem, null, None;
      }
      b := new BaseNode(addr.value, base, this);
      ghost var empty := b.View();
      assert empty == BaseV(addr.value, base, [], []);
      label L:
      err, handle := b.AddHandler(heap, id, fn, arg, legacy);
      if err != Ok {
        heap.Free(addr.value);
        b := null;
      } else {
        forall x ensures heap.Has(x) == old(heap.Has(x)) + BlocksBase(b.View(), x) {
          assert heap.Has(x) + BlocksBase(empty, x) == old@L(heap.Has(x)) + BlocksBase(b.View(), x);
          assert old@L(heap.Has(x)) == old(heap.Has(x)) + BlocksBase(empty, x);
        }
      }
    }

    method AddToBase(heap: Heap, k: nat, id: int, fn: int, arg: int, legacy: bool)
      returns (err: Err, handle: Option<nat>)
      requires heap.Valid() && ValidBases(baseNodes) && k < |baseNodes|
      requires forall x :: BlocksBases(BasesView(baseNodes), x) <= heap.Has(x)
      modifies heap, baseNodes[k], baseNodes[k].idNodes
      ensures heap.Valid() && heap.asked >= old(heap.asked) && (err != Ok ==> heap.live == old(heap.live))
      ensures ValidBases(baseNodes)
      ensures forall d | d in IdsOf(baseNodes) && d !in old(IdsOf(baseNodes)) :: fresh(d)
      ensures var b := old(BasesView(baseNodes))[k];
              var n := CostBase(b, id);
              var hs := TargetBase(b, id);
              var a := old(heap.asked);
              && Outcome(err, heap.grants, a, n, heap.asked)
              && BasesView(baseNodes)
                 == (if err == Ok then old(BasesView(baseNodes))[k := AddBase(b, id, fn, legacy, a)]
                     else old(BasesView(baseNodes)))
              && handle == NewHandle(err == Ok, hs, fn, legacy, a, n)
              && heap.words == Written(err, old(heap.words), BoundH(hs, fn, legacy, a, n), arg)
      ensures forall x :: heap.Has(x) + BlocksBases(old(BasesView(baseNodes)), x)
                       == old(heap.Has(x)) + BlocksBases(BasesView(baseNodes), x)
    {
      hide AddBase, BoundH, CostBase, TargetBase, Granted, BlocksBases, BlocksBase, HView, NewHandle;
      ghost var v := BasesView(baseNodes);
      var b := baseNodes[k];
      ApartIds(baseNodes, k);
      forall x ensures BlocksBase(b.View(), x) <= heap.Has(x) { BlocksBasesAt(v, k, x); }
      err, handle := b.AddHandler(heap, id, fn, arg, legacy);
      forall j | 0 <= j < |baseNodes| && j != k
        ensures baseNodes[j].View() == v[j] && baseNodes[j].Valid()
      {
        assert baseNodes[j].idNodes == old(baseNodes[j].idNodes);
        assert forall d | d in baseNodes[j].idNodes :: d.View() == old(d.View());
        assert IdsView(baseNodes[j].idNodes) == v[j].ids;
      }
      assert BasesView(baseNodes) == v[k := b.View()];
      forall x { BlocksBasesSet(v, k, b.View(), x); }
    }

    method RemoveHandler(heap: Heap, base: nat, id: int, sel: Sel) returns (ok: bool)
      requires heap.Valid() && Valid() && forall x :: BlocksLoop(View(), x) <= heap.Has(x)
      modifies heap`live, heap`words, this, baseNodes, IdsOf(baseNodes)
      ensures heap.Valid() && Valid()
      ensures Freed(old(heap.words), old(heap.live), heap.words, heap.live)
      ensures (forall b | b in baseNodes :: b in old(baseNodes)) && IdsOf(baseNodes) <= old(IdsOf(baseNodes))
      ensures View() == RemoveLoop(old(View()), base, id, sel).0 && ok == RemoveLoop(old(View()), base, id, sel).1
      ensures forall x :: heap.Has(x) + BlocksLoop(old(View()), x) == old(heap.Has(x)) + BlocksLoop(View(), x)
    {
      hide BlocksH, BlocksBases, HView, RemoveH, RemoveBases, NoDup;
      forall x
        ensures BlocksH(HView(handlers), x) <= heap.Has(x) && BlocksBases(BasesView(baseNodes), x) <= heap.Has(x)
      {
        assert BlocksLoop(View(), x) <= heap.Has(x);
      }
      if base == ANY_BASE && id == ANY_ID {
        var hs;
        ok, hs := HandlerInstancesRemove(heap, handlers, sel);
        handlers := hs;
        assert BasesView(baseNodes) == old(BasesView(baseNodes));
      } else {
        ok := RemoveFromBases(heap, base, id, sel);
      }
    }

    /** The walk over the base nodes: it ends at the first one that becomes empty. */
    method RemoveFromBases(heap: Heap, base: nat, id: int, sel: Sel) returns (ok: bool)
      requires heap.Valid() && ValidBases(baseNodes) && forall x :: BlocksBases(BasesView(baseNodes), x) <= heap.Has(x)
      modifies heap`live, heap`words, this`baseNodes, baseNodes, IdsOf(baseNodes)
      ensures heap.Valid() && ValidBases(baseNodes)
      ensures Freed(old(heap.words), old(heap.live), heap.words, heap.live)
      ensures (forall b | b in baseNodes :: b in old(baseNodes)) && IdsOf(baseNodes) <= old(IdsOf(baseNodes))
      ensures BasesView(baseNodes) == RemoveBases(old(BasesView(baseNodes)), base, id, sel).0
      ensures ok == RemoveBases(old(BasesView(baseNodes)), base, id, sel).1
      ensures forall x :: heap.Has(x) + BlocksBases(old(BasesView(baseNodes)), x)
                       == old(heap.Has(x)) + BlocksBases(BasesView(baseNodes), x)
    {
      hide RemoveBases, RemoveBase, BasesDone, BlocksBases, HView, NoDup, Freed;
      ghost var v := BasesView(baseNodes);
      ghost var done: seq<BaseV>, rest := [], v;
      BasesDoneStart(v, base, id, sel);
      FreedNone(heap.words, heap.live);
      var i := 0;
      while i < |baseNodes|
        invariant 0 <= i <= |baseNodes| && baseNodes == old(baseNodes) && IdsOf(baseNodes) <= old(IdsOf(baseNodes))
        invariant heap.Valid() && ValidBases(baseNodes)
        invariant Freed(old(heap.words), old(heap.live), heap.words, heap.live)
        invariant |done| == i && BasesView(baseNodes) == done + rest && BasesDone(v, done, rest, base, id, sel)
        invariant forall x :: heap.Has(x) + BlocksBases(v, x) == old(heap.Has(x)) + BlocksBases(BasesView(baseNodes), x)
      {
        var it := baseNodes[i];
        ghost var b := RemoveBase(rest[0], id, sel).0;
        BasesDoneStep(v, done, rest, base, id, sel);
        AtSeam(done, rest, b);
        if it.base == base {
          ghost var w, l := heap.words, heap.live;
          var emptied := RemoveBaseAt(heap, i, id, sel);
          FreedThen(old(heap.words), old(heap.live), w, l, heap.words, heap.live);
          if emptied {
            return true;
          }
          done, rest := done + [b], rest[1..];
        } else {
          done, rest := done + [rest[0]], rest[1..];
        }
        i := i + 1;
      }
      BasesDoneStep(v, done, rest, base, id, sel);
      return false;
    }

    /** Removes a handler below the node at `i`; the node goes too when that empties it. */
    method RemoveBaseAt(heap: Heap, i: nat, id: int, sel: Sel) returns (emptied: bool)
      requires heap.Valid() && ValidBases(baseNodes) && i < |baseNodes|
      requires forall x :: BlocksBases(BasesView(baseNodes), x) <= heap.Has(x)
      modifies heap`live, heap`words, this`baseNodes, baseNodes[i], baseNodes[i].idNodes
      ensures heap.Valid() && ValidBases(baseNodes)
      ensures Freed(old(heap.words), old(heap.live), heap.words, heap.live)
      ensures (forall b | b in baseNodes :: b in old(baseNodes)) && IdsOf(baseNodes) <= old(IdsOf(baseNodes))
      ensures var was := old(BasesView(baseNodes));
              var (b, gone) := RemoveBase(was[i], id, sel);
              && emptied == (gone && b.handlers == [] && b.ids == [])
              && (emptied ==> BasesView(baseNodes) == was[..i] + was[i + 1..])
              && (!emptied ==> baseNodes == old(baseNodes) && BasesView(baseNodes) == was[i := b])
      ensures forall x :: heap.Has(x) + BlocksBases(old(BasesView(baseNodes)), x)
                       == old(heap.Has(x)) + BlocksBases(BasesView(baseNodes), x)
    {
      hide BlocksBase, BlocksBases, HView, RemoveBase, NoDup, Freed;
      ghost var v := BasesView(baseNodes);
      var it := baseNodes[i];
      forall x ensures BlocksBase(it.View(), x) <= heap.Has(x) { BlocksBasesAt(v, i, x); }
      ApartIds(baseNodes, i);
      var gone := it.RemoveHandler(heap, id, sel);
      forall j | 0 <= j < |baseNodes| && j != i
        ensures baseNodes[j].View() == v[j] && baseNodes[j].Valid()
      {
        assert baseNodes[j].idNodes == old(baseNodes[j].idNodes);
        assert forall d | d in baseNodes[j].idNodes :: d.View() == old(d.View());
        assert IdsView(baseNodes[j].idNodes) == v[j].ids;
      }
      assert BasesView(baseNodes) == v[i := it.View()];
      forall x { BlocksBasesSet(v, i, it.View(), x); }
      emptied := gone && it.handlers == [] && it.idNodes == [];
      if emptied {
        ghost var w, live := heap.words, heap.live;
        UnlinkBase(heap, i);
        FreedThen(old(heap.words), old(heap.live), w, live, heap.words, heap.live);
        assert v[i := it.View()][..i] == v[..i] && v[i := it.View()][i + 1..] == v[i + 1..];
      }
    }

    method UnlinkBase(heap: Heap, i: nat)
      requires heap.Valid() && ValidBases(baseNodes) && i < |baseNodes|
      requires baseNodes[i].handlers == [] && baseNodes[i].idNodes == []
      requires forall x :: BlocksBases(BasesView(baseNodes), x) <= heap.Has(x)
      modifies heap`live, heap`words, this`baseNodes
      ensures heap.Valid() && ValidBases(baseNodes)
      ensures Freed(old(heap.words), old(heap.live), heap.words, heap.live)
      ensures (forall b | b in baseNodes :: b in old(baseNodes)) && IdsOf(baseNodes) <= old(IdsOf(baseNodes))
      ensures BasesView(baseNodes) == old(BasesView(baseNodes)[..i] + BasesView(baseNodes)[i + 1..])
      ensures forall x :: heap.Has(x) + BlocksBases(old(BasesView(baseNodes)), x)
                       == old(heap.Has(x)) + BlocksBases(BasesView(baseNodes), x)
    {
      hide BlocksBases, HView, NoDup, ValidBases;
      CutEmptyBase(BasesView(baseNodes), i);
      CutBases(baseNodes, i);
      assert heap.Has(baseNodes[i].addr) >= 1;
      heap.Free(baseNodes[i].addr);
      baseNodes := baseNodes[..i] + baseNodes[i + 1..];
    }

    /** No other base node is, or shares an id node with, the one at `k`. */
    lemma ApartIds(bs: seq<BaseNode>, k: nat)
      requires ValidBases(bs) && k < |bs|
      ensures forall j | 0 <= j < |bs| && j != k ::
                bs[j] != bs[k] && forall d | d in bs[j].idNodes :: d !in bs[k].idNodes
    {
    }

    lemma CutBases(bs: seq<BaseNode>, i: nat)
      requires ValidBases(bs) && i < |bs|
      ensures var cut := bs[..i] + bs[i + 1..];
              && ValidBases(cut)
              && (forall b | b in cut :: b in bs) && IdsOf(cut) <= IdsOf(bs)
              && BasesView(cut) == BasesView(bs)[..i] + BasesView(bs)[i + 1..]
    {
      CutNoDup(bs, i);
    }

    /** Frees the handlers, base nodes and id nodes below this node. */
    method RemoveAllHandler(heap: Heap)
      requires heap.Valid() && forall x :: BlocksLoop(View(), x) <= heap.Has(x)
      modifies heap`live, heap`words
      ensures heap.Valid()
      ensures forall x :: heap.Has(x) + BlocksLoop(old(View()), x) == old(heap.Has(x)) + if addr == x then 1 else 0
    {
      hide BlocksH, BlocksBases, HView;
      forall x
        ensures BlocksH(HView(handlers), x) + BlocksBases(BasesView(baseNodes), x) <= heap.Has(x)
      {
        assert BlocksLoop(View(), x) <= heap.Has(x);
      }
      ghost var v := BasesView(baseNodes);
      HandlerInstancesRemoveAll(heap, handlers);
      assert BasesView(baseNodes) == v;
      RemoveAllBases(heap);
    }

    method RemoveAllBases(heap: Heap)
      requires heap.Valid() && forall x :: BlocksBases(BasesView(baseNodes), x) <= heap.Has(x)
      modifies heap`live, heap`words
      ensures heap.Valid() && forall x :: heap.Has(x) + BlocksBases(old(BasesView(baseNodes)), x) == old(heap.Has(x))
    {
      hide BlocksBase, HView;
      var rest := baseNodes;
      ghost var v := BasesView(baseNodes);
      ghost var u := v;
      while rest != []
        invariant heap.Valid() && u == BasesView(rest)
        invariant forall x :: heap.Has(x) + BlocksBases(v, x) == old(heap.Has(x)) + BlocksBases(u, x)
      {
        var it := rest[0];
        assert u[0] == it.View() && u[1..] == BasesView(rest[1..]);
        assert forall x :: BlocksBases(u, x) == BlocksBase(u[0], x) + BlocksBases(u[1..], x);
        rest := rest[1..];
        it.RemoveAllHandler(heap);
        assert heap.Has(it.addr) >= 1;
        heap.Free(it.addr);
        u := u[1..];
      }
    }
  }

  lemma EmptyBase(a: nat, base: nat, id: int)
    ensures CostBase(BaseV(a, base, [], []), id) == CostBase(BaseV(0, base, [], []), id)
    ensures TargetBase(BaseV(a, base, [], []), id) == []
    ensures forall x :: BlocksBase(BaseV(a, base, [], []), x) == if x == a then 1 else 0
  {
  }

  /** A loop node holding its first handler, not yet linked; nothing remains if that fails. */
  method NewLoopNode(heap: Heap, base: nat, id: int, fn: int, arg: int, legacy: bool, ghost a: nat, ghost n: nat)
    returns (err: Err, l: LoopNode?, handle: Option<nat>)
    requires heap.Valid() && a == heap.asked && n == 1 + CostLoop(LoopV(0, [], []), base, id)
    modifies heap
    ensures heap.Valid() && heap.asked >= a && (err != Ok ==> heap.live == old(heap.live))
    ensures Outcome(err, heap.grants, a, n, heap.asked)
    ensures err == Ok <==> l != null
    ensures handle == NewHandle(err == Ok, [], fn, legacy, a, n)
    ensures heap.words == Written(err, old(heap.words), BoundH([], fn, legacy, a, n), arg)
    ensures l != null ==>
              && fresh(l)
              && (forall b | b in l.baseNodes :: fresh(b)) && (forall d | d in IdsOf(l.baseNodes) :: fresh(d))
              && l.Valid()
              && l.View() == AddLoop(LoopV(a, [], []), base, id, fn, legacy, a + 1)
    ensures forall x :: heap.Has(x) == old(heap.Has(x)) + if l != null then BlocksLoop(l.View(), x) else 0
  {
    hide AddLoop, BoundH, Granted, HView, TargetLoop, CostLoop, BlocksLoop, Outcome, NewHandle;
    EmptyLoopNode(a, base, id);
    FirstRefused(heap.grants, a, n, fn, legacy);
    var addr := heap.Calloc();
    if addr.None? {
      return NoMem, null, None;
    }
    l := new LoopNode(addr.value);
    ghost var empty := l.View();
    assert empty == LoopV(addr.value, [], []);
    label L:
    err, handle := l.AddHandler(heap, base, id, fn, arg, legacy);
    OutcomeNext(err, heap.grants, a, CostLoop(empty, base, id), heap.asked, fn, legacy);
    if err != Ok {
      heap.Free(addr.value);
      l := null;
    } else {
      forall x ensures heap.Has(x) == old(heap.Has(x)) + BlocksLoop(l.View(), x) {
        assert heap.Has(x) + BlocksLoop(empty, x) == old@L(heap.Has(x)) + BlocksLoop(l.View(), x);
        assert old@L(heap.Has(x)) == old(heap.Has(x)) + BlocksLoop(empty, x);
      }
    }
  }

  lemma FirstRefused(grants: nat -> bool, a: nat, n: nat, fn: int, legacy: bool)
    ensures NewHandle(false, [], fn, legacy, a, n) == None
    ensures n >= 1 && !grants(a) ==> Outcome(NoMem, grants, a, n, a + 1)
  {
  }

  lemma EmptyLoopNode(a: nat, base: nat, id: int)
    ensures CostLoop(LoopV(a, [], []), base, id) == CostLoop(LoopV(0, [], []), base, id)
    ensures TargetLoop(LoopV(a, [], []), base, id) == []
    ensures forall x :: BlocksLoop(LoopV(a, [], []), x) == if x == a then 1 else 0
  {
  }
}
