/** The event loop object: registry, queue, dispatch, creation and deletion. */
module EventLoops {
  import opened Allocator
  import opened Registry
  import opened RegistryOrder
  import opened RegistryRemoval
  import opened RegistryDispatch
  import opened RegistryNodes
  import opened RegistryIndex
  import opened RegistryLegacy
  import opened RegistryOverwrite
  import opened EventLoopNodes
  import opened EventLoopWalks
  import opened EventPosts
  import opened EventRuns

  // ---- registrations own blocks -------------------------------------------------------

  lemma RegHBlock(hs: seq<Entry>, base: nat, id: int, r: Reg)
    requires r in RegsH(hs, base, id)
    ensures BlocksH(hs, r.ctx) >= 1
  {
    var e :| e in hs && r == Reg(e.ctx, base, id, e.fn);
    var k :| 0 <= k < |hs| && hs[k] == e;
    BlockIn(hs, k);
  }

  lemma {:induction false} RegIdsBlock(ids: seq<IdV>, base: nat, r: Reg)
    requires r in RegsIds(ids, base)
    ensures BlocksIds(ids, r.ctx) >= 1
  {
    if r in RegsH(ids[0].handlers, base, ids[0].id) {
      RegHBlock(ids[0].handlers, base, ids[0].id, r);
    } else {
      RegIdsBlock(ids[1..], base, r);
    }
  }

  lemma {:induction false} RegBasesBlock(bs: seq<BaseV>, r: Reg)
    requires r in RegsBases(bs)
    ensures BlocksBases(bs, r.ctx) >= 1
  {
    if r in RegsH(bs[0].handlers, bs[0].base, ANY_ID) {
      RegHBlock(bs[0].handlers, bs[0].base, ANY_ID, r);
    } else if r in RegsIds(bs[0].ids, bs[0].base) {
      RegIdsBlock(bs[0].ids, bs[0].base, r);
    } else {
      RegBasesBlock(bs[1..], r);
    }
  }

  /** The context of a live registration is a block of the registry. */
  lemma {:induction false} RegBlock(t: Tree, r: Reg)
    requires r in Regs(t)
    ensures Blocks(t, r.ctx) >= 1
  {
    if r in RegsH(t[0].handlers, ANY_BASE, ANY_ID) {
      RegHBlock(t[0].handlers, ANY_BASE, ANY_ID, r);
    } else if r in RegsBases(t[0].bases) {
      RegBasesBlock(t[0].bases, r);
    } else {
      RegBlock(t[1..], r);
    }
  }

  /** An overwriting registration writes the argument of a registration under its own key. */
  lemma OverwriteTarget(t: Tree, base: nat, id: int, fn: int, legacy: bool, a: nat)
    ensures Overwrites(t, base, id, fn, legacy) ==>
      Reg(BoundH(Target(t, base, id), fn, legacy, a, Cost(t, base, id)), base, id, fn) in Regs(t)
  {
    if Overwrites(t, base, id, fn, legacy) {
      var hs := Target(t, base, id);
      TargetRegs(t, base, id);
      var e := hs[FirstFn(hs, fn)];
      assert e in hs && Reg(e.ctx, base, id, e.fn) in RegsH(hs, base, id);
    }
  }

  /** The nodes hold the registrations of the flat list, and each of these has an argument to
      be called with. */
  ghost predicate Consistent(t: Tree, flat: seq<Reg>, next: nat, words: map<nat, int>) {
    Coupled(t, flat, next) && forall r | r in flat :: r.ctx in words
  }

  /** The queue is within bounds and holds exactly the accepted events that have not been
      dispatched, with the data they were posted with. */
  ghost predicate QueueOk(queue: seq<Post>, copies: map<nat, seq<byte>>, capacity: nat,
                          accepted: seq<Event>, dispatched: nat)
  {
    && |queue| <= capacity && dispatched <= |accepted|
    && (forall p | p in queue :: p.base > ANY_BASE && p.id != ANY_ID)
    && accepted[dispatched..] == Pending(queue, copies)
  }

  lemma QueueSent(queue: seq<Post>, copies: map<nat, seq<byte>>, capacity: nat,
                  accepted: seq<Event>, dispatched: nat, post: Post)
    requires QueueOk(queue, copies, capacity, accepted, dispatched) && |queue| < capacity
    requires post.base > ANY_BASE && post.id != ANY_ID
    ensures QueueOk(queue + [post], copies, capacity, accepted + [EventOf(post, copies)], dispatched)
  {
    assert Pending(queue + [post], copies) == Pending(queue, copies) + [EventOf(post, copies)];
  }

  lemma QueueReceived(queue: seq<Post>, copies: map<nat, seq<byte>>, capacity: nat,
                      accepted: seq<Event>, dispatched: nat)
    requires QueueOk(queue, copies, capacity, accepted, dispatched) && queue != []
    ensures dispatched < |accepted| && accepted[dispatched] == EventOf(queue[0], copies)
    ensures Addressable(accepted[dispatched])
    ensures QueueOk(queue[1..], copies, capacity, accepted, dispatched + 1)
  {
    assert accepted[dispatched] == accepted[dispatched..][0] == Pending(queue, copies)[0];
    assert queue[0] in queue;
    assert Pending(queue, copies)[1..] == Pending(queue[1..], copies);
  }

  lemma QueueCopied(queue: seq<Post>, copies: map<nat, seq<byte>>, capacity: nat,
                    accepted: seq<Event>, dispatched: nat, a: nat, bytes: seq<byte>)
    requires QueueOk(queue, copies, capacity, accepted, dispatched) && Payloads(queue, a) == 0
    ensures QueueOk(queue, copies[a := bytes], capacity, accepted, dispatched)
  {
    forall i | 0 <= i < |queue| ensures EventOf(queue[i], copies[a := bytes]) == EventOf(queue[i], copies) {
      if queue[i].data.Copied? { PayloadIn(queue, i); }
    }
    assert Pending(queue, copies[a := bytes]) == Pending(queue, copies);
  }

  /** Freeing a block that is no context leaves the registrations callable as before. */
  lemma {:induction false} FreedPayload(t: Tree, flat: seq<Reg>, next: nat, words: map<nat, int>, a: nat)
    requires Consistent(t, flat, next, words) && Blocks(t, a) == 0
    ensures Consistent(t, flat, next, words - {a}) && SameArgs(flat, words, words - {a})
  {
    hide Blocks;
    forall r | r in flat ensures r.ctx != a {
      RegBlock(t, r);
    }
  }

  /** What a successful registration means for the flat list: one more entry at the end that
      holds its own argument, or (legacy, function already in the list it targets) a new
      argument for an entry under the same key. */
  ghost predicate Registered(flat: seq<Reg>, words: map<nat, int>, flat': seq<Reg>, words': map<nat, int>,
                             base: nat, id: int, fn: int, arg: int, handle: Option<nat>)
  {
    match handle
    case Some(h) => flat' == flat + [Reg(h, base, id, fn)] && words' == words[h := arg]
    case None =>
      && flat' == flat
      && exists r | r in flat :: r.base == base && r.id == id && r.fn == fn && words' == words[r.ctx := arg]
  }

  lemma {:induction false} RegisteredIs(t: Tree, flat: seq<Reg>, words: map<nat, int>, base: nat, id: int, fn: int,
                                        arg: int, legacy: bool, a: nat)
    requires Consistent(t, flat, a, words) && ValidKey(base, id)
    ensures var n := Cost(t, base, id);
            var flat' := Appended(t, flat, base, id, fn, legacy, a);
            var words' := words[BoundH(Target(t, base, id), fn, legacy, a, n) := arg];
            && Consistent(AddTree(t, base, id, fn, legacy, a), flat', a + n, words')
            && Registered(flat, words, flat', words', base, id, fn, arg,
                          NewHandle(true, Target(t, base, id), fn, legacy, a, n))
            && NewHandle(true, Target(t, base, id), fn, legacy, a, n).None? == Overwrites(t, base, id, fn, legacy)
  {
    hide Blocks, AddTree, Target, Cost, Coupled;
    RegisterCoupled(t, flat, base, id, fn, legacy, a);
    OverwriteTarget(t, base, id, fn, legacy, a);
    if Overwrites(t, base, id, fn, legacy) {
      InFlat(t, flat, a);
    }
  }

  /** What an unregister call does to the list: the registrations in `gone` are taken out, all
      of them named by the call, the oldest of those always among them; the others keep their
      place, their context and its argument. */
  ghost predicate Unregistered(flat: seq<Reg>, words: map<nat, int>, flat': seq<Reg>, words': map<nat, int>,
                               base: nat, id: int, sel: Sel, gone: set<Reg>)
  {
    && flat' == Without(flat, gone)
    && (forall r | r in gone :: r in flat && Named(r, base, id, sel))
    && ((exists r | r in flat :: Named(r, base, id, sel)) ==> gone != {})
    && (forall k | FirstNamed(flat, k, base, id, sel) :: flat[k] in gone)
    && (forall r | r in flat' :: r.ctx in words' && r.ctx in words && words'[r.ctx] == words[r.ctx])
  }

  lemma {:induction false} UnregisteredIs(t: Tree, flat: seq<Reg>, next: nat, words: map<nat, int>, live: set<nat>,
                       words': map<nat, int>, live': set<nat>, base: nat, id: int, sel: Sel)
    requires Consistent(t, flat, next, words) && ValidKey(base, id) && Freed(words, live, words', live')
    requires forall x | x !in live' :: Blocks(RemoveTree(t, base, id, sel), x) == 0
    ensures var flat' := Without(flat, Gone(t, base, id, sel));
            && Consistent(RemoveTree(t, base, id, sel), flat', next, words')
            && Unregistered(flat, words, flat', words', base, id, sel, Gone(t, base, id, sel))
  {
    hide Blocks, RemoveTree, Gone, Coupled, InOrder, Without;
    var t', gone := RemoveTree(t, base, id, sel), Gone(t, base, id, sel);
    UnregisterCoupled(t, flat, next, base, id, sel);
    InFlat(t, flat, next);
    WithoutMembers(flat, gone);
    forall r | r in Without(flat, gone) ensures r.ctx in words' && r.ctx in words && words'[r.ctx] == words[r.ctx] {
      InFlat(t', Without(flat, gone), next);
      RegBlock(t', r);
    }
  }

  lemma {:induction false} InstanceGone(t: Tree, flat: seq<Reg>, next: nat, words: map<nat, int>,
                                        base: nat, id: int, ctx: nat)
    requires Consistent(t, flat, next, words) && ValidKey(base, id)
    ensures forall k | 0 <= k < |flat| && Named(flat[k], base, id, ByCtx(ctx)) ::
              Without(flat, Gone(t, base, id, ByCtx(ctx))) == flat[..k] + flat[k + 1..]
    ensures (forall r | r in flat :: !Named(r, base, id, ByCtx(ctx))) ==>
              Without(flat, Gone(t, base, id, ByCtx(ctx))) == flat
  {
    UnregisterInstance(t, flat, next, base, id, ctx);
  }

  lemma InFlat(t: Tree, flat: seq<Reg>, next: nat)
    requires Coupled(t, flat, next)
    ensures InOrder(flat) && forall r :: r in flat <==> r in Regs(t)
  {
  }

  lemma Later(t: Tree, flat: seq<Reg>, next: nat, later: nat, words: map<nat, int>)
    requires Consistent(t, flat, next, words) && next <= later
    ensures Consistent(t, flat, later, words)
  {
  }

  /** How many of a loop's objects are the block `x`: its instance, its nodes and contexts,
      and the payloads it has queued. */
  function Owns(addr: nat, t: Tree, queue: seq<Post>, x: nat): nat {
    (if addr == x then 1 else 0) + Blocks(t, x) + Payloads(queue, x)
  }

  lemma OwnsSent(addr: nat, t: Tree, queue: seq<Post>, post: Post, x: nat)
    ensures Owns(addr, t, queue + [post], x) == Owns(addr, t, queue, x) + PayloadOf(post, x)
  {
    PayloadsAdd(queue, post, x);
  }

  lemma OwnsReceived(addr: nat, t: Tree, queue: seq<Post>, x: nat)
    requires queue != []
    ensures Owns(addr, t, queue, x) == Owns(addr, t, queue[1..], x) + PayloadOf(queue[0], x)
  {
  }

  lemma OwnsParts(addr: nat, t: Tree, queue: seq<Post>, x: nat)
    ensures Owns(addr, t, queue, x) == 0 ==> Blocks(t, x) == 0 && Payloads(queue, x) == 0 && x != addr
  {
  }

  lemma OwnsTree(addr: nat, t: Tree, t': Tree, queue: seq<Post>, x: nat)
    ensures Owns(addr, t, queue, x) - Blocks(t, x) == Owns(addr, t', queue, x) - Blocks(t', x) >= 0
  {
  }

  ghost function NodesOf(ls: seq<LoopNode>): (nodes: set<object>)
    reads ls, BasesOf(ls), IdsBelow(ls)
    ensures forall o | o in nodes :: o is LoopNode || o is BaseNode || o is IdNode
  {
    (set l: object | l in ls) + (set b: object | b in BasesOf(ls)) + (set d: object | d in IdsBelow(ls))
  }

  /** A call of esp_event_handler_register_with or esp_event_handler_unregister_with. */
  datatype LegacyCall = Add(base: nat, id: int, fn: int, arg: int) | Drop(base: nat, id: int, fn: int)

  class EventLoop {
    const heap: Heap
    const addr: nat           // the block of the loop instance itself
    const capacity: nat       // the length of the queue
    const task: nat           // the dedicated task, or 0
    var runningTask: nat      // the task that currently runs the loop, or 0
    var loopNodes: seq<LoopNode>
    var queue: seq<Post>
    var copies: map<nat, seq<byte>>   // the contents of the payload blocks
    var calls: seq<Call>              // every handler execution so far
    ghost var flat: seq<Reg>          // the live registrations, oldest first
    ghost var accepted: seq<Event>    // every event accepted so far, as it was posted
    ghost var dispatched: nat         // how many of them have left the queue

    ghost function View(): Tree
      reads this, loopNodes, BasesOf(loopNodes), IdsBelow(loopNodes)
    {
      TreeView(loopNodes)
    }

    /** The nodes of the registry. */
    ghost function Nodes(): (nodes: set<object>)
      reads this, loopNodes, BasesOf(loopNodes), IdsBelow(loopNodes)
      ensures forall o | o in nodes :: o is LoopNode || o is BaseNode || o is IdNode
    {
      NodesOf(loopNodes)
    }

    /** How many of the loop's own objects are the block `x`. */
    ghost function Owned(x: nat): nat
      reads this, loopNodes, BasesOf(loopNodes), IdsBelow(loopNodes)
    {
      Owns(addr, View(), queue, x)
    }

    ghost predicate Valid()
      reads this, heap, loopNodes, BasesOf(loopNodes), IdsBelow(loopNodes)
    {
      && heap.Valid() && ValidLoops(loopNodes) && QueueOk(queue, copies, capacity, accepted, dispatched)
      && Consistent(View(), flat, heap.asked, heap.words)
      && forall x :: Owned(x) <= heap.Has(x)
    }

    /** A loop is as it was while nobody assigns its fields, its nodes' or the allocator's. */
    twostate lemma Undisturbed()
      requires unchanged(this) && unchanged(heap)
      requires forall l | l in old(loopNodes) :: l.handlers == old(l.handlers) && l.baseNodes == old(l.baseNodes)
      requires forall b | b in old(BasesOf(loopNodes)) && old(allocated(b)) ::
                 b.handlers == old(b.handlers) && b.idNodes == old(b.idNodes)
      requires forall d | d in old(IdsBelow(loopNodes)) && old(allocated(d)) :: d.handlers == old(d.handlers)
      ensures Valid() == old(Valid()) && View() == old(View()) && Nodes() == old(Nodes())
    {
      hide Consistent, QueueOk, Owns, TreeView, ValidLoops, BasesOf, IdsBelow;
      Untouched(loopNodes);
      assert forall x :: Owned(x) == old(Owned(x)) && heap.Has(x) == old(heap.Has(x));
    }

    constructor (heap: Heap, addr: nat, capacity: nat, task: nat)
      requires heap.Valid() && heap.Has(addr) == 1
      ensures Valid() && this.heap == heap && this.addr == addr && this.capacity == capacity && this.task == task
      ensures loopNodes == [] && queue == [] && calls == [] && flat == [] && runningTask == 0
      ensures accepted == [] && dispatched == 0
    {
      this.heap, this.addr, this.capacity, this.task := heap, addr, capacity, task;
      runningTask, loopNodes, queue, copies, calls := 0, [], [], map[], [];
      flat, accepted, dispatched := [], [], 0;
    }

    // ---- registering ------------------------------------------------------------------

    /** esp_event_handler_register_with_internal. The handle is the context that was made; only
        instance registrations pass it on to the caller. */
    method RegisterInternal(base: nat, id: int, fn: int, arg: int, legacy: bool)
      returns (err: Err, handle: Option<nat>)
      requires Valid() && base != ANY_BASE
      modifies this`loopNodes, this`flat, heap, Nodes()
      ensures Valid()
      ensures err == InvalidArg <==> base == NULL_BASE && id != ANY_ID
      ensures err != InvalidArg ==>
                err == if Granted(heap.grants, old(heap.asked), Cost(old(View()), Key(base), id)) then Ok else NoMem
      ensures err != Ok ==>
                && handle == None && View() == old(View()) && flat == old(flat)
                && heap.live == old(heap.live) && heap.words == old(heap.words)
      ensures err == Ok ==>
                Registered(old(flat), old(heap.words), flat, heap.words, Key(base), id, fn, arg, handle)
      ensures err == Ok ==> View() == AddTree(old(View()), Key(base), id, fn, legacy, old(heap.asked))
      ensures err == Ok ==> handle.None? == Overwrites(old(View()), Key(base), id, fn, legacy)
      ensures err == Ok && handle.None? ==> legacy && View() == old(View())
      ensures err == Ok ==> heap.asked == old(heap.asked) + Cost(old(View()), Key(base), id)
      ensures err == Ok && handle.Some? ==> handle.value == heap.asked - 1
      ensures heap.words == Written(err, old(heap.words),
                                    BoundH(Target(old(View()), Key(base), id), fn, legacy, old(heap.asked),
                                           Cost(old(View()), Key(base), id)), arg)
      ensures legacy && Once(old(View())) ==> Once(View())
      ensures forall x :: heap.Has(x) + old(Owned(x)) == old(heap.Has(x)) + Owned(x)
      ensures forall o | o in Nodes() && o !in old(Nodes()) :: fresh(o)
    {
      hide Valid, View, Owned, Registered, Granted, Cost, Overwrites, Nodes, Once, AddTree, BoundH, Target;
      if base == NULL_BASE && id != ANY_ID {
        return InvalidArg, None;
      }
      var key := if base == NULL_BASE then ANY_BASE else base;
      RegisterOnce(View(), key, id, fn, legacy, heap.asked);
      err, handle := RegisterKey(key, id, fn, arg, legacy, View(), heap.asked, flat, heap.words);
    }

    method RegisterKey(key: nat, id: int, fn: int, arg: int, legacy: bool,
                       ghost t: Tree, ghost a: nat, ghost rs: seq<Reg>, ghost words: map<nat, int>)
      returns (err: Err, handle: Option<nat>)
      requires Valid() && ValidKey(key, id)
      requires t == View() && a == heap.asked && rs == flat && words == heap.words
      modifies this`loopNodes, this`flat, heap, Nodes()
      ensures Valid()
      ensures err == if Granted(heap.grants, a, Cost(t, key, id)) then Ok else NoMem
      ensures err != Ok ==>
                && handle == None && View() == t && flat == rs
                && heap.live == old(heap.live) && heap.words == words
      ensures err == Ok ==> Registered(rs, words, flat, heap.words, key, id, fn, arg, handle)
      ensures err == Ok ==> View() == AddTree(t, key, id, fn, legacy, a)
      ensures err == Ok ==> handle.None? == Overwrites(t, key, id, fn, legacy)
      ensures err == Ok ==> heap.asked == a + Cost(t, key, id)
      ensures err == Ok && handle.Some? ==> handle.value == heap.asked - 1
      ensures heap.words == Written(err, words, BoundH(Target(t, key, id), fn, legacy, a, Cost(t, key, id)), arg)
      ensures forall x :: heap.Has(x) + old(Owned(x)) == old(heap.Has(x)) + Owned(x)
      ensures forall o | o in Nodes() && o !in old(Nodes()) :: fresh(o)
    {
      hide Blocks, AddTree, Target, Cost, Consistent, QueueOk, Appended, Registered, BoundH, Granted,
        ValidLoops, TreeView, Overwrites, Owns, NodesOf;
      forall x ensures Blocks(t, x) <= heap.Has(x) { assert Owned(x) <= heap.Has(x); OwnsTree(addr, t, t, queue, x); }
      err, handle := AddNodes(key, id, fn, arg, legacy, t, a, Appended(t, flat, key, id, fn, legacy, a));
      forall x { OwnsTree(addr, t, View(), queue, x); }
      if err == Ok {
        RegisteredIs(t, rs, words, key, id, fn, arg, legacy, a);
      } else {
        Later(t, rs, a, heap.asked, words);
      }
    }

    /** A legacy registration and then the same one with another argument: whether the first made a
        registration or overwrote the argument of one, all that the second does is to overwrite it. */
    method RegisterTwice(base: nat, id: int, fn: int, arg1: int, arg2: int)
      returns (first: Err, second: Err, handle: Option<nat>)
      requires Valid() && base != ANY_BASE
      modifies this`loopNodes, this`flat, heap, Nodes()
      ensures Valid()
      ensures first == Ok && second == Ok ==>
                match handle
                case Some(h) =>
                  flat == old(flat) + [Reg(h, Key(base), id, fn)] && heap.words == old(heap.words)[h := arg2]
                case None =>
                  && flat == old(flat)
                  && exists r | r in flat ::
                       r == Reg(r.ctx, Key(base), id, fn) && heap.words == old(heap.words)[r.ctx := arg2]
    {
      hide Valid, View, Owned, Granted, Cost, Overwrites, Nodes, Once, AddTree, BoundH, Target;
      ghost var t, a, key := View(), heap.asked, Key(base);
      ghost var c := BoundH(Target(t, key, id), fn, true, a, Cost(t, key, id));
      Bound(key, id, fn);
      second := NoMem;
      first, handle := RegisterInternal(base, id, fn, arg1, true);
      if first == Ok {
        TwiceSame(t, key, id, fn, a, heap.asked);
        var again;
        second, again := RegisterInternal(base, id, fn, arg2, true);
        if second == Ok {
          assert heap.words == old(heap.words)[c := arg2];
        }
      }
    }

    /** Where a legacy registration writes its argument. */
    lemma Bound(key: nat, id: int, fn: int)
      requires Valid()
      ensures var t, n := View(), Cost(View(), key, id);
              var c := BoundH(Target(t, key, id), fn, true, heap.asked, n);
              if Overwrites(t, key, id, fn, true) then Reg(c, key, id, fn) in flat else c == heap.asked + n - 1
    {
      hide Blocks, Target, Cost, QueueOk, ValidLoops, TreeView, HasFn;
      OverwriteTarget(View(), key, id, fn, true, heap.asked);
      InFlat(View(), flat, heap.asked);
    }

    /** The nodes of a registration; `flat'` is the list of registrations it leads to. */
    method AddNodes(key: nat, id: int, fn: int, arg: int, legacy: bool, ghost t: Tree, ghost a: nat,
                    ghost flat': seq<Reg>)
      returns (err: Err, handle: Option<nat>)
      requires heap.Valid() && ValidLoops(loopNodes) && forall x :: Blocks(t, x) <= heap.Has(x)
      requires t == View() && a == heap.asked
      modifies this`loopNodes, this`flat, heap, Nodes()
      ensures heap.Valid() && heap.asked >= a && (err != Ok ==> heap.live == old(heap.live))
      ensures ValidLoops(loopNodes) && flat == if err == Ok then flat' else old(flat)
      ensures Outcome(err, heap.grants, a, Cost(t, key, id), heap.asked)
      ensures View() == if err == Ok then AddTree(t, key, id, fn, legacy, a) else t
      ensures handle == NewHandle(err == Ok, Target(t, key, id), fn, legacy, a, Cost(t, key, id))
      ensures heap.words == Written(err, old(heap.words),
                                    BoundH(Target(t, key, id), fn, legacy, a, Cost(t, key, id)), arg)
      ensures forall x :: heap.Has(x) + Blocks(t, x) == old(heap.Has(x)) + Blocks(View(), x)
      ensures forall o | o in Nodes() && o !in old(Nodes()) :: fresh(o)
    {
      hide Blocks, AddTree, Target, Cost, BoundH, Granted, Outcome, NewHandle, TreeView, ValidLoops, BasesOf, IdsBelow;
      var ls;
      err, ls, handle := AddToLoops(heap, loopNodes, key, id, fn, arg, legacy, t, a);
      label L:
      loopNodes := ls;
      if err == Ok {
        flat := flat';
      }
      Untouched@L(ls);
    }

    // ---- unregistering ----------------------------------------------------------------

    /** esp_event_handler_unregister_with_internal. */
    method UnregisterInternal(base: nat, id: int, sel: Sel) returns (err: Err)
      requires Valid() && base != ANY_BASE
      modifies this`loopNodes, this`flat, heap`live, heap`words, Nodes()
      ensures Valid()
      ensures err == if base == NULL_BASE && id != ANY_ID then Fail else Ok
      ensures err == Fail ==> View() == old(View()) && flat == old(flat) && heap.live == old(heap.live)
                              && heap.words == old(heap.words)
      ensures err == Ok ==> View() == RemoveTree(old(View()), Key(base), id, sel)
      ensures Once(old(View())) ==> Once(View())
      ensures err == Ok ==> Unregistered(old(flat), old(heap.words), flat, heap.words,
                                         Key(base), id, sel, Gone(old(View()), Key(base), id, sel))
      ensures forall x :: heap.Has(x) + old(Owned(x)) == old(heap.Has(x)) + Owned(x)
      ensures forall o | o in Nodes() && o !in old(Nodes()) :: fresh(o)
    {
      hide Valid, View, Owned, Unregistered, Gone, RemoveTree, Nodes, Once;
      if base == NULL_BASE && id != ANY_ID {
        return Fail;
      }
      var key := if base == NULL_BASE then ANY_BASE else base;
      UnregisterOnce(View(), key, id, sel);
      UnregisterKey(key, id, sel, View(), flat, heap.words);
      err := Ok;
    }

    /** Any run of legacy calls on the loop, failed ones included: no handler list of its nodes ever
        holds a function twice. */
    method RunLegacy(calls: seq<LegacyCall>)
      requires Valid() && Once(View()) && forall c | c in calls :: c.base != ANY_BASE
      modifies this`loopNodes, this`flat, heap, Nodes()
      ensures Valid() && Once(View())
      ensures forall o | o in Nodes() && o !in old(Nodes()) :: fresh(o)
    {
      hide Valid, View, Owned, Registered, Unregistered, Gone, Granted, Cost, Overwrites, AddTree, RemoveTree, Nodes,
        Once;
      var i := 0;
      while i < |calls|
        invariant 0 <= i <= |calls| && Valid() && Once(View())
        invariant forall o | o in Nodes() && o !in old(Nodes()) :: fresh(o)
      {
        var c := calls[i];
        match c {
          case Add(base, id, fn, arg) =>
            var _, _ := RegisterInternal(base, id, fn, arg, true);
          case Drop(base, id, fn) =>
            var _ := UnregisterInternal(base, id, ByFn(fn));
        }
        i := i + 1;
      }
    }

    /** esp_event_handler_instance_unregister_with: a null handle is refused. */
    method InstanceUnregister(base: nat, id: int, handle: Option<nat>) returns (err: Err)
      requires Valid() && base != ANY_BASE
      modifies this`loopNodes, this`flat, heap`live, heap`words, Nodes()
      ensures Valid()
      ensures err == if handle == None then InvalidArg else if base == NULL_BASE && id != ANY_ID then Fail else Ok
      ensures err != Ok ==> flat == old(flat) && heap.live == old(heap.live) && heap.words == old(heap.words)
      ensures err == Ok ==>
        && (forall k | 0 <= k < |old(flat)| && Named(old(flat)[k], Key(base), id, ByCtx(handle.value)) ::
              flat == old(flat)[..k] + old(flat)[k + 1..])
        && ((forall r | r in old(flat) :: !Named(r, Key(base), id, ByCtx(handle.value))) ==> flat == old(flat))
      ensures forall x :: heap.Has(x) + old(Owned(x)) == old(heap.Has(x)) + Owned(x)
      ensures forall o | o in Nodes() && o !in old(Nodes()) :: fresh(o)
    {
      if handle == None {
        return InvalidArg;
      }
      if !(base == NULL_BASE && id != ANY_ID) {
        InstanceGone(View(), flat, heap.asked, heap.words, Key(base), id, handle.value);
      }
      hide Valid, View, Owned, RemoveTree, Named, Gone, Nodes;
      err := UnregisterInternal(base, id, ByCtx(handle.value));
    }

    method UnregisterKey(key: nat, id: int, sel: Sel, ghost t: Tree, ghost rs: seq<Reg>, ghost words: map<nat, int>)
      requires Valid() && ValidKey(key, id)
      requires t == View() && rs == flat && words == heap.words
      modifies this`loopNodes, this`flat, heap`live, heap`words, Nodes()
      ensures Valid() && View() == RemoveTree(t, key, id, sel)
      ensures Unregistered(rs, words, flat, heap.words, key, id, sel, Gone(t, key, id, sel))
      ensures forall x :: heap.Has(x) + old(Owned(x)) == old(heap.Has(x)) + Owned(x)
      ensures forall o | o in Nodes() && o !in old(Nodes()) :: fresh(o)
    {
      hide Blocks, RemoveTree, Consistent, QueueOk, Unregistered, ValidLoops, TreeView, Gone, Owns, Freed, NodesOf;
      forall x ensures Blocks(t, x) <= heap.Has(x) { assert Owned(x) <= heap.Has(x); OwnsTree(addr, t, t, queue, x); }
      RemoveNodes(key, id, sel, t, Without(flat, Gone(t, key, id, sel)));
      forall x { OwnsTree(addr, t, View(), queue, x); }
      forall x | x !in heap.live ensures Blocks(View(), x) == 0 { assert Owned(x) <= heap.Has(x); }
      UnregisteredIs(t, rs, heap.asked, words, old(heap.live), heap.words, heap.live, key, id, sel);
    }

    method RemoveNodes(key: nat, id: int, sel: Sel, ghost t: Tree, ghost flat': seq<Reg>)
      requires heap.Valid() && ValidLoops(loopNodes) && forall x :: Blocks(t, x) <= heap.Has(x)
      requires t == View()
      modifies this`loopNodes, this`flat, heap`live, heap`words, Nodes()
      ensures heap.Valid() && Freed(old(heap.words), old(heap.live), heap.words, heap.live)
      ensures ValidLoops(loopNodes) && flat == flat' && View() == RemoveTree(t, key, id, sel)
      ensures forall x :: heap.Has(x) + Blocks(t, x) == old(heap.Has(x)) + Blocks(View(), x)
      ensures forall o | o in Nodes() && o !in old(Nodes()) :: fresh(o)
    {
      hide Blocks, RemoveTree, Freed, TreeView, ValidLoops, BasesOf, IdsBelow;
      var ls := RemoveFromLoops(heap, loopNodes, key, id, sel, t);
      label L:
      loopNodes, flat := ls, flat';
      Untouched@L(ls);
    }

    // ---- posting ----------------------------------------------------------------------

    /** The loop and a post that is not in the queue own the blocks they refer to. */
    ghost predicate Carries(post: Post)
      reads this, heap, loopNodes, BasesOf(loopNodes), IdsBelow(loopNodes)
    {
      && post.base > ANY_BASE && post.id != ANY_ID
      && forall x :: Owned(x) + PayloadOf(post, x) <= heap.Has(x)
    }

    /** post_instance_delete. */
    method PostInstanceDelete(post: Post)
      requires Valid() && Carries(post)
      modifies heap`live, heap`words
      ensures Valid() && View() == old(View()) && SameArgs(flat, old(heap.words), heap.words)
      ensures heap.live == old(heap.live) - PayloadBlock(post)
      ensures forall x :: heap.Has(x) + PayloadOf(post, x) == old(heap.Has(x))
    {
      hide Consistent, QueueOk, SameArgs, Owns;
      ghost var t, words := View(), heap.words;
      if post.data.Copied? {
        var a := post.data.block;
        assert Owned(a) == 0 by { assert Owned(a) + PayloadOf(post, a) <= heap.Has(a); }
        OwnsParts(addr, t, queue, a);
        FreedPayload(t, flat, heap.asked, heap.words, a);
        label L:
        heap.Free(a);
        Untouched@L(loopNodes);
      } else {
        SameArgsRefl(flat, words);
      }
    }

    /** xQueueSendToBack; `open` is false when the caller did not get the loop's mutex. */
    method Send(post: Post, open: bool) returns (sent: bool)
      requires Valid() && Carries(post)
      modifies this`queue, this`accepted, heap`live, heap`words
      ensures Valid() && View() == old(View()) && SameArgs(flat, old(heap.words), heap.words)
      ensures sent == (open && |old(queue)| < capacity)
      ensures queue == old(queue) + if sent then [post] else []
      ensures heap.live == old(heap.live) - if sent then {} else PayloadBlock(post)
      ensures accepted == old(accepted) + if sent then [EventOf(post, copies)] else []
      ensures forall x :: heap.Has(x) + old(Owned(x)) + PayloadOf(post, x) == old(heap.Has(x)) + Owned(x)
    {
      hide Consistent, QueueOk, SameArgs, Owns;
      ghost var t, q := View(), queue;
      sent := open && |queue| < capacity;
      if sent {
        SameArgsRefl(flat, heap.words);
        QueueSent(queue, copies, capacity, accepted, dispatched, post);
        forall x { OwnsSent(addr, t, q, post, x); }
        label L:
        queue, accepted := queue + [post], accepted + [EventOf(post, copies)];
        Untouched@L(loopNodes);
      } else {
        PostInstanceDelete(post);
      }
    }

    /** The persistent copy of the caller's data on the heap. */
    method CopyData(bytes: seq<byte>, ghost t: Tree) returns (copy: Option<nat>)
      requires Valid() && t == View()
      modifies this`copies, heap
      ensures Valid() && View() == t && heap.words == old(heap.words) && heap.asked == old(heap.asked) + 1
      ensures copy.Some? <==> heap.grants(old(heap.asked))
      ensures heap.live == old(heap.live) + if copy.Some? then {old(heap.asked)} else {}
      ensures copy.Some? ==>
                && copy.value == old(heap.asked) && copy.value in copies && copies[copy.value] == bytes
                && forall x :: Owned(x) + (if x == copy.value then 1 else 0) <= heap.Has(x)
    {
      hide Consistent, QueueOk, Owns, TreeView, ValidLoops, BasesOf, IdsBelow;
      ghost var a := heap.asked;
      assert Owned(a) == 0 by { assert Owned(a) <= heap.Has(a) == 0; }
      OwnsParts(addr, t, queue, a);
      label L:
      copy := heap.Calloc();
      Later(t, flat, a, heap.asked, heap.words);
      if copy.Some? {
        QueueCopied(queue, copies, capacity, accepted, dispatched, a, bytes);
        copies := copies[copy.value := bytes];
      }
      Untouched@L(loopNodes);
    }

    /** esp_event_post_to; `mutexFree` is false when the loop's mutex was not obtained in time. */
    method PostTo(base: nat, id: int, data: array?<byte>, size: nat, mutexFree: bool) returns (err: Err)
      requires Valid() && base != ANY_BASE && (data != null ==> size <= data.Length)
      modifies this`queue, this`copies, this`accepted, heap
      ensures Valid() && View() == old(View()) && SameArgs(flat, old(heap.words), heap.words)
      ensures err == if base == NULL_BASE || id == ANY_ID then InvalidArg
                     else if data != null && size != 0 && !heap.grants(old(heap.asked)) then NoMem
                     else if (task == 0 && !mutexFree) || |old(queue)| >= capacity then Timeout
                     else Ok
      ensures accepted == old(accepted) + if err == Ok then [Event(base, id, Snapshot(data, size))] else []
      ensures err == Ok ==>
                accepted[|old(accepted)|].data == if data != null && size != 0 then Some(data[..size]) else None
      ensures if err == Ok then |queue| == |old(queue)| + 1 && queue[..|old(queue)|] == old(queue)
              else queue == old(queue) && heap.live == old(heap.live)
      ensures heap.asked == old(heap.asked) + if base == NULL_BASE || id == ANY_ID || data == null || size == 0 then 0
                                              else 1
      ensures forall x :: heap.Has(x) + old(Owned(x)) == old(heap.Has(x)) + Owned(x)
    {
      hide Consistent, QueueOk, Owns, TreeView, ValidLoops, BasesOf, IdsBelow, SameArgs;
      SameArgsRefl(flat, heap.words);
      if base == NULL_BASE || id == ANY_ID {
        return InvalidArg;
      }
      var post := Post(base, id, NoData);
      if data != null && size != 0 {
        var copy := CopyData(data[..size], View());
        if copy.None? {
          return NoMem;
        }
        post := post.(data := Copied(copy.value));
      }
      var sent := Send(post, task != 0 || mutexFree);
      err := if sent then Ok else Timeout;
    }

    /** esp_event_isr_post_to: up to four bytes travel in the post itself. */
    method IsrPostTo(base: nat, id: int, data: array?<byte>, size: nat) returns (err: Err)
      requires Valid() && base != ANY_BASE && (data != null ==> size <= data.Length)
      modifies this`queue, this`accepted, heap`live, heap`words
      ensures Valid() && View() == old(View()) && SameArgs(flat, old(heap.words), heap.words)
      ensures err == if base == NULL_BASE || id == ANY_ID || size > VAL_SIZE then InvalidArg
                     else if |old(queue)| >= capacity then Fail
                     else Ok
      ensures accepted == old(accepted) + if err == Ok then [Event(base, id, IsrSnapshot(data, size))] else []
      ensures err == Ok ==>
                match accepted[|old(accepted)|].data
                case None => data == null || size == 0
                case Some(bytes) =>
                  data != null && size > 0 && |bytes| == 4
                  && forall i | 0 <= i < 4 :: bytes[i] == if i < size then data[i] else 0
      ensures if err == Ok then |queue| == |old(queue)| + 1 && queue[..|old(queue)|] == old(queue)
              else queue == old(queue)
      ensures heap.live == old(heap.live)
      ensures forall x :: heap.Has(x) + old(Owned(x)) == old(heap.Has(x)) + Owned(x)
    {
      hide Consistent, QueueOk, Owns, TreeView, ValidLoops, BasesOf, IdsBelow, SameArgs;
      SameArgsRefl(flat, heap.words);
      if base == NULL_BASE || id == ANY_ID {
        return InvalidArg;
      }
      if size > VAL_SIZE {
        return InvalidArg;
      }
      var post := Post(base, id, NoData);
      if data != null && size != 0 {
        post := post.(data := Inline(data[..size] + Zeros(VAL_SIZE - size)));
      }
      var sent := Send(post, true);
      err := if sent then Ok else Fail;
    }

    method PostRequest(r: Request) returns (err: Err)
      requires Valid() && Callers(r)
      modifies this`queue, this`copies, this`accepted, heap
      ensures Valid() && View() == old(View()) && SameArgs(flat, old(heap.words), heap.words)
      ensures err == Answer(r, task, |old(queue)| < capacity, heap.grants(old(heap.asked)))
      ensures accepted == old(accepted) + if err == Ok then [Given(r)] else []
      ensures |queue| == |old(queue)| + (if err == Ok then 1 else 0) && heap.asked == old(heap.asked) + Asks(r)
      ensures forall x :: heap.Has(x) + old(Owned(x)) == old(heap.Has(x)) + Owned(x)
    {
      hide Valid, View, Owned, SameArgs;
      if r.fromIsr {
        err := IsrPostTo(r.base, r.id, r.data, r.size);
      } else {
        err := PostTo(r.base, r.id, r.data, r.size, r.mutexFree);
      }
    }

    /** The posts of other tasks and interrupts that arrive in one turn. */
    method PostAll(requests: seq<Request>, ghost events: seq<Event>, ghost t: Tree) returns (verdicts: seq<Err>)
      requires Valid() && t == View() && Heard(requests, events)
      modifies this`queue, this`copies, this`accepted, heap
      ensures Valid() && View() == t && SameArgs(flat, old(heap.words), heap.words)
      ensures |verdicts| == |events| && accepted == old(accepted) + AcceptedOf(events, verdicts)
      ensures Intake(verdicts, |queue|, heap.asked)
           == Answers(requests, task, capacity, heap.grants, |old(queue)|, old(heap.asked))
      ensures forall x :: heap.Has(x) + old(Owned(x)) == old(heap.Has(x)) + Owned(x)
    {
      hide Valid, View, Owned, SameArgs, AcceptedOf, Answers, Answer, Asks;
      verdicts := [];
      SameArgsRefl(flat, heap.words);
      AcceptedNone();
      AnswersNone(task, capacity, heap.grants, |queue|, heap.asked);
      var i := 0;
      while i < |requests|
        invariant 0 <= i <= |requests| && |verdicts| == i
        invariant forall j | i <= j < |requests| :: events[j] == Given(requests[j])
        invariant Valid() && View() == t && SameArgs(flat, old(heap.words), heap.words)
        invariant accepted == old(accepted) + AcceptedOf(events[..i], verdicts)
        invariant Intake(verdicts, |queue|, heap.asked)
               == Answers(requests[..i], task, capacity, heap.grants, |old(queue)|, old(heap.asked))
        invariant forall x :: heap.Has(x) + old(Owned(x)) == old(heap.Has(x)) + Owned(x)
      {
        ghost var words := heap.words;
        var err := PostRequest(requests[i]);
        SameArgsThen(flat, old(heap.words), words, heap.words);
        AcceptedSnoc(events, i, verdicts, err);
        AnswersNext(requests, i, task, capacity, heap.grants, |old(queue)|, old(heap.asked));
        verdicts := verdicts + [err];
        i := i + 1;
      }
      assert events[..i] == events && requests[..i] == requests;
    }

    // ---- dispatching ------------------------------------------------------------------

    /** A successful xQueueReceive: the caller now owns the payload. */
    method Receive(ghost t: Tree) returns (post: Post)
      requires Valid() && t == View() && queue != []
      modifies this`queue, this`dispatched
      ensures Valid() && View() == t && Carries(post)
      ensures dispatched == old(dispatched) + 1 && queue == old(queue)[1..]
      ensures old(dispatched) < |accepted| && EventOf(post, copies) == accepted[old(dispatched)]
      ensures forall x :: Owned(x) + PayloadOf(post, x) == old(Owned(x))
    {
      hide Consistent, QueueOk, Owns, TreeView, ValidLoops, BasesOf, IdsBelow;
      QueueReceived(queue, copies, capacity, accepted, dispatched);
      forall x { OwnsReceived(addr, t, queue, x); }
      post := queue[0];
      label L:
      queue, dispatched := queue[1..], dispatched + 1;
      Untouched@L(loopNodes);
    }

    /** The walk over the nodes visits the matching registrations of the flat list. */
    lemma WalkSelects(post: Post)
      requires Valid() && Carries(post)
      ensures var e := EventOf(post, copies);
              && e.base == post.base > ANY_BASE && e.id == post.id != ANY_ID
              && Callable(Regs(View()), heap.words) && Shape(View())
              && WalkTree(View(), e.base, e.id) == Select(flat, e.base, e.id)
    {
      hide QueueOk, Owns, TreeView, ValidLoops, BasesOf, IdsBelow, WalkTree, Select, Regs, Shape;
      AllCallable(View(), flat, heap.asked, heap.words);
      DispatchOrder(View(), flat, heap.asked, post.base, post.id);
    }

    /** Runs the handlers of one event. */
    method Execute(post: Post, ghost t: Tree, ghost words: map<nat, int>)
      requires Valid() && Carries(post) && t == View() && words == heap.words
      modifies this`calls
      ensures Valid() && View() == t && Carries(post)
      ensures var e := EventOf(post, copies);
              calls == old(calls) + CallsOf(Select(flat, e.base, e.id), words, e)
      ensures var s := Select(flat, post.base, post.id);
              && |calls| == |old(calls)| + |s| && calls[..|old(calls)|] == old(calls)
              && forall i | 0 <= i < |s| ::
                   && s[i].ctx in words
                   && calls[|old(calls)| + i] == Call(s[i].fn, words[s[i].ctx], EventOf(post, copies))
      ensures forall x :: Owned(x) == old(Owned(x))
    {
      hide Consistent, QueueOk, Owns, TreeView, ValidLoops, BasesOf, IdsBelow, CallsOf, Select, WalkTree, Regs, EventOf,
        Shape, Callable;
      WalkSelects(post);
      label L:
      var executed := ExecuteLoops(heap, loopNodes, EventOf(post, copies), t);
      calls := calls + executed;
      Untouched@L(loopNodes);
    }

    /** One round of the loop in esp_event_loop_run: the oldest event is taken from the queue,
        its handlers run in the order they were registered, each with the argument in its context,
        and its payload is freed. */
    method DispatchNext()
      requires Valid() && queue != []
      modifies this`queue, this`dispatched, this`calls, heap`live, heap`words
      ensures Valid() && View() == old(View()) && SameArgs(flat, old(heap.words), heap.words)
      ensures dispatched == old(dispatched) + 1 <= |accepted| && queue == old(queue)[1..]
      ensures calls == old(calls) + Trace(flat, old(heap.words), accepted[old(dispatched)..dispatched])
      ensures var e := accepted[old(dispatched)];
              var s := Select(flat, e.base, e.id);
              && InOrder(s)
              && (forall r :: r in s <==>
                    && r in flat && (r.id == e.id || r.id == ANY_ID)
                    && (r.base == e.base || (r.base == ANY_BASE && r.id == ANY_ID)))
              && |calls| == |old(calls)| + |s| && calls[..|old(calls)|] == old(calls)
              && forall i | 0 <= i < |s| ::
                   && s[i].ctx in old(heap.words)
                   && calls[|old(calls)| + i] == Call(s[i].fn, old(heap.words)[s[i].ctx], e)
      ensures forall x :: heap.Has(x) + old(Owned(x)) == old(heap.Has(x)) + Owned(x)
    {
      hide Consistent, QueueOk, Owns, TreeView, ValidLoops, BasesOf, IdsBelow,
        CallsOf, Select, SameArgs, Trace, Bytes;
      var post := Receive(View());
      ghost var e := EventOf(post, copies);
      TraceOne(flat, heap.words, e);
      SelectedAre(View(), flat, heap.asked, heap.words, e.base, e.id);
      assert accepted[old(dispatched)..dispatched] == [e];
      Execute(post, View(), heap.words);
      PostInstanceDelete(post);
    }

    // ---- running ----------------------------------------------------------------------

    /** esp_event_loop_run on behalf of the task `me`, from the time `start` on. `given` names
        the events that the arriving posts stand for. */
    method Run(ticksToRun: nat, me: nat, start: nat, turns: seq<Turn>, ghost given: seq<seq<Event>>)
      returns (verdicts: seq<Err>, used: nat, ended: RunEnd, ghost heard: nat, ghost done: seq<Event>)
      requires Valid() && ticksToRun < TICKS && |given| == |turns|
      requires forall i | 0 <= i < |turns| :: Heard(turns[i].arrivals, given[i])
      modifies this`queue, this`copies, this`accepted, this`dispatched, this`calls, this`runningTask, heap
      ensures Valid() && View() == old(View()) && used <= |turns|
      ensures Traced(flat, old(heap.words), old(calls), old(dispatched), heap.words, calls, dispatched, accepted)
      ensures dispatched == old(dispatched) + used <= |accepted| && done == accepted[old(dispatched)..dispatched]
      ensures CallsMade(flat, old(heap.words), done, old(calls), calls)
      ensures heard == (if ended == TimedOut then used + 1 else used) <= |turns|
      ensures |verdicts| == |Joined(given, heard)|
      ensures accepted == old(accepted) + AcceptedOf(Joined(given, heard), verdicts)
      ensures Intake(verdicts, |queue|, heap.asked)
           == TurnAnswers(turns, heard, task, capacity, heap.grants, |old(queue)|, old(heap.asked))
      ensures ticksToRun != MAX_DELAY ==> WithinBudget(turns, used, ticksToRun)
      ensures match ended
              case Expired => ticksToRun != MAX_DELAY && used >= 1 && Charged(turns, used) >= ticksToRun
              case TimedOut =>
                queue == [] && (ticksToRun != MAX_DELAY && used >= 1 ==> Charged(turns, used) < ticksToRun)
              case Cut => used == |turns|
      ensures ended == Expired ==> runningTask == me
      ensures ended != Expired ==> runningTask == if used == 0 then old(runningTask) else 0
      ensures forall x :: heap.Has(x) + old(Owned(x)) == old(heap.Has(x)) + Owned(x)
    {
      hide Valid, View, Owned, Traced, AcceptedOf, Trace, SameArgs, Joined, WithinBudget, Charged, CallsMade,
        TurnAnswers;
      AllHaveArgs();
      verdicts, used, ended, heard := RunTurns(ticksToRun, me, start, turns, given);
      QueueBounds();
      done := accepted[old(dispatched)..dispatched];
      TracedAt(flat, old(heap.words), old(calls), old(dispatched), heap.words, calls, dispatched, accepted, done);
    }

    /** The loop of such a run. */
    method RunTurns(ticksToRun: nat, me: nat, start: nat, turns: seq<Turn>, ghost given: seq<seq<Event>>)
      returns (verdicts: seq<Err>, used: nat, ended: RunEnd, ghost heard: nat)
      requires Valid() && ticksToRun < TICKS && |given| == |turns|
      requires forall i | 0 <= i < |turns| :: Heard(turns[i].arrivals, given[i])
      modifies this`queue, this`copies, this`accepted, this`dispatched, this`calls, this`runningTask, heap
      ensures Valid() && View() == old(View()) && used <= |turns|
      ensures Traced(flat, old(heap.words), old(calls), old(dispatched), heap.words, calls, dispatched, accepted)
      ensures dispatched == old(dispatched) + used
      ensures heard == (if ended == TimedOut then used + 1 else used) <= |turns|
      ensures |verdicts| == |Joined(given, heard)|
      ensures accepted == old(accepted) + AcceptedOf(Joined(given, heard), verdicts)
      ensures Intake(verdicts, |queue|, heap.asked)
           == TurnAnswers(turns, heard, task, capacity, heap.grants, |old(queue)|, old(heap.asked))
      ensures ticksToRun != MAX_DELAY ==> WithinBudget(turns, used, ticksToRun)
      ensures match ended
              case Expired => ticksToRun != MAX_DELAY && used >= 1 && Charged(turns, used) >= ticksToRun
              case TimedOut =>
                queue == [] && (ticksToRun != MAX_DELAY && used >= 1 ==> Charged(turns, used) < ticksToRun)
              case Cut => used == |turns|
      ensures ended == Expired ==> runningTask == me
      ensures ended != Expired ==> runningTask == if used == 0 then old(runningTask) else 0
      ensures forall x :: heap.Has(x) + old(Owned(x)) == old(heap.Has(x)) + Owned(x)
    {
      hide Valid, View, Owned, Traced, AcceptedOf, Trace, SameArgs, Joined, WithinBudget, Charged, Tick32, Sub32,
        TurnAnswers, Answers;
      verdicts, used, ended := [], 0, Cut;
      var clock: nat := start;
      var marker := Tick32(clock);
      var remaining: int := ticksToRun;
      QueueBounds();
      AcceptedNone();
      JoinedNone(given);
      TurnAnswersNone(turns, task, capacity, heap.grants, |queue|, heap.asked);
      BudgetStart(turns, ticksToRun);
      TracedNone(flat, heap.words, calls, dispatched, accepted);
      while used < |turns|
        invariant used <= |turns| && Valid() && View() == old(View())
        invariant Traced(flat, old(heap.words), old(calls), old(dispatched), heap.words, calls, dispatched, accepted)
        invariant dispatched == old(dispatched) + used
        invariant |verdicts| == |Joined(given, used)|
        invariant accepted == old(accepted) + AcceptedOf(Joined(given, used), verdicts)
        invariant Intake(verdicts, |queue|, heap.asked)
               == TurnAnswers(turns, used, task, capacity, heap.grants, |old(queue)|, old(heap.asked))
        invariant ticksToRun != MAX_DELAY ==> marker == Tick32(clock) && remaining == ticksToRun - Charged(turns, used)
        invariant ticksToRun != MAX_DELAY && used >= 1 ==> remaining > 0
        invariant ticksToRun != MAX_DELAY ==> WithinBudget(turns, used, ticksToRun)
        invariant runningTask == if used == 0 then old(runningTask) else 0
        invariant forall j | used <= j < |turns| :: Heard(turns[j].arrivals, given[j])
        invariant forall x :: heap.Has(x) + old(Owned(x)) == old(heap.Has(x)) + Owned(x)
      {
        var turn := turns[used];
        ghost var begun := clock;
        JoinedNext(given, used);
        TurnAnswersNext(turns, used, task, capacity, heap.grants, |old(queue)|, old(heap.asked));
        var answers, received := TakeTurn(turn.arrivals, me, given[used], verdicts, Joined(given, used), old(accepted),
                                          old(heap.words), old(calls), old(dispatched));
        verdicts := verdicts + answers;
        clock := clock + turn.wait;
        if !received {
          ended := TimedOut;
          break;
        }
        clock := clock + turn.lock;
        clock := clock + turn.work;
        used := used + 1;
        if ticksToRun != MAX_DELAY {
          var end := Tick32(clock);
          BudgetStep(turns, used - 1, ticksToRun, begun);
          remaining := remaining - Sub32(end, marker);
          if remaining <= 0 {
            ended := Expired;
            break;
          }
          marker := end;
        }
        MarkRunning(0);
      }
      heard := if ended == TimedOut then used + 1 else used;
    }

    /** A post that a live registration matches, and then any run that gets to the posted event: the
        handler is called with the argument of the registration and the bytes that were posted. */
    method PostAndRun(ghost r: Reg, base: nat, id: int, data: array?<byte>, size: nat, mutexFree: bool,
                      ticksToRun: nat, me: nat, start: nat, turns: seq<Turn>, ghost given: seq<seq<Event>>)
      returns (posted: Err, used: nat)
      requires Valid() && base != ANY_BASE && (data != null ==> size <= data.Length)
      requires r in flat && r.ctx in heap.words && (r.id == ANY_ID || r.id == id)
      requires r.base == base || (r.base == ANY_BASE && r.id == ANY_ID)
      requires ticksToRun < TICKS && |given| == |turns|
      requires forall i | 0 <= i < |turns| :: Heard(turns[i].arrivals, given[i])
      modifies this`queue, this`copies, this`accepted, this`dispatched, this`calls, this`runningTask, heap
      ensures Valid()
      ensures posted == Ok && used > old(|queue|) ==>
                exists k | |old(calls)| <= k < |calls| ::
                  calls[k] == Call(r.fn, old(heap.words)[r.ctx],
                                   Event(base, id, if data != null && size != 0 then Some(data[..size]) else None))
    {
      hide Valid, View, Owned, SameArgs, AcceptedOf, Joined, Traced, WithinBudget, Charged, Select, CallsMade,
        Given, TurnAnswers;
      QueueBounds();
      ghost var words, waiting, made := heap.words, |queue|, calls;
      posted := PostTo(base, id, data, size, mutexFree);
      SameArg(flat, words, heap.words, r);
      ghost var held := heap.words;
      var verdicts, ended; ghost var heard, done;
      verdicts, used, ended, heard, done := Run(ticksToRun, me, start, turns, given);
      if posted == Ok && used > waiting {
        assert accepted[|old(accepted)|] == Event(base, id, Snapshot(data, size));
        assert done[waiting] == accepted[|old(accepted)|];
        Matching(base, id);
        ghost var k := CallsMadeHas(flat, held, done, made, calls, waiting, r);
      }
    }

    /** The same from the registration on: the argument it was given is the one that arrives. */
    method RegisterPostRun(base: nat, id: int, fn: int, arg: int, legacy: bool,
                           eventBase: nat, eventId: int, data: array?<byte>, size: nat, mutexFree: bool,
                           ticksToRun: nat, me: nat, start: nat, turns: seq<Turn>, ghost given: seq<seq<Event>>)
      returns (registered: Err, posted: Err, used: nat)
      requires Valid() && base != ANY_BASE && eventBase != ANY_BASE && (data != null ==> size <= data.Length)
      requires (id == ANY_ID || id == eventId) && (base == eventBase || (base == NULL_BASE && id == ANY_ID))
      requires ticksToRun < TICKS && |given| == |turns|
      requires forall i | 0 <= i < |turns| :: Heard(turns[i].arrivals, given[i])
      modifies this`loopNodes, this`flat, this`queue, this`copies, this`accepted, this`dispatched, this`calls,
        this`runningTask, heap, Nodes()
      ensures Valid()
      ensures registered == Ok && posted == Ok && used > old(|queue|) ==>
                exists k | |old(calls)| <= k < |calls| ::
                  calls[k] == Call(fn, arg, Event(eventBase, eventId,
                                                  if data != null && size != 0 then Some(data[..size]) else None))
    {
      hide Valid, View, Owned, Nodes, Registered, SameArgs, Granted, Cost, Target, BoundH, Overwrites, AddTree, Once;
      ghost var flat0, words0 := flat, heap.words;
      var handle;
      posted, used := Fail, 0;
      registered, handle := RegisterInternal(base, id, fn, arg, legacy);
      if registered == Ok {
        ghost var r := RegisteredHas(flat0, words0, flat, heap.words, Key(base), id, fn, arg, handle);
        posted, used := PostAndRun(r, eventBase, eventId, data, size, mutexFree, ticksToRun, me, start, turns, given);
      }
    }

    lemma Matching(base: nat, id: int)
      requires Valid() && base > ANY_BASE && id != ANY_ID
      ensures forall r :: r in Select(flat, base, id) <==> r in flat && Matches(r, base, id)
    {
      SelectMembers(flat, base, id);
    }

    lemma AllHaveArgs()
      requires Valid()
      ensures forall r | r in flat :: r.ctx in heap.words
    {
    }

    /** Records which task runs the loop. */
    method MarkRunning(task: nat)
      requires Valid()
      modifies this`runningTask
      ensures Valid() && View() == old(View()) && runningTask == task
      ensures forall x :: Owned(x) == old(Owned(x))
    {
      hide Consistent, QueueOk, Owns, TreeView, ValidLoops, BasesOf, IdsBelow;
      label L:
      runningTask := task;
      Untouched@L(loopNodes);
    }

    /** One turn: posts arrive, and the oldest event, if there is one, is dispatched. */
    method TakeTurn(arrivals: seq<Request>, me: nat, ghost events: seq<Event>, ghost verdicts: seq<Err>,
                    ghost before: seq<Event>, ghost accepted0: seq<Event>,
                    ghost w0: map<nat, int>, ghost c0: seq<Call>, ghost d0: nat)
      returns (answers: seq<Err>, received: bool)
      requires Valid() && Heard(arrivals, events) && |verdicts| == |before|
      requires accepted == accepted0 + AcceptedOf(before, verdicts)
      requires Traced(flat, w0, c0, d0, heap.words, calls, dispatched, accepted)
      modifies this`queue, this`copies, this`accepted, this`dispatched, this`calls, this`runningTask, heap
      ensures Valid() && View() == old(View()) && |answers| == |events|
      ensures var q := Answers(arrivals, task, capacity, heap.grants, |old(queue)|, old(heap.asked));
              && answers == q.verdicts && heap.asked == q.asked && received == (q.waiting > 0)
              && |queue| == if received then q.waiting - 1 else 0
      ensures accepted == accepted0 + AcceptedOf(before + events, verdicts + answers)
      ensures Traced(flat, w0, c0, d0, heap.words, calls, dispatched, accepted)
      ensures if received then dispatched == old(dispatched) + 1 && runningTask == me
              else queue == [] && dispatched == old(dispatched) && runningTask == old(runningTask)
      ensures forall x :: heap.Has(x) + old(Owned(x)) == old(heap.Has(x)) + Owned(x)
    {
      hide Valid, View, Owned, Traced, AcceptedOf, SameArgs, Trace, Answers, Select, InOrder;
      answers := Hear(arrivals, events, verdicts, before, accepted0, w0, c0, d0);
      received := queue != [];
      if received {
        MarkRunning(me);
        ghost var words, executed := heap.words, calls;
        DispatchNext();
        TracedDispatch(flat, w0, c0, d0, words, executed, dispatched - 1, accepted, heap.words, calls);
      }
    }

    lemma QueueBounds()
      requires Valid()
      ensures |queue| <= capacity && dispatched + |queue| == |accepted|
    {
      assert |accepted[dispatched..]| == |queue|;
    }

    /** The arrivals of one turn extend the accepted events of a run. */
    method Hear(arrivals: seq<Request>, ghost events: seq<Event>, ghost verdicts: seq<Err>, ghost before: seq<Event>,
                ghost accepted0: seq<Event>, ghost w0: map<nat, int>, ghost c0: seq<Call>, ghost d0: nat)
      returns (answers: seq<Err>)
      requires Valid() && Heard(arrivals, events) && |verdicts| == |before|
      requires accepted == accepted0 + AcceptedOf(before, verdicts)
      requires Traced(flat, w0, c0, d0, heap.words, calls, dispatched, accepted)
      modifies this`queue, this`copies, this`accepted, heap
      ensures Valid() && View() == old(View()) && |answers| == |events|
      ensures Intake(answers, |queue|, heap.asked)
           == Answers(arrivals, task, capacity, heap.grants, |old(queue)|, old(heap.asked))
      ensures accepted == accepted0 + AcceptedOf(before + events, verdicts + answers)
      ensures Traced(flat, w0, c0, d0, heap.words, calls, dispatched, accepted)
      ensures forall x :: heap.Has(x) + old(Owned(x)) == old(heap.Has(x)) + Owned(x)
    {
      hide Valid, View, Owned, Traced, AcceptedOf, SameArgs, Answers;
      ghost var words, was := heap.words, accepted;
      answers := PostAll(arrivals, events, View());
      TracedAccept(flat, w0, c0, d0, words, calls, dispatched, was, heap.words, AcceptedOf(events, answers));
      AcceptedCat(before, verdicts, events, answers);
      Associate(accepted0, AcceptedOf(before, verdicts), AcceptedOf(events, answers));
    }

    // ---- searching and deleting ---------------------------------------------------------

    /** esp_event_is_handler_registered: exactly membership in the list of registrations. */
    method IsHandlerRegistered(base: nat, id: int, fn: int) returns (result: bool)
      requires Valid() && base != ANY_BASE
      ensures result <==> exists r | r in flat :: r.base == Key(base) && r.id == id && r.fn == fn
    {
      SearchAnswers(View(), flat, heap.asked, heap.words, base, id, fn);
      hide Consistent, QueueOk, Owns, TreeView, ValidLoops, BasesOf, IdsBelow, Regs, FoundTree, Holds;
      result := FindInLoops(loopNodes, base, id, fn, View());
    }

    method DeleteNodes(ghost t: Tree)
      requires Valid() && t == View()
      modifies this`loopNodes, this`flat, heap`live, heap`words
      ensures Valid() && loopNodes == []
      ensures forall x :: heap.Has(x) + old(Owned(x)) == old(heap.Has(x)) + Owned(x)
    {
      hide Blocks, QueueOk, Owns, ValidLoops;
      forall x ensures Blocks(t, x) <= heap.Has(x) { assert Owned(x) <= heap.Has(x); OwnsTree(addr, t, t, queue, x); }
      RemoveAllLoops(heap, loopNodes, t);
      loopNodes, flat := [], [];
      NoNodes(heap.asked, heap.words);
      assert View() == [];
      forall x { OwnsTree(addr, t, [], queue, x); }
    }

    /** esp_event_loop_delete: every node, context, payload and the instance itself is freed,
        each exactly once, and nothing else is. */
    method Delete()
      requires Valid()
      modifies this`loopNodes, this`flat, this`queue, this`dispatched, heap`live, heap`words
      ensures heap.Valid() && loopNodes == [] && queue == []
      ensures forall x :: heap.Has(x) + old(Owned(x)) == old(heap.Has(x))
      ensures heap.live <= old(heap.live) && addr !in heap.live
      ensures forall r | r in old(flat) :: r.ctx !in heap.live
      ensures forall p | p in old(queue) && p.data.Copied? :: p.data.block !in heap.live
    {
      hide Consistent, QueueOk, Owns, ValidLoops, BasesOf, IdsBelow, TreeView, SameArgs;
      ContextsOwned();
      PayloadsOwned();
      DeleteNodes(View());
      while queue != []
        invariant Valid() && loopNodes == []
        invariant forall x :: heap.Has(x) + old(Owned(x)) == old(heap.Has(x)) + Owned(x)
        decreases |queue|
      {
        var post := Receive(View());
        PostInstanceDelete(post);
      }
      forall x { OwnsNothing(addr, x); }
      assert Owned(addr) == 1;
      heap.Free(addr);
      forall x | x in heap.live ensures x in old(heap.live) && old(Owned(x)) == 0 {
        assert heap.Has(x) == 1;
        assert heap.Has(x) + old(Owned(x)) == old(heap.Has(x));
      }
    }

    lemma ContextsOwned()
      requires Valid()
      ensures forall r | r in flat :: Owned(r.ctx) >= 1
    {
      hide Blocks, Payloads, ValidLoops, QueueOk;
      InFlat(View(), flat, heap.asked);
      forall r | r in flat ensures Owned(r.ctx) >= 1 {
        RegBlock(View(), r);
      }
    }

    lemma PayloadsOwned()
      ensures forall p | p in queue && p.data.Copied? :: Owned(p.data.block) >= 1
    {
      hide Blocks, Payloads;
      forall p | p in queue && p.data.Copied? ensures Owned(p.data.block) >= 1 {
        var i :| 0 <= i < |queue| && queue[i] == p;
        PayloadIn(queue, i);
      }
    }
  }

  lemma NoNodes(next: nat, words: map<nat, int>)
    ensures TreeView([]) == [] && ValidLoops([]) && Consistent([], [], next, words)
    ensures forall x :: Blocks([], x) == 0
  {
  }

  lemma OwnsNothing(addr: nat, x: nat)
    ensures TreeView([]) == [] && Owns(addr, [], [], x) == if x == addr then 1 else 0
  {
  }

  lemma SearchAnswers(t: Tree, flat: seq<Reg>, next: nat, words: map<nat, int>, base: nat, id: int, fn: int)
    requires Consistent(t, flat, next, words) && base != ANY_BASE
    ensures FoundTree(t, base, id, fn) <==> exists r | r in flat :: r.base == Key(base) && r.id == id && r.fn == fn
  {
    FoundIsRegistered(t, base, id, fn);
    InFlat(t, flat, next);
  }

  /** esp_event_loop_create. The parameters say which of the arguments were given and which
      of the operating system's objects could be made. */
  method Create(heap: Heap, hasArgs: bool, hasResult: bool, queueSize: nat, queueMade: bool, mutexMade: bool,
                task: nat, taskMade: bool)
    returns (err: Err, loop: EventLoop?)
    requires heap.Valid()
    modifies heap
    ensures heap.Valid() && heap.words == old(heap.words)
    ensures err == if !hasArgs || !hasResult then InvalidArg
                   else if !heap.grants(old(heap.asked)) || !queueMade || !mutexMade then NoMem
                   else if task != 0 && !taskMade then Fail
                   else Ok
    ensures loop != null <==> err == Ok
    ensures loop != null ==>
              && fresh(loop) && loop.heap == heap && loop.capacity == queueSize && loop.task == task
              && loop.Valid() && loop.flat == [] && loop.queue == [] && loop.calls == []
              && loop.accepted == [] && loop.dispatched == 0 && loop.runningTask == 0
    ensures forall x :: heap.Has(x) == old(heap.Has(x)) + if loop != null then loop.Owned(x) else 0
  {
    if !hasArgs || !hasResult {
      return InvalidArg, null;
    }
    var block := heap.Calloc();
    if block.None? {
      return NoMem, null;
    }
    err := NoMem;
    var made := false;
    if queueMade && mutexMade {
      if task != 0 && !taskMade {
        err := Fail;
      } else {
        made := true;
      }
    }
    if !made {
      heap.Free(block.value);
      return err, null;
    }
    loop := new EventLoop(heap, block.value, queueSize, task);
    forall x { OwnsNothing(loop.addr, x); }
    err := Ok;
  }

  lemma AllCallable(t: Tree, flat: seq<Reg>, next: nat, words: map<nat, int>)
    requires Consistent(t, flat, next, words)
    ensures Coupled(t, flat, next) && Callable(Regs(t), words)
  {
  }

  lemma SelectedAre(t: Tree, flat: seq<Reg>, next: nat, words: map<nat, int>, base: nat, id: int)
    requires Consistent(t, flat, next, words) && base > ANY_BASE && id != ANY_ID
    ensures InOrder(Select(flat, base, id))
    ensures forall r :: r in Select(flat, base, id) <==>
              && r in flat && (r.id == id || r.id == ANY_ID)
              && (r.base == base || (r.base == ANY_BASE && r.id == ANY_ID))
  {
    SelectMembers(flat, base, id);
  }

  /** After a successful registration the handler is there with its argument. */
  lemma RegisteredHas(flat: seq<Reg>, words: map<nat, int>, flat': seq<Reg>, words': map<nat, int>,
                      base: nat, id: int, fn: int, arg: int, handle: Option<nat>)
    returns (r: Reg)
    requires Registered(flat, words, flat', words', base, id, fn, arg, handle)
    ensures r in flat' && r == Reg(r.ctx, base, id, fn) && r.ctx in words' && words'[r.ctx] == arg
  {
    match handle
    case Some(h) =>
      r := Reg(h, base, id, fn);
    case None =>
      r :| r in flat && r.base == base && r.id == id && r.fn == fn && words' == words[r.ctx := arg];
  }

  lemma SameArg(flat: seq<Reg>, words: map<nat, int>, words': map<nat, int>, r: Reg)
    requires SameArgs(flat, words, words') && r in flat && r.ctx in words
    ensures r.ctx in words' && words'[r.ctx] == words[r.ctx]
  {
  }

  lemma TraceOne(flat: seq<Reg>, words: map<nat, int>, e: Event)
    ensures Trace(flat, words, [e]) == CallsOf(Select(flat, e.base, e.id), words, e)
  {
    assert [e][1..] == [];
  }
}
