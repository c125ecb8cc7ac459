/** The list of loop nodes of an event loop: registering and unregistering across all levels. */
module EventLoopNodes {
  import opened Allocator
  import opened Registry
  import opened RegistryIndex
  import opened RegistryNodes

  ghost function BasesOf(ls: seq<LoopNode>): set<BaseNode>
    reads ls
  {
    if ls == [] then {} else (set b | b in ls[0].baseNodes) + BasesOf(ls[1..])
  }

  ghost function IdsBelow(ls: seq<LoopNode>): set<IdNode>
    reads ls, BasesOf(ls)
  {
    if ls == [] then {} else IdsOf(ls[0].baseNodes) + IdsBelow(ls[1..])
  }

  /** The value of a list of loop nodes. */
  ghost function TreeView(ls: seq<LoopNode>): (t: Tree)
    reads ls, BasesOf(ls), IdsBelow(ls)
    ensures |t| == |ls|
  {
    if ls == [] then [] else [ls[0].View()] + TreeView(ls[1..])
  }

  ghost predicate Apart(l: LoopNode, ls: seq<LoopNode>)
    reads l, l.baseNodes, ls, BasesOf(ls)
  {
    && l !in ls
    && (forall b | b in l.baseNodes :: b !in BasesOf(ls))
    && (forall d | d in IdsOf(l.baseNodes) :: d !in IdsBelow(ls))
  }

  /** Every loop node is well formed, and no two share a node. */
  ghost predicate ValidLoops(ls: seq<LoopNode>)
    reads ls, BasesOf(ls), IdsBelow(ls)
  {
    ls == [] || (ls[0].Valid() && Apart(ls[0], ls[1..]) && ValidLoops(ls[1..]))
  }

  lemma {:induction false} Sets(ls: seq<LoopNode>, ms: seq<LoopNode>)
    ensures BasesOf(ls + ms) == BasesOf(ls) + BasesOf(ms)
    ensures IdsBelow(ls + ms) == IdsBelow(ls) + IdsBelow(ms)
    ensures TreeView(ls + ms) == TreeView(ls) + TreeView(ms)
  {
    hide LoopNode.View, IdsOf;
    if ls == [] {
      assert ls + ms == ms;
    } else {
      assert (ls + ms)[0] == ls[0] && (ls + ms)[1..] == ls[1..] + ms;
      Sets(ls[1..], ms);
    }
  }

  lemma One(l: LoopNode)
    ensures TreeView([l]) == [l.View()]
    ensures BasesOf([l]) == (set b | b in l.baseNodes) && IdsBelow([l]) == IdsOf(l.baseNodes)
    ensures ValidLoops([l]) <==> l.Valid()
  {
    assert [l][1..] == [];
  }

  /** The list `ls + [l]` is well formed if `ls` is and `l` is apart from it. */
  lemma {:induction false} ValidSnoc(ls: seq<LoopNode>, l: LoopNode)
    ensures ValidLoops(ls + [l]) <==> ValidLoops(ls) && l.Valid() && Apart(l, ls)
  {
    One(l);
    if ls == [] {
      assert ls + [l] == [l];
    } else {
      assert (ls + [l])[0] == ls[0] && (ls + [l])[1..] == ls[1..] + [l];
      ValidSnoc(ls[1..], l);
      Sets(ls[1..], [l]);
      ApartSnoc(ls[0], ls[1..], l);
      ApartCons(l, ls[0], ls[1..]);
    }
  }

  lemma Snoc(ls: seq<LoopNode>, l: LoopNode)
    ensures BasesOf(ls + [l]) == BasesOf(ls) + set b | b in l.baseNodes
    ensures IdsBelow(ls + [l]) == IdsBelow(ls) + IdsOf(l.baseNodes)
    ensures TreeView(ls + [l]) == TreeView(ls) + [l.View()]
    ensures ValidLoops(ls + [l]) <==> ValidLoops(ls) && l.Valid() && Apart(l, ls)
  {
    Sets(ls, [l]);
    One(l);
    ValidSnoc(ls, l);
  }

  lemma ApartSnoc(m: LoopNode, ls: seq<LoopNode>, l: LoopNode)
    ensures Apart(m, ls + [l]) <==> Apart(m, ls) && Apart(m, [l])
  {
    Sets(ls, [l]);
  }

  lemma ApartCons(l: LoopNode, m: LoopNode, ls: seq<LoopNode>)
    ensures Apart(l, [m] + ls) <==> Apart(m, [l]) && Apart(l, ls)
  {
    Sets([m], ls);
    One(l);
    One(m);
  }

  /** Loop nodes keep their value while their fields are not assigned. */
  twostate lemma {:induction false} Untouched(ls: seq<LoopNode>)
    requires forall l | l in ls :: l.handlers == old(l.handlers) && l.baseNodes == old(l.baseNodes)
    requires forall b | b in old(BasesOf(ls)) && old(allocated(b)) ::
               b.handlers == old(b.handlers) && b.idNodes == old(b.idNodes)
    requires forall d | d in old(IdsBelow(ls)) && old(allocated(d)) :: d.handlers == old(d.handlers)
    ensures BasesOf(ls) == old(BasesOf(ls)) && IdsBelow(ls) == old(IdsBelow(ls))
    ensures TreeView(ls) == old(TreeView(ls))
    ensures ValidLoops(ls) == old(ValidLoops(ls))
  {
    if ls != [] {
      var l := ls[0];
      assert l in ls;
      forall i | 0 <= i < |l.baseNodes|
        ensures l.baseNodes[i].View() == old(l.baseNodes[i].View())
        ensures l.baseNodes[i].Valid() == old(l.baseNodes[i].Valid())
      {
        var b := l.baseNodes[i];
        assert b in old(BasesOf(ls));
        assert b.idNodes == old(b.idNodes);
        forall d | d in b.idNodes ensures d.handlers == old(d.handlers) { assert d in old(IdsBelow(ls)); }
        assert IdsView(b.idNodes) == old(IdsView(b.idNodes));
      }
      assert BasesView(l.baseNodes) == old(BasesView(l.baseNodes));
      assert IdsOf(l.baseNodes) == old(IdsOf(l.baseNodes));
      Untouched(ls[1..]);
    }
  }

  lemma {:induction false} AllAllocated(ls: seq<LoopNode>)
    ensures forall b | b in BasesOf(ls) :: allocated(b)
    ensures forall d | d in IdsBelow(ls) :: allocated(d)
  {
    if ls != [] { AllAllocated(ls[1..]); }
  }

  /** Adding below one loop node leaves the nodes of `others` as they are. */
  method AddToNode(heap: Heap, l: LoopNode, ghost others: seq<LoopNode>, base: nat, id: int, fn: int, arg: int,
                   legacy: bool, ghost v: LoopV, ghost a: nat)
    returns (err: Err, handle: Option<nat>)
    requires heap.Valid() && l.Valid() && ValidLoops(others) && Apart(l, others)
    requires v == l.View() && a == heap.asked && forall x :: BlocksLoop(v, x) <= heap.Has(x)
    modifies heap, l, l.baseNodes, IdsOf(l.baseNodes)
    ensures heap.Valid() && heap.asked >= a && (err != Ok ==> heap.live == old(heap.live))
    ensures l.Valid() && ValidLoops(others) && Apart(l, others)
    ensures TreeView(others) == old(TreeView(others))
    ensures BasesOf(others) == old(BasesOf(others)) && IdsBelow(others) == old(IdsBelow(others))
    ensures forall b | b in l.baseNodes && b !in old(l.baseNodes) :: fresh(b)
    ensures forall d | d in IdsOf(l.baseNodes) && d !in old(IdsOf(l.baseNodes)) :: fresh(d)
    ensures Outcome(err, heap.grants, a, CostLoop(v, base, id), heap.asked)
    ensures l.View() == if err == Ok then AddLoop(v, base, id, fn, legacy, a) else v
    ensures handle == NewHandle(err == Ok, TargetLoop(v, base, id), fn, legacy, a, CostLoop(v, base, id))
    ensures heap.words == Written(err, old(heap.words),
                                  BoundH(TargetLoop(v, base, id), fn, legacy, a, CostLoop(v, base, id)), arg)
    ensures forall x :: heap.Has(x) + BlocksLoop(v, x) == old(heap.Has(x)) + BlocksLoop(l.View(), x)
  {
    AllAllocated(others);
    hide AddLoop, BoundH, CostLoop, TargetLoop, Granted, BlocksLoop, NewHandle, NoDup, Outcome;
    label L:
    err, handle := l.AddHandler(heap, base, id, fn, arg, legacy);
    Untouched@L(others);
  }

  method AddToLast(heap: Heap, ls: seq<LoopNode>, base: nat, id: int, fn: int, arg: int, legacy: bool,
                   ghost t: Tree, ghost a: nat)
    returns (err: Err, handle: Option<nat>)
    requires heap.Valid() && ValidLoops(ls) && forall x :: Blocks(t, x) <= heap.Has(x)
    requires ls != [] && t == TreeView(ls) && a == heap.asked
    modifies heap, ls, BasesOf(ls), IdsBelow(ls)
    ensures heap.Valid() && heap.asked >= a && (err != Ok ==> heap.live == old(heap.live))
    ensures ValidLoops(ls)
    ensures forall b | b in BasesOf(ls) && b !in old(BasesOf(ls)) :: fresh(b)
    ensures forall d | d in IdsBelow(ls) && d !in old(IdsBelow(ls)) :: fresh(d)
    ensures Outcome(err, heap.grants, a, CostLoop(t[|t| - 1], base, id), heap.asked)
    ensures TreeView(ls) == if err == Ok then AddLast(t, base, id, fn, legacy, a) else t
    ensures handle == NewHandle(err == Ok, TargetLoop(t[|t| - 1], base, id), fn, legacy, a,
                                CostLoop(t[|t| - 1], base, id))
    ensures heap.words == Written(err, old(heap.words),
                                  BoundH(TargetLoop(t[|t| - 1], base, id), fn, legacy, a,
                                         CostLoop(t[|t| - 1], base, id)), arg)
    ensures forall x :: heap.Has(x) + Blocks(t, x) == old(heap.Has(x)) + Blocks(TreeView(ls), x)
  {
    hide AddLoop, BoundH, CostLoop, TargetLoop, Granted, BlocksLoop, Blocks, NewHandle, NoDup, Outcome,
      TreeView, ValidLoops, BasesOf, IdsBelow;
    var k := |ls| - 1;
    var l := ls[k];
    ghost var pre := ls[..k];
    assert ls == pre + [l];
    Snoc(pre, l);
    forall x ensures BlocksLoop(t[k], x) <= heap.Has(x) { BlocksAt(t, k, x); }
    err, handle := AddToNode(heap, l, pre, base, id, fn, arg, legacy, t[k], a);
    Snoc(pre, l);
    assert TreeView(ls) == t[k := l.View()];
    forall x { BlocksSet(t, k, l.View(), x); }
  }

  /** The last loop node receives the handler. */
  function AddLast(t: Tree, base: nat, id: int, fn: int, legacy: bool, a: nat): Tree
    requires t != []
  {
    t[|t| - 1 := AddLoop(t[|t| - 1], base, id, fn, legacy, a)]
  }

  lemma {:induction false} ViewAt(ls: seq<LoopNode>, k: nat)
    requires k < |ls|
    ensures TreeView(ls)[k] == ls[k].View()
  {
    if k > 0 { ViewAt(ls[1..], k - 1); }
  }

  /** A new loop node at the end of the list. */
  method AppendLoop(heap: Heap, ls: seq<LoopNode>, base: nat, id: int, fn: int, arg: int, legacy: bool,
                    ghost t: Tree, ghost a: nat, ghost n: nat)
    returns (err: Err, ls': seq<LoopNode>, handle: Option<nat>)
    requires heap.Valid() && ValidLoops(ls)
    requires t == TreeView(ls) && a == heap.asked && n == 1 + CostLoop(LoopV(0, [], []), base, id)
    modifies heap
    ensures heap.Valid() && heap.asked >= a && (err != Ok ==> heap.live == old(heap.live))
    ensures ValidLoops(ls')
    ensures forall l | l in ls' && l !in ls :: fresh(l)
    ensures forall b | b in BasesOf(ls') && b !in old(BasesOf(ls)) :: fresh(b)
    ensures forall d | d in IdsBelow(ls') && d !in old(IdsBelow(ls)) :: fresh(d)
    ensures Outcome(err, heap.grants, a, n, heap.asked)
    ensures TreeView(ls') == if err == Ok then t + [AddLoop(LoopV(a, [], []), base, id, fn, legacy, a + 1)] else t
    ensures handle == NewHandle(err == Ok, [], fn, legacy, a, n)
    ensures heap.words == Written(err, old(heap.words), BoundH([], fn, legacy, a, n), arg)
    ensures forall x :: heap.Has(x) + Blocks(t, x) == old(heap.Has(x)) + Blocks(TreeView(ls'), x)
  {
    hide AddLoop, BoundH, CostLoop, Granted, BlocksLoop, Blocks, NewHandle, Outcome;
    ls' := ls;
    AllAllocated(ls);
    var l;
    label L:
    err, l, handle := NewLoopNode(heap, base, id, fn, arg, legacy, a, n);
    Untouched@L(ls);
    if err == Ok {
      Snoc(ls, l);
      ls' := ls + [l];
      forall x { BlocksAdd(t, l.View(), x); }
    }
  }

  /** Adding to an open list of loop nodes: a new node at the end, or the last one. */
  method AddToLoops(heap: Heap, ls: seq<LoopNode>, base: nat, id: int, fn: int, arg: int, legacy: bool,
                    ghost t: Tree, ghost a: nat)
    returns (err: Err, ls': seq<LoopNode>, handle: Option<nat>)
    requires heap.Valid() && ValidLoops(ls) && forall x :: Blocks(t, x) <= heap.Has(x)
    requires t == TreeView(ls) && a == heap.asked
    modifies heap, ls, BasesOf(ls), IdsBelow(ls)
    ensures heap.Valid() && heap.asked >= a && (err != Ok ==> heap.live == old(heap.live))
    ensures ValidLoops(ls')
    ensures forall l | l in ls' && l !in ls :: fresh(l)
    ensures forall b | b in BasesOf(ls') && b !in old(BasesOf(ls)) :: fresh(b)
    ensures forall d | d in IdsBelow(ls') && d !in old(IdsBelow(ls)) :: fresh(d)
    ensures Outcome(err, heap.grants, a, Cost(t, base, id), heap.asked)
    ensures TreeView(ls') == if err == Ok then AddTree(t, base, id, fn, legacy, a) else t
    ensures handle == NewHandle(err == Ok, Target(t, base, id), fn, legacy, a, Cost(t, base, id))
    ensures heap.words == Written(err, old(heap.words),
                                  BoundH(Target(t, base, id), fn, legacy, a, Cost(t, base, id)), arg)
    ensures forall x :: heap.Has(x) + Blocks(t, x) == old(heap.Has(x)) + Blocks(TreeView(ls'), x)
  {
    hide AddLoop, BoundH, CostLoop, Granted, Blocks, NewHandle, Outcome, TargetLoop, ValidLoops;
    if ls != [] { ViewAt(ls, |ls| - 1); }
    var isLoopLevelHandler := base == ANY_BASE && id == ANY_ID;
    if ls == [] || (ls[|ls| - 1].baseNodes != [] && isLoopLevelHandler) {
      assert OpensLoop(t, base, id);
      err, ls', handle := AppendLoop(heap, ls, base, id, fn, arg, legacy, t, a, Cost(t, base, id));
    } else {
      assert !OpensLoop(t, base, id);
      ls' := ls;
      assert AddLast(t, base, id, fn, legacy, a) == t[..|t| - 1] + [AddLoop(t[|t| - 1], base, id, fn, legacy, a)];
      err, handle := AddToLast(heap, ls, base, id, fn, arg, legacy, t, a);
    }
  }

  // ---- unregistering ------------------------------------------------------------------

  lemma ApartBoth(l: LoopNode, ls: seq<LoopNode>, ms: seq<LoopNode>)
    ensures Apart(l, ls + ms) <==> Apart(l, ls) && Apart(l, ms)
  {
    Sets(ls, ms);
  }

  lemma ApartSwap(l: LoopNode, m: LoopNode)
    ensures Apart(l, [m]) <==> Apart(m, [l])
  {
    One(l);
    One(m);
  }

  /** The list seen around the node at `i`. */
  lemma {:induction false} ValidAround(ls: seq<LoopNode>, i: nat)
    requires i < |ls|
    ensures var others := ls[..i] + ls[i + 1..];
            ValidLoops(ls) <==> ValidLoops(others) && ls[i].Valid() && Apart(ls[i], others)
  {
    var others := ls[..i] + ls[i + 1..];
    if i == 0 {
      assert others == ls[1..];
    } else {
      var rest := ls[1..];
      var kept := rest[..i - 1] + rest[i..];
      ValidAround(rest, i - 1);
      assert others == [ls[0]] + kept && others[1..] == kept;
      assert rest == rest[..i - 1] + ([ls[i]] + rest[i..]);
      ApartBoth(ls[0], rest[..i - 1], [ls[i]] + rest[i..]);
      ApartBoth(ls[0], [ls[i]], rest[i..]);
      ApartBoth(ls[0], rest[..i - 1], rest[i..]);
      ApartBoth(ls[i], [ls[0]], kept);
      ApartSwap(ls[0], ls[i]);
    }
  }

  lemma Around(ls: seq<LoopNode>, i: nat)
    requires i < |ls|
    ensures var others := ls[..i] + ls[i + 1..];
            && (ValidLoops(ls) <==> ValidLoops(others) && ls[i].Valid() && Apart(ls[i], others))
            && TreeView(ls)[i] == ls[i].View()
            && TreeView(others) == TreeView(ls)[..i] + TreeView(ls)[i + 1..]
            && BasesOf(ls) == BasesOf(others) + (set b | b in ls[i].baseNodes)
            && IdsBelow(ls) == IdsBelow(others) + IdsOf(ls[i].baseNodes)
  {
    hide LoopNode.View, LoopNode.Valid, IdsOf, Apart, ValidLoops, TreeView, BasesOf, IdsBelow;
    ValidAround(ls, i);
    ViewAt(ls, i);
    assert ls == ls[..i] + ([ls[i]] + ls[i + 1..]);
    Sets(ls[..i], [ls[i]] + ls[i + 1..]);
    Sets([ls[i]], ls[i + 1..]);
    Sets(ls[..i], ls[i + 1..]);
    One(ls[i]);
  }

  /** Removing below one loop node leaves the nodes of `others` as they are. */
  method RemoveFromNode(heap: Heap, l: LoopNode, ghost others: seq<LoopNode>, base: nat, id: int, sel: Sel,
                        ghost v: LoopV)
    returns (ok: bool)
    requires heap.Valid() && l.Valid() && ValidLoops(others) && Apart(l, others)
    requires v == l.View() && forall x :: BlocksLoop(v, x) <= heap.Has(x)
    modifies heap`live, heap`words, l, l.baseNodes, IdsOf(l.baseNodes)
    ensures heap.Valid() && Freed(old(heap.words), old(heap.live), heap.words, heap.live)
    ensures l.Valid() && ValidLoops(others) && Apart(l, others)
    ensures TreeView(others) == old(TreeView(others))
    ensures BasesOf(others) == old(BasesOf(others)) && IdsBelow(others) == old(IdsBelow(others))
    ensures (forall b | b in l.baseNodes :: b in old(l.baseNodes)) && IdsOf(l.baseNodes) <= old(IdsOf(l.baseNodes))
    ensures l.View() == RemoveLoop(v, base, id, sel).0 && ok == RemoveLoop(v, base, id, sel).1
    ensures forall x :: heap.Has(x) + BlocksLoop(v, x) == old(heap.Has(x)) + BlocksLoop(l.View(), x)
  {
    AllAllocated(others);
    hide RemoveLoop, BlocksLoop, NoDup, Freed;
    label L:
    ok := l.RemoveHandler(heap, base, id, sel);
    Untouched@L(others);
  }

  lemma Replaced<T>(s: seq<T>, t: seq<T>, i: nat)
    requires i < |s| == |t| && s[..i] + s[i + 1..] == t[..i] + t[i + 1..]
    ensures s == t[i := s[i]]
  {
    forall j | 0 <= j < |s| && j != i ensures s[j] == t[j] {
      var k := if j < i then j else j - 1;
      assert (s[..i] + s[i + 1..])[k] == (t[..i] + t[i + 1..])[k];
    }
  }

  /** One step of the walk: the node at `i` goes when removing from it empties it. */
  method RemoveLoopAt(heap: Heap, ls: seq<LoopNode>, i: nat, base: nat, id: int, sel: Sel, ghost t: Tree)
    returns (emptied: bool)
    requires heap.Valid() && ValidLoops(ls) && i < |ls| && t == TreeView(ls)
    requires forall x :: Blocks(t, x) <= heap.Has(x)
    modifies heap`live, heap`words, ls[i], ls[i].baseNodes, IdsOf(ls[i].baseNodes)
    ensures heap.Valid() && Freed(old(heap.words), old(heap.live), heap.words, heap.live)
    ensures ValidLoops(ls)
    ensures BasesOf(ls) <= old(BasesOf(ls)) && IdsBelow(ls) <= old(IdsBelow(ls))
    ensures var (l, ok) := RemoveLoop(t[i], base, id, sel);
            TreeView(ls) == t[i := l] && emptied == (ok && l.bases == [] && l.handlers == [])
    ensures emptied ==> ls[i].handlers == [] && ls[i].baseNodes == []
    ensures forall x :: heap.Has(x) + Blocks(t, x) == old(heap.Has(x)) + Blocks(TreeView(ls), x)
  {
    var l := ls[i];
    ghost var others := ls[..i] + ls[i + 1..];
    Around(ls, i);
    hide RemoveLoop, BlocksLoop, Blocks, NoDup, Freed;
    forall x ensures BlocksLoop(t[i], x) <= heap.Has(x) { BlocksAt(t, i, x); }
    var ok := RemoveFromNode(heap, l, others, base, id, sel, t[i]);
    Around(ls, i);
    Replaced(TreeView(ls), t, i);
    forall x { BlocksSet(t, i, l.View(), x); }
    emptied := ok && l.baseNodes == [] && l.handlers == [];
  }

  lemma {:induction false} Members(ls: seq<LoopNode>, i: nat)
    requires i < |ls|
    ensures (forall b | b in ls[i].baseNodes :: b in BasesOf(ls)) && IdsOf(ls[i].baseNodes) <= IdsBelow(ls)
  {
    if i > 0 { Members(ls[1..], i - 1); }
  }

  /** Removes below the node at `i`; the node goes too when that empties it. */
  method RemoveOrUnlink(heap: Heap, ls: seq<LoopNode>, i: nat, base: nat, id: int, sel: Sel, ghost t: Tree)
    returns (emptied: bool, ls': seq<LoopNode>)
    requires heap.Valid() && ValidLoops(ls) && i < |ls| && t == TreeView(ls)
    requires forall x :: Blocks(t, x) <= heap.Has(x)
    modifies heap`live, heap`words, ls, BasesOf(ls), IdsBelow(ls)
    ensures heap.Valid() && Freed(old(heap.words), old(heap.live), heap.words, heap.live)
    ensures ValidLoops(ls') && ls' == if emptied then ls[..i] + ls[i + 1..] else ls
    ensures BasesOf(ls') <= old(BasesOf(ls)) && IdsBelow(ls') <= old(IdsBelow(ls))
    ensures var (l, ok) := RemoveLoop(t[i], base, id, sel);
            && emptied == (ok && l.bases == [] && l.handlers == [])
            && TreeView(ls') == if emptied then t[..i] + t[i + 1..] else t[i := l]
    ensures forall x :: heap.Has(x) + Blocks(t, x) == old(heap.Has(x)) + Blocks(TreeView(ls'), x)
  {
    ls' := ls;
    Members(ls, i);
    hide RemoveLoop, Blocks, Freed;
    emptied := RemoveLoopAt(heap, ls, i, base, id, sel, t);
    if emptied {
      ghost var l := RemoveLoop(t[i], base, id, sel).0;
      ghost var w, live := heap.words, heap.live;
      assert t[i := l][..i] == t[..i] && t[i := l][i + 1..] == t[i + 1..];
      ls' := UnlinkLoop(heap, ls, i, t[i := l]);
      FreedThen(old(heap.words), old(heap.live), w, live, heap.words, heap.live);
    }
  }

  /** The walk over the loop nodes: it ends at the first one that becomes empty. */
  method RemoveFromLoops(heap: Heap, ls: seq<LoopNode>, base: nat, id: int, sel: Sel, ghost t: Tree)
    returns (ls': seq<LoopNode>)
    requires heap.Valid() && ValidLoops(ls) && t == TreeView(ls)
    requires forall x :: Blocks(t, x) <= heap.Has(x)
    modifies heap`live, heap`words, ls, BasesOf(ls), IdsBelow(ls)
    ensures heap.Valid() && Freed(old(heap.words), old(heap.live), heap.words, heap.live)
    ensures ValidLoops(ls') && forall l | l in ls' :: l in ls
    ensures BasesOf(ls') <= old(BasesOf(ls)) && IdsBelow(ls') <= old(IdsBelow(ls))
    ensures TreeView(ls') == RemoveTree(t, base, id, sel)
    ensures forall x :: heap.Has(x) + Blocks(t, x) == old(heap.Has(x)) + Blocks(TreeView(ls'), x)
  {
    hide RemoveTree, RemoveLoop, LoopsDone, Blocks, Freed, TreeView, ValidLoops, BasesOf, IdsBelow;
    ghost var done: Tree, rest := [], t;
    LoopsDoneStart(t, base, id, sel);
    FreedNone(heap.words, heap.live);
    ls' := ls;
    var i := 0;
    while i < |ls|
      invariant 0 <= i <= |ls| && ls' == ls
      invariant BasesOf(ls) <= old(BasesOf(ls)) && IdsBelow(ls) <= old(IdsBelow(ls))
      invariant heap.Valid() && ValidLoops(ls)
      invariant Freed(old(heap.words), old(heap.live), heap.words, heap.live)
      invariant |done| == i && TreeView(ls) == done + rest && LoopsDone(t, done, rest, base, id, sel)
      invariant forall x :: heap.Has(x) + Blocks(t, x) == old(heap.Has(x)) + Blocks(TreeView(ls), x)
    {
      ghost var l := RemoveLoop(rest[0], base, id, sel).0;
      LoopsDoneStep(t, done, rest, base, id, sel);
      AtSeam(done, rest, l);
      ghost var w, live := heap.words, heap.live;
      var emptied;
      emptied, ls' := RemoveOrUnlink(heap, ls, i, base, id, sel, done + rest);
      FreedThen(old(heap.words), old(heap.live), w, live, heap.words, heap.live);
      if emptied {
        return;
      }
      done, rest := done + [l], rest[1..];
      i := i + 1;
    }
    LoopsDoneStep(t, done, rest, base, id, sel);
  }

  method UnlinkLoop(heap: Heap, ls: seq<LoopNode>, i: nat, ghost t: Tree) returns (ls': seq<LoopNode>)
    requires heap.Valid() && ValidLoops(ls) && i < |ls| && ls[i].handlers == [] && ls[i].baseNodes == []
    requires t == TreeView(ls) && forall x :: Blocks(t, x) <= heap.Has(x)
    modifies heap`live, heap`words
    ensures heap.Valid() && Freed(old(heap.words), old(heap.live), heap.words, heap.live)
    ensures ls' == ls[..i] + ls[i + 1..] && ValidLoops(ls')
    ensures BasesOf(ls') <= old(BasesOf(ls)) && IdsBelow(ls') <= old(IdsBelow(ls))
    ensures TreeView(ls') == t[..i] + t[i + 1..]
    ensures forall x :: heap.Has(x) + Blocks(t, x) == old(heap.Has(x)) + Blocks(TreeView(ls'), x)
  {
    hide Blocks, TreeView, ValidLoops, BasesOf, IdsBelow;
    ViewAt(ls, i);
    CutEmptyLoop(t, i);
    assert heap.Has(ls[i].addr) >= 1;
    ls' := ls[..i] + ls[i + 1..];
    label L:
    heap.Free(ls[i].addr);
    Untouched@L(ls);
    Around(ls, i);
  }

  /** Frees every node of the list and everything below. */
  method RemoveAllLoops(heap: Heap, ls: seq<LoopNode>, ghost t: Tree)
    requires heap.Valid() && t == TreeView(ls) && forall x :: Blocks(t, x) <= heap.Has(x)
    modifies heap`live, heap`words
    ensures heap.Valid() && forall x :: heap.Has(x) + Blocks(t, x) == old(heap.Has(x))
  {
    hide Blocks, TreeView;
    var rest := ls;
    ghost var u := t;
    while rest != []
      invariant heap.Valid() && u == TreeView(rest)
      invariant forall x :: heap.Has(x) + Blocks(t, x) == old(heap.Has(x)) + Blocks(u, x)
    {
      RemoveFirstLoop(heap, rest, u);
      rest, u := rest[1..], u[1..];
    }
    NoLoopBlocks();
  }

  lemma NoLoopBlocks()
    ensures TreeView([]) == [] && forall x :: Blocks([], x) == 0
  {
  }

  lemma FirstBlocks(ls: seq<LoopNode>, x: nat)
    requires ls != []
    ensures TreeView(ls)[0] == ls[0].View() && TreeView(ls)[1..] == TreeView(ls[1..])
    ensures Blocks(TreeView(ls), x) == BlocksLoop(ls[0].View(), x) + Blocks(TreeView(ls[1..]), x)
    ensures BlocksLoop(ls[0].View(), ls[0].addr) >= 1
  {
  }

  method RemoveFirstLoop(heap: Heap, ls: seq<LoopNode>, ghost t: Tree)
    requires heap.Valid() && ls != [] && t == TreeView(ls) && forall x :: Blocks(t, x) <= heap.Has(x)
    modifies heap`live, heap`words
    ensures heap.Valid() && t != [] && TreeView(ls[1..]) == t[1..]
    ensures forall x :: heap.Has(x) + Blocks(t, x) == old(heap.Has(x)) + Blocks(t[1..], x)
  {
    hide Blocks, BlocksLoop, TreeView, LoopNode.Valid, ValidLoops, BasesOf, IdsBelow;
    var it := ls[0];
    forall x { FirstBlocks(ls, x); }
    ghost var v := it.View();
    FirstBlocks(ls, it.addr);
    label L:
    it.RemoveAllHandler(heap);
    heap.Free(it.addr);
    Untouched@L(ls[1..]);
  }
}
