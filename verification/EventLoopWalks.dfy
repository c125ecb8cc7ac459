/** The read-only walks over the nodes of an event loop: executing the handlers of an event
    and searching for a handler. */
module EventLoopWalks {
  import opened Allocator
  import opened Registry
  import opened RegistryOrder
  import opened RegistryNodes
  import opened EventLoopNodes
  import opened EventPosts
  import opened RegistryDispatch

  lemma BasesHead(bs: seq<BaseNode>)
    requires bs != []
    ensures BasesView(bs) != [] && BasesView(bs)[0] == bs[0].View() && BasesView(bs)[1..] == BasesView(bs[1..])
  {
  }

  lemma LoopsHead(ls: seq<LoopNode>)
    requires ls != []
    ensures TreeView(ls) != [] && TreeView(ls)[0] == ls[0].View() && TreeView(ls)[1..] == TreeView(ls[1..])
  {
  }

  lemma Regrouped<T>(s: seq<T>, x: seq<T>, y: seq<T>)
    ensures s + x + y == s + (x + y)
  {
  }

  // ---- executing the handlers of an event ---------------------------------------------

  /** Every registration in `rs` has an argument to be called with. */
  ghost predicate Callable(rs: set<Reg>, words: map<nat, int>) {
    forall r | r in rs :: r.ctx in words
  }

  lemma CallableEntry(hs: seq<Entry>, k: nat, base: nat, id: int, words: map<nat, int>)
    requires k < |hs| && Callable(RegsH(hs, base, id), words)
    ensures hs[k].ctx in words
  {
    assert hs[k] in hs;
    assert Reg(hs[k].ctx, base, id, hs[k].fn) in RegsH(hs, base, id);
  }

  method ExecuteHandlers(heap: Heap, handlers: seq<HandlerNode>, key: nat, kid: int, e: Event)
    returns (calls: seq<Call>)
    requires Callable(RegsH(HView(handlers), key, kid), heap.words)
    ensures calls == CallsOf(WalkH(HView(handlers), key, kid), heap.words, e)
    ensures |calls| == |handlers|
    ensures forall i | 0 <= i < |handlers| ::
              handlers[i].ctx in heap.words && calls[i] == Call(handlers[i].handler, heap.words[handlers[i].ctx], e)
  {
    calls := [];
    var i := 0;
    while i < |handlers|
      invariant 0 <= i <= |handlers|
      invariant calls == CallsOf(WalkH(HView(handlers), key, kid), heap.words, e)[..i]
      invariant forall j | 0 <= j < i ::
                  handlers[j].ctx in heap.words && calls[j] == Call(handlers[j].handler, heap.words[handlers[j].ctx], e)
    {
      CallableEntry(HView(handlers), i, key, kid, heap.words);
      calls := calls + [Call(handlers[i].handler, heap.words[handlers[i].ctx], e)];
      i := i + 1;
    }
  }

  /** The first id node with the event's id; the others are skipped. */
  method ExecuteIds(heap: Heap, idNodes: seq<IdNode>, e: Event, ghost ids: seq<IdV>) returns (calls: seq<Call>)
    requires ids == IdsView(idNodes) && Callable(RegsIds(ids, e.base), heap.words)
    ensures calls == CallsOf(WalkIds(ids, e.base, e.id), heap.words, e)
  {
    var rest := idNodes;
    while rest != []
      invariant Callable(RegsIds(IdsView(rest), e.base), heap.words)
      invariant WalkIds(ids, e.base, e.id) == WalkIds(IdsView(rest), e.base, e.id)
    {
      assert IdsView(rest)[0] == rest[0].View() && IdsView(rest)[1..] == IdsView(rest[1..]);
      if rest[0].id == e.id {
        calls := ExecuteHandlers(heap, rest[0].handlers, e.base, e.id, e);
        return;
      }
      rest := rest[1..];
    }
    calls := [];
  }

  lemma ExecuteBasesStep(bs: seq<BaseV>, words: map<nat, int>, e: Event)
    requires bs != [] && Callable(RegsBases(bs), words)
    ensures Callable(RegsBases(bs[1..]), words)
    ensures Callable(RegsH(bs[0].handlers, bs[0].base, ANY_ID), words)
    ensures Callable(RegsIds(bs[0].ids, bs[0].base), words)
    ensures CallsOf(WalkBases(bs, e.base, e.id), words, e) ==
      (if bs[0].base == e.base
       then CallsOf(WalkH(bs[0].handlers, e.base, ANY_ID), words, e)
            + CallsOf(WalkIds(bs[0].ids, e.base, e.id), words, e)
       else [])
      + CallsOf(WalkBases(bs[1..], e.base, e.id), words, e)
  {
    hide WalkH, WalkIds, RegsH, RegsIds;
    var own, below := WalkH(bs[0].handlers, e.base, ANY_ID), WalkIds(bs[0].ids, e.base, e.id);
    CallsOfBoth(own, below, words, e);
    CallsOfBoth(if bs[0].base == e.base then own + below else [], WalkBases(bs[1..], e.base, e.id), words, e);
  }

  lemma ExecuteLoopsStep(t: Tree, words: map<nat, int>, e: Event)
    requires t != [] && Callable(Regs(t), words)
    ensures Callable(Regs(t[1..]), words)
    ensures Callable(RegsH(t[0].handlers, ANY_BASE, ANY_ID), words) && Callable(RegsBases(t[0].bases), words)
    ensures CallsOf(WalkTree(t, e.base, e.id), words, e) ==
      CallsOf(WalkH(t[0].handlers, ANY_BASE, ANY_ID), words, e) + CallsOf(WalkBases(t[0].bases, e.base, e.id), words, e)
      + CallsOf(WalkTree(t[1..], e.base, e.id), words, e)
  {
    hide WalkH, WalkBases, RegsH, RegsBases;
    var own, below := WalkH(t[0].handlers, ANY_BASE, ANY_ID), WalkBases(t[0].bases, e.base, e.id);
    CallsOfBoth(own, below, words, e);
    CallsOfBoth(own + below, WalkTree(t[1..], e.base, e.id), words, e);
  }

  lemma NothingToExecute(words: map<nat, int>, e: Event)
    ensures CallsOf(WalkBases([], e.base, e.id), words, e) == []
    ensures CallsOf(WalkTree([], e.base, e.id), words, e) == []
  {
  }

  /** The handlers of one base node, if it is a node for the event's base. */
  method ExecuteBase(heap: Heap, b: BaseNode, e: Event, ghost v: BaseV) returns (calls: seq<Call>)
    requires v == b.View()
    requires Callable(RegsH(v.handlers, v.base, ANY_ID), heap.words) && Callable(RegsIds(v.ids, v.base), heap.words)
    ensures calls == if v.base == e.base
                     then CallsOf(WalkH(v.handlers, e.base, ANY_ID), heap.words, e)
                          + CallsOf(WalkIds(v.ids, e.base, e.id), heap.words, e)
                     else []
  {
    hide WalkH, WalkIds, RegsH, RegsIds, CallsOf, Callable;
    calls := [];
    if b.base == e.base {
      var own := ExecuteHandlers(heap, b.handlers, e.base, ANY_ID, e);
      var below := ExecuteIds(heap, b.idNodes, e, v.ids);
      calls := own + below;
    }
  }

  /** One step of the walk over base nodes. */
  method ExecuteFirstBase(heap: Heap, baseNodes: seq<BaseNode>, e: Event, ghost bs: seq<BaseV>)
    returns (calls: seq<Call>)
    requires baseNodes != [] && bs == BasesView(baseNodes) && Callable(RegsBases(bs), heap.words)
    ensures BasesView(baseNodes[1..]) == bs[1..] && Callable(RegsBases(bs[1..]), heap.words)
    ensures CallsOf(WalkBases(bs, e.base, e.id), heap.words, e)
         == calls + CallsOf(WalkBases(bs[1..], e.base, e.id), heap.words, e)
  {
    hide WalkH, WalkIds, RegsH, RegsIds, WalkBases, RegsBases, CallsOf, Callable;
    BasesHead(baseNodes);
    ExecuteBasesStep(bs, heap.words, e);
    calls := ExecuteBase(heap, baseNodes[0], e, bs[0]);
  }

  method ExecuteBases(heap: Heap, baseNodes: seq<BaseNode>, e: Event, ghost bs: seq<BaseV>)
    returns (calls: seq<Call>)
    requires bs == BasesView(baseNodes) && Callable(RegsBases(bs), heap.words)
    ensures calls == CallsOf(WalkBases(bs, e.base, e.id), heap.words, e)
  {
    hide WalkBases, RegsBases, CallsOf, Callable, BasesView;
    calls := [];
    NothingToExecute(heap.words, e);
    var rest := baseNodes;
    ghost var u := bs;
    while rest != []
      invariant u == BasesView(rest) && Callable(RegsBases(u), heap.words)
      invariant CallsOf(WalkBases(bs, e.base, e.id), heap.words, e)
             == calls + CallsOf(WalkBases(u, e.base, e.id), heap.words, e)
    {
      var first := ExecuteFirstBase(heap, rest, e, u);
      rest, u := rest[1..], u[1..];
      Regrouped(calls, first, CallsOf(WalkBases(u, e.base, e.id), heap.words, e));
      calls := calls + first;
    }
  }

  /** The handlers of one loop node. */
  method ExecuteLoop(heap: Heap, l: LoopNode, e: Event, ghost v: LoopV) returns (calls: seq<Call>)
    requires v == l.View()
    requires Callable(RegsH(v.handlers, ANY_BASE, ANY_ID), heap.words) && Callable(RegsBases(v.bases), heap.words)
    ensures calls == CallsOf(WalkH(v.handlers, ANY_BASE, ANY_ID), heap.words, e)
                     + CallsOf(WalkBases(v.bases, e.base, e.id), heap.words, e)
  {
    hide WalkH, WalkBases, RegsH, RegsBases, CallsOf, Callable;
    var own := ExecuteHandlers(heap, l.handlers, ANY_BASE, ANY_ID, e);
    var below := ExecuteBases(heap, l.baseNodes, e, v.bases);
    calls := own + below;
  }

  /** One step of the walk over loop nodes. */
  method ExecuteFirstLoop(heap: Heap, loopNodes: seq<LoopNode>, e: Event, ghost t: Tree) returns (calls: seq<Call>)
    requires loopNodes != [] && t == TreeView(loopNodes) && Callable(Regs(t), heap.words)
    ensures TreeView(loopNodes[1..]) == t[1..] && Callable(Regs(t[1..]), heap.words)
    ensures CallsOf(WalkTree(t, e.base, e.id), heap.words, e)
         == calls + CallsOf(WalkTree(t[1..], e.base, e.id), heap.words, e)
  {
    hide WalkH, WalkBases, RegsH, RegsBases, WalkTree, Regs, CallsOf, Callable, TreeView, BasesOf, IdsBelow,
      ValidLoops, LoopNode.View;
    LoopsHead(loopNodes);
    ExecuteLoopsStep(t, heap.words, e);
    label L:
    calls := ExecuteLoop(heap, loopNodes[0], e, t[0]);
    Untouched@L(loopNodes[1..]);
  }

  lemma WalkedCallable(t: Tree, words: map<nat, int>, e: Event)
    requires Callable(Regs(t), words) && Shape(t) && e.base > ANY_BASE && e.id != ANY_ID
    ensures var w := WalkTree(t, e.base, e.id);
            forall i | 0 <= i < |w| ::
              w[i].ctx in words && CallsOf(w, words, e)[i] == Call(w[i].fn, words[w[i].ctx], e)
  {
    hide WalkTree, CallsOf, Regs, Shape;
    WalkTreeOver(t, e.base, e.id);
    var w := WalkTree(t, e.base, e.id);
    assert forall i | 0 <= i < |w| :: w[i] in w;
    CallsOfAt(w, words, e);
  }

  /** The nested loops of esp_event_loop_run that execute the handlers of one event. */
  method ExecuteLoops(heap: Heap, loopNodes: seq<LoopNode>, e: Event, ghost t: Tree) returns (calls: seq<Call>)
    requires t == TreeView(loopNodes) && Callable(Regs(t), heap.words)
    requires Shape(t) && e.base > ANY_BASE && e.id != ANY_ID
    ensures calls == CallsOf(WalkTree(t, e.base, e.id), heap.words, e)
    ensures var w := WalkTree(t, e.base, e.id);
            |calls| == |w| && forall i | 0 <= i < |w| ::
              w[i].ctx in heap.words && calls[i] == Call(w[i].fn, heap.words[w[i].ctx], e)
  {
    hide WalkTree, Regs, CallsOf, Callable, TreeView, BasesOf, IdsBelow, Shape;
    WalkedCallable(t, heap.words, e);
    calls := [];
    NothingToExecute(heap.words, e);
    var rest := loopNodes;
    ghost var u := t;
    while rest != []
      invariant u == TreeView(rest) && Callable(Regs(u), heap.words)
      invariant CallsOf(WalkTree(t, e.base, e.id), heap.words, e)
             == calls + CallsOf(WalkTree(u, e.base, e.id), heap.words, e)
    {
      var first := ExecuteFirstLoop(heap, rest, e, u);
      rest, u := rest[1..], u[1..];
      Regrouped(calls, first, CallsOf(WalkTree(u, e.base, e.id), heap.words, e));
      calls := calls + first;
    }
  }

  // ---- searching for a handler ----------------------------------------------------------

  function FoundIds(ids: seq<IdV>, id: int, fn: int): bool {
    ids != [] && ((ids[0].id == id && HasFn(ids[0].handlers, fn)) || FoundIds(ids[1..], id, fn))
  }

  function FoundBases(bs: seq<BaseV>, base: nat, id: int, fn: int): bool {
    bs != [] && (
      || (bs[0].base == base && ((id == ANY_ID && HasFn(bs[0].handlers, fn)) || FoundIds(bs[0].ids, id, fn)))
      || FoundBases(bs[1..], base, id, fn))
  }

  /** What the nested search loops look for; `base` is as the caller wrote it. */
  function FoundTree(t: Tree, base: nat, id: int, fn: int): bool {
    t != [] && (
      || (base == NULL_BASE && id == ANY_ID && HasFn(t[0].handlers, fn))
      || FoundBases(t[0].bases, base, id, fn)
      || FoundTree(t[1..], base, id, fn))
  }

  ghost predicate Holds(rs: set<Reg>, base: nat, id: int, fn: int) {
    exists r | r in rs :: r.base == base && r.id == id && r.fn == fn
  }

  lemma HoldsH(hs: seq<Entry>, key: nat, kid: int, base: nat, id: int, fn: int)
    ensures Holds(RegsH(hs, key, kid), base, id, fn) <==> key == base && kid == id && HasFn(hs, fn)
  {
    if key == base && kid == id && HasFn(hs, fn) {
      var i :| 0 <= i < |hs| && hs[i].fn == fn;
      assert hs[i] in hs && Reg(hs[i].ctx, base, id, fn) in RegsH(hs, key, kid);
    }
  }

  lemma HoldsBoth(xs: set<Reg>, ys: set<Reg>, base: nat, id: int, fn: int)
    ensures Holds(xs + ys, base, id, fn) <==> Holds(xs, base, id, fn) || Holds(ys, base, id, fn)
  {
    if r :| r in xs && r.base == base && r.id == id && r.fn == fn { assert r in xs + ys; }
    if r :| r in ys && r.base == base && r.id == id && r.fn == fn { assert r in xs + ys; }
  }

  lemma {:induction false} HoldsIds(ids: seq<IdV>, key: nat, base: nat, id: int, fn: int)
    requires ShapeIds(ids)
    ensures Holds(RegsIds(ids, key), base, id, fn) <==> key == base && FoundIds(ids, id, fn)
    ensures id == ANY_ID ==> !FoundIds(ids, id, fn)
  {
    hide RegsH, Holds;
    if ids == [] {
      HoldsH([], key, id, base, id, fn);
      NoRegs(key, id);
    } else {
      HoldsIds(ids[1..], key, base, id, fn);
      HoldsH(ids[0].handlers, key, ids[0].id, base, id, fn);
      HoldsBoth(RegsH(ids[0].handlers, key, ids[0].id), RegsIds(ids[1..], key), base, id, fn);
    }
  }

  lemma {:induction false} HoldsBases(bs: seq<BaseV>, base: nat, id: int, fn: int)
    requires ShapeBases(bs)
    ensures Holds(RegsBases(bs), base, id, fn) <==> FoundBases(bs, base, id, fn)
    ensures base == NULL_BASE || base == ANY_BASE ==> !FoundBases(bs, base, id, fn)
  {
    hide RegsH, RegsIds, Holds, Older;
    if bs == [] {
      HoldsH([], base, id, base, id, fn);
      NoRegs(base, id);
    } else {
      var b := bs[0];
      HoldsBases(bs[1..], base, id, fn);
      HoldsH(b.handlers, b.base, ANY_ID, base, id, fn);
      HoldsIds(b.ids, b.base, base, id, fn);
      HoldsBoth(RegsH(b.handlers, b.base, ANY_ID), RegsIds(b.ids, b.base), base, id, fn);
      HoldsBoth(RegsBase(b), RegsBases(bs[1..]), base, id, fn);
    }
  }

  /** The search finds exactly the registrations under the key, function by function. */
  lemma {:induction false} FoundIsRegistered(t: Tree, base: nat, id: int, fn: int)
    requires Shape(t) && base != ANY_BASE
    ensures FoundTree(t, base, id, fn) <==> Holds(Regs(t), Key(base), id, fn)
  {
    hide RegsH, RegsBases, Holds, Older;
    if t == [] {
      HoldsH([], base, id, base, id, fn);
      HoldsH([], Key(base), id, Key(base), id, fn);
      NoRegs(Key(base), id);
    } else {
      var l := t[0];
      FoundIsRegistered(t[1..], base, id, fn);
      HoldsH(l.handlers, ANY_BASE, ANY_ID, Key(base), id, fn);
      HoldsBases(l.bases, Key(base), id, fn);
      HoldsBases(l.bases, base, id, fn);
      HoldsBoth(RegsH(l.handlers, ANY_BASE, ANY_ID), RegsBases(l.bases), Key(base), id, fn);
      HoldsBoth(RegsLoop(l), Regs(t[1..]), Key(base), id, fn);
    }
  }

  lemma NothingToFind(base: nat, id: int, fn: int)
    ensures !FoundBases([], base, id, fn) && !FoundTree([], base, id, fn)
  {
  }

  method FindHandler(handlers: seq<HandlerNode>, fn: int) returns (found: bool)
    ensures found == HasFn(HView(handlers), fn)
  {
    var i := 0;
    while i < |handlers|
      invariant 0 <= i <= |handlers|
      invariant forall j | 0 <= j < i :: handlers[j].handler != fn
    {
      if handlers[i].handler == fn {
        assert HView(handlers)[i].fn == fn;
        return true;
      }
      i := i + 1;
    }
    found := false;
  }

  method FindInIds(idNodes: seq<IdNode>, id: int, fn: int, ghost ids: seq<IdV>) returns (found: bool)
    requires ids == IdsView(idNodes)
    ensures found == FoundIds(ids, id, fn)
  {
    var rest := idNodes;
    while rest != []
      invariant FoundIds(ids, id, fn) == FoundIds(IdsView(rest), id, fn)
    {
      assert IdsView(rest)[0] == rest[0].View() && IdsView(rest)[1..] == IdsView(rest[1..]);
      if rest[0].id == id {
        found := FindHandler(rest[0].handlers, fn);
        if found {
          return;
        }
      }
      rest := rest[1..];
    }
    found := false;
  }

  lemma FoundBasesStep(bs: seq<BaseV>, base: nat, id: int, fn: int)
    requires bs != []
    ensures FoundBases(bs, base, id, fn) == (
      || (bs[0].base == base && ((id == ANY_ID && HasFn(bs[0].handlers, fn)) || FoundIds(bs[0].ids, id, fn)))
      || FoundBases(bs[1..], base, id, fn))
  {
  }

  lemma FoundTreeStep(t: Tree, base: nat, id: int, fn: int)
    requires t != []
    ensures FoundTree(t, base, id, fn) == (
      || (base == NULL_BASE && id == ANY_ID && HasFn(t[0].handlers, fn))
      || FoundBases(t[0].bases, base, id, fn)
      || FoundTree(t[1..], base, id, fn))
  {
  }

  method FindInBases(baseNodes: seq<BaseNode>, base: nat, id: int, fn: int, ghost bs: seq<BaseV>)
    returns (found: bool)
    requires bs == BasesView(baseNodes)
    ensures found == FoundBases(bs, base, id, fn)
  {
    hide HasFn, FoundIds, FoundBases;
    ghost var u := bs;
    ghost var all := FoundBases(u, base, id, fn);
    NothingToFind(base, id, fn);
    var rest := baseNodes;
    while rest != []
      invariant u == BasesView(rest) && all == FoundBases(u, base, id, fn)
    {
      var b := rest[0];
      BasesHead(rest);
      ghost var v := u[0];
      FoundBasesStep(u, base, id, fn);
      rest, u := rest[1..], u[1..];
      if b.base == base {
        found := FindHandler(b.handlers, fn);
        if id == ANY_ID && found {
          return;
        }
        found := FindInIds(b.idNodes, id, fn, v.ids);
        if found {
          return;
        }
      }
    }
    found := false;
  }

  method FindInLoops(loopNodes: seq<LoopNode>, base: nat, id: int, fn: int, ghost t: Tree)
    returns (found: bool)
    requires t == TreeView(loopNodes)
    ensures found == FoundTree(t, base, id, fn)
  {
    hide HasFn, FoundBases, FoundTree, ValidLoops, Apart;
    ghost var u := t;
    ghost var all := FoundTree(u, base, id, fn);
    NothingToFind(base, id, fn);
    var rest := loopNodes;
    while rest != []
      invariant u == TreeView(rest) && all == FoundTree(u, base, id, fn)
    {
      var l := rest[0];
      LoopsHead(rest);
      ghost var v := u[0];
      FoundTreeStep(u, base, id, fn);
      rest, u := rest[1..], u[1..];
      label L:
      found := FindHandler(l.handlers, fn);
      if base == NULL_BASE && id == ANY_ID && found {
        return;
      }
      found := FindInBases(l.baseNodes, base, id, fn, v.bases);
      if found {
        return;
      }
      Untouched@L(rest);
    }
    found := false;
  }
}
