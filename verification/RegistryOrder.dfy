/** The shape every registry keeps and why it makes the nested walk call handlers in
    registration order. Registrations carry their age (`ctx`), so "older" is a comparison. */
module RegistryOrder {
  import opened Registry

  // ---- the shape --------------------------------------------------------------------

  ghost predicate Older(xs: set<Reg>, ys: set<Reg>) {
    forall x, y | x in xs && y in ys :: x.ctx < y.ctx
  }

  ghost predicate Below(xs: set<Reg>, n: nat) {
    forall x | x in xs :: x.ctx < n
  }

  ghost function OfBase(rs: set<Reg>, base: nat): set<Reg> {
    set r | r in rs && r.base == base
  }

  ghost predicate ShapeH(hs: seq<Entry>) {
    forall i, j | 0 <= i < j < |hs| :: hs[i].ctx < hs[j].ctx
  }

  /** No empty id node, and ids are unique inside a base node. */
  ghost predicate ShapeIds(ids: seq<IdV>) {
    ids == [] || (
      && ids[0].id != ANY_ID && ids[0].handlers != [] && ShapeH(ids[0].handlers)
      && !HasId(ids[1..], ids[0].id)
      && ShapeIds(ids[1..]))
  }

  /** Base-level handlers are older than the id-level ones of the same node. */
  ghost predicate ShapeBase(b: BaseV) {
    && b.base != NULL_BASE && b.base != ANY_BASE
    && (b.handlers != [] || b.ids != [])
    && ShapeH(b.handlers) && ShapeIds(b.ids)
    && Older(RegsH(b.handlers, b.base, ANY_ID), RegsIds(b.ids, b.base))
  }

  /** Later nodes for the same base hold only newer registrations. */
  ghost predicate ShapeBases(bs: seq<BaseV>) {
    bs == [] || (
      && ShapeBase(bs[0])
      && Older(RegsBase(bs[0]), OfBase(RegsBases(bs[1..]), bs[0].base))
      && ShapeBases(bs[1..]))
  }

  /** Loop-level handlers are older than everything below the same loop node. */
  ghost predicate ShapeLoop(l: LoopV) {
    && (l.handlers != [] || l.bases != [])
    && ShapeH(l.handlers) && ShapeBases(l.bases)
    && Older(RegsH(l.handlers, ANY_BASE, ANY_ID), RegsBases(l.bases))
  }

  /** Later loop nodes hold only newer registrations. */
  ghost predicate Shape(t: Tree) {
    t == [] || (ShapeLoop(t[0]) && Older(RegsLoop(t[0]), Regs(t[1..])) && Shape(t[1..]))
  }

  /** The key a caller can register under: a real base, or any base with any id. */
  predicate ValidKey(base: nat, id: int) {
    base != NULL_BASE && (base == ANY_BASE ==> id == ANY_ID)
  }

  // ---- registering keeps the shape and adds one registration --------------------------

  /** `rs'` is `rs` plus `r`, or `rs` itself when the call overwrote an argument. */
  ghost predicate Grown(rs: set<Reg>, rs': set<Reg>, overwrote: bool, r: Reg) {
    rs' == if overwrote then rs else rs + {r}
  }

  lemma AddHGrows(hs: seq<Entry>, base: nat, id: int, fn: int, legacy: bool, a: nat)
    requires ShapeH(hs) && Below(RegsH(hs, base, id), a)
    ensures ShapeH(AddH(hs, fn, legacy, a)) && AddH(hs, fn, legacy, a) != []
    ensures Grown(RegsH(hs, base, id), RegsH(AddH(hs, fn, legacy, a), base, id),
                  legacy && HasFn(hs, fn), Reg(a + 1, base, id, fn))
  {
    forall i | 0 <= i < |hs| ensures hs[i].ctx < a {
      assert Reg(hs[i].ctx, base, id, hs[i].fn) in RegsH(hs, base, id);
    }
    var e := Entry(a, a + 1, fn);
    forall r ensures r in RegsH(hs + [e], base, id) <==> r in RegsH(hs, base, id) + {Reg(a + 1, base, id, fn)} {
      if r == Reg(a + 1, base, id, fn) {
        assert (hs + [e])[|hs|] == e;
      } else if r in RegsH(hs, base, id) {
        var d :| d in hs && r == Reg(d.ctx, base, id, d.fn);
        assert d in hs + [e];
      }
    }
  }

  lemma {:induction false} AddIdsGrows(ids: seq<IdV>, base: nat, id: int, fn: int, legacy: bool, a: nat)
    requires id != ANY_ID && ShapeIds(ids) && Below(RegsIds(ids, base), a)
    ensures ShapeIds(AddIds(ids, id, fn, legacy, a)) && AddIds(ids, id, fn, legacy, a) != []
    ensures forall i :: HasId(AddIds(ids, id, fn, legacy, a), i) <==> HasId(ids, i) || i == id
    ensures Grown(RegsIds(ids, base), RegsIds(AddIds(ids, id, fn, legacy, a), base),
                  legacy && HasFn(TargetIds(ids, id), fn),
                  Reg(a + CostIds(ids, id) - 1, base, id, fn))
  {
    hide RegsH, ShapeH, AddH, HasId, HasFn;
    var ids' := AddIds(ids, id, fn, legacy, a);
    NoIds();
    if ids == [] {
      NoRegs(base, id);
      AddHGrows([], base, id, fn, legacy, a + 1);
      assert ids'[1..] == [];
      forall i { HasIdCons(ids', i); }
    } else if ids[0].id == id && !HasId(ids[1..], id) {
      AddHGrows(ids[0].handlers, base, id, fn, legacy, a);
      assert ids'[1..] == ids[1..];
      SameIds(ids, ids', id);
      HasIdCons(ids, id);
    } else {
      AddIdsGrows(ids[1..], base, id, fn, legacy, a);
      assert ids'[1..] == AddIds(ids[1..], id, fn, legacy, a);
      forall i ensures HasId(ids', i) <==> HasId(ids, i) || i == id {
        HasIdCons(ids', i);
        HasIdCons(ids, i);
      }
      HasIdCons(ids, id);
    }
  }

  lemma NoIds()
    ensures forall i :: !HasId([], i)
    ensures forall fn :: !HasFn([], fn)
  {
  }

  lemma NoRegs(base: nat, id: int)
    ensures ShapeH([]) && RegsH([], base, id) == {}
  {
  }

  lemma HasIdCons(ids: seq<IdV>, i: int)
    requires ids != []
    ensures HasId(ids, i) <==> ids[0].id == i || HasId(ids[1..], i)
  {
    if HasId(ids[1..], i) {
      var k :| 0 <= k < |ids[1..]| && ids[1..][k].id == i;
      assert ids[k + 1].id == i;
    }
    if HasId(ids, i) && ids[0].id != i {
      var k :| 0 <= k < |ids| && ids[k].id == i;
      assert ids[1..][k - 1].id == i;
    }
  }

  lemma SameIds(ids: seq<IdV>, ids': seq<IdV>, id: int)
    requires ids != [] && ids' != [] && ids[0].id == ids'[0].id == id && ids[1..] == ids'[1..]
    ensures forall i :: HasId(ids', i) <==> HasId(ids, i) || i == id
  {
    forall i ensures HasId(ids', i) <==> HasId(ids, i) || i == id {
      HasIdCons(ids, i);
      HasIdCons(ids', i);
    }
  }

  lemma AddBaseGrows(b: BaseV, id: int, fn: int, legacy: bool, a: nat)
    requires ShapeBase(b) || (b.base > ANY_BASE && b.handlers == [] && b.ids == [])
    requires Below(RegsBase(b), a)
    requires id == ANY_ID ==> b.ids == []
    ensures ShapeBase(AddBase(b, id, fn, legacy, a))
    ensures Grown(RegsBase(b), RegsBase(AddBase(b, id, fn, legacy, a)),
                  legacy && HasFn(TargetBase(b, id), fn),
                  Reg(a + CostBase(b, id) - 1, b.base, id, fn))
  {
    hide AddIds, AddH, HasFn, TargetIds, CostIds;
    if id == ANY_ID {
      AddHGrows(b.handlers, b.base, ANY_ID, fn, legacy, a);
    } else {
      AddIdsGrows(b.ids, b.base, id, fn, legacy, a);
    }
  }

  lemma HasBaseCons(bs: seq<BaseV>, base: nat)
    requires bs != []
    ensures HasBase(bs, base) <==> bs[0].base == base || HasBase(bs[1..], base)
  {
    if HasBase(bs[1..], base) {
      var k :| 0 <= k < |bs[1..]| && bs[1..][k].base == base;
      assert bs[k + 1].base == base;
    }
    if HasBase(bs, base) && bs[0].base != base {
      var k :| 0 <= k < |bs| && bs[k].base == base;
      assert bs[1..][k - 1].base == base;
    }
  }

  lemma LastOfIs(bs: seq<BaseV>, base: nat, k: nat)
    requires k < |bs| && bs[k].base == base && forall j | k < j < |bs| :: bs[j].base != base
    ensures HasBase(bs, base) && LastOf(bs, base) == k
  {
    var m := LastOf(bs, base);
    if m < k { assert false; }
    if k < m { assert false; }
  }

  /** Dropping the first node does not move the last one for a base. */
  lemma LastOfTail(bs: seq<BaseV>, base: nat)
    requires bs != [] && HasBase(bs[1..], base)
    ensures HasBase(bs, base) && bs[LastOf(bs, base)] == bs[1..][LastOf(bs[1..], base)]
  {
    var k := LastOf(bs[1..], base);
    forall j | k + 1 < j < |bs| ensures bs[j].base != base {
      assert bs[j] == bs[1..][j - 1];
    }
    LastOfIs(bs, base, k + 1);
  }

  lemma LastOfHead(bs: seq<BaseV>, base: nat)
    requires bs != [] && bs[0].base == base && !HasBase(bs[1..], base)
    ensures HasBase(bs, base) && LastOf(bs, base) == 0
  {
    forall j | 0 < j < |bs| ensures bs[j].base != base {
      assert bs[j] == bs[1..][j - 1];
    }
    LastOfIs(bs, base, 0);
  }

  ghost function TargetBases(bs: seq<BaseV>, base: nat, id: int, open: bool): seq<Entry>
    requires open || HasBase(bs, base)
  {
    if open then [] else TargetBase(bs[LastOf(bs, base)], id)
  }

  ghost function CostBases(bs: seq<BaseV>, base: nat, id: int, open: bool): nat
    requires open || HasBase(bs, base)
  {
    if open then 1 + CostBase(BaseV(0, base, [], []), id) else CostBase(bs[LastOf(bs, base)], id)
  }

  /** A node stays older than its successors when either of them gains a newest entry. */
  lemma OlderGrows(xs: set<Reg>, xs': set<Reg>, ys: set<Reg>, ys': set<Reg>, base: nat, n: nat,
                   ox: bool, oy: bool, r: Reg)
    requires Older(xs, OfBase(ys, base)) && Below(xs, n) && Below(ys, n) && n <= r.ctx
    requires Grown(xs, xs', ox, r) && Grown(ys, ys', oy, r)
    requires xs' == xs || OfBase(ys', base) == {}
    ensures Older(xs', OfBase(ys', base))
  {
  }

  lemma {:induction false} AddBasesGrows(bs: seq<BaseV>, base: nat, id: int, fn: int, legacy: bool,
                                         a: nat, open: bool)
    requires ShapeBases(bs) && Below(RegsBases(bs), a) && base > ANY_BASE
    requires open || (HasBase(bs, base) && (id == ANY_ID ==> bs[LastOf(bs, base)].ids == []))
    ensures ShapeBases(AddBases(bs, base, id, fn, legacy, a, open))
    ensures AddBases(bs, base, id, fn, legacy, a, open) != []
    ensures Grown(RegsBases(bs), RegsBases(AddBases(bs, base, id, fn, legacy, a, open)),
                  legacy && HasFn(TargetBases(bs, base, id, open), fn),
                  Reg(a + CostBases(bs, base, id, open) - 1, base, id, fn))
    decreases |bs|
  {
    hide ShapeBase, Older, OfBase, CostBase, TargetBase, RegsBase, LastOf;
    if bs == [] {
      AddBasesNew(base, id, fn, legacy, a);
    } else if !open && bs[0].base == base && !HasBase(bs[1..], base) {
      AddBasesHere(bs, base, id, fn, legacy, a);
    } else {
      HasBaseCons(bs, base);
      if !open { LastOfTail(bs, base); }
      BelowTail(bs, a);
      AddBasesGrows(bs[1..], base, id, fn, legacy, a, open);
      AddBasesLater(bs, base, id, fn, legacy, a, open);
    }
  }

  lemma AddBasesNew(base: nat, id: int, fn: int, legacy: bool, a: nat)
    requires base > ANY_BASE
    ensures ShapeBases(AddBases([], base, id, fn, legacy, a, true))
    ensures RegsBases(AddBases([], base, id, fn, legacy, a, true))
         == {Reg(a + CostBases([], base, id, true) - 1, base, id, fn)}
  {
    AddBaseGrows(BaseV(a, base, [], []), id, fn, legacy, a + 1);
    assert AddBases([], base, id, fn, legacy, a, true)[1..] == [];
  }

  lemma BelowTail(bs: seq<BaseV>, a: nat)
    requires bs != [] && Below(RegsBases(bs), a)
    ensures Below(RegsBases(bs[1..]), a)
  {
  }

  lemma AddBasesHere(bs: seq<BaseV>, base: nat, id: int, fn: int, legacy: bool, a: nat)
    requires bs != [] && ShapeBases(bs) && Below(RegsBases(bs), a)
    requires bs[0].base == base && !HasBase(bs[1..], base)
    requires HasBase(bs, base) && (id == ANY_ID ==> bs[LastOf(bs, base)].ids == [])
    ensures ShapeBases(AddBases(bs, base, id, fn, legacy, a, false))
    ensures Grown(RegsBases(bs), RegsBases(AddBases(bs, base, id, fn, legacy, a, false)),
                  legacy && HasFn(TargetBases(bs, base, id, false), fn),
                  Reg(a + CostBases(bs, base, id, false) - 1, base, id, fn))
  {
    hide AddIds, AddH, RegsH, RegsIds, ShapeH, ShapeIds, HasFn, LastOf, TargetBase, CostBase;
    var bs' := AddBases(bs, base, id, fn, legacy, a, false);
    LastOfHead(bs, base);
    AddBaseGrows(bs[0], id, fn, legacy, a);
    assert bs'[1..] == bs[1..];
    NoneOfBase(bs[1..], base);
  }

  lemma AddBasesLater(bs: seq<BaseV>, base: nat, id: int, fn: int, legacy: bool, a: nat, open: bool)
    requires bs != [] && ShapeBases(bs) && Below(RegsBases(bs), a)
    requires open || (HasBase(bs, base) && HasBase(bs[1..], base)
                      && bs[LastOf(bs, base)] == bs[1..][LastOf(bs[1..], base)])
    requires open || bs[0].base != base || HasBase(bs[1..], base)
    requires ShapeBases(AddBases(bs[1..], base, id, fn, legacy, a, open))
    requires Grown(RegsBases(bs[1..]), RegsBases(AddBases(bs[1..], base, id, fn, legacy, a, open)),
                   legacy && HasFn(TargetBases(bs[1..], base, id, open), fn),
                   Reg(a + CostBases(bs[1..], base, id, open) - 1, base, id, fn))
    ensures ShapeBases(AddBases(bs, base, id, fn, legacy, a, open))
    ensures Grown(RegsBases(bs), RegsBases(AddBases(bs, base, id, fn, legacy, a, open)),
                  legacy && HasFn(TargetBases(bs, base, id, open), fn),
                  Reg(a + CostBases(bs, base, id, open) - 1, base, id, fn))
  {
    hide ShapeBase, RegsBase, CostBase, TargetBase, LastOf, Older;
    var rest := AddBases(bs[1..], base, id, fn, legacy, a, open);
    var r := Reg(a + CostBases(bs, base, id, open) - 1, base, id, fn);
    assert AddBases(bs, base, id, fn, legacy, a, open) == [bs[0]] + rest;
    assert ([bs[0]] + rest)[1..] == rest;
    OlderGrows(RegsBase(bs[0]), RegsBase(bs[0]), RegsBases(bs[1..]), RegsBases(rest), bs[0].base, a,
               true, legacy && HasFn(TargetBases(bs, base, id, open), fn), r);
  }

  lemma RegsBaseKey(b: BaseV)
    ensures forall r | r in RegsBase(b) :: r.base == b.base
  {
    RegsIdsKey(b.ids, b.base);
  }

  lemma RegsIdsKey(ids: seq<IdV>, base: nat)
    ensures forall r | r in RegsIds(ids, base) :: r.base == base && HasId(ids, r.id)
  {
    if ids != [] {
      RegsIdsKey(ids[1..], base);
      forall r | r in RegsIds(ids, base) ensures HasId(ids, r.id) { HasIdCons(ids, r.id); }
    }
  }

  lemma NoneOfBase(bs: seq<BaseV>, base: nat)
    requires !HasBase(bs, base)
    ensures OfBase(RegsBases(bs), base) == {}
  {
    if bs != [] {
      HasBaseCons(bs, base);
      NoneOfBase(bs[1..], base);
      RegsBaseKey(bs[0]);
      assert forall r | r in RegsBases(bs[1..]) :: r.base == base ==> r in OfBase(RegsBases(bs[1..]), base);
    }
  }

  lemma AddLoopGrows(l: LoopV, base: nat, id: int, fn: int, legacy: bool, a: nat)
    requires ShapeLoop(l) || (l.handlers == [] && l.bases == [])
    requires ValidKey(base, id) && Below(RegsLoop(l), a)
    requires IsLoopLevel(base, id) ==> l.bases == []
    ensures ShapeLoop(AddLoop(l, base, id, fn, legacy, a))
    ensures Grown(RegsLoop(l), RegsLoop(AddLoop(l, base, id, fn, legacy, a)),
                  legacy && HasFn(TargetLoop(l, base, id), fn),
                  Reg(a + CostLoop(l, base, id) - 1, base, id, fn))
  {
    if IsLoopLevel(base, id) {
      hide RegsH, ShapeH, AddH;
      AddHGrows(l.handlers, base, id, fn, legacy, a);
    } else {
      AddBelowGrows(l, base, id, fn, legacy, a);
    }
  }

  lemma AddBelowGrows(l: LoopV, base: nat, id: int, fn: int, legacy: bool, a: nat)
    requires ShapeLoop(l) || (l.handlers == [] && l.bases == [])
    requires base > ANY_BASE && Below(RegsLoop(l), a)
    ensures ShapeLoop(AddLoop(l, base, id, fn, legacy, a))
    ensures Grown(RegsLoop(l), RegsLoop(AddLoop(l, base, id, fn, legacy, a)),
                  legacy && HasFn(TargetLoop(l, base, id), fn),
                  Reg(a + CostLoop(l, base, id) - 1, base, id, fn))
  {
    hide ShapeBases, RegsBases, AddBases, CostBase, TargetBase, ShapeH, RegsH, Older, LastOf, Below;
    var open := OpensBase(l.bases, base, id);
    var l' := AddLoop(l, base, id, fn, legacy, a);
    var r := Reg(a + CostLoop(l, base, id) - 1, base, id, fn);
    BelowParts(l, a);
    AddBasesGrows(l.bases, base, id, fn, legacy, a, open);
    OlderLoop(RegsH(l.handlers, ANY_BASE, ANY_ID), RegsBases(l.bases), RegsBases(l'.bases),
              a, legacy && HasFn(TargetLoop(l, base, id), fn), r);
  }

  lemma BelowParts(l: LoopV, a: nat)
    requires Below(RegsLoop(l), a)
    requires ShapeLoop(l) || (l.handlers == [] && l.bases == [])
    ensures Below(RegsH(l.handlers, ANY_BASE, ANY_ID), a) && Below(RegsBases(l.bases), a)
    ensures ShapeBases(l.bases) && ShapeH(l.handlers)
    ensures Older(RegsH(l.handlers, ANY_BASE, ANY_ID), RegsBases(l.bases))
  {
  }

  lemma OlderLoop(xs: set<Reg>, ys: set<Reg>, ys': set<Reg>, n: nat, overwrote: bool, r: Reg)
    requires Older(xs, ys) && Below(xs, n) && n <= r.ctx && Grown(ys, ys', overwrote, r)
    ensures Older(xs, ys')
  {
  }

  // Sequences of loop nodes, seen from the end.

  lemma {:induction false} RegsSplit(t: Tree, u: Tree)
    ensures Regs(t + u) == Regs(t) + Regs(u)
  {
    hide RegsLoop;
    if t == [] {
      assert t + u == u;
    } else {
      RegsSplit(t[1..], u);
      assert (t + u)[1..] == t[1..] + u;
    }
  }

  lemma {:induction false} ShapeSplit(t: Tree, u: Tree)
    ensures Shape(t + u) <==> Shape(t) && Shape(u) && Older(Regs(t), Regs(u))
  {
    hide ShapeLoop, RegsLoop, Older;
    if t == [] {
      assert t + u == u;
      OlderNone(Regs(u));
    } else {
      ShapeSplit(t[1..], u);
      RegsSplit(t[1..], u);
      assert (t + u)[1..] == t[1..] + u;
      OlderUnions(RegsLoop(t[0]), Regs(t[1..]), Regs(u));
    }
  }

  lemma OlderNone(ys: set<Reg>)
    ensures Older({}, ys)
  {
  }

  lemma OlderUnions(xs: set<Reg>, ys: set<Reg>, zs: set<Reg>)
    ensures Older(xs, ys + zs) <==> Older(xs, ys) && Older(xs, zs)
    ensures Older(xs + ys, zs) <==> Older(xs, zs) && Older(ys, zs)
  {
  }

  lemma RegsOne(l: LoopV)
    ensures Regs([l]) == RegsLoop(l) && (Shape([l]) <==> ShapeLoop(l))
  {
    assert [l][1..] == [];
  }

  /** Every registration keeps the shape; it adds exactly the new registration, or (legacy,
      function already in the target list) leaves the nodes as they are. */
  lemma {:induction false} AddTreeGrows(t: Tree, base: nat, id: int, fn: int, legacy: bool, a: nat)
    requires Shape(t) && ValidKey(base, id) && Below(Regs(t), a)
    ensures Shape(AddTree(t, base, id, fn, legacy, a))
    ensures Grown(Regs(t), Regs(AddTree(t, base, id, fn, legacy, a)),
                  Overwrites(t, base, id, fn, legacy),
                  Reg(a + Cost(t, base, id) - 1, base, id, fn))
  {
    if OpensLoop(t, base, id) {
      AddTreeOpens(t, base, id, fn, legacy, a);
    } else {
      AddTreeLast(t, base, id, fn, legacy, a);
    }
  }

  lemma AddTreeOpens(t: Tree, base: nat, id: int, fn: int, legacy: bool, a: nat)
    requires Shape(t) && ValidKey(base, id) && Below(Regs(t), a) && OpensLoop(t, base, id)
    ensures Shape(AddTree(t, base, id, fn, legacy, a))
    ensures Regs(AddTree(t, base, id, fn, legacy, a))
         == Regs(t) + {Reg(a + Cost(t, base, id) - 1, base, id, fn)}
  {
    hide ShapeLoop, CostLoop, TargetLoop, AddLoop, Older;
    var empty := LoopV(a, [], []);
    var l := AddLoop(empty, base, id, fn, legacy, a + 1);
    EmptyLoop(a, base, id);
    AddLoopGrows(empty, base, id, fn, legacy, a + 1);
    LastGrows(t, [], {}, l, a, false, Reg(a + Cost(t, base, id) - 1, base, id, fn));
    assert t + [] == t;
  }

  lemma AddTreeLast(t: Tree, base: nat, id: int, fn: int, legacy: bool, a: nat)
    requires Shape(t) && ValidKey(base, id) && Below(Regs(t), a) && !OpensLoop(t, base, id)
    ensures Shape(AddTree(t, base, id, fn, legacy, a))
    ensures Grown(Regs(t), Regs(AddTree(t, base, id, fn, legacy, a)),
                  Overwrites(t, base, id, fn, legacy),
                  Reg(a + Cost(t, base, id) - 1, base, id, fn))
  {
    hide ShapeLoop, CostLoop, TargetLoop, AddLoop, RegsLoop, Shape, Regs;
    var n := |t| - 1;
    var l := AddLoop(t[n], base, id, fn, legacy, a);
    assert t == t[..n] + [t[n]];
    RegsSplit(t[..n], [t[n]]);
    ShapeSplit(t[..n], [t[n]]);
    RegsOne(t[n]);
    AddLoopGrows(t[n], base, id, fn, legacy, a);
    LastGrows(t[..n], [t[n]], RegsLoop(t[n]), l, a,
              legacy && HasFn(TargetLoop(t[n], base, id), fn),
              Reg(a + Cost(t, base, id) - 1, base, id, fn));
  }

  lemma EmptyLoop(a: nat, base: nat, id: int)
    requires ValidKey(base, id)
    ensures CostLoop(LoopV(a, [], []), base, id) == CostLoop(LoopV(0, [], []), base, id)
    ensures TargetLoop(LoopV(a, [], []), base, id) == []
    ensures RegsLoop(LoopV(a, [], [])) == {}
  {
  }

  /** The last loop node `old` (absent or present) is replaced by `l`, one entry larger. */
  lemma LastGrows(t: Tree, was: Tree, rs: set<Reg>, l: LoopV, a: nat, overwrote: bool, r: Reg)
    requires Shape(t) && Regs(was) == rs && Older(Regs(t), rs)
    requires Below(Regs(t), a) && a <= r.ctx
    requires ShapeLoop(l) && Grown(rs, RegsLoop(l), overwrote, r)
    ensures Shape(t + [l]) && Grown(Regs(t + was), Regs(t + [l]), overwrote, r)
  {
    RegsOne(l);
    RegsSplit(t, [l]);
    RegsSplit(t, was);
    ShapeSplit(t, [l]);
  }

  // ---- a legacy registration of a function already in the list ------------------------

  lemma {:induction false} AddIdsSame(ids: seq<IdV>, id: int, fn: int, a: nat)
    requires HasFn(TargetIds(ids, id), fn)
    ensures AddIds(ids, id, fn, true, a) == ids
  {
    if ids[0].id != id || HasId(ids[1..], id) {
      AddIdsSame(ids[1..], id, fn, a);
    }
  }

  lemma {:induction false} AddBasesSame(bs: seq<BaseV>, base: nat, id: int, fn: int, a: nat)
    requires HasBase(bs, base) && HasFn(TargetBase(bs[LastOf(bs, base)], id), fn)
    ensures AddBases(bs, base, id, fn, true, a, false) == bs
  {
    HasBaseCons(bs, base);
    if bs[0].base == base && !HasBase(bs[1..], base) {
      LastOfHead(bs, base);
      if id != ANY_ID { AddIdsSame(bs[0].ids, id, fn, a); }
    } else {
      LastOfTail(bs, base);
      AddBasesSame(bs[1..], base, id, fn, a);
    }
  }

  /** The nodes stay exactly as they were. */
  lemma AddTreeSame(t: Tree, base: nat, id: int, fn: int, a: nat)
    requires Overwrites(t, base, id, fn, true)
    ensures AddTree(t, base, id, fn, true, a) == t
  {
    var l := t[|t| - 1];
    if !IsLoopLevel(base, id) {
      AddBasesSame(l.bases, base, id, fn, a);
    }
  }

  lemma {:induction false} TargetIdsRegs(ids: seq<IdV>, base: nat, id: int)
    ensures RegsH(TargetIds(ids, id), base, id) <= RegsIds(ids, base)
  {
    if ids != [] && (ids[0].id != id || HasId(ids[1..], id)) {
      TargetIdsRegs(ids[1..], base, id);
    }
  }

  lemma {:induction false} NodeRegs(bs: seq<BaseV>, k: nat)
    requires k < |bs|
    ensures RegsBase(bs[k]) <= RegsBases(bs)
  {
    if k > 0 { NodeRegs(bs[1..], k - 1); }
  }

  /** What a registration is added next to are registrations under the same key. */
  lemma TargetRegs(t: Tree, base: nat, id: int)
    ensures RegsH(Target(t, base, id), base, id) <= Regs(t)
  {
    if !OpensLoop(t, base, id) {
      var n := |t| - 1;
      var l := t[n];
      assert t == t[..n] + [l];
      RegsSplit(t[..n], [l]);
      RegsOne(l);
      if !IsLoopLevel(base, id) && !OpensBase(l.bases, base, id) {
        var k := LastOf(l.bases, base);
        NodeRegs(l.bases, k);
        TargetIdsRegs(l.bases[k].ids, base, id);
      }
    }
  }
}
