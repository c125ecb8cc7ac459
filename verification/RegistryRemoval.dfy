/** Unregistering keeps the shape of the registry and removes only what the call names. */
module RegistryRemoval {
  import opened Registry
  import opened RegistryOrder

  /** The registration an unregister call is about. */
  predicate Named(r: Reg, base: nat, id: int, sel: Sel) {
    && r.base == base && r.id == id
    && (match sel case ByCtx(c) => r.ctx == c case ByFn(f) => r.fn == f)
  }

  /** No named registration is older. */
  ghost predicate Oldest(r: Reg, rs: set<Reg>, base: nat, id: int, sel: Sel) {
    r in rs && Named(r, base, id, sel) && forall x | x in rs && Named(x, base, id, sel) :: r.ctx <= x.ctx
  }

  /** `rs'` is `rs` without some of the named registrations: at least one if there are any, the
      oldest in any case, and all of them when they are named by instance. */
  ghost predicate Shrunk(rs: set<Reg>, rs': set<Reg>, base: nat, id: int, sel: Sel) {
    && rs' <= rs
    && (forall r | r in rs && r !in rs' :: Named(r, base, id, sel))
    && ((exists r | r in rs :: Named(r, base, id, sel)) ==> rs' != rs)
    && (sel.ByCtx? ==> forall r | r in rs' :: !Named(r, base, id, sel))
    && OldestGone(rs, rs', base, id, sel)
  }

  ghost predicate OldestGone(rs: set<Reg>, rs': set<Reg>, base: nat, id: int, sel: Sel) {
    forall r | Oldest(r, rs, base, id, sel) :: r !in rs'
  }

  /** Among registrations under the key, those in `xs` are older than those in `ys`. */
  ghost predicate KeyOlder(xs: set<Reg>, ys: set<Reg>, base: nat, id: int) {
    forall x, y | x in xs && y in ys && x.base == y.base == base && x.id == y.id == id :: x.ctx < y.ctx
  }

  lemma ShrunkBoth(xs: set<Reg>, xs': set<Reg>, ys: set<Reg>, ys': set<Reg>, base: nat, id: int, sel: Sel)
    requires Shrunk(xs, xs', base, id, sel) && Shrunk(ys, ys', base, id, sel)
    requires KeyOlder(xs, ys, base, id)
    ensures Shrunk(xs + ys, xs' + ys', base, id, sel)
  {
    hide OldestGone;
    OldestBoth(xs, xs', ys, ys', base, id, sel);
    if r :| r in xs && Named(r, base, id, sel) {
      var g :| g in xs && g !in xs';
      assert g in xs + ys && g !in xs' + ys';
    } else if r :| r in ys && Named(r, base, id, sel) {
      var g :| g in ys && g !in ys';
      assert g in xs + ys && g !in xs' + ys';
    }
  }

  lemma OldestBoth(xs: set<Reg>, xs': set<Reg>, ys: set<Reg>, ys': set<Reg>, base: nat, id: int, sel: Sel)
    requires OldestGone(xs, xs', base, id, sel) && OldestGone(ys, ys', base, id, sel)
    requires xs' <= xs && ys' <= ys && KeyOlder(xs, ys, base, id)
    ensures OldestGone(xs + ys, xs' + ys', base, id, sel)
  {
    forall r | Oldest(r, xs + ys, base, id, sel) ensures r !in xs' + ys' {
      if r in xs {
        assert Oldest(r, xs, base, id, sel);
      } else {
        assert Oldest(r, ys, base, id, sel);
      }
    }
  }

  /** The walk stops after emptying a node: nothing named by instance can come later. */
  lemma ShrunkStop(xs: set<Reg>, ys: set<Reg>, base: nat, id: int, sel: Sel)
    requires xs != {} && Shrunk(xs, {}, base, id, sel) && KeyOlder(xs, ys, base, id)
    ensures Shrunk(xs + ys, ys, base, id, sel)
  {
    var x :| x in xs;
    assert Named(x, base, id, sel);
    assert x !in ys;
    forall r | Oldest(r, xs + ys, base, id, sel) ensures r !in ys {
      assert x in xs + ys;
    }
  }

  lemma NothingNamed(xs: set<Reg>, base: nat, id: int, sel: Sel)
    requires forall r | r in xs :: !(r.base == base && r.id == id)
    ensures Shrunk(xs, xs, base, id, sel)
  {
  }

  lemma {:induction false} RemoveHShrinks(hs: seq<Entry>, base: nat, id: int, sel: Sel)
    requires ShapeH(hs)
    ensures var (hs', found) := RemoveH(hs, sel);
            ShapeH(hs') && (found || hs' == hs)
            && Shrunk(RegsH(hs, base, id), RegsH(hs', base, id), base, id, sel)
  {
    hide RegsH, Shrunk;
    if hs == [] {
      NoRegs(base, id);
      NothingNamed({}, base, id, sel);
    } else {
      var (hs', found) := RemoveH(hs, sel);
      ConsRegs(hs, base, id);
      assert ShapeH(hs[1..]);
      if Selects(hs[0], sel) {
        FirstGone(hs, base, id, sel);
      } else {
        RemoveHShrinks(hs[1..], base, id, sel);
        var (rest, _) := RemoveH(hs[1..], sel);
        assert hs' == [hs[0]] + rest;
        ConsRegs(hs', base, id);
        assert hs'[1..] == rest && hs == [hs[0]] + hs[1..];
        ShrunkSubset(RegsH(hs[1..], base, id), RegsH(rest, base, id), base, id, sel);
        SublistShape(hs[0], hs[1..], rest, base, id);
        KeptFirst(Reg(hs[0].ctx, base, id, hs[0].fn), RegsH(hs[1..], base, id), RegsH(rest, base, id), base, id, sel);
      }
    }
  }

  lemma ConsRegs(hs: seq<Entry>, base: nat, id: int)
    requires hs != []
    ensures RegsH(hs, base, id) == {Reg(hs[0].ctx, base, id, hs[0].fn)} + RegsH(hs[1..], base, id)
  {
    forall r ensures r in RegsH(hs, base, id)
                <==> r in {Reg(hs[0].ctx, base, id, hs[0].fn)} + RegsH(hs[1..], base, id) {
      if e :| e in hs && r == Reg(e.ctx, base, id, e.fn) {
        assert e == hs[0] || e in hs[1..];
      }
    }
  }

  lemma FirstGone(hs: seq<Entry>, base: nat, id: int, sel: Sel)
    requires hs != [] && ShapeH(hs) && Selects(hs[0], sel)
    ensures Shrunk(RegsH(hs, base, id), RegsH(hs[1..], base, id), base, id, sel)
  {
    ConsRegs(hs, base, id);
    var r := Reg(hs[0].ctx, base, id, hs[0].fn);
    forall g | g in RegsH(hs[1..], base, id) ensures g.ctx > r.ctx {
      var e :| e in hs[1..] && g == Reg(e.ctx, base, id, e.fn);
      var i :| 0 <= i < |hs[1..]| && hs[1..][i] == e;
      assert hs[i + 1] == e;
    }
  }

  lemma SublistShape(e: Entry, hs: seq<Entry>, hs': seq<Entry>, base: nat, id: int)
    requires ShapeH([e] + hs) && ShapeH(hs') && RegsH(hs', base, id) <= RegsH(hs, base, id)
    ensures ShapeH([e] + hs')
  {
    forall j | 0 <= j < |hs'| ensures e.ctx < hs'[j].ctx {
      assert Reg(hs'[j].ctx, base, id, hs'[j].fn) in RegsH(hs', base, id);
      var d :| d in hs && d.ctx == hs'[j].ctx;
      var i :| 0 <= i < |hs| && hs[i] == d;
      assert ([e] + hs)[i + 1] == d && ([e] + hs)[0] == e;
    }
  }

  lemma KeptFirst(r: Reg, xs: set<Reg>, xs': set<Reg>, base: nat, id: int, sel: Sel)
    requires Shrunk(xs, xs', base, id, sel) && !Named(r, base, id, sel)
    ensures Shrunk({r} + xs, {r} + xs', base, id, sel)
  {
    if g :| g in {r} + xs && Named(g, base, id, sel) {
      var d :| d in xs && d !in xs';
      assert d in {r} + xs && d !in {r} + xs';
    }
    forall o | Oldest(o, {r} + xs, base, id, sel) ensures o !in {r} + xs' {
      assert Oldest(o, xs, base, id, sel);
    }
  }

  lemma {:induction false} RemoveIdsShrinks(ids: seq<IdV>, base: nat, id: int, sel: Sel)
    requires ShapeIds(ids)
    ensures var (ids', ok) := RemoveIds(ids, id, sel);
            ShapeIds(ids') && (ok || |ids'| == |ids|)
            && (forall i :: HasId(ids', i) ==> HasId(ids, i))
            && Shrunk(RegsIds(ids, base), RegsIds(ids', base), base, id, sel)
  {
    hide RegsH, ShapeH, Shrunk, KeyOlder;
    if ids == [] {
      NothingNamed({}, base, id, sel);
    } else {
      var (ids', ok) := RemoveIds(ids, id, sel);
      var (rest, _) := RemoveIds(ids[1..], id, sel);
      var d := RegsH(ids[0].handlers, base, ids[0].id);
      RemoveIdsShrinks(ids[1..], base, id, sel);
      OtherIds(ids, base);
      forall i ensures HasId(ids, i) <==> ids[0].id == i || HasId(ids[1..], i) { HasIdCons(ids, i); }
      if ids[0].id != id {
        NothingNamed(d, base, id, sel);
        ShrunkBoth(d, d, RegsIds(ids[1..], base), RegsIds(rest, base), base, id, sel);
        assert ids' == [ids[0]] + rest && ids'[1..] == rest;
        forall i ensures HasId(ids', i) <==> ids[0].id == i || HasId(rest, i) { HasIdCons(ids', i); }
      } else {
        var (hs, found) := RemoveH(ids[0].handlers, sel);
        RemoveHShrinks(ids[0].handlers, base, id, sel);
        if found && hs == [] {
          NoRegs(base, id);
          SomeRegs(ids[0].handlers, base, id);
          ShrunkStop(d, RegsIds(ids[1..], base), base, id, sel);
        } else {
          ShrunkBoth(d, RegsH(hs, base, id), RegsIds(ids[1..], base), RegsIds(rest, base), base, id, sel);
          assert ids' == [ids[0].(handlers := hs)] + rest && ids'[1..] == rest;
          forall i ensures HasId(ids', i) <==> ids[0].id == i || HasId(rest, i) { HasIdCons(ids', i); }
        }
      }
    }
  }

  lemma SomeRegs(hs: seq<Entry>, base: nat, id: int)
    requires hs != []
    ensures RegsH(hs, base, id) != {}
  {
    ConsRegs(hs, base, id);
  }

  /** Entries of the first id node share their key with no later one. */
  lemma OtherIds(ids: seq<IdV>, base: nat)
    requires ids != [] && ShapeIds(ids)
    ensures forall b, id :: KeyOlder(RegsH(ids[0].handlers, base, ids[0].id), RegsIds(ids[1..], base), b, id)
    ensures forall r | r in RegsH(ids[0].handlers, base, ids[0].id) :: r.id == ids[0].id
  {
    RegsIdsKey(ids[1..], base);
  }

  lemma RemoveBaseShrinks(b: BaseV, id: int, sel: Sel)
    requires ShapeBase(b)
    ensures var (b', gone) := RemoveBase(b, id, sel);
            b'.base == b.base
            && (if b'.handlers == [] && b'.ids == [] then gone && RegsBase(b') == {} else ShapeBase(b'))
            && Shrunk(RegsBase(b), RegsBase(b'), b.base, id, sel)
  {
    hide RegsH, ShapeH, Shrunk, KeyOlder, RemoveH, RemoveIds;
    var (b', gone) := RemoveBase(b, id, sel);
    var own := RegsH(b.handlers, b.base, ANY_ID);
    var below := RegsIds(b.ids, b.base);
    NoRegs(b.base, ANY_ID);
    OlderKey(own, below, b.base, id);
    OwnKeys(b);
    if id == ANY_ID {
      RemoveHShrinks(b.handlers, b.base, ANY_ID, sel);
      NothingNamed(below, b.base, id, sel);
      ShrunkBoth(own, RegsH(b'.handlers, b.base, ANY_ID), below, below, b.base, id, sel);
      ShrunkSubset(own, RegsH(b'.handlers, b.base, ANY_ID), b.base, id, sel);
    } else {
      RemoveIdsShrinks(b.ids, b.base, id, sel);
      NothingNamed(own, b.base, id, sel);
      ShrunkBoth(own, own, below, RegsIds(b'.ids, b.base), b.base, id, sel);
      ShrunkSubset(below, RegsIds(b'.ids, b.base), b.base, id, sel);
    }
  }

  lemma OlderKey(xs: set<Reg>, ys: set<Reg>, base: nat, id: int)
    requires Older(xs, ys)
    ensures KeyOlder(xs, ys, base, id)
  {
  }

  lemma ShrunkSubset(xs: set<Reg>, xs': set<Reg>, base: nat, id: int, sel: Sel)
    requires Shrunk(xs, xs', base, id, sel)
    ensures xs' <= xs
  {
  }

  lemma OwnKeys(b: BaseV)
    requires ShapeBase(b)
    ensures forall r | r in RegsH(b.handlers, b.base, ANY_ID) :: r.id == ANY_ID
    ensures forall r | r in RegsIds(b.ids, b.base) :: r.id != ANY_ID
  {
    RegsIdsKey(b.ids, b.base);
    NoAnyId(b.ids);
  }

  lemma NoAnyId(ids: seq<IdV>)
    requires ShapeIds(ids)
    ensures !HasId(ids, ANY_ID)
  {
    if ids != [] {
      NoAnyId(ids[1..]);
      HasIdCons(ids, ANY_ID);
    }
  }

  lemma {:induction false} RemoveBasesShrinks(bs: seq<BaseV>, base: nat, id: int, sel: Sel)
    requires ShapeBases(bs)
    ensures var (bs', ok) := RemoveBases(bs, base, id, sel);
            ShapeBases(bs') && (ok || |bs'| == |bs|)
            && Shrunk(RegsBases(bs), RegsBases(bs'), base, id, sel)
  {
    hide ShapeBase, RegsBase, Shrunk, KeyOlder, Older, OfBase, RemoveBase;
    if bs == [] {
      NothingNamed({}, base, id, sel);
    } else {
      var (bs', ok) := RemoveBases(bs, base, id, sel);
      var (rest, _) := RemoveBases(bs[1..], base, id, sel);
      var first := RegsBase(bs[0]);
      var (b, gone) := RemoveBase(bs[0], id, sel);
      RemoveBasesShrinks(bs[1..], base, id, sel);
      ShrunkSubset(RegsBases(bs[1..]), RegsBases(rest), base, id, sel);
      RegsBaseKey(bs[0]);
      OfBaseKey(first, RegsBases(bs[1..]), bs[0].base, base, id);
      if bs[0].base != base {
        NothingNamed(first, base, id, sel);
        ShrunkBoth(first, first, RegsBases(bs[1..]), RegsBases(rest), base, id, sel);
        assert bs' == [bs[0]] + rest && bs'[1..] == rest;
      } else {
        RemoveBaseShrinks(bs[0], id, sel);
        if gone && b.handlers == [] && b.ids == [] {
          ShapeNonEmpty(bs[0]);
          ShrunkStop(first, RegsBases(bs[1..]), base, id, sel);
        } else {
          ShrunkSubset(first, RegsBase(b), base, id, sel);
          ShrunkBoth(first, RegsBase(b), RegsBases(bs[1..]), RegsBases(rest), base, id, sel);
          assert bs' == [b] + rest && bs'[1..] == rest;
          OlderShrinks(first, RegsBase(b), RegsBases(bs[1..]), RegsBases(rest), bs[0].base);
        }
      }
      OlderShrinks(first, first, RegsBases(bs[1..]), RegsBases(rest), bs[0].base);
    }
  }

  lemma OlderShrinks(xs: set<Reg>, xs': set<Reg>, ys: set<Reg>, ys': set<Reg>, base: nat)
    requires Older(xs, OfBase(ys, base)) && xs' <= xs && ys' <= ys
    ensures Older(xs', OfBase(ys', base))
  {
  }

  lemma OfBaseKey(xs: set<Reg>, ys: set<Reg>, own: nat, base: nat, id: int)
    requires Older(xs, OfBase(ys, own)) && forall r | r in xs :: r.base == own
    ensures KeyOlder(xs, ys, base, id)
  {
    forall x, y | x in xs && y in ys && x.base == y.base == base && x.id == y.id == id
      ensures x.ctx < y.ctx
    {
      assert y in OfBase(ys, own);
    }
  }

  lemma ShapeNonEmpty(b: BaseV)
    requires ShapeBase(b)
    ensures RegsBase(b) != {}
  {
    if b.handlers != [] {
      SomeRegs(b.handlers, b.base, ANY_ID);
    } else {
      SomeRegs(b.ids[0].handlers, b.base, b.ids[0].id);
    }
  }

  lemma RemoveLoopShrinks(l: LoopV, base: nat, id: int, sel: Sel)
    requires ShapeLoop(l) && ValidKey(base, id)
    ensures var (l', ok) := RemoveLoop(l, base, id, sel);
            && (if l'.handlers == [] && l'.bases == [] then ok && RegsLoop(l') == {} else ShapeLoop(l'))
            && Shrunk(RegsLoop(l), RegsLoop(l'), base, id, sel)
  {
    hide RegsH, ShapeH, Shrunk, KeyOlder, RemoveH, RemoveBases, ShapeBases, Older;
    var (l', ok) := RemoveLoop(l, base, id, sel);
    var own := RegsH(l.handlers, ANY_BASE, ANY_ID);
    var below := RegsBases(l.bases);
    NoRegs(ANY_BASE, ANY_ID);
    OlderKey(own, below, base, id);
    LoopKeys(l);
    if IsLoopLevel(base, id) {
      RemoveHShrinks(l.handlers, ANY_BASE, ANY_ID, sel);
      NothingNamed(below, base, id, sel);
      ShrunkBoth(own, RegsH(l'.handlers, ANY_BASE, ANY_ID), below, below, base, id, sel);
      ShrunkSubset(own, RegsH(l'.handlers, ANY_BASE, ANY_ID), base, id, sel);
      OlderSubsets(own, RegsH(l'.handlers, ANY_BASE, ANY_ID), below, below);
    } else {
      RemoveBasesShrinks(l.bases, base, id, sel);
      NothingNamed(own, base, id, sel);
      ShrunkBoth(own, own, below, RegsBases(l'.bases), base, id, sel);
      ShrunkSubset(below, RegsBases(l'.bases), base, id, sel);
      OlderSubsets(own, own, below, RegsBases(l'.bases));
    }
  }

  lemma OlderSubsets(xs: set<Reg>, xs': set<Reg>, ys: set<Reg>, ys': set<Reg>)
    requires Older(xs, ys) && xs' <= xs && ys' <= ys
    ensures Older(xs', ys')
  {
  }

  lemma LoopKeys(l: LoopV)
    requires ShapeLoop(l)
    ensures forall r | r in RegsH(l.handlers, ANY_BASE, ANY_ID) :: IsLoopLevel(r.base, r.id)
    ensures forall r | r in RegsBases(l.bases) :: r.base > ANY_BASE
  {
    BasesKeys(l.bases);
  }

  lemma {:induction false} BasesKeys(bs: seq<BaseV>)
    requires ShapeBases(bs)
    ensures forall r | r in RegsBases(bs) :: r.base > ANY_BASE
  {
    if bs != [] {
      BasesKeys(bs[1..]);
      RegsBaseKey(bs[0]);
    }
  }

  lemma LoopNonEmpty(l: LoopV)
    requires ShapeLoop(l)
    ensures RegsLoop(l) != {}
  {
    if l.handlers != [] {
      SomeRegs(l.handlers, ANY_BASE, ANY_ID);
    } else {
      ShapeNonEmpty(l.bases[0]);
    }
  }

  /** Every unregister call keeps the shape and shrinks the registry as named. */
  lemma {:induction false} RemoveTreeShrinks(t: Tree, base: nat, id: int, sel: Sel)
    requires Shape(t) && ValidKey(base, id)
    ensures Shape(RemoveTree(t, base, id, sel))
    ensures Shrunk(Regs(t), Regs(RemoveTree(t, base, id, sel)), base, id, sel)
  {
    hide ShapeLoop, RegsLoop, Shrunk, KeyOlder, Older, RemoveLoop;
    if t == [] {
      NothingNamed({}, base, id, sel);
    } else {
      var t' := RemoveTree(t, base, id, sel);
      var rest := RemoveTree(t[1..], base, id, sel);
      var first := RegsLoop(t[0]);
      var (l, ok) := RemoveLoop(t[0], base, id, sel);
      RemoveLoopShrinks(t[0], base, id, sel);
      OlderKey(first, Regs(t[1..]), base, id);
      if ok && l.bases == [] && l.handlers == [] {
        LoopNonEmpty(t[0]);
        ShrunkStop(first, Regs(t[1..]), base, id, sel);
      } else {
        RemoveTreeShrinks(t[1..], base, id, sel);
        ShrunkSubset(Regs(t[1..]), Regs(rest), base, id, sel);
        ShrunkSubset(first, RegsLoop(l), base, id, sel);
        ShrunkBoth(first, RegsLoop(l), Regs(t[1..]), Regs(rest), base, id, sel);
        OlderSubsets(first, RegsLoop(l), Regs(t[1..]), Regs(rest));
        assert t' == [l] + rest && t'[1..] == rest;
      }
    }
  }
}
