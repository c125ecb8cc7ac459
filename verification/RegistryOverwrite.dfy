/** When a legacy registration overwrites: seen on the list of registrations alone, a function that
    is registered again under its key gets a new argument as long as nothing was registered in
    between that closed the handler list it is in. */
module RegistryOverwrite {
  import opened Registry
  import opened RegistryOrder
  import opened RegistryRemoval
  import opened RegistryDispatch
  import opened RegistryIndex
  import opened RegistryRuns

  // ---- twice in a row ---------------------------------------------------------------------

  lemma LastOfSet(bs: seq<BaseV>, k: nat, b: BaseV, base: nat)
    requires k < |bs| && b.base == bs[k].base && HasBase(bs, base)
    ensures HasBase(bs[k := b], base) && LastOf(bs[k := b], base) == LastOf(bs, base)
  {
    LastOfIs(bs[k := b], base, LastOf(bs, base));
  }

  lemma LastOfAdd(bs: seq<BaseV>, b: BaseV, base: nat)
    ensures b.base == base ==> HasBase(bs + [b], base) && LastOf(bs + [b], base) == |bs|
    ensures b.base != base && HasBase(bs, base) ==>
              HasBase(bs + [b], base) && LastOf(bs + [b], base) == LastOf(bs, base)
  {
    if b.base == base {
      LastOfIs(bs + [b], base, |bs|);
    } else if HasBase(bs, base) {
      LastOfIs(bs + [b], base, LastOf(bs, base));
    }
  }

  lemma {:induction false} TargetIdsAfter(ids: seq<IdV>, id: int, fn: int, legacy: bool, a: nat)
    requires !(legacy && HasFn(TargetIds(ids, id), fn))
    ensures var n := CostIds(ids, id);
            TargetIds(AddIds(ids, id, fn, legacy, a), id) == TargetIds(ids, id) + [Entry(a + n - 2, a + n - 1, fn)]
  {
    var ids' := AddIds(ids, id, fn, legacy, a);
    if ids == [] {
      assert ids'[1..] == [];
      NoIds();
    } else if ids[0].id == id && !HasId(ids[1..], id) {
      assert ids'[1..] == ids[1..];
      HasIdCons(ids, id);
    } else {
      TargetIdsAfter(ids[1..], id, fn, legacy, a);
      var rest := AddIds(ids[1..], id, fn, legacy, a);
      assert ids' == [ids[0]] + rest && ids'[1..] == rest;
      AddIdsHas(ids[1..], id, fn, legacy, a);
      HasIdCons(ids, id);
    }
  }

  lemma {:induction false} AddIdsHas(ids: seq<IdV>, id: int, fn: int, legacy: bool, a: nat)
    ensures HasId(AddIds(ids, id, fn, legacy, a), id)
  {
    var ids' := AddIds(ids, id, fn, legacy, a);
    if ids == [] || (ids[0].id == id && !HasId(ids[1..], id)) {
      assert ids'[0].id == id;
    } else {
      AddIdsHas(ids[1..], id, fn, legacy, a);
      assert ids'[1..] == AddIds(ids[1..], id, fn, legacy, a);
      HasIdCons(ids', id);
    }
  }

  lemma TargetBaseAfter(b: BaseV, id: int, fn: int, legacy: bool, a: nat)
    requires !(legacy && HasFn(TargetBase(b, id), fn))
    ensures var n := CostBase(b, id);
            TargetBase(AddBase(b, id, fn, legacy, a), id) == TargetBase(b, id) + [Entry(a + n - 2, a + n - 1, fn)]
  {
    if id != ANY_ID { TargetIdsAfter(b.ids, id, fn, legacy, a); }
  }

  lemma TargetBelowAfter(bs: seq<BaseV>, base: nat, id: int, fn: int, legacy: bool, a: nat)
    requires !(legacy && HasFn(TargetBelow(bs, base, id), fn))
    ensures var n := CostBelow(bs, base, id);
            TargetBelow(AddBelowV(bs, base, id, fn, legacy, a), base, id)
            == TargetBelow(bs, base, id) + [Entry(a + n - 2, a + n - 1, fn)]
  {
    hide TargetBase, CostBase, AddIds, HasBase, LastOf;
    if OpensBase(bs, base, id) {
      var b := BaseV(a, base, [], []);
      NoFn(b, id, fn);
      TargetBaseAfter(b, id, fn, legacy, a + 1);
      LastOfAdd(bs, AddBase(b, id, fn, legacy, a + 1), base);
      SameCost(a, base, id);
    } else {
      var k := LastOf(bs, base);
      TargetBaseAfter(bs[k], id, fn, legacy, a);
      LastOfSet(bs, k, AddBase(bs[k], id, fn, legacy, a), base);
    }
  }

  lemma NoFn(b: BaseV, id: int, fn: int)
    requires b.handlers == [] && b.ids == []
    ensures TargetBase(b, id) == [] && !HasFn([], fn)
  {
  }

  lemma SameCost(a: nat, base: nat, id: int)
    ensures CostBase(BaseV(a, base, [], []), id) == CostBase(BaseV(0, base, [], []), id)
  {
  }

  lemma TargetLoopAfter(l: LoopV, base: nat, id: int, fn: int, legacy: bool, a: nat)
    requires !(legacy && HasFn(TargetLoop(l, base, id), fn))
    ensures var n := CostLoop(l, base, id);
            TargetLoop(AddLoop(l, base, id, fn, legacy, a), base, id)
            == TargetLoop(l, base, id) + [Entry(a + n - 2, a + n - 1, fn)]
  {
    hide AddLoop, CostLoop, TargetLoop, AddBelowV, TargetBelow, CostBelow, HasFn;
    if IsLoopLevel(base, id) {
      AddLoopTop(l, base, id, fn, legacy, a);
      AddLoopTop(AddLoop(l, base, id, fn, legacy, a), base, id, fn, legacy, a);
      AddHNew(l.handlers, fn, legacy, a);
    } else {
      AddLoopBelow(l, base, id, fn, legacy, a);
      AddLoopBelow(AddLoop(l, base, id, fn, legacy, a), base, id, fn, legacy, a);
      TargetBelowAfter(l.bases, base, id, fn, legacy, a);
    }
  }

  lemma AddLoopTop(l: LoopV, base: nat, id: int, fn: int, legacy: bool, a: nat)
    requires IsLoopLevel(base, id)
    ensures AddLoop(l, base, id, fn, legacy, a) == l.(handlers := AddH(l.handlers, fn, legacy, a))
    ensures CostLoop(l, base, id) == 2 && TargetLoop(l, base, id) == l.handlers
  {
  }

  lemma AddHNew(hs: seq<Entry>, fn: int, legacy: bool, a: nat)
    requires !(legacy && HasFn(hs, fn))
    ensures AddH(hs, fn, legacy, a) == hs + [Entry(a, a + 1, fn)]
  {
  }

  /** A registration that does not overwrite becomes the last entry of its handler list, and that is
      still the list for its key. */
  lemma TargetAfter(t: Tree, base: nat, id: int, fn: int, legacy: bool, a: nat)
    requires !Overwrites(t, base, id, fn, legacy)
    ensures var n := Cost(t, base, id);
            Target(AddTree(t, base, id, fn, legacy, a), base, id)
            == Target(t, base, id) + [Entry(a + n - 2, a + n - 1, fn)]
  {
    hide AddLoop, CostLoop, TargetLoop;
    var t' := AddTree(t, base, id, fn, legacy, a);
    var empty := LoopV(a, [], []);
    if OpensLoop(t, base, id) {
      EmptyTarget(a, base, id, fn);
      TargetLoopAfter(empty, base, id, fn, legacy, a + 1);
      LoopBases(empty, base, id, fn, legacy, a + 1);
    } else {
      TargetLoopAfter(t[|t| - 1], base, id, fn, legacy, a);
      LoopBases(t[|t| - 1], base, id, fn, legacy, a);
    }
  }

  lemma EmptyTarget(a: nat, base: nat, id: int, fn: int)
    ensures TargetLoop(LoopV(a, [], []), base, id) == [] && !HasFn([], fn)
    ensures CostLoop(LoopV(a, [], []), base, id) == CostLoop(LoopV(0, [], []), base, id)
  {
  }

  lemma LoopBases(l: LoopV, base: nat, id: int, fn: int, legacy: bool, a: nat)
    ensures IsLoopLevel(base, id) ==> AddLoop(l, base, id, fn, legacy, a).bases == l.bases
  {
  }

  lemma FirstFnLast(hs: seq<Entry>, e: Entry)
    requires !HasFn(hs, e.fn)
    ensures HasFn(hs + [e], e.fn) && FirstFn(hs + [e], e.fn) == |hs|
  {
    assert (hs + [e])[|hs|].fn == e.fn;
    assert forall i | 0 <= i < |hs| :: (hs + [e])[i] == hs[i];
  }

  /** After a legacy registration the same one again overwrites, and writes to the same context. */
  lemma TwiceSame(t: Tree, base: nat, id: int, fn: int, a: nat, a': nat)
    ensures var t' := AddTree(t, base, id, fn, true, a);
            && Overwrites(t', base, id, fn, true) && AddTree(t', base, id, fn, true, a') == t'
            && BoundH(Target(t', base, id), fn, true, a', Cost(t', base, id))
               == BoundH(Target(t, base, id), fn, true, a, Cost(t, base, id))
  {
    hide AddTree, Target, Cost;
    var t' := AddTree(t, base, id, fn, true, a);
    if Overwrites(t, base, id, fn, true) {
      AddTreeSame(t, base, id, fn, a);
      AddTreeSame(t, base, id, fn, a');
    } else {
      var n := Cost(t, base, id);
      TargetAfter(t, base, id, fn, true, a);
      FirstFnLast(Target(t, base, id), Entry(a + n - 2, a + n - 1, fn));
      AddTreeSame(t', base, id, fn, a');
    }
  }

  // ---- the list a live registration is in -----------------------------------------------------

  /** The handler list of a live registration is the one its key is added to. */
  ghost predicate Open(t: Tree, r: Reg) {
    t != [] && OpenIn(t[|t| - 1], r)
  }

  ghost predicate OpenIn(l: LoopV, r: Reg) {
    if IsLoopLevel(r.base, r.id) then l.bases == [] && r in RegsH(l.handlers, ANY_BASE, ANY_ID)
    else !OpensBase(l.bases, r.base, r.id) && r in RegsBase(l.bases[LastOf(l.bases, r.base)])
  }

  lemma {:induction false} TargetIdsHas(ids: seq<IdV>, base: nat, r: Reg)
    requires ShapeIds(ids) && r in RegsIds(ids, base)
    ensures r in RegsH(TargetIds(ids, r.id), base, r.id)
  {
    if r in RegsH(ids[0].handlers, base, ids[0].id) {
      assert ids[0].id == r.id;
    } else {
      RegsIdsKey(ids[1..], base);
      TargetIdsHas(ids[1..], base, r);
    }
  }

  lemma InFn(hs: seq<Entry>, base: nat, id: int, r: Reg)
    requires r in RegsH(hs, base, id)
    ensures HasFn(hs, r.fn)
  {
    var e :| e in hs && r == Reg(e.ctx, base, id, e.fn);
    var i :| 0 <= i < |hs| && hs[i] == e;
  }

  lemma {:induction false} ShapeBaseAt(bs: seq<BaseV>, k: nat)
    requires ShapeBases(bs) && k < |bs|
    ensures ShapeBase(bs[k])
  {
    if k > 0 { ShapeBaseAt(bs[1..], k - 1); }
  }

  /** The last loop node, and the rest. */
  lemma LastNode(t: Tree)
    requires Shape(t) && t != []
    ensures var n := |t| - 1;
            && Shape(t[..n]) && ShapeLoop(t[n]) && Older(Regs(t[..n]), RegsLoop(t[n]))
            && Regs(t) == Regs(t[..n]) + RegsLoop(t[n])
  {
    hide Regs, RegsLoop, Shape, ShapeLoop, Older;
    var n := |t| - 1;
    assert t == t[..n] + [t[n]];
    RegsSplit(t[..n], [t[n]]);
    ShapeSplit(t[..n], [t[n]]);
    RegsOne(t[n]);
  }

  /** Its function is found there, so that registering it again overwrites. */
  lemma OpenOverwrites(t: Tree, r: Reg)
    requires Shape(t) && Open(t, r)
    ensures Overwrites(t, r.base, r.id, r.fn, true)
  {
    hide RegsH, RegsIds, TargetIds, ShapeIds, ShapeH, HasFn, Older, LastOf, HasBase;
    LastNode(t);
    var l := t[|t| - 1];
    if IsLoopLevel(r.base, r.id) {
      InFn(l.handlers, ANY_BASE, ANY_ID, r);
    } else {
      OpenBelowOverwrites(l, r);
    }
  }

  lemma OpenBelowOverwrites(l: LoopV, r: Reg)
    requires ShapeLoop(l) && OpenIn(l, r) && !IsLoopLevel(r.base, r.id)
    ensures HasFn(TargetLoop(l, r.base, r.id), r.fn)
  {
    hide RegsH, RegsIds, TargetIds, ShapeIds, ShapeH, HasFn, Older, LastOf, HasBase;
    var b := l.bases[LastOf(l.bases, r.base)];
    ShapeBaseAt(l.bases, LastOf(l.bases, r.base));
    OwnKeys(b);
    if r in RegsH(b.handlers, b.base, ANY_ID) {
      InFn(b.handlers, b.base, ANY_ID, r);
    } else {
      TargetIdsHas(b.ids, b.base, r);
      InFn(TargetIds(b.ids, r.id), b.base, r.id, r);
    }
  }

  lemma TargetOpen(t: Tree, r: Reg)
    requires r in RegsH(Target(t, r.base, r.id), r.base, r.id)
    ensures Open(t, r)
  {
    hide TargetIds, LastOf, HasBase, HasFn, RegsIds;
    if !IsLoopLevel(r.base, r.id) {
      var bs := t[|t| - 1].bases;
      TargetIdsRegs(bs[LastOf(bs, r.base)].ids, r.base, r.id);
    }
  }

  /** A new registration is in such a list. */
  lemma NewOpen(t: Tree, base: nat, id: int, fn: int, legacy: bool, a: nat)
    requires !Overwrites(t, base, id, fn, legacy)
    ensures Open(AddTree(t, base, id, fn, legacy, a), Reg(a + Cost(t, base, id) - 1, base, id, fn))
  {
    hide AddTree, Target, Cost, Open;
    var n, t' := Cost(t, base, id), AddTree(t, base, id, fn, legacy, a);
    var e := Entry(a + n - 2, a + n - 1, fn);
    TargetAfter(t, base, id, fn, legacy, a);
    assert (Target(t, base, id) + [e])[|Target(t, base, id)|] == e;
    assert e in Target(t', base, id);
    assert Reg(e.ctx, base, id, e.fn) in RegsH(Target(t', base, id), base, id);
    TargetOpen(t', Reg(a + n - 1, base, id, fn));
  }

  // ---- what leaves it open --------------------------------------------------------------------

  /** A registration under (base, id) that does not close the list of `r`: at loop level only
      loop-level ones; at base level only base-level ones; at id level all but loop-level ones and
      base-level ones of the same base. */
  predicate Spares(r: Reg, base: nat, id: int) {
    if IsLoopLevel(r.base, r.id) then IsLoopLevel(base, id)
    else if r.id == ANY_ID then !IsLoopLevel(base, id) && id == ANY_ID
    else !IsLoopLevel(base, id) && !(base == r.base && id == ANY_ID)
  }

  lemma AddHKeeps(hs: seq<Entry>, base: nat, id: int, fn: int, legacy: bool, a: nat)
    ensures RegsH(hs, base, id) <= RegsH(AddH(hs, fn, legacy, a), base, id)
  {
    assert forall e | e in hs :: e in hs + [Entry(a, a + 1, fn)];
  }

  lemma {:induction false} AddIdsKeeps(ids: seq<IdV>, base: nat, id: int, fn: int, legacy: bool, a: nat)
    ensures RegsIds(ids, base) <= RegsIds(AddIds(ids, id, fn, legacy, a), base)
  {
    hide RegsH, AddH, HasId;
    if ids != [] {
      var ids' := AddIds(ids, id, fn, legacy, a);
      if ids[0].id == id && !HasId(ids[1..], id) {
        AddHKeeps(ids[0].handlers, base, id, fn, legacy, a);
        assert ids'[1..] == ids[1..];
      } else {
        AddIdsKeeps(ids[1..], base, id, fn, legacy, a);
        assert ids'[1..] == AddIds(ids[1..], id, fn, legacy, a);
      }
    }
  }

  lemma AddBaseKeeps(b: BaseV, id: int, fn: int, legacy: bool, a: nat)
    ensures var b' := AddBase(b, id, fn, legacy, a);
            b'.base == b.base && RegsBase(b) <= RegsBase(b') && (id == ANY_ID ==> b'.ids == b.ids)
  {
    hide RegsH, AddH, AddIds, RegsIds;
    AddHKeeps(b.handlers, b.base, ANY_ID, fn, legacy, a);
    AddIdsKeeps(b.ids, b.base, id, fn, legacy, a);
  }

  lemma AddBelowKeeps(bs: seq<BaseV>, base: nat, id: int, fn: int, legacy: bool, a: nat, r: Reg)
    requires !OpensBase(bs, r.base, r.id) && r in RegsBase(bs[LastOf(bs, r.base)])
    requires r.id == ANY_ID ==> id == ANY_ID
    requires r.id != ANY_ID ==> !(base == r.base && id == ANY_ID)
    ensures var bs' := AddBelowV(bs, base, id, fn, legacy, a);
            !OpensBase(bs', r.base, r.id) && r in RegsBase(bs'[LastOf(bs', r.base)])
  {
    hide RegsBase, AddBase, HasBase, LastOf;
    if OpensBase(bs, base, id) {
      var b := AddBase(BaseV(a, base, [], []), id, fn, legacy, a + 1);
      AddBaseKeeps(BaseV(a, base, [], []), id, fn, legacy, a + 1);
      LastOfAdd(bs, b, r.base);
    } else {
      var k := LastOf(bs, base);
      AddBaseKeeps(bs[k], id, fn, legacy, a);
      LastOfSet(bs, k, AddBase(bs[k], id, fn, legacy, a), r.base);
    }
  }

  lemma AddKeepsOpen(t: Tree, base: nat, id: int, fn: int, legacy: bool, a: nat, r: Reg)
    requires Open(t, r) && Spares(r, base, id)
    ensures Open(AddTree(t, base, id, fn, legacy, a), r)
  {
    hide AddLoop, RegsH, RegsBase, OpensBase, LastOf;
    var l := t[|t| - 1];
    if IsLoopLevel(r.base, r.id) {
      AddLoopTop(l, base, id, fn, legacy, a);
      AddHKeeps(l.handlers, ANY_BASE, ANY_ID, fn, legacy, a);
    } else {
      AddLoopBelow(l, base, id, fn, legacy, a);
      AddBelowKeeps(l.bases, base, id, fn, legacy, a, r);
    }
  }

  lemma {:induction false} RemoveBasesHas(bs: seq<BaseV>, base: nat, id: int, sel: Sel, b: nat)
    ensures HasBase(RemoveBases(bs, base, id, sel).0, b) ==> HasBase(bs, b)
  {
    hide RemoveIds, RemoveH;
    if bs != [] {
      RemoveBasesHas(bs[1..], base, id, sel, b);
      HasBaseCons(bs, b);
      var bs', rest := RemoveBases(bs, base, id, sel).0, RemoveBases(bs[1..], base, id, sel).0;
      if bs' != bs[1..] {
        assert bs'[0].base == bs[0].base && bs'[1..] == rest;
        HasBaseCons(bs', b);
      }
    }
  }

  /** The last node of a base stays the last one while a registration in it stays. */
  lemma {:induction false} RemoveBasesLast(bs: seq<BaseV>, base: nat, id: int, sel: Sel, r: Reg)
    requires ShapeBases(bs) && HasBase(bs, r.base) && r in RegsBase(bs[LastOf(bs, r.base)])
    requires r in RegsBases(RemoveBases(bs, base, id, sel).0)
    ensures var bs' := RemoveBases(bs, base, id, sel).0;
            HasBase(bs', r.base) && r in RegsBase(bs'[LastOf(bs', r.base)])
  {
    hide RemoveBase, RegsBase, HasBase, LastOf, ShapeBase;
    var bs', rest := RemoveBases(bs, base, id, sel).0, RemoveBases(bs[1..], base, id, sel).0;
    HasBaseCons(bs, r.base);
    RemoveBasesHas(bs[1..], base, id, sel, r.base);
    RemoveBasesShrinks(bs[1..], base, id, sel);
    RemoveBaseShrinks(bs[0], id, sel);
    if HasBase(bs[1..], r.base) {
      LastOfTail(bs, r.base);
      if bs' != bs[1..] {
        assert bs' == [bs'[0]] + rest && bs'[1..] == rest;
        NotInHead(bs, r);
        RemoveBasesLast(bs[1..], base, id, sel, r);
        LastOfTail(bs', r.base);
      }
    } else {
      LastOfHead(bs, r.base);
      NoneOfBase(bs[1..], r.base);
      assert r in RegsBases(bs[1..]) <==> r in OfBase(RegsBases(bs[1..]), r.base);
      if bs' != bs[1..] {
        assert bs' == [bs'[0]] + rest && bs'[1..] == rest;
        LastOfHead(bs', r.base);
      }
    }
  }

  lemma NotInHead(bs: seq<BaseV>, r: Reg)
    requires ShapeBases(bs) && bs != [] && HasBase(bs[1..], r.base)
    requires r in RegsBase(bs[1..][LastOf(bs[1..], r.base)])
    ensures r !in RegsBase(bs[0])
  {
    var k := LastOf(bs[1..], r.base);
    NodeRegs(bs[1..], k);
    RegsBaseKey(bs[0]);
    assert r.base == bs[0].base <==> r in OfBase(RegsBases(bs[1..]), bs[0].base);
  }

  /** The last loop node stays the last one while a registration in it stays. */
  lemma {:induction false} RemoveTreeLast(t: Tree, base: nat, id: int, sel: Sel, r: Reg)
    requires Shape(t) && ValidKey(base, id) && t != [] && r in RegsLoop(t[|t| - 1])
    requires r in Regs(RemoveTree(t, base, id, sel))
    ensures var t' := RemoveTree(t, base, id, sel);
            && t' != [] && r in RegsLoop(t'[|t'| - 1])
            && t'[|t'| - 1] in {t[|t| - 1], RemoveLoop(t[|t| - 1], base, id, sel).0}
  {
    hide RemoveLoop, RegsLoop, ShapeLoop, Shape, RemoveTree, Regs;
    var t' := RemoveTree(t, base, id, sel);
    RemoveTreeHead(t, base, id, sel, r);
    if |t| > 1 && t' != t[1..] {
      HeadLoop(t, base, id, sel, r);
      RemoveTreeLast(t[1..], base, id, sel, r);
    }
  }

  lemma RemoveTreeHead(t: Tree, base: nat, id: int, sel: Sel, r: Reg)
    requires t != []
    ensures var t', l := RemoveTree(t, base, id, sel), RemoveLoop(t[0], base, id, sel).0;
            && (t' == t[1..] || t' == [l] + RemoveTree(t[1..], base, id, sel))
            && (t' != t[1..] && r in Regs(t') ==>
                  r in RegsLoop(l) || r in Regs(RemoveTree(t[1..], base, id, sel)))
    ensures |t| == 1 ==> RemoveTree(t[1..], base, id, sel) == [] && (r in Regs([]) ==> false)
    ensures |t| > 1 ==> t[1..][|t| - 2] == t[|t| - 1]
  {
    hide RemoveLoop, RegsLoop;
    var t' := RemoveTree(t, base, id, sel);
    if t' != t[1..] {
      assert t'[1..] == RemoveTree(t[1..], base, id, sel);
    }
  }

  lemma HeadLoop(t: Tree, base: nat, id: int, sel: Sel, r: Reg)
    requires Shape(t) && ValidKey(base, id) && |t| > 1 && r in RegsLoop(t[|t| - 1])
    ensures Shape(t[1..]) && r !in RegsLoop(RemoveLoop(t[0], base, id, sel).0)
  {
    hide RemoveLoop, RegsLoop, ShapeLoop;
    assert t[1..][|t| - 2] == t[|t| - 1];
    LastNode(t[1..]);
    RemoveLoopShrinks(t[0], base, id, sel);
  }

  /** An unregister call does not close the list of a loop-level or id-level registration that it
      leaves alone. */
  lemma RemoveKeepsOpen(t: Tree, base: nat, id: int, sel: Sel, r: Reg)
    requires Shape(t) && ValidKey(base, id) && Open(t, r) && (IsLoopLevel(r.base, r.id) || r.id != ANY_ID)
    requires r.base > NULL_BASE && (r.base == ANY_BASE ==> r.id == ANY_ID)
    requires r in Regs(RemoveTree(t, base, id, sel))
    ensures Open(RemoveTree(t, base, id, sel), r)
  {
    hide RemoveTree, RegsH, RegsBase, ShapeBases, RegsBases, RemoveBases, RemoveH, LastOf, HasBase, Older;
    var l, l' := t[|t| - 1], RemoveLoop(t[|t| - 1], base, id, sel).0;
    LastNode(t);
    if IsLoopLevel(r.base, r.id) {
      RemoveTreeLast(t, base, id, sel, r);
      NoBases(base, id, sel);
    } else {
      NodeRegs(l.bases, LastOf(l.bases, r.base));
      RemoveTreeLast(t, base, id, sel, r);
      NotAbove(RemoveTree(t, base, id, sel)[|RemoveTree(t, base, id, sel)| - 1], r);
      if !IsLoopLevel(base, id) && r in RegsBases(l'.bases) {
        RemoveBasesLast(l.bases, base, id, sel, r);
      }
    }
  }

  lemma NoBases(base: nat, id: int, sel: Sel)
    ensures RemoveBases([], base, id, sel).0 == [] && RegsBases([]) == {}
  {
  }

  lemma NoneBelow()
    ensures RegsBases([]) == {}
  {
  }

  lemma NotAbove(l: LoopV, r: Reg)
    requires r in RegsLoop(l) && r.base != ANY_BASE
    ensures r in RegsBases(l.bases)
  {
  }

  // ---- what closes it -------------------------------------------------------------------------

  /** A registration under the key of `x`, younger than one under (base, id), parts the latter from
      its key: any but a loop-level one from a loop-level one; a loop-level one or one for an id of
      the same base from a base-level one; a loop-level or base-level one of the same base from one
      for an id. */
  predicate Parts(x: Reg, base: nat, id: int) {
    if IsLoopLevel(base, id) then !IsLoopLevel(x.base, x.id)
    else if id == ANY_ID then IsLoopLevel(x.base, x.id) || (x.base == base && x.id != ANY_ID)
    else IsLoopLevel(x.base, x.id) || (x.base == base && x.id == ANY_ID)
  }

  /** What is younger than a registration in the last node of its base is there, too. */
  lemma {:induction false} YoungerIn(bs: seq<BaseV>, r: Reg, x: Reg)
    requires ShapeBases(bs) && HasBase(bs, r.base) && r in RegsBase(bs[LastOf(bs, r.base)])
    requires x in RegsBases(bs) && x.base == r.base && r.ctx < x.ctx
    ensures x in RegsBase(bs[LastOf(bs, r.base)])
  {
    hide RegsBase, ShapeBase, HasBase, LastOf, Older;
    HasBaseCons(bs, r.base);
    RegsBaseKey(bs[0]);
    if HasBase(bs[1..], r.base) {
      LastOfTail(bs, r.base);
      NodeRegs(bs[1..], LastOf(bs[1..], r.base));
      HeadOlder(bs, x, r);
      YoungerIn(bs[1..], r, x);
    } else {
      LastOfHead(bs, r.base);
      NoneOfBase(bs[1..], r.base);
      assert x in RegsBases(bs[1..]) <==> x in OfBase(RegsBases(bs[1..]), r.base);
    }
  }

  lemma HeadOlder(bs: seq<BaseV>, x: Reg, r: Reg)
    requires ShapeBases(bs) && bs != [] && r in RegsBases(bs[1..]) && x.base == r.base && r.ctx < x.ctx
    ensures x !in RegsBase(bs[0])
  {
    RegsBaseKey(bs[0]);
    assert r.base == bs[0].base <==> r in OfBase(RegsBases(bs[1..]), bs[0].base);
  }

  lemma PartedBelow(l: LoopV, r: Reg, x: Reg)
    requires ShapeLoop(l) && r in RegsLoop(l) && x in RegsLoop(l) && r.ctx < x.ctx && Parts(x, r.base, r.id)
    ensures !OpenIn(l, r)
  {
    hide RegsH, RegsBases, ShapeBases, ShapeH, RegsBase, LastOf, HasBase;
    LoopKeys(l);
    NoneBelow();
    if !IsLoopLevel(r.base, r.id) && OpenIn(l, r) {
      var k := LastOf(l.bases, r.base);
      NodeRegs(l.bases, k);
      if x in RegsBases(l.bases) && x.base == r.base {
        YoungerIn(l.bases, r, x);
        ShapeBaseAt(l.bases, k);
        PartedInBase(l.bases[k], r, x);
      }
    }
  }

  lemma PartedInBase(b: BaseV, r: Reg, x: Reg)
    requires ShapeBase(b) && r in RegsBase(b) && x in RegsBase(b) && r.ctx < x.ctx
    ensures x.id == ANY_ID ==> r.id == ANY_ID
    ensures r.id == ANY_ID && x.id != ANY_ID ==> b.ids != []
  {
    OwnKeys(b);
  }

  /** A registration is not in the list for its key when a younger live one parts it from there. */
  lemma PartedNotOpen(t: Tree, r: Reg, x: Reg)
    requires Shape(t) && r in Regs(t) && x in Regs(t) && r.ctx < x.ctx && Parts(x, r.base, r.id)
    ensures !Open(t, r)
  {
    hide RegsLoop, ShapeLoop, Shape, Regs, OpenIn;
    if Open(t, r) {
      LastNode(t);
      var l := t[|t| - 1];
      OpenInLoop(l, r);
      if x in RegsLoop(l) { PartedBelow(l, r, x); }
    }
  }

  lemma OpenInLoop(l: LoopV, r: Reg)
    requires OpenIn(l, r)
    ensures r in RegsLoop(l)
  {
    hide RegsH, RegsBase;
    if !IsLoopLevel(r.base, r.id) {
      NodeRegs(l.bases, LastOf(l.bases, r.base));
    }
  }

  // ---- runs, on the list of registrations alone -----------------------------------------------

  /** A registration that overwrites does so to a live registration whose list is open. */
  lemma OverwritesOpen(t: Tree, base: nat, id: int, fn: int)
    returns (r: Reg)
    requires Overwrites(t, base, id, fn, true)
    ensures r == Reg(r.ctx, base, id, fn) && r in Regs(t) && Open(t, r)
  {
    hide Target, Regs, Open;
    var hs := Target(t, base, id);
    var i :| 0 <= i < |hs| && hs[i].fn == fn;
    r := Reg(hs[i].ctx, base, id, fn);
    assert hs[i] in hs && r in RegsH(hs, base, id);
    TargetRegs(t, base, id);
    TargetOpen(t, r);
  }

  predicate SparesOp(r: Reg, op: Op) {
    match op
    case Register(base, id, _, _, granted, _) => granted ==> Spares(r, base, id)
    case Unregister(_, _, _) => IsLoopLevel(r.base, r.id) || r.id != ANY_ID
  }

  /** The state after one more call. */
  lemma AfterStep(ops: seq<Op>, op: Op)
    ensures After(ops + [op]) == Step(After(ops), op)
  {
    assert (ops + [op])[..|ops|] == ops;
  }

  lemma StepKeepsOpen(s: State, op: Op, r: Reg)
    requires Coupled(s.tree, s.flat, s.next) && ValidOp(op) && ValidKey(r.base, r.id) && r.ctx < s.next
    requires SparesOp(r, op) && (r in s.flat ==> Open(s.tree, r))
    ensures r.ctx < Step(s, op).next && (r in Step(s, op).flat ==> Open(Step(s, op).tree, r))
  {
    hide AddTree, RemoveTree, Open, Cost, Overwrites, Coupled, Regs, Gone, Spares;
    match op
    case Register(base, id, fn, legacy, granted, _) =>
      if granted && r in Step(s, op).flat {
        assert r in s.flat;
        AddKeepsOpen(s.tree, base, id, fn, legacy, s.next, r);
      }
    case Unregister(base, id, sel) =>
      if r in Step(s, op).flat {
        CoupledHas(s.tree, s.flat, s.next, base, id, sel, r);
        RemoveKeepsOpen(s.tree, base, id, sel, r);
      }
  }

  lemma CoupledHas(t: Tree, flat: seq<Reg>, next: nat, base: nat, id: int, sel: Sel, r: Reg)
    requires Coupled(t, flat, next) && ValidKey(base, id)
    requires r in Without(flat, Gone(t, base, id, sel))
    ensures Shape(t) && r in flat && r in Regs(RemoveTree(t, base, id, sel))
  {
    hide RemoveTree, Regs, Shape, Without;
    UnregisterCoupled(t, flat, next, base, id, sel);
    WithoutMembers(flat, Gone(t, base, id, sel));
  }

  lemma {:induction false} StaysOpen(ops: seq<Op>, later: seq<Op>, r: Reg)
    requires (forall op | op in ops :: ValidOp(op)) && ValidKey(r.base, r.id)
    requires forall op | op in later :: ValidOp(op) && SparesOp(r, op)
    requires r.ctx < After(ops).next && (r in After(ops).flat ==> Open(After(ops).tree, r))
    ensures r.ctx < After(ops + later).next
    ensures r in After(ops + later).flat ==> Open(After(ops + later).tree, r)
  {
    hide After, Open, Coupled, Step;
    if later == [] {
      assert ops + later == ops;
    } else {
      var n := |later| - 1;
      StaysOpen(ops, later[..n], r);
      assert ops + later == (ops + later[..n]) + [later[n]];
      AfterStep(ops + later[..n], later[n]);
      ReachableCoupled(ops + later[..n]);
      StepKeepsOpen(After(ops + later[..n]), later[n], r);
    }
  }

  /** A function that is live under its key is not registered a second time by a legacy call, however
      long ago it was registered, as long as every registration since then spared its list: at id
      level, anything that was not at loop level and not at base level of the same base; at loop
      level, loop-level ones; at base level, base-level ones and no unregister call. */
  lemma LegacyAgain(ops: seq<Op>, op: Op, later: seq<Op>, r: Reg)
    requires (forall o | o in ops + [op] :: ValidOp(o)) && op.Register? && op.granted
    requires After(ops + [op]).flat == After(ops).flat + [r]
    requires forall o | o in later :: ValidOp(o) && SparesOp(r, o)
    requires r in After(ops + [op] + later).flat
    ensures var all := ops + [op] + later;
            After(all + [Register(r.base, r.id, r.fn, true, true, 0)]).flat == After(all).flat
  {
    hide After, Open, Coupled, AddTree, Overwrites, Cost;
    var s := After(ops);
    AfterStep(ops, op);
    assert op in ops + [op] && forall o | o in ops :: o in ops + [op];
    ReachableCoupled(ops);
    Appending(s, op, r);
    NewOpen(s.tree, op.base, op.id, op.fn, op.legacy, s.next);
    StaysOpen(ops + [op], later, r);
    var all := ops + [op] + later;
    ReachableCoupled(all);
    ShapeOf(After(all));
    OpenOverwrites(After(all).tree, r);
    AfterStep(all, Register(r.base, r.id, r.fn, true, true, 0));
  }

  lemma ShapeOf(s: State)
    requires Coupled(s.tree, s.flat, s.next)
    ensures Shape(s.tree) && forall r :: r in s.flat <==> r in Regs(s.tree)
  {
  }

  lemma Appending(s: State, op: Op, r: Reg)
    requires op.Register? && op.granted && Step(s, op).flat == s.flat + [r]
    ensures !Overwrites(s.tree, op.base, op.id, op.fn, op.legacy)
    ensures r == Reg(s.next + Cost(s.tree, op.base, op.id) - 1, op.base, op.id, op.fn)
    ensures r.ctx < Step(s, op).next
  {
    hide AddTree, Overwrites, Cost;
    assert |Step(s, op).flat| == |s.flat| + 1;
    assert Step(s, op).flat[|s.flat|] == r;
  }

  /** The other way round: when every live registration of the function under the key is parted from
      it by a younger live one, a legacy registration appends. */
  lemma LegacyAppends(ops: seq<Op>, base: nat, id: int, fn: int)
    requires (forall op | op in ops :: ValidOp(op)) && ValidKey(base, id)
    requires forall r | r in After(ops).flat && r.base == base && r.id == id && r.fn == fn ::
               exists x | x in After(ops).flat :: r.ctx < x.ctx && Parts(x, base, id)
    ensures var s, s' := After(ops), After(ops + [Register(base, id, fn, true, true, 0)]);
            |s'.flat| == |s.flat| + 1 && s'.flat == s.flat + [Reg(s'.next - 1, base, id, fn)]
  {
    hide After, Open, Coupled, AddTree, Overwrites, Cost, Parts;
    var s := After(ops);
    AfterStep(ops, Register(base, id, fn, true, true, 0));
    ReachableCoupled(ops);
    ShapeOf(s);
    if Overwrites(s.tree, base, id, fn, true) {
      var r := OverwritesOpen(s.tree, base, id, fn);
      var x :| x in s.flat && r.ctx < x.ctx && Parts(x, base, id);
      PartedNotOpen(s.tree, r, x);
    }
  }

  lemma FirstAppends(base: nat, id: int, fn: int)
    requires ValidKey(base, id)
    ensures var s := After([Register(base, id, fn, true, true, 0)]);
            s.flat == [Reg(s.next - 1, base, id, fn)]
  {
    LegacyAppends([], base, id, fn);
    assert [] + [Register(base, id, fn, true, true, 0)] == [Register(base, id, fn, true, true, 0)];
  }

  /** So a legacy registration that is repeated after one that parts it from its list leaves the
      function registered twice under its key. */
  lemma RepeatedIsDoubled(base: nat, id: int, fn: int, base': nat, id': int, fn': int)
    requires ValidKey(base, id) && ValidKey(base', id') && Parts(Reg(0, base', id', fn'), base, id)
    ensures var first, other := Register(base, id, fn, true, true, 0), Register(base', id', fn', true, true, 0);
            var flat := After([first, other, first]).flat;
            && |flat| == 3 && flat[0] == Reg(flat[0].ctx, base, id, fn) && flat[2] == Reg(flat[2].ctx, base, id, fn)
            && flat[0].ctx < flat[1].ctx < flat[2].ctx && flat[1] == Reg(flat[1].ctx, base', id', fn')
  {
    hide After, Coupled, InOrder;
    var first, other := Register(base, id, fn, true, true, 0), Register(base', id', fn', true, true, 0);
    FirstAppends(base, id, fn);
    LegacyAppends([first], base', id', fn');
    assert [first] + [other] == [first, other];
    var two := After([first, other]).flat;
    ReachableCoupled([first, other]);
    InOrderOf(After([first, other]));
    assert two[0].ctx < two[1].ctx && two[1] in two && Parts(two[1], base, id);
    LegacyAppends([first, other], base, id, fn);
    assert [first, other] + [first] == [first, other, first];
    ReachableCoupled([first, other, first]);
    InOrderOf(After([first, other, first]));
    var three := After([first, other, first]).flat;
    assert three[0].ctx < three[1].ctx && three[1].ctx < three[2].ctx;
  }

  lemma InOrderOf(s: State)
    requires Coupled(s.tree, s.flat, s.next)
    ensures forall i, j | 0 <= i < j < |s.flat| :: s.flat[i].ctx < s.flat[j].ctx
  {
  }

  /** A registration for an id of another base closes a base-level list as well, when it makes the
      last base node. */
  lemma OtherBaseDoubles(base: nat, fn: int, base': nat, id': int, fn': int)
    requires base > ANY_BASE && base' > ANY_BASE && base != base' && id' != ANY_ID
    ensures var first, other := Register(base, ANY_ID, fn, true, true, 0), Register(base', id', fn', true, true, 0);
            |After([first, other, first]).flat| == 3
  {
    hide After, AddTree, Overwrites, Cost, Target, Regs, HasFn;
    var first, other := Register(base, ANY_ID, fn, true, true, 0), Register(base', id', fn', true, true, 0);
    FirstTree(base, fn);
    FirstAppends(base, ANY_ID, fn);
    LegacyAppends([first], base', id', fn');
    AfterStep([first], other);
    AfterStep([first, other], first);
    assert [first] + [other] == [first, other] && [first, other] + [first] == [first, other, first];
    SecondTree(base, fn, base', id', fn', After([first]).next);
  }

  lemma FirstTree(base: nat, fn: int)
    requires base > ANY_BASE
    ensures After([Register(base, ANY_ID, fn, true, true, 0)]).tree
         == [LoopV(0, [], [BaseV(1, base, [Entry(2, 3, fn)], [])])]
  {
    AfterStep([], Register(base, ANY_ID, fn, true, true, 0));
    AddLoopBelow(LoopV(0, [], []), base, ANY_ID, fn, true, 1);
    NoIds();
    var b := BaseV(1, base, [Entry(2, 3, fn)], []);
    assert AddH([], fn, true, 2) == [Entry(2, 3, fn)];
    assert [] + [b] == [b] && [] + [LoopV(0, [], [b])] == [LoopV(0, [], [b])];
    assert After([]) == State([], [], 0);
    assert AddTree([], base, ANY_ID, fn, true, 0) == [LoopV(0, [], [b])];
    assert [] + [Register(base, ANY_ID, fn, true, true, 0)] == [Register(base, ANY_ID, fn, true, true, 0)];
  }

  lemma SecondTree(base: nat, fn: int, base': nat, id': int, fn': int, a: nat)
    requires base > ANY_BASE && base' > ANY_BASE && base != base' && id' != ANY_ID
    ensures var t := [LoopV(0, [], [BaseV(1, base, [Entry(2, 3, fn)], [])])];
            !Overwrites(AddTree(t, base', id', fn', true, a), base, ANY_ID, fn, true)
  {
    var bs := [BaseV(1, base, [Entry(2, 3, fn)], [])];
    var l := LoopV(0, [], bs);
    AddLoopBelow(l, base', id', fn', true, a);
    var b := AddBase(BaseV(a, base', [], []), id', fn', true, a + 1);
    assert AddTree([l], base', id', fn', true, a) == [LoopV(0, [], bs + [b])];
    assert (bs + [b])[0].base == base && (bs + [b])[1] == b && b.ids != [];
    LastOfIs(bs + [b], base, 0);
    NoIds();
  }
}
