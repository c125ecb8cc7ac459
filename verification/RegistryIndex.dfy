/** Index forms of the registry functions, as the search loops of the C code compute them,
    and the blocks that each list owns. */
module RegistryIndex {
  import opened Registry
  import opened RegistryOrder

  lemma {:induction false} AddIdsNew(ids: seq<IdV>, id: int, fn: int, legacy: bool, a: nat)
    requires !HasId(ids, id)
    ensures AddIds(ids, id, fn, legacy, a) == ids + [IdV(a, id, AddH([], fn, legacy, a + 1))]
    ensures TargetIds(ids, id) == []
  {
    if ids != [] {
      HasIdCons(ids, id);
      AddIdsNew(ids[1..], id, fn, legacy, a);
    }
  }

  lemma {:induction false} AddIdsAt(ids: seq<IdV>, k: nat, id: int, fn: int, legacy: bool, a: nat)
    requires k < |ids| && ids[k].id == id && forall j | k < j < |ids| :: ids[j].id != id
    ensures AddIds(ids, id, fn, legacy, a)
         == ids[k := ids[k].(handlers := AddH(ids[k].handlers, fn, legacy, a))]
    ensures TargetIds(ids, id) == ids[k].handlers
  {
    var d := ids[k].(handlers := AddH(ids[k].handlers, fn, legacy, a));
    HasIdCons(ids, id);
    if k == 0 {
      assert !HasId(ids[1..], id);
      assert ids[k := d] == [d] + ids[1..];
    } else {
      assert ids[1..][k - 1].id == id;
      AddIdsAt(ids[1..], k - 1, id, fn, legacy, a);
      assert ids[k := d] == [ids[0]] + ids[1..][k - 1 := d];
    }
  }

  lemma {:induction false} AddBasesOpen(bs: seq<BaseV>, base: nat, id: int, fn: int, legacy: bool, a: nat)
    ensures AddBases(bs, base, id, fn, legacy, a, true)
         == bs + [AddBase(BaseV(a, base, [], []), id, fn, legacy, a + 1)]
  {
    if bs != [] {
      AddBasesOpen(bs[1..], base, id, fn, legacy, a);
    }
  }

  lemma {:induction false} AddBasesAt(bs: seq<BaseV>, base: nat, id: int, fn: int, legacy: bool, a: nat)
    requires HasBase(bs, base)
    ensures var k := LastOf(bs, base);
            AddBases(bs, base, id, fn, legacy, a, false) == bs[k := AddBase(bs[k], id, fn, legacy, a)]
  {
    hide AddBase, LastOf, HasBase;
    var k := LastOf(bs, base);
    var b := AddBase(bs[k], id, fn, legacy, a);
    HasBaseCons(bs, base);
    if HasBase(bs[1..], base) {
      LastOfTail(bs, base);
      var j := LastOf(bs[1..], base);
      forall i | j + 1 < i < |bs| ensures bs[i].base != base { assert bs[i] == bs[1..][i - 1]; }
      LastOfIs(bs, base, j + 1);
      AddBasesAt(bs[1..], base, id, fn, legacy, a);
      assert bs[k := b] == [bs[0]] + bs[1..][k - 1 := b];
    } else {
      LastOfHead(bs, base);
      assert bs[k := b] == [b] + bs[1..];
    }
  }

  /** Adding below loop level, in terms of the list of base nodes alone. */
  function AddBelowV(bs: seq<BaseV>, base: nat, id: int, fn: int, legacy: bool, a: nat): seq<BaseV> {
    if OpensBase(bs, base, id) then bs + [AddBase(BaseV(a, base, [], []), id, fn, legacy, a + 1)]
    else var k := LastOf(bs, base); bs[k := AddBase(bs[k], id, fn, legacy, a)]
  }

  function CostBelow(bs: seq<BaseV>, base: nat, id: int): (n: nat)
    ensures n >= 2
  {
    if OpensBase(bs, base, id) then 1 + CostBase(BaseV(0, base, [], []), id)
    else CostBase(bs[LastOf(bs, base)], id)
  }

  function TargetBelow(bs: seq<BaseV>, base: nat, id: int): seq<Entry> {
    if OpensBase(bs, base, id) then [] else TargetBase(bs[LastOf(bs, base)], id)
  }

  lemma AddLoopBelow(l: LoopV, base: nat, id: int, fn: int, legacy: bool, a: nat)
    requires !IsLoopLevel(base, id)
    ensures AddLoop(l, base, id, fn, legacy, a) == l.(bases := AddBelowV(l.bases, base, id, fn, legacy, a))
    ensures CostLoop(l, base, id) == CostBelow(l.bases, base, id)
    ensures TargetLoop(l, base, id) == TargetBelow(l.bases, base, id)
  {
    if OpensBase(l.bases, base, id) {
      AddBasesOpen(l.bases, base, id, fn, legacy, a);
    } else {
      AddBasesAt(l.bases, base, id, fn, legacy, a);
    }
  }

  /** What the search loop for a base node decides. */
  lemma OpensBaseIs(bs: seq<BaseV>, base: nat, id: int, k: int)
    requires -1 <= k < |bs| && (k >= 0 ==> bs[k].base == base)
    requires forall j | k < j < |bs| :: bs[j].base != base
    ensures OpensBase(bs, base, id) <==>
              || |bs| == 0
              || k < 0
              || (bs[k].ids != [] && id == ANY_ID)
              || (bs[|bs| - 1].base != base && bs[|bs| - 1].ids != [] && id == ANY_ID)
    ensures k >= 0 ==> HasBase(bs, base) && LastOf(bs, base) == k
  {
    if k >= 0 { LastOfIs(bs, base, k); }
  }

  // ---- blocks -----------------------------------------------------------------------

  lemma {:induction false} BlocksHCat(s: seq<Entry>, u: seq<Entry>, a: nat)
    ensures BlocksH(s + u, a) == BlocksH(s, a) + BlocksH(u, a)
  {
    if s == [] {
      assert s + u == u;
    } else {
      BlocksHCat(s[1..], u, a);
      assert (s + u)[1..] == s[1..] + u;
    }
  }

  lemma BlocksHAdd(hs: seq<Entry>, e: Entry, a: nat)
    ensures BlocksH(hs + [e], a)
         == BlocksH(hs, a) + (if e.node == a then 1 else 0) + (if e.ctx == a then 1 else 0)
  {
    BlocksHCat(hs, [e], a);
    assert [e][1..] == [];
  }

  lemma {:induction false} BlocksIdsCat(s: seq<IdV>, u: seq<IdV>, a: nat)
    ensures BlocksIds(s + u, a) == BlocksIds(s, a) + BlocksIds(u, a)
  {
    if s == [] {
      assert s + u == u;
    } else {
      BlocksIdsCat(s[1..], u, a);
      assert (s + u)[1..] == s[1..] + u;
    }
  }

  lemma BlocksIdsAt(ids: seq<IdV>, k: nat, a: nat)
    requires k < |ids|
    ensures BlocksIds(ids, a) == BlocksIds(ids[..k], a) + BlocksId(ids[k], a) + BlocksIds(ids[k + 1..], a)
  {
    BlocksIdsCat(ids[..k], ids[k..], a);
    assert ids == ids[..k] + ids[k..];
    assert ids[k..][1..] == ids[k + 1..];
  }

  lemma BlocksIdsSet(ids: seq<IdV>, k: nat, n: IdV, a: nat)
    requires k < |ids|
    ensures BlocksIds(ids[k := n], a) + BlocksId(ids[k], a) == BlocksIds(ids, a) + BlocksId(n, a)
  {
    BlocksIdsAt(ids, k, a);
    BlocksIdsAt(ids[k := n], k, a);
    assert ids[k := n][..k] == ids[..k] && ids[k := n][k + 1..] == ids[k + 1..];
  }

  lemma BlocksIdsCut(ids: seq<IdV>, k: nat, a: nat)
    requires k < |ids|
    ensures BlocksIds(ids[..k] + ids[k + 1..], a) + BlocksId(ids[k], a) == BlocksIds(ids, a)
  {
    BlocksIdsAt(ids, k, a);
    BlocksIdsCat(ids[..k], ids[k + 1..], a);
  }

  lemma BlocksIdsAdd(ids: seq<IdV>, n: IdV, a: nat)
    ensures BlocksIds(ids + [n], a) == BlocksIds(ids, a) + BlocksId(n, a)
  {
    BlocksIdsCat(ids, [n], a);
    assert [n][1..] == [];
  }

  lemma {:induction false} BlocksBasesCat(s: seq<BaseV>, u: seq<BaseV>, a: nat)
    ensures BlocksBases(s + u, a) == BlocksBases(s, a) + BlocksBases(u, a)
  {
    if s == [] {
      assert s + u == u;
    } else {
      BlocksBasesCat(s[1..], u, a);
      assert (s + u)[1..] == s[1..] + u;
    }
  }

  lemma BlocksBasesAt(bs: seq<BaseV>, k: nat, a: nat)
    requires k < |bs|
    ensures BlocksBases(bs, a) == BlocksBases(bs[..k], a) + BlocksBase(bs[k], a) + BlocksBases(bs[k + 1..], a)
  {
    BlocksBasesCat(bs[..k], bs[k..], a);
    assert bs == bs[..k] + bs[k..];
    assert bs[k..][1..] == bs[k + 1..];
  }

  lemma BlocksBasesSet(bs: seq<BaseV>, k: nat, n: BaseV, a: nat)
    requires k < |bs|
    ensures BlocksBases(bs[k := n], a) + BlocksBase(bs[k], a) == BlocksBases(bs, a) + BlocksBase(n, a)
  {
    BlocksBasesAt(bs, k, a);
    BlocksBasesAt(bs[k := n], k, a);
    assert bs[k := n][..k] == bs[..k] && bs[k := n][k + 1..] == bs[k + 1..];
  }

  lemma BlocksBasesCut(bs: seq<BaseV>, k: nat, a: nat)
    requires k < |bs|
    ensures BlocksBases(bs[..k] + bs[k + 1..], a) + BlocksBase(bs[k], a) == BlocksBases(bs, a)
  {
    BlocksBasesAt(bs, k, a);
    BlocksBasesCat(bs[..k], bs[k + 1..], a);
  }

  lemma BlocksBasesAdd(bs: seq<BaseV>, n: BaseV, a: nat)
    ensures BlocksBases(bs + [n], a) == BlocksBases(bs, a) + BlocksBase(n, a)
  {
    BlocksBasesCat(bs, [n], a);
    assert [n][1..] == [];
  }

  lemma {:induction false} BlocksCat(s: Tree, u: Tree, a: nat)
    ensures Blocks(s + u, a) == Blocks(s, a) + Blocks(u, a)
  {
    if s == [] {
      assert s + u == u;
    } else {
      BlocksCat(s[1..], u, a);
      assert (s + u)[1..] == s[1..] + u;
    }
  }

  lemma BlocksAt(t: Tree, k: nat, a: nat)
    requires k < |t|
    ensures Blocks(t, a) == Blocks(t[..k], a) + BlocksLoop(t[k], a) + Blocks(t[k + 1..], a)
  {
    BlocksCat(t[..k], t[k..], a);
    assert t == t[..k] + t[k..];
    assert t[k..][1..] == t[k + 1..];
  }

  lemma BlocksSet(t: Tree, k: nat, n: LoopV, a: nat)
    requires k < |t|
    ensures Blocks(t[k := n], a) + BlocksLoop(t[k], a) == Blocks(t, a) + BlocksLoop(n, a)
  {
    BlocksAt(t, k, a);
    BlocksAt(t[k := n], k, a);
    assert t[k := n][..k] == t[..k] && t[k := n][k + 1..] == t[k + 1..];
  }

  lemma BlocksCut(t: Tree, k: nat, a: nat)
    requires k < |t|
    ensures Blocks(t[..k] + t[k + 1..], a) + BlocksLoop(t[k], a) == Blocks(t, a)
  {
    BlocksAt(t, k, a);
    BlocksCat(t[..k], t[k + 1..], a);
  }

  lemma BlocksAdd(t: Tree, n: LoopV, a: nat)
    ensures Blocks(t + [n], a) == Blocks(t, a) + BlocksLoop(n, a)
  {
    BlocksCat(t, [n], a);
    assert [n][1..] == [];
  }

  lemma BlocksHCut(hs: seq<Entry>, k: nat, a: nat)
    requires k < |hs|
    ensures BlocksH(hs, a)
         == BlocksH(hs[..k] + hs[k + 1..], a) + (if hs[k].node == a then 1 else 0) + (if hs[k].ctx == a then 1 else 0)
  {
    BlocksHCat(hs[..k], hs[k..], a);
    BlocksHCat(hs[..k], hs[k + 1..], a);
    assert hs == hs[..k] + hs[k..];
    assert hs[k..][1..] == hs[k + 1..];
  }

  lemma BlockIn(hs: seq<Entry>, k: nat)
    requires k < |hs|
    ensures BlocksH(hs, hs[k].node) >= 1 && BlocksH(hs, hs[k].ctx) >= 1
  {
    BlocksHCut(hs, k, hs[k].node);
    BlocksHCut(hs, k, hs[k].ctx);
  }

  /** handler_instances_remove takes out the first selected entry and no other. */
  lemma {:induction false} RemoveHAt(hs: seq<Entry>, k: nat, sel: Sel)
    requires k < |hs| && Selects(hs[k], sel) && forall j | 0 <= j < k :: !Selects(hs[j], sel)
    ensures RemoveH(hs, sel).0 == hs[..k] + hs[k + 1..] && RemoveH(hs, sel).1
  {
    if k > 0 {
      RemoveHAt(hs[1..], k - 1, sel);
      assert hs[..k] + hs[k + 1..] == [hs[0]] + (hs[1..][..k - 1] + hs[1..][k..]);
    }
  }

  lemma {:induction false} RemoveHNone(hs: seq<Entry>, sel: Sel)
    requires forall j | 0 <= j < |hs| :: !Selects(hs[j], sel)
    ensures RemoveH(hs, sel).0 == hs && !RemoveH(hs, sel).1
  {
    if hs != [] { RemoveHNone(hs[1..], sel); }
  }

  /** An empty node accounts for one block: its own. */
  lemma {:induction false} CutEmptyId(ids: seq<IdV>, k: nat)
    requires k < |ids| && ids[k].handlers == []
    ensures BlocksIds(ids, ids[k].addr) >= 1
    ensures forall a :: BlocksIds(ids[..k] + ids[k + 1..], a) + (if a == ids[k].addr then 1 else 0) == BlocksIds(ids, a)
  {
    BlocksIdsCut(ids, k, ids[k].addr);
    forall a { BlocksIdsCut(ids, k, a); }
  }

  lemma {:induction false} CutEmptyBase(bs: seq<BaseV>, k: nat)
    requires k < |bs| && bs[k].handlers == [] && bs[k].ids == []
    ensures BlocksBases(bs, bs[k].addr) >= 1
    ensures forall a :: BlocksBases(bs[..k] + bs[k + 1..], a) + (if a == bs[k].addr then 1 else 0) == BlocksBases(bs, a)
  {
    BlocksBasesCut(bs, k, bs[k].addr);
    forall a { BlocksBasesCut(bs, k, a); }
  }

  lemma {:induction false} CutEmptyLoop(t: Tree, k: nat)
    requires k < |t| && t[k].handlers == [] && t[k].bases == []
    ensures Blocks(t, t[k].addr) >= 1
    ensures forall a :: Blocks(t[..k] + t[k + 1..], a) + (if a == t[k].addr then 1 else 0) == Blocks(t, a)
  {
    BlocksCut(t, k, t[k].addr);
    forall a { BlocksCut(t, k, a); }
  }

  // ---- the unregister walks, from the front ---------------------------------------------

  /** The walk over `was` has turned its first nodes into `done` and freed none of them. */
  ghost predicate IdsDone(was: seq<IdV>, done: seq<IdV>, rest: seq<IdV>, id: int, sel: Sel) {
    && RemoveIds(was, id, sel).0 == done + RemoveIds(rest, id, sel).0
    && RemoveIds(was, id, sel).1 == RemoveIds(rest, id, sel).1
  }

  lemma IdsDoneStart(ids: seq<IdV>, id: int, sel: Sel)
    ensures ids == [] + ids && IdsDone(ids, [], ids, id, sel)
  {
    assert [] + RemoveIds(ids, id, sel).0 == RemoveIds(ids, id, sel).0;
  }

  lemma IdsDoneStep(was: seq<IdV>, done: seq<IdV>, rest: seq<IdV>, id: int, sel: Sel)
    requires IdsDone(was, done, rest, id, sel)
    ensures rest == [] ==> RemoveIds(was, id, sel).0 == done && !RemoveIds(was, id, sel).1
    ensures rest != [] && rest[0].id != id ==> IdsDone(was, done + [rest[0]], rest[1..], id, sel)
    ensures rest != [] && rest[0].id == id ==>
              var (hs, found) := RemoveH(rest[0].handlers, sel);
              if found && hs == []
              then RemoveIds(was, id, sel).0 == done + rest[1..] && RemoveIds(was, id, sel).1
              else IdsDone(was, done + [rest[0].(handlers := hs)], rest[1..], id, sel)
  {
    if rest != [] {
      var r := RemoveIds(rest[1..], id, sel).0;
      Regroup(done, rest[0], r);
      Regroup(done, rest[0].(handlers := RemoveH(rest[0].handlers, sel).0), r);
    }
  }

  lemma Regroup<T>(xs: seq<T>, y: T, zs: seq<T>)
    ensures xs + ([y] + zs) == xs + [y] + zs
  {
  }

  /** The list `xs + ys` seen at the first element of `ys`. */
  lemma AtSeam<T>(xs: seq<T>, ys: seq<T>, x: T)
    requires ys != []
    ensures (xs + ys)[|xs|] == ys[0] && (xs + [ys[0]]) + ys[1..] == xs + ys
    ensures (xs + ys)[..|xs|] + (xs + ys)[|xs| + 1..] == xs + ys[1..]
    ensures (xs + ys)[|xs| := x] == xs + [x] + ys[1..]
  {
  }

  /** The same for base nodes. */
  ghost predicate BasesDone(was: seq<BaseV>, done: seq<BaseV>, rest: seq<BaseV>, base: nat, id: int, sel: Sel) {
    && RemoveBases(was, base, id, sel).0 == done + RemoveBases(rest, base, id, sel).0
    && RemoveBases(was, base, id, sel).1 == RemoveBases(rest, base, id, sel).1
  }

  lemma BasesDoneStart(bs: seq<BaseV>, base: nat, id: int, sel: Sel)
    ensures bs == [] + bs && BasesDone(bs, [], bs, base, id, sel)
  {
    assert [] + RemoveBases(bs, base, id, sel).0 == RemoveBases(bs, base, id, sel).0;
  }

  lemma BasesDoneStep(was: seq<BaseV>, done: seq<BaseV>, rest: seq<BaseV>, base: nat, id: int, sel: Sel)
    requires BasesDone(was, done, rest, base, id, sel)
    ensures rest == [] ==> RemoveBases(was, base, id, sel).0 == done && !RemoveBases(was, base, id, sel).1
    ensures rest != [] && rest[0].base != base ==> BasesDone(was, done + [rest[0]], rest[1..], base, id, sel)
    ensures rest != [] && rest[0].base == base ==>
              var (b, gone) := RemoveBase(rest[0], id, sel);
              if gone && b.handlers == [] && b.ids == []
              then RemoveBases(was, base, id, sel).0 == done + rest[1..] && RemoveBases(was, base, id, sel).1
              else BasesDone(was, done + [b], rest[1..], base, id, sel)
  {
    hide RemoveBase;
    if rest != [] {
      var r := RemoveBases(rest[1..], base, id, sel).0;
      Regroup(done, rest[0], r);
      Regroup(done, RemoveBase(rest[0], id, sel).0, r);
    }
  }

  /** And for loop nodes, where a freed node ends the walk. */
  ghost predicate LoopsDone(was: Tree, done: Tree, rest: Tree, base: nat, id: int, sel: Sel) {
    RemoveTree(was, base, id, sel) == done + RemoveTree(rest, base, id, sel)
  }

  lemma LoopsDoneStart(t: Tree, base: nat, id: int, sel: Sel)
    ensures t == [] + t && LoopsDone(t, [], t, base, id, sel)
  {
    assert [] + RemoveTree(t, base, id, sel) == RemoveTree(t, base, id, sel);
  }

  lemma LoopsDoneStep(was: Tree, done: Tree, rest: Tree, base: nat, id: int, sel: Sel)
    requires LoopsDone(was, done, rest, base, id, sel)
    ensures rest == [] ==> RemoveTree(was, base, id, sel) == done
    ensures rest != [] ==>
              var (l, ok) := RemoveLoop(rest[0], base, id, sel);
              if ok && l.bases == [] && l.handlers == []
              then RemoveTree(was, base, id, sel) == done + rest[1..]
              else LoopsDone(was, done + [l], rest[1..], base, id, sel)
  {
    hide RemoveLoop;
    if rest != [] {
      Regroup(done, RemoveLoop(rest[0], base, id, sel).0, RemoveTree(rest[1..], base, id, sel));
    }
  }
}
