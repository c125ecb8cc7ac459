/** The nested walk of the dispatch loop against a flat list of live registrations. */
module RegistryDispatch {
  import opened Registry
  import opened RegistryOrder
  import opened RegistryRemoval

  // ---- flat lists -------------------------------------------------------------------

  /** Strictly increasing age: a list in registration order without repetition. */
  ghost predicate InOrder(s: seq<Reg>) {
    forall i, j | 0 <= i < j < |s| :: s[i].ctx < s[j].ctx
  }

  /** The live registrations that want the event, in the order of the list. */
  function Select(flat: seq<Reg>, base: nat, id: int): seq<Reg> {
    if flat == [] then []
    else (if Matches(flat[0], base, id) then [flat[0]] else []) + Select(flat[1..], base, id)
  }

  /** The list without the registrations in `gone`; the rest keep their order. */
  function Without(flat: seq<Reg>, gone: set<Reg>): seq<Reg> {
    if flat == [] then []
    else (if flat[0] in gone then [] else [flat[0]]) + Without(flat[1..], gone)
  }

  /** The nested structure `t` and the flat list hold the same registrations. */
  ghost predicate Coupled(t: Tree, flat: seq<Reg>, next: nat) {
    && Shape(t)
    && InOrder(flat)
    && (forall r :: r in flat <==> r in Regs(t))
    && (forall r | r in flat :: r.ctx < next)
  }

  lemma {:induction false} SelectMembers(flat: seq<Reg>, base: nat, id: int)
    requires InOrder(flat)
    ensures InOrder(Select(flat, base, id))
    ensures forall r :: r in Select(flat, base, id) <==> r in flat && Matches(r, base, id)
  {
    if flat != [] {
      SelectMembers(flat[1..], base, id);
      Consed(flat[0], flat[1..], Select(flat[1..], base, id));
    }
  }

  lemma {:induction false} WithoutMembers(flat: seq<Reg>, gone: set<Reg>)
    requires InOrder(flat)
    ensures InOrder(Without(flat, gone))
    ensures forall r :: r in Without(flat, gone) <==> r in flat && r !in gone
  {
    if flat != [] {
      WithoutMembers(flat[1..], gone);
      var rest := Without(flat[1..], gone);
      Consed(flat[0], flat[1..], rest);
      if flat[0] in gone {
        assert Without(flat, gone) == rest;
      } else {
        assert Without(flat, gone) == [flat[0]] + rest;
      }
    }
  }

  lemma Consed(r: Reg, s: seq<Reg>, s': seq<Reg>)
    requires InOrder([r] + s) && InOrder(s') && forall x | x in s' :: x in s
    ensures InOrder([r] + s')
    ensures r !in s
  {
    forall x | x in s ensures r.ctx < x.ctx {
      var i :| 0 <= i < |s| && s[i] == x;
      assert ([r] + s)[0] == r && ([r] + s)[i + 1] == x;
    }
  }

  /** Two lists in order with the same members are equal. */
  lemma {:induction false} InOrderUnique(s: seq<Reg>, u: seq<Reg>)
    requires InOrder(s) && InOrder(u) && forall r :: r in s <==> r in u
    ensures s == u
  {
    assert |s| > 0 ==> s[0] in u;
    assert |u| > 0 ==> u[0] in s;
    if s != [] {
      assert s[0] == u[0];
      forall r ensures r in s[1..] <==> r in u[1..] { TailMembers(s, r); TailMembers(u, r); }
      InOrderUnique(s[1..], u[1..]);
    }
  }

  lemma TailMembers(s: seq<Reg>, r: Reg)
    requires s != [] && InOrder(s)
    ensures r in s[1..] <==> r in s && r != s[0]
  {
  }

  // ---- the walk ---------------------------------------------------------------------

  /** `w` is a list in order of exactly the registrations in `rs` that want the event. */
  ghost predicate WalksOver(w: seq<Reg>, rs: set<Reg>, base: nat, id: int) {
    InOrder(w) && forall r :: r in w <==> r in rs && Matches(r, base, id)
  }

  lemma WalkBoth(w: seq<Reg>, xs: set<Reg>, v: seq<Reg>, ys: set<Reg>, base: nat, id: int)
    requires WalksOver(w, xs, base, id) && WalksOver(v, ys, base, id)
    requires forall x, y | x in w && y in v :: x.ctx < y.ctx
    ensures WalksOver(w + v, xs + ys, base, id)
  {
    forall i, j | 0 <= i < j < |w + v| ensures (w + v)[i].ctx < (w + v)[j].ctx {
      if i < |w| <= j { assert (w + v)[i] in w && (w + v)[j] in v; }
    }
  }

  lemma WalkHOver(hs: seq<Entry>, key: nat, kid: int, base: nat, id: int)
    requires ShapeH(hs)
    ensures InOrder(WalkH(hs, key, kid)) && forall r :: r in WalkH(hs, key, kid) <==> r in RegsH(hs, key, kid)
  {
    forall r ensures r in WalkH(hs, key, kid) <==> r in RegsH(hs, key, kid) {
      if e :| e in hs && r == Reg(e.ctx, key, kid, e.fn) {
        var i :| 0 <= i < |hs| && hs[i] == e;
        assert WalkH(hs, key, kid)[i] == r;
      }
    }
  }

  lemma {:induction false} WalkIdsOver(ids: seq<IdV>, base: nat, id: int)
    requires ShapeIds(ids) && base > ANY_BASE && id != ANY_ID
    ensures WalksOver(WalkIds(ids, base, id), RegsIds(ids, base), base, id)
  {
    hide RegsH, WalkH, ShapeH;
    if ids != [] {
      WalkHOver(ids[0].handlers, base, ids[0].id, base, id);
      HKeys(ids[0].handlers, base, ids[0].id);
      RegsIdsKey(ids[1..], base);
      NoAnyId(ids[1..]);
      if ids[0].id != id {
        WalkIdsOver(ids[1..], base, id);
      }
    }
  }

  lemma HKeys(hs: seq<Entry>, base: nat, id: int)
    ensures forall r | r in RegsH(hs, base, id) :: r.base == base && r.id == id
  {
  }

  lemma WalkBaseOver(b: BaseV, base: nat, id: int)
    requires ShapeBase(b) && b.base == base && id != ANY_ID
    ensures WalksOver(WalkH(b.handlers, base, ANY_ID) + WalkIds(b.ids, base, id), RegsBase(b), base, id)
  {
    hide RegsH, WalkH, ShapeH, RegsIds;
    WalkHOver(b.handlers, base, ANY_ID, base, id);
    HKeys(b.handlers, base, ANY_ID);
    WalkIdsOver(b.ids, base, id);
    WalkBoth(WalkH(b.handlers, base, ANY_ID), RegsH(b.handlers, base, ANY_ID),
             WalkIds(b.ids, base, id), RegsIds(b.ids, base), base, id);
  }

  lemma {:induction false} WalkBasesOver(bs: seq<BaseV>, base: nat, id: int)
    requires ShapeBases(bs) && base > ANY_BASE && id != ANY_ID
    ensures WalksOver(WalkBases(bs, base, id), RegsBases(bs), base, id)
  {
    hide RegsBase, WalkH, WalkIds, ShapeBase;
    if bs != [] {
      WalkBasesOver(bs[1..], base, id);
      RegsBaseKey(bs[0]);
      BasesKeys(bs);
      if bs[0].base == base {
        var w := WalkH(bs[0].handlers, base, ANY_ID) + WalkIds(bs[0].ids, base, id);
        WalkBaseOver(bs[0], base, id);
        forall x, y | x in w && y in WalkBases(bs[1..], base, id) ensures x.ctx < y.ctx {
          assert y in OfBase(RegsBases(bs[1..]), base);
        }
        WalkBoth(w, RegsBase(bs[0]), WalkBases(bs[1..], base, id), RegsBases(bs[1..]), base, id);
      } else {
        assert [] + WalkBases(bs[1..], base, id) == WalkBases(bs[1..], base, id);
      }
    }
  }

  lemma WalkLoopOver(l: LoopV, base: nat, id: int)
    requires ShapeLoop(l) && base > ANY_BASE && id != ANY_ID
    ensures WalksOver(WalkH(l.handlers, ANY_BASE, ANY_ID) + WalkBases(l.bases, base, id), RegsLoop(l), base, id)
  {
    hide RegsH, WalkH, ShapeH, RegsBases, WalkBases;
    WalkHOver(l.handlers, ANY_BASE, ANY_ID, base, id);
    HKeys(l.handlers, ANY_BASE, ANY_ID);
    WalkBasesOver(l.bases, base, id);
    WalkBoth(WalkH(l.handlers, ANY_BASE, ANY_ID), RegsH(l.handlers, ANY_BASE, ANY_ID),
             WalkBases(l.bases, base, id), RegsBases(l.bases), base, id);
  }

  lemma {:induction false} WalkTreeOver(t: Tree, base: nat, id: int)
    requires Shape(t) && base > ANY_BASE && id != ANY_ID
    ensures WalksOver(WalkTree(t, base, id), Regs(t), base, id)
  {
    hide RegsLoop, WalkH, WalkBases, ShapeLoop;
    if t != [] {
      var w := WalkH(t[0].handlers, ANY_BASE, ANY_ID) + WalkBases(t[0].bases, base, id);
      WalkTreeOver(t[1..], base, id);
      WalkLoopOver(t[0], base, id);
      WalkBoth(w, RegsLoop(t[0]), WalkTree(t[1..], base, id), Regs(t[1..]), base, id);
    }
  }

  /** Dispatching calls exactly the live registrations that match the event, each once, in
      the order they were registered. */
  lemma {:induction false} DispatchOrder(t: Tree, flat: seq<Reg>, next: nat, base: nat, id: int)
    requires Coupled(t, flat, next) && base > ANY_BASE && id != ANY_ID
    ensures WalkTree(t, base, id) == Select(flat, base, id)
  {
    WalkTreeOver(t, base, id);
    SelectMembers(flat, base, id);
    InOrderUnique(WalkTree(t, base, id), Select(flat, base, id));
  }

  // ---- every step keeps the coupling ---------------------------------------------------

  /** What a successful registration makes of the flat list: nothing when it overwrote an
      argument, otherwise one more entry at the end. */
  function Appended(t: Tree, flat: seq<Reg>, base: nat, id: int, fn: int, legacy: bool, a: nat): seq<Reg> {
    if Overwrites(t, base, id, fn, legacy) then flat
    else flat + [Reg(a + Cost(t, base, id) - 1, base, id, fn)]
  }

  lemma {:induction false} RegisterCoupled(t: Tree, flat: seq<Reg>, base: nat, id: int, fn: int, legacy: bool, a: nat)
    requires Coupled(t, flat, a) && ValidKey(base, id)
    ensures Coupled(AddTree(t, base, id, fn, legacy, a), Appended(t, flat, base, id, fn, legacy, a),
                    a + Cost(t, base, id))
  {
    hide AddTree, Regs, Shape, Overwrites, Cost;
    AddTreeGrows(t, base, id, fn, legacy, a);
  }

  /** The registrations an unregister call takes out. */
  ghost function Gone(t: Tree, base: nat, id: int, sel: Sel): set<Reg> {
    Regs(t) - Regs(RemoveTree(t, base, id, sel))
  }

  /** The first registration of the list that an unregister call names. */
  ghost predicate FirstNamed(flat: seq<Reg>, k: int, base: nat, id: int, sel: Sel) {
    0 <= k < |flat| && Named(flat[k], base, id, sel) && forall j | 0 <= j < k :: !Named(flat[j], base, id, sel)
  }

  lemma FirstIsOldest(flat: seq<Reg>, k: int, rs: set<Reg>, base: nat, id: int, sel: Sel)
    requires InOrder(flat) && (forall r :: r in flat <==> r in rs) && FirstNamed(flat, k, base, id, sel)
    ensures Oldest(flat[k], rs, base, id, sel)
  {
    assert flat[k] in flat;
    forall x | x in rs && Named(x, base, id, sel) ensures flat[k].ctx <= x.ctx {
      assert x in flat;
    }
  }

  lemma {:induction false} UnregisterCoupled(t: Tree, flat: seq<Reg>, next: nat, base: nat, id: int, sel: Sel)
    requires Coupled(t, flat, next) && ValidKey(base, id)
    ensures Coupled(RemoveTree(t, base, id, sel), Without(flat, Gone(t, base, id, sel)), next)
    ensures forall r | r in Gone(t, base, id, sel) :: r in flat && Named(r, base, id, sel)
    ensures (exists r | r in flat :: Named(r, base, id, sel)) ==> Gone(t, base, id, sel) != {}
    ensures forall k | FirstNamed(flat, k, base, id, sel) :: flat[k] in Gone(t, base, id, sel)
    ensures sel.ByCtx? ==> Gone(t, base, id, sel) == set r | r in flat && Named(r, base, id, sel)
  {
    hide RemoveTree, Regs, Shape, Named, FirstNamed, Without, OldestGone;
    RemoveTreeShrinks(t, base, id, sel);
    WithoutMembers(flat, Gone(t, base, id, sel));
    FirstGoes(t, flat, next, base, id, sel);
  }

  lemma FirstGoes(t: Tree, flat: seq<Reg>, next: nat, base: nat, id: int, sel: Sel)
    requires Coupled(t, flat, next) && ValidKey(base, id)
    ensures forall k | FirstNamed(flat, k, base, id, sel) :: flat[k] in Gone(t, base, id, sel)
  {
    hide RemoveTree, Regs, Shape;
    RemoveTreeShrinks(t, base, id, sel);
    forall k | FirstNamed(flat, k, base, id, sel) ensures flat[k] in Gone(t, base, id, sel) {
      FirstIsOldest(flat, k, Regs(t), base, id, sel);
    }
  }

  lemma CutOut(flat: seq<Reg>, k: nat)
    requires InOrder(flat) && k < |flat|
    ensures InOrder(flat[..k] + flat[k + 1..])
    ensures forall r :: r in flat[..k] + flat[k + 1..] <==> r in flat && r != flat[k]
  {
    var cut := flat[..k] + flat[k + 1..];
    forall r ensures r in cut <==> r in flat && r != flat[k] {
      if r in flat && r != flat[k] {
        var i :| 0 <= i < |flat| && flat[i] == r;
        assert cut[if i < k then i else i - 1] == r;
      }
    }
  }

  /** By instance, the flat list loses exactly the entry with that handle and key; with no
      such entry nothing changes. */
  lemma {:induction false} UnregisterInstance(t: Tree, flat: seq<Reg>, next: nat, base: nat, id: int, ctx: nat)
    requires Coupled(t, flat, next) && ValidKey(base, id)
    ensures forall k | 0 <= k < |flat| && Named(flat[k], base, id, ByCtx(ctx)) ::
              Without(flat, Gone(t, base, id, ByCtx(ctx))) == flat[..k] + flat[k + 1..]
    ensures (forall r | r in flat :: !Named(r, base, id, ByCtx(ctx))) ==>
              Without(flat, Gone(t, base, id, ByCtx(ctx))) == flat
  {
    UnregisterCoupled(t, flat, next, base, id, ByCtx(ctx));
    var gone := Gone(t, base, id, ByCtx(ctx));
    WithoutMembers(flat, gone);
    forall k | 0 <= k < |flat| && Named(flat[k], base, id, ByCtx(ctx))
      ensures Without(flat, gone) == flat[..k] + flat[k + 1..]
    {
      CutOut(flat, k);
      InOrderUnique(Without(flat, gone), flat[..k] + flat[k + 1..]);
    }
    if forall r | r in flat :: !Named(r, base, id, ByCtx(ctx)) {
      InOrderUnique(Without(flat, gone), flat);
    }
  }
}
