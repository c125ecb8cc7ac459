/** Registration without handles: the function identifies a registration inside its list. */
module RegistryLegacy {
  import opened Registry
  import opened RegistryOrder
  import opened RegistryRemoval
  import opened RegistryDispatch
  import opened RegistryIndex
  import opened RegistryRuns
  import opened RegistryOverwrite

  // ---- no list holds a function twice ----------------------------------------------------

  predicate OnceH(hs: seq<Entry>) {
    forall i, j | 0 <= i < j < |hs| :: hs[i].fn != hs[j].fn
  }

  predicate OnceIds(ids: seq<IdV>) {
    forall i | 0 <= i < |ids| :: OnceH(ids[i].handlers)
  }

  predicate OnceBase(b: BaseV) {
    OnceH(b.handlers) && OnceIds(b.ids)
  }

  predicate OnceBases(bs: seq<BaseV>) {
    forall i | 0 <= i < |bs| :: OnceBase(bs[i])
  }

  predicate OnceLoop(l: LoopV) {
    OnceH(l.handlers) && OnceBases(l.bases)
  }

  /** No handler list of the registry holds a function twice. */
  predicate Once(t: Tree) {
    forall i | 0 <= i < |t| :: OnceLoop(t[i])
  }

  lemma AddHOnce(hs: seq<Entry>, fn: int, a: nat)
    requires OnceH(hs)
    ensures OnceH(AddH(hs, fn, true, a))
  {
  }

  lemma {:induction false} AddIdsOnce(ids: seq<IdV>, id: int, fn: int, a: nat)
    requires OnceIds(ids)
    ensures OnceIds(AddIds(ids, id, fn, true, a))
  {
    if ids != [] {
      if ids[0].id == id && !HasId(ids[1..], id) {
        AddHOnce(ids[0].handlers, fn, a);
      } else {
        AddIdsOnce(ids[1..], id, fn, a);
      }
    }
  }

  lemma AddBaseOnce(b: BaseV, id: int, fn: int, a: nat)
    requires OnceBase(b)
    ensures OnceBase(AddBase(b, id, fn, true, a))
  {
    AddHOnce(b.handlers, fn, a);
    AddIdsOnce(b.ids, id, fn, a);
  }

  lemma {:induction false} AddBasesOnce(bs: seq<BaseV>, base: nat, id: int, fn: int, a: nat, open: bool)
    requires OnceBases(bs)
    ensures OnceBases(AddBases(bs, base, id, fn, true, a, open))
  {
    hide OnceBase, AddBase;
    if bs == [] {
      EmptyOnce(a, base);
      AddBaseOnce(BaseV(a, base, [], []), id, fn, a + 1);
    } else if !open && bs[0].base == base && !HasBase(bs[1..], base) {
      AddBaseOnce(bs[0], id, fn, a);
    } else {
      AddBasesOnce(bs[1..], base, id, fn, a, open);
    }
  }

  lemma EmptyOnce(a: nat, base: nat)
    ensures OnceBase(BaseV(a, base, [], []))
  {
  }

  lemma AddLoopOnce(l: LoopV, base: nat, id: int, fn: int, a: nat)
    requires OnceLoop(l)
    ensures OnceLoop(AddLoop(l, base, id, fn, true, a))
  {
    hide OnceH, OnceBases, AddH, AddBases, OpensBase;
    if IsLoopLevel(base, id) {
      AddHOnce(l.handlers, fn, a);
    } else {
      AddBasesOnce(l.bases, base, id, fn, a, OpensBase(l.bases, base, id));
    }
  }

  /** A legacy registration puts no function into a list that has it. */
  lemma AddTreeOnce(t: Tree, base: nat, id: int, fn: int, a: nat)
    requires Once(t)
    ensures Once(AddTree(t, base, id, fn, true, a))
  {
    hide OnceLoop, AddLoop;
    if OpensLoop(t, base, id) {
      EmptyLoopOnce(a);
      AddLoopOnce(LoopV(a, [], []), base, id, fn, a + 1);
    } else {
      AddLoopOnce(t[|t| - 1], base, id, fn, a);
    }
  }

  lemma EmptyLoopOnce(a: nat)
    ensures OnceLoop(LoopV(a, [], []))
  {
  }

  // ---- unregistering: at most one per list -------------------------------------------------

  /** `hs'` is `hs` or lacks the first entry that `sel` names. */
  predicate ThinH(hs: seq<Entry>, hs': seq<Entry>, sel: Sel) {
    || hs' == hs
    || exists k | 0 <= k < |hs| ::
         Selects(hs[k], sel) && hs' == hs[..k] + hs[k + 1..] && forall j | 0 <= j < k :: !Selects(hs[j], sel)
  }

  /** List by list, at most one entry is gone; a node is gone only with its last entry. */
  predicate ThinIds(ids: seq<IdV>, ids': seq<IdV>, id: int, sel: Sel) {
    if ids == [] then ids' == []
    else
      || (ids' != [] && ids'[0] == ids[0].(handlers := ids'[0].handlers)
          && ThinH(ids[0].handlers, ids'[0].handlers, sel)
          && (ids[0].id != id ==> ids'[0] == ids[0]) && ThinIds(ids[1..], ids'[1..], id, sel))
      || (ids[0].id == id && ThinH(ids[0].handlers, [], sel) && ids' == ids[1..])
  }

  predicate ThinBase(b: BaseV, b': BaseV, id: int, sel: Sel) {
    && b' == b.(handlers := b'.handlers, ids := b'.ids)
    && ThinH(b.handlers, b'.handlers, sel) && ThinIds(b.ids, b'.ids, id, sel)
    && (id != ANY_ID ==> b'.handlers == b.handlers)
  }

  predicate ThinBases(bs: seq<BaseV>, bs': seq<BaseV>, base: nat, id: int, sel: Sel) {
    if bs == [] then bs' == []
    else
      || (bs' != [] && ThinBase(bs[0], bs'[0], id, sel) && (bs[0].base != base ==> bs'[0] == bs[0])
          && ThinBases(bs[1..], bs'[1..], base, id, sel))
      || (bs[0].base == base && ThinBase(bs[0], bs[0].(handlers := [], ids := []), id, sel) && bs' == bs[1..])
  }

  predicate ThinLoop(l: LoopV, l': LoopV, base: nat, id: int, sel: Sel) {
    && l' == l.(handlers := l'.handlers, bases := l'.bases)
    && ThinH(l.handlers, l'.handlers, sel) && ThinBases(l.bases, l'.bases, base, id, sel)
    && (!IsLoopLevel(base, id) ==> l'.handlers == l.handlers)
  }

  predicate Thin(t: Tree, t': Tree, base: nat, id: int, sel: Sel) {
    if t == [] then t' == []
    else
      || (t' != [] && ThinLoop(t[0], t'[0], base, id, sel) && Thin(t[1..], t'[1..], base, id, sel))
      || (ThinLoop(t[0], t[0].(handlers := [], bases := []), base, id, sel) && t' == t[1..])
  }

  lemma FirstSelected(hs: seq<Entry>, sel: Sel) returns (k: nat)
    ensures k <= |hs| && (k < |hs| ==> Selects(hs[k], sel)) && forall j | 0 <= j < k :: !Selects(hs[j], sel)
  {
    k := 0;
    while k < |hs| && !Selects(hs[k], sel)
      invariant k <= |hs| && forall j | 0 <= j < k :: !Selects(hs[j], sel)
    {
      k := k + 1;
    }
  }

  lemma RemoveHThin(hs: seq<Entry>, sel: Sel)
    ensures ThinH(hs, RemoveH(hs, sel).0, sel)
    ensures !RemoveH(hs, sel).1 ==> RemoveH(hs, sel).0 == hs
  {
    var k := FirstSelected(hs, sel);
    if k < |hs| {
      RemoveHAt(hs, k, sel);
    } else {
      RemoveHNone(hs, sel);
    }
  }

  lemma {:induction false} SameIdsThin(ids: seq<IdV>, id: int, sel: Sel)
    ensures ThinIds(ids, ids, id, sel)
  {
    if ids != [] { SameIdsThin(ids[1..], id, sel); }
  }

  lemma {:induction false} SameBasesThin(bs: seq<BaseV>, base: nat, id: int, sel: Sel)
    ensures ThinBases(bs, bs, base, id, sel)
  {
    if bs != [] {
      SameIdsThin(bs[0].ids, id, sel);
      SameBasesThin(bs[1..], base, id, sel);
    }
  }

  lemma {:induction false} RemoveIdsThin(ids: seq<IdV>, id: int, sel: Sel)
    ensures ThinIds(ids, RemoveIds(ids, id, sel).0, id, sel)
  {
    hide ThinH, RemoveH;
    if ids != [] {
      RemoveHThin(ids[0].handlers, sel);
      RemoveIdsThin(ids[1..], id, sel);
      SameIdsThin(ids[..1], id, sel);
    }
  }

  lemma RemoveBaseThin(b: BaseV, id: int, sel: Sel)
    ensures ThinBase(b, RemoveBase(b, id, sel).0, id, sel)
  {
    RemoveHThin(b.handlers, sel);
    RemoveIdsThin(b.ids, id, sel);
    SameIdsThin(b.ids, id, sel);
  }

  lemma {:induction false} RemoveBasesThin(bs: seq<BaseV>, base: nat, id: int, sel: Sel)
    ensures ThinBases(bs, RemoveBases(bs, base, id, sel).0, base, id, sel)
  {
    hide RemoveBase;
    if bs != [] {
      RemoveBaseThin(bs[0], id, sel);
      RemoveBasesThin(bs[1..], base, id, sel);
      SameBasesThin(bs[..1], base, id, sel);
    }
  }

  lemma RemoveLoopThin(l: LoopV, base: nat, id: int, sel: Sel)
    ensures ThinLoop(l, RemoveLoop(l, base, id, sel).0, base, id, sel)
  {
    RemoveHThin(l.handlers, sel);
    RemoveBasesThin(l.bases, base, id, sel);
    SameBasesThin(l.bases, base, id, sel);
  }

  /** An unregister call takes at most one entry out of each list, the first that it names. */
  lemma {:induction false} RemoveTreeThin(t: Tree, base: nat, id: int, sel: Sel)
    ensures Thin(t, RemoveTree(t, base, id, sel), base, id, sel)
  {
    hide RemoveLoop;
    if t != [] {
      RemoveLoopThin(t[0], base, id, sel);
      RemoveTreeThin(t[1..], base, id, sel);
    }
  }

  // ---- runs of legacy calls ----------------------------------------------------------------

  lemma ThinHOnce(hs: seq<Entry>, hs': seq<Entry>, sel: Sel)
    requires OnceH(hs) && ThinH(hs, hs', sel)
    ensures OnceH(hs')
  {
  }

  lemma {:induction false} ThinIdsOnce(ids: seq<IdV>, ids': seq<IdV>, id: int, sel: Sel)
    requires OnceIds(ids) && ThinIds(ids, ids', id, sel)
    ensures OnceIds(ids')
  {
    hide OnceH, ThinH;
    if ids != [] && ids' != ids[1..] {
      ThinHOnce(ids[0].handlers, ids'[0].handlers, sel);
      ThinIdsOnce(ids[1..], ids'[1..], id, sel);
    }
  }

  lemma {:induction false} ThinBasesOnce(bs: seq<BaseV>, bs': seq<BaseV>, base: nat, id: int, sel: Sel)
    requires OnceBases(bs) && ThinBases(bs, bs', base, id, sel)
    ensures OnceBases(bs')
  {
    hide OnceH, OnceIds, ThinH, ThinIds;
    if bs != [] && bs' != bs[1..] {
      assert OnceBase(bs[0]);
      ThinHOnce(bs[0].handlers, bs'[0].handlers, sel);
      ThinIdsOnce(bs[0].ids, bs'[0].ids, id, sel);
      ThinBasesOnce(bs[1..], bs'[1..], base, id, sel);
    }
  }

  lemma {:induction false} ThinOnce(t: Tree, t': Tree, base: nat, id: int, sel: Sel)
    requires Once(t) && Thin(t, t', base, id, sel)
    ensures Once(t')
  {
    hide OnceH, OnceBases, ThinH, ThinBases;
    if t != [] && t' != t[1..] {
      assert OnceLoop(t[0]);
      ThinHOnce(t[0].handlers, t'[0].handlers, sel);
      ThinBasesOnce(t[0].bases, t'[0].bases, base, id, sel);
      ThinOnce(t[1..], t'[1..], base, id, sel);
    }
  }

  predicate LegacyOp(op: Op) {
    match op
    case Register(_, _, _, legacy, _, _) => legacy
    case Unregister(_, _, sel) => sel.ByFn?
  }

  /** In a run of legacy calls no handler list ever holds a function twice. */
  lemma {:induction false} LegacyRunOnce(ops: seq<Op>)
    requires forall op | op in ops :: LegacyOp(op)
    ensures Once(After(ops).tree)
  {
    hide Once, AddTree, RemoveTree;
    if ops == [] {
      EmptyTreeOnce();
    } else {
      var op := ops[|ops| - 1];
      var s := After(ops[..|ops| - 1]);
      assert op in ops && LegacyOp(op);
      LegacyRunOnce(ops[..|ops| - 1]);
      if op.Register? {
        AddTreeOnce(s.tree, op.base, op.id, op.fn, s.next);
      } else {
        RemoveTreeThin(s.tree, op.base, op.id, op.sel);
        ThinOnce(s.tree, RemoveTree(s.tree, op.base, op.id, op.sel), op.base, op.id, op.sel);
      }
    }
  }

  /** What one registration means for the lists: a legacy one keeps functions single, and one that
      overwrites is legacy and changes no node. */
  lemma RegisterOnce(t: Tree, base: nat, id: int, fn: int, legacy: bool, a: nat)
    ensures legacy && Once(t) ==> Once(AddTree(t, base, id, fn, legacy, a))
    ensures Overwrites(t, base, id, fn, legacy) ==> legacy && AddTree(t, base, id, fn, legacy, a) == t
  {
    if legacy && Once(t) {
      AddTreeOnce(t, base, id, fn, a);
    }
    if Overwrites(t, base, id, fn, legacy) {
      AddTreeSame(t, base, id, fn, a);
    }
  }

  /** Every unregister call keeps functions single. */
  lemma UnregisterOnce(t: Tree, base: nat, id: int, sel: Sel)
    ensures Once(t) ==> Once(RemoveTree(t, base, id, sel))
  {
    if Once(t) {
      RemoveTreeThin(t, base, id, sel);
      ThinOnce(t, RemoveTree(t, base, id, sel), base, id, sel);
    }
  }

  lemma EmptyTreeOnce()
    ensures Once([])
  {
  }

  /** A legacy unregister call takes out only registrations with its key and function, the oldest
      of them always and at most one per list; the rest keep their order. */
  lemma LegacyUnregister(ops: seq<Op>, base: nat, id: int, fn: int)
    requires forall op | op in ops :: ValidOp(op)
    requires ValidKey(base, id)
    ensures var s, s' := After(ops), After(ops + [Unregister(base, id, ByFn(fn))]);
            var gone := Gone(s.tree, base, id, ByFn(fn));
            && s'.flat == Without(s.flat, gone)
            && (forall r | r in gone :: r in s.flat && r.base == base && r.id == id && r.fn == fn)
            && ((exists r | r in s.flat :: r.base == base && r.id == id && r.fn == fn) ==> gone != {})
            && (forall k | 0 <= k < |s.flat| && s.flat[k] == Reg(s.flat[k].ctx, base, id, fn)
                           && (forall r | r in s.flat[..k] :: !(r.base == base && r.id == id && r.fn == fn)) ::
                  s.flat[k] in gone)
            && Thin(s.tree, s'.tree, base, id, ByFn(fn))
  {
    hide RemoveTree, Gone, Thin, FirstNamed, Coupled, Without;
    var s := After(ops);
    var op := Unregister(base, id, ByFn(fn));
    assert (ops + [op])[..|ops|] == ops;
    ReachableCoupled(ops);
    UnregisterCoupled(s.tree, s.flat, s.next, base, id, ByFn(fn));
    RemoveTreeThin(s.tree, base, id, ByFn(fn));
    if r :| r in s.flat && r.base == base && r.id == id && r.fn == fn {
      assert Named(r, base, id, ByFn(fn));
    }
    FirstOfFn(s.flat, base, id, fn);
  }

  lemma FirstOfFn(flat: seq<Reg>, base: nat, id: int, fn: int)
    ensures forall k | 0 <= k < |flat| && flat[k] == Reg(flat[k].ctx, base, id, fn)
                       && (forall r | r in flat[..k] :: !(r.base == base && r.id == id && r.fn == fn)) ::
              FirstNamed(flat, k, base, id, ByFn(fn))
  {
    forall k | 0 <= k < |flat| && flat[k] == Reg(flat[k].ctx, base, id, fn)
               && (forall r | r in flat[..k] :: !(r.base == base && r.id == id && r.fn == fn))
      ensures FirstNamed(flat, k, base, id, ByFn(fn))
    {
      assert forall j | 0 <= j < k :: flat[j] in flat[..k];
    }
  }

  /** A legacy registration leaves every node and the list of registrations as they are exactly if
      the function is in the handler list it would be added to (the argument is then the word of an
      existing context); otherwise it appends one registration. */
  lemma LegacyOverwrite(ops: seq<Op>, base: nat, id: int, fn: int)
    requires forall op | op in ops :: ValidOp(op)
    requires ValidKey(base, id)
    ensures var s, s' := After(ops), After(ops + [Register(base, id, fn, true, true, 0)]);
            if HasFn(Target(s.tree, base, id), fn) then
              s'.tree == s.tree && s'.flat == s.flat && exists r | r in s.flat :: r == Reg(r.ctx, base, id, fn)
            else s'.flat == s.flat + [Reg(s'.next - 1, base, id, fn)]
  {
    hide AddTree, Target, Cost, HasFn, Coupled, After;
    var s := After(ops);
    AfterStep(ops, Register(base, id, fn, true, true, 0));
    if HasFn(Target(s.tree, base, id), fn) {
      AddTreeSame(s.tree, base, id, fn, s.next);
      ReachableCoupled(ops);
      ShapeOf(s);
      var r := OverwritesOpen(s.tree, base, id, fn);
    }
  }

  // ---- where an unregister walk stops -----------------------------------------------------

  /** Removing from the loop node empties it. */
  predicate Empties(l: LoopV, base: nat, id: int, sel: Sel) {
    var (l', ok) := RemoveLoop(l, base, id, sel); ok && l'.bases == [] && l'.handlers == []
  }

  lemma RemoveTreeCase(t: Tree, base: nat, id: int, sel: Sel)
    ensures RemoveTree(t, base, id, sel)
         == if t == [] then []
            else if Empties(t[0], base, id, sel) then t[1..]
            else [RemoveLoop(t[0], base, id, sel).0] + RemoveTree(t[1..], base, id, sel)
  {
  }

  /** The walk removes from every loop node up to the first that this empties; that one is unlinked
      and the nodes behind it are not visited. */
  lemma {:induction false} RemoveTreeStops(t: Tree, base: nat, id: int, sel: Sel) returns (n: nat)
    ensures n <= |t| && (forall i | 0 <= i < n :: !Empties(t[i], base, id, sel))
    ensures n < |t| ==> Empties(t[n], base, id, sel)
    ensures var t' := RemoveTree(t, base, id, sel);
            && |t'| == (if n < |t| then |t| - 1 else |t|)
            && (forall i | 0 <= i < n :: t'[i] == RemoveLoop(t[i], base, id, sel).0)
            && forall i | n <= i < |t'| :: t'[i] == t[i + 1]
  {
    hide RemoveLoop, RemoveTree, Empties;
    RemoveTreeCase(t, base, id, sel);
    if t == [] {
      n := 0;
    } else if Empties(t[0], base, id, sel) {
      n := 0;
    } else {
      var m := RemoveTreeStops(t[1..], base, id, sel);
      n := m + 1;
      var t', rest := RemoveTree(t, base, id, sel), RemoveTree(t[1..], base, id, sel);
      assert t' == [RemoveLoop(t[0], base, id, sel).0] + rest;
      forall i | 0 <= i < n ensures !Empties(t[i], base, id, sel) && t'[i] == RemoveLoop(t[i], base, id, sel).0 {
        if i > 0 {
          assert t[i] == t[1..][i - 1] && t'[i] == rest[i - 1];
        }
      }
      forall i | n <= i < |t'| ensures t'[i] == t[i + 1] {
        assert t'[i] == rest[i - 1] && t[1..][i] == t[i + 1];
      }
    }
  }

  /** Removing from the base node empties it. */
  predicate EmptiesBase(b: BaseV, base: nat, id: int, sel: Sel) {
    var (b', gone) := RemoveBase(b, id, sel); b.base == base && gone && b'.handlers == [] && b'.ids == []
  }

  lemma RemoveBasesCase(bs: seq<BaseV>, base: nat, id: int, sel: Sel)
    ensures RemoveBases(bs, base, id, sel).0
         == if bs == [] then []
            else if EmptiesBase(bs[0], base, id, sel) then bs[1..]
            else [if bs[0].base == base then RemoveBase(bs[0], id, sel).0 else bs[0]]
                 + RemoveBases(bs[1..], base, id, sel).0
  {
  }

  /** Below a loop node likewise: the walk over base nodes ends at the first one that it empties. */
  lemma {:induction false} RemoveBasesStops(bs: seq<BaseV>, base: nat, id: int, sel: Sel) returns (n: nat)
    ensures n <= |bs| && (forall i | 0 <= i < n :: !EmptiesBase(bs[i], base, id, sel))
    ensures n < |bs| ==> EmptiesBase(bs[n], base, id, sel)
    ensures var bs' := RemoveBases(bs, base, id, sel).0;
            && |bs'| == (if n < |bs| then |bs| - 1 else |bs|)
            && (forall i | 0 <= i < n ::
                  bs'[i] == if bs[i].base == base then RemoveBase(bs[i], id, sel).0 else bs[i])
            && forall i | n <= i < |bs'| :: bs'[i] == bs[i + 1]
  {
    hide RemoveBase, RemoveBases, EmptiesBase;
    RemoveBasesCase(bs, base, id, sel);
    if bs == [] {
      n := 0;
    } else if EmptiesBase(bs[0], base, id, sel) {
      n := 0;
    } else {
      var m := RemoveBasesStops(bs[1..], base, id, sel);
      n := m + 1;
      var bs', rest := RemoveBases(bs, base, id, sel).0, RemoveBases(bs[1..], base, id, sel).0;
      forall i | 0 <= i < n
        ensures !EmptiesBase(bs[i], base, id, sel)
        ensures bs'[i] == if bs[i].base == base then RemoveBase(bs[i], id, sel).0 else bs[i]
      {
        if i > 0 {
          assert bs[i] == bs[1..][i - 1] && bs'[i] == rest[i - 1];
        }
      }
      forall i | n <= i < |bs'| ensures bs'[i] == bs[i + 1] {
        assert bs'[i] == rest[i - 1] && bs[1..][i] == bs[i + 1];
      }
    }
  }

  lemma WalkStops(f: Entry, f': Entry, a: nat, a': nat, fn: int)
    requires f.fn == f'.fn == fn
    ensures RemoveTree([LoopV(a, [f], []), LoopV(a', [f'], [])], ANY_BASE, ANY_ID, ByFn(fn)) == [LoopV(a', [f'], [])]
  {
    var t := [LoopV(a, [f], []), LoopV(a', [f'], [])];
    assert [f][1..] == [] && t[1..] == [LoopV(a', [f'], [])];
    assert RemoveH([f], ByFn(fn)) == ([], true);
  }

  lemma WalkGoesOn(f: Entry, f': Entry, a: nat, a': nat, bs: seq<BaseV>, fn: int)
    requires f.fn == f'.fn == fn && bs != []
    ensures RemoveTree([LoopV(a, [f], bs), LoopV(a', [f'], [])], ANY_BASE, ANY_ID, ByFn(fn)) == [LoopV(a, [], bs)]
  {
    var t := [LoopV(a, [f], bs), LoopV(a', [f'], [])];
    assert [f][1..] == [] && [f'][1..] == [] && t[1..] == [LoopV(a', [f'], [])] && t[1..][1..] == [];
    assert RemoveH([f], ByFn(fn)) == ([], true) && RemoveH([f'], ByFn(fn)) == ([], true);
    assert RemoveTree(t[1..], ANY_BASE, ANY_ID, ByFn(fn)) == [];
    assert [LoopV(a, [], bs)] + [] == [LoopV(a, [], bs)];
  }

  lemma TreeOne(f: int)
    ensures AddTree([], ANY_BASE, ANY_ID, f, true, 0) == [LoopV(0, [Entry(1, 2, f)], [])]
    ensures Cost([], ANY_BASE, ANY_ID) == 3
  {
    NoIds();
    assert AddH([], f, true, 1) == [Entry(1, 2, f)];
    assert [] + [LoopV(0, [Entry(1, 2, f)], [])] == [LoopV(0, [Entry(1, 2, f)], [])];
  }

  function Nested(base: nat, id: int, g: int): seq<BaseV> {
    [BaseV(3, base, [], [IdV(4, id, [Entry(5, 6, g)])])]
  }

  lemma TreeTwo(f: int, base: nat, id: int, g: int)
    requires base > ANY_BASE && id != ANY_ID
    ensures var t := [LoopV(0, [Entry(1, 2, f)], [])];
            && AddTree(t, base, id, g, true, 3) == [LoopV(0, [Entry(1, 2, f)], Nested(base, id, g))]
            && Cost(t, base, id) == 4
  {
    var l := LoopV(0, [Entry(1, 2, f)], []);
    NoIds();
    AddLoopBelow(l, base, id, g, true, 3);
    assert [l][..0] == [];
    assert [] + [Entry(5, 6, g)] == [Entry(5, 6, g)];
    assert AddBelowV([], base, id, g, true, 3) == Nested(base, id, g);
  }

  lemma TreeThree(f: int, base: nat, id: int, g: int)
    ensures var l := LoopV(0, [Entry(1, 2, f)], Nested(base, id, g));
            && AddTree([l], ANY_BASE, ANY_ID, f, true, 7) == [l, LoopV(7, [Entry(8, 9, f)], [])]
            && Cost([l], ANY_BASE, ANY_ID) == 3
  {
    var l := LoopV(0, [Entry(1, 2, f)], Nested(base, id, g));
    NoIds();
    assert AddH([], f, true, 8) == [Entry(8, 9, f)];
    assert [l] + [LoopV(7, [Entry(8, 9, f)], [])] == [l, LoopV(7, [Entry(8, 9, f)], [])];
  }

  lemma TreeFour(f: int, base: nat, id: int, g: int)
    requires base > ANY_BASE && id != ANY_ID
    ensures RemoveTree([LoopV(0, [Entry(1, 2, f)], Nested(base, id, g)), LoopV(7, [Entry(8, 9, f)], [])],
                       base, id, ByFn(g))
         == [LoopV(0, [Entry(1, 2, f)], []), LoopV(7, [Entry(8, 9, f)], [])]
  {
    var d := IdV(4, id, [Entry(5, 6, g)]);
    var l, m := LoopV(0, [Entry(1, 2, f)], Nested(base, id, g)), LoopV(7, [Entry(8, 9, f)], []);
    assert [Entry(5, 6, g)][1..] == [] && [d][1..] == [] && Nested(base, id, g)[1..] == [];
    assert RemoveH([Entry(5, 6, g)], ByFn(g)) == ([], true);
    assert RemoveIds([d], id, ByFn(g)) == ([], true);
    assert RemoveBases(Nested(base, id, g), base, id, ByFn(g)) == ([], true);
    assert RemoveBases([], base, id, ByFn(g)) == ([], false);
    assert [l, m][1..] == [m] && [m][1..] == [];
    assert RemoveTree([m], base, id, ByFn(g)) == [m];
    assert [LoopV(0, [Entry(1, 2, f)], [])] + [m] == [LoopV(0, [Entry(1, 2, f)], []), m];
  }

  /** A function that a legacy client registered for everything, before and after someone else
      registered for one event. */
  function Twice(f: int, base: nat, id: int, g: int): (ops: seq<Op>)
    ensures (base > ANY_BASE && id != ANY_ID) ==> forall op | op in ops :: ValidOp(op)
  {
    [Register(ANY_BASE, ANY_ID, f, true, true, 0), Register(base, id, g, true, true, 0),
     Register(ANY_BASE, ANY_ID, f, true, true, 0)]
  }

  lemma TwiceTree(f: int, base: nat, id: int, g: int)
    requires base > ANY_BASE && id != ANY_ID
    ensures After(Twice(f, base, id, g)).tree
         == [LoopV(0, [Entry(1, 2, f)], Nested(base, id, g)), LoopV(7, [Entry(8, 9, f)], [])]
  {
    hide AddTree, Cost, After;
    var a, b := Register(ANY_BASE, ANY_ID, f, true, true, 0), Register(base, id, g, true, true, 0);
    TreeOne(f);
    TreeTwo(f, base, id, g);
    TreeThree(f, base, id, g);
    AfterNone();
    AfterStep([], a);
    AfterStep([a], b);
    AfterStep([a, b], a);
    assert [] + [a] == [a] && [a] + [b] == [a, b] && [a, b] + [a] == [a, b, a];
  }

  lemma AfterNone()
    ensures After([]) == State([], [], 0)
  {
  }

  lemma OnlyOne(s: State, r: Reg)
    requires Coupled(s.tree, s.flat, s.next) && Regs(s.tree) == {r}
    ensures s.flat == [r]
  {
    InOrderUnique(s.flat, [r]);
  }

  /** One legacy unregister call takes out both registrations of the function; but once the other
      client is gone, it empties the first node, stops there, and leaves the second. */
  lemma BothOrOne(f: int, base: nat, id: int, g: int)
    requires base > ANY_BASE && id != ANY_ID
    ensures var call := Unregister(ANY_BASE, ANY_ID, ByFn(f));
            && After(Twice(f, base, id, g) + [call]).flat == [Reg(6, base, id, g)]
            && After(Twice(f, base, id, g) + [Unregister(base, id, ByFn(g))] + [call]).flat
               == [Reg(9, ANY_BASE, ANY_ID, f)]
  {
    hide RemoveTree, After, Coupled;
    var ops, other, call := Twice(f, base, id, g), Unregister(base, id, ByFn(g)), Unregister(ANY_BASE, ANY_ID, ByFn(f));
    TwiceTree(f, base, id, g);
    AfterStep(ops, call);
    AfterStep(ops, other);
    AfterStep(ops + [other], call);
    TreeFour(f, base, id, g);
    WalkGoesOn(Entry(1, 2, f), Entry(8, 9, f), 0, 7, Nested(base, id, g), f);
    WalkStops(Entry(1, 2, f), Entry(8, 9, f), 0, 7, f);
    ReachableCoupled(ops + [call]);
    ReachableCoupled(ops + [other] + [call]);
    LeftNested(base, id, g);
    LeftTop(f);
    OnlyOne(After(ops + [call]), Reg(6, base, id, g));
    OnlyOne(After(ops + [other] + [call]), Reg(9, ANY_BASE, ANY_ID, f));
  }

  lemma LeftNested(base: nat, id: int, g: int)
    ensures Regs([LoopV(0, [], Nested(base, id, g))]) == {Reg(6, base, id, g)}
  {
    var d := IdV(4, id, [Entry(5, 6, g)]);
    NoRegs(ANY_BASE, ANY_ID);
    NoRegs(base, ANY_ID);
    ConsRegs([Entry(5, 6, g)], base, id);
    NoRegs(base, id);
    assert [Entry(5, 6, g)][1..] == [] && [d][1..] == [] && Nested(base, id, g)[1..] == [];
    assert RegsIds([d], base) == {Reg(6, base, id, g)};
    assert RegsBase(Nested(base, id, g)[0]) == {Reg(6, base, id, g)};
    assert RegsBases(Nested(base, id, g)) == {Reg(6, base, id, g)};
    RegsOne(LoopV(0, [], Nested(base, id, g)));
  }

  lemma LeftTop(f: int)
    ensures Regs([LoopV(7, [Entry(8, 9, f)], [])]) == {Reg(9, ANY_BASE, ANY_ID, f)}
  {
    ConsRegs([Entry(8, 9, f)], ANY_BASE, ANY_ID);
    NoRegs(ANY_BASE, ANY_ID);
    assert [Entry(8, 9, f)][1..] == [];
    RegsOne(LoopV(7, [Entry(8, 9, f)], []));
  }
}
