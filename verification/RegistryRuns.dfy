/** Whole runs of register and unregister calls: the registry against a list that is computed
    from nothing but what the callers saw. */
module RegistryRuns {
  import opened Registry
  import opened RegistryOrder
  import opened RegistryRemoval
  import opened RegistryDispatch

  /** One call. A registration is granted all its blocks, or fails after asking for some. */
  datatype Op =
    | Register(base: nat, id: int, fn: int, legacy: bool, granted: bool, failedAfter: nat)
    | Unregister(base: nat, id: int, sel: Sel)

  /** The nodes, the live registrations, and the number of the next block. */
  datatype State = State(tree: Tree, flat: seq<Reg>, next: nat)

  predicate ValidOp(op: Op) {
    ValidKey(op.base, op.id)
  }

  ghost function Step(s: State, op: Op): State {
    match op
    case Register(base, id, fn, legacy, granted, failedAfter) =>
      if granted then
        State(AddTree(s.tree, base, id, fn, legacy, s.next),
              Appended(s.tree, s.flat, base, id, fn, legacy, s.next), s.next + Cost(s.tree, base, id))
      else s.(next := s.next + failedAfter)
    case Unregister(base, id, sel) =>
      s.(tree := RemoveTree(s.tree, base, id, sel), flat := Without(s.flat, Gone(s.tree, base, id, sel)))
  }

  ghost function After(ops: seq<Op>): State {
    if ops == [] then State([], [], 0) else Step(After(ops[..|ops| - 1]), ops[|ops| - 1])
  }

  /** Every registry that some run reaches holds exactly the live registrations, in the shape
      that keeps them in order. */
  lemma {:induction false} ReachableCoupled(ops: seq<Op>)
    requires forall op | op in ops :: ValidOp(op)
    ensures var s := After(ops); Coupled(s.tree, s.flat, s.next)
  {
    if ops != [] {
      var op := ops[|ops| - 1];
      var s := After(ops[..|ops| - 1]);
      assert op in ops;
      ReachableCoupled(ops[..|ops| - 1]);
      if op.Register? {
        if op.granted {
          RegisterCoupled(s.tree, s.flat, op.base, op.id, op.fn, op.legacy, s.next);
        }
      } else {
        UnregisterCoupled(s.tree, s.flat, s.next, op.base, op.id, op.sel);
      }
    }
  }

  /** After every run, dispatching an event calls exactly the live registrations that match it,
      each once, in the order they were registered. */
  lemma ReachableDispatch(ops: seq<Op>, base: nat, id: int)
    requires forall op | op in ops :: ValidOp(op)
    requires base > ANY_BASE && id != ANY_ID
    ensures var s := After(ops);
            WalkTree(s.tree, base, id) == Select(s.flat, base, id) && InOrder(s.flat)
  {
    var s := After(ops);
    ReachableCoupled(ops);
    DispatchOrder(s.tree, s.flat, s.next, base, id);
  }

  // ---- instance registrations only: a reference without nodes ---------------------------

  predicate InstanceOp(op: Op) {
    match op
    case Register(_, _, _, legacy, _, _) => !legacy
    case Unregister(_, _, sel) => sel.ByCtx?
  }

  /** What a caller knows after a call: the handle it was given, or gave back. */
  datatype Seen = Registered(reg: Reg) | Failed | Released(base: nat, id: int, ctx: nat)

  /** The observations of a run, one for each call. */
  ghost function Observed(ops: seq<Op>): seq<Seen>
    requires forall op | op in ops :: InstanceOp(op)
  {
    if ops == [] then []
    else
      var op := ops[|ops| - 1];
      var s := After(ops[..|ops| - 1]);
      assert op in ops && InstanceOp(op);
      Observed(ops[..|ops| - 1]) +
      (match op
       case Register(base, id, fn, _, granted, _) =>
         if granted then [Registered(Reg(s.next + Cost(s.tree, base, id) - 1, base, id, fn))] else [Failed]
       case Unregister(base, id, sel) => [Released(base, id, sel.ctx)])
  }

  function Drop(flat: seq<Reg>, base: nat, id: int, ctx: nat): seq<Reg> {
    if flat == [] then []
    else (if flat[0] == Reg(ctx, base, id, flat[0].fn) then [] else [flat[0]]) + Drop(flat[1..], base, id, ctx)
  }

  /** The registrations a reader of the observations would take to be live. */
  function Reference(seen: seq<Seen>): seq<Reg> {
    if seen == [] then []
    else
      var flat := Reference(seen[..|seen| - 1]);
      match seen[|seen| - 1]
      case Registered(r) => flat + [r]
      case Failed => flat
      case Released(base, id, ctx) => Drop(flat, base, id, ctx)
  }

  lemma {:induction false} WithoutIsDrop(flat: seq<Reg>, gone: set<Reg>, base: nat, id: int, ctx: nat)
    requires forall r | r in flat :: r in gone <==> Named(r, base, id, ByCtx(ctx))
    ensures Without(flat, gone) == Drop(flat, base, id, ctx)
  {
    if flat != [] {
      assert flat[0] in flat;
      WithoutIsDrop(flat[1..], gone, base, id, ctx);
    }
  }

  lemma {:induction false} ReferenceIsFlat(ops: seq<Op>)
    requires forall op | op in ops :: ValidOp(op) && InstanceOp(op)
    ensures Reference(Observed(ops)) == After(ops).flat
  {
    hide AddTree, RemoveTree, Cost, Gone, Coupled;
    if ops != [] {
      var before, op := ops[..|ops| - 1], ops[|ops| - 1];
      var s := After(before);
      assert op in ops;
      ReferenceIsFlat(before);
      ReachableCoupled(before);
      var seen := Observed(ops);
      assert seen[..|seen| - 1] == Observed(before);
      if op.Unregister? {
        UnregisterCoupled(s.tree, s.flat, s.next, op.base, op.id, op.sel);
        WithoutIsDrop(s.flat, Gone(s.tree, op.base, op.id, op.sel), op.base, op.id, op.sel.ctx);
      }
    }
  }

  /** Seen from outside, an event loop used through instance handles is a plain list: append on
      register, delete on unregister, call the matching entries in order. */
  lemma LoopIsList(ops: seq<Op>, base: nat, id: int)
    requires forall op | op in ops :: ValidOp(op) && InstanceOp(op)
    requires base > ANY_BASE && id != ANY_ID
    ensures WalkTree(After(ops).tree, base, id) == Select(Reference(Observed(ops)), base, id)
  {
    ReferenceIsFlat(ops);
    ReachableDispatch(ops, base, id);
  }
}
