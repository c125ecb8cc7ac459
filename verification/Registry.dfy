/** The handler registry of an event loop as a value: what the nested linked lists of
    `esp_event.c` hold, and what each operation makes of them. The node classes in
    RegistryNodes are proved to compute these functions; RegistryOrder proves what the
    functions mean for the order in which handlers are called. */
module Registry {

  const NULL_BASE: nat := 0   // ESP_EVENT_ANY_BASE as callers write it
  const ANY_BASE: nat := 1    // the private pointer esp_event_any_base it is replaced with
  const ANY_ID: int := -1     // ESP_EVENT_ANY_ID

  /** One handler node together with the context it owns; `ctx` is the instance handle. */
  datatype Entry = Entry(node: nat, ctx: nat, fn: int)

  datatype IdV = IdV(addr: nat, id: int, handlers: seq<Entry>)
  datatype BaseV = BaseV(addr: nat, base: nat, handlers: seq<Entry>, ids: seq<IdV>)
  datatype LoopV = LoopV(addr: nat, handlers: seq<Entry>, bases: seq<BaseV>)
  type Tree = seq<LoopV>

  /** A live registration. Contexts are numbered in the order they are allocated, so `ctx`
      is also its age. */
  datatype Reg = Reg(ctx: nat, base: nat, id: int, fn: int)

  /** How an unregister call names its victim: by instance handle, or (legacy) by function. */
  datatype Sel = ByCtx(ctx: nat) | ByFn(fn: int)

  /** The key under which the registry files a base: NULL stands for any base. */
  function Key(base: nat): nat {
    if base == NULL_BASE then ANY_BASE else base
  }

  predicate IsLoopLevel(base: nat, id: int) {
    base == ANY_BASE && id == ANY_ID
  }

  /** The registration wants the event (base, id). */
  predicate Matches(r: Reg, base: nat, id: int) {
    IsLoopLevel(r.base, r.id) || (r.base == base && (r.id == ANY_ID || r.id == id))
  }

  // ---- registering ----------------------------------------------------------------

  predicate HasFn(hs: seq<Entry>, fn: int) {
    exists i | 0 <= i < |hs| :: hs[i].fn == fn
  }

  predicate HasId(ids: seq<IdV>, id: int) {
    exists i | 0 <= i < |ids| :: ids[i].id == id
  }

  predicate HasBase(bs: seq<BaseV>, base: nat) {
    exists i | 0 <= i < |bs| :: bs[i].base == base
  }

  /** handler_instances_add: a legacy call for a function already in the list only rewrites
      that entry's argument, which lives outside this value. */
  function AddH(hs: seq<Entry>, fn: int, legacy: bool, a: nat): seq<Entry> {
    if legacy && HasFn(hs, fn) then hs else hs + [Entry(a, a + 1, fn)]
  }

  /** The id node for `id` receives the handler; without one, a new node is appended. */
  function AddIds(ids: seq<IdV>, id: int, fn: int, legacy: bool, a: nat): seq<IdV> {
    if ids == [] then
      [IdV(a, id, AddH([], fn, legacy, a + 1))]
    else if ids[0].id == id && !HasId(ids[1..], id) then
      [ids[0].(handlers := AddH(ids[0].handlers, fn, legacy, a))] + ids[1..]
    else
      [ids[0]] + AddIds(ids[1..], id, fn, legacy, a)
  }

  function AddBase(b: BaseV, id: int, fn: int, legacy: bool, a: nat): BaseV {
    if id == ANY_ID then
      b.(handlers := AddH(b.handlers, fn, legacy, a))
    else
      b.(ids := AddIds(b.ids, id, fn, legacy, a))
  }

  /** The last node for a base. */
  function LastOf(bs: seq<BaseV>, base: nat): (k: nat)
    requires HasBase(bs, base)
    ensures k < |bs| && bs[k].base == base
    ensures forall j | k < j < |bs| :: bs[j].base != base
  {
    if bs[|bs| - 1].base == base then |bs| - 1 else LastOf(bs[..|bs| - 1], base)
  }

  /** The conditions under which a registration opens a new base node. */
  predicate OpensBase(bs: seq<BaseV>, base: nat, id: int) {
    || !HasBase(bs, base)
    || (id == ANY_ID && bs[LastOf(bs, base)].ids != [])
    || (id == ANY_ID && bs[|bs| - 1].base != base && bs[|bs| - 1].ids != [])
  }

  function AddBases(bs: seq<BaseV>, base: nat, id: int, fn: int, legacy: bool, a: nat,
                    open: bool): seq<BaseV> {
    if bs == [] then
      [AddBase(BaseV(a, base, [], []), id, fn, legacy, a + 1)]
    else if !open && bs[0].base == base && !HasBase(bs[1..], base) then
      [AddBase(bs[0], id, fn, legacy, a)] + bs[1..]
    else
      [bs[0]] + AddBases(bs[1..], base, id, fn, legacy, a, open)
  }

  function AddLoop(l: LoopV, base: nat, id: int, fn: int, legacy: bool, a: nat): LoopV {
    if IsLoopLevel(base, id) then
      l.(handlers := AddH(l.handlers, fn, legacy, a))
    else
      l.(bases := AddBases(l.bases, base, id, fn, legacy, a, OpensBase(l.bases, base, id)))
  }

  /** A loop-level handler behind base nodes opens a new loop node. */
  predicate OpensLoop(t: Tree, base: nat, id: int) {
    t == [] || (t[|t| - 1].bases != [] && IsLoopLevel(base, id))
  }

  function AddTree(t: Tree, base: nat, id: int, fn: int, legacy: bool, a: nat): Tree {
    if OpensLoop(t, base, id) then
      t + [AddLoop(LoopV(a, [], []), base, id, fn, legacy, a + 1)]
    else
      t[..|t| - 1] + [AddLoop(t[|t| - 1], base, id, fn, legacy, a)]
  }

  // ---- what a registration costs and where it lands ---------------------------------

  function CostIds(ids: seq<IdV>, id: int): (n: nat)
    ensures n >= 2
  {
    if HasId(ids, id) then 2 else 3
  }

  function CostBase(b: BaseV, id: int): (n: nat)
    ensures n >= 2
  {
    if id == ANY_ID then 2 else CostIds(b.ids, id)
  }

  function CostLoop(l: LoopV, base: nat, id: int): (n: nat)
    ensures n >= 2
  {
    if IsLoopLevel(base, id) then 2
    else if OpensBase(l.bases, base, id) then 1 + CostBase(BaseV(0, base, [], []), id)
    else CostBase(l.bases[LastOf(l.bases, base)], id)
  }

  /** The number of blocks the registration asks the allocator for. */
  function Cost(t: Tree, base: nat, id: int): (n: nat)
    ensures n >= 2
  {
    if OpensLoop(t, base, id) then 1 + CostLoop(LoopV(0, [], []), base, id)
    else CostLoop(t[|t| - 1], base, id)
  }

  function TargetIds(ids: seq<IdV>, id: int): seq<Entry> {
    if ids == [] then []
    else if ids[0].id == id && !HasId(ids[1..], id) then ids[0].handlers
    else TargetIds(ids[1..], id)
  }

  function TargetBase(b: BaseV, id: int): seq<Entry> {
    if id == ANY_ID then b.handlers else TargetIds(b.ids, id)
  }

  function TargetLoop(l: LoopV, base: nat, id: int): seq<Entry> {
    if IsLoopLevel(base, id) then l.handlers
    else if OpensBase(l.bases, base, id) then []
    else TargetBase(l.bases[LastOf(l.bases, base)], id)
  }

  /** The handler list the registration is added to; empty if it opens a node. */
  function Target(t: Tree, base: nat, id: int): seq<Entry> {
    if OpensLoop(t, base, id) then [] else TargetLoop(t[|t| - 1], base, id)
  }

  /** A legacy registration that only rewrites the argument of an existing one. */
  predicate Overwrites(t: Tree, base: nat, id: int, fn: int, legacy: bool) {
    legacy && HasFn(Target(t, base, id), fn)
  }

  function FirstFn(hs: seq<Entry>, fn: int): (k: nat)
    requires HasFn(hs, fn)
    ensures k < |hs| && hs[k].fn == fn
    ensures forall j | 0 <= j < k :: hs[j].fn != fn
  {
    if hs[0].fn == fn then 0 else 1 + FirstFn(hs[1..], fn)
  }

  /** The last of the `n` blocks asked for from `a` on: the context of the registration. */
  function LastBlock(a: nat, n: nat): nat {
    if n == 0 then a else a + n - 1
  }

  /** The context that holds the argument after adding `fn` to `hs`. */
  function BoundH(hs: seq<Entry>, fn: int, legacy: bool, a: nat, n: nat): nat {
    if legacy && HasFn(hs, fn) then hs[FirstFn(hs, fn)].ctx else LastBlock(a, n)
  }

  // ---- unregistering ----------------------------------------------------------------

  predicate Selects(e: Entry, sel: Sel) {
    match sel
    case ByCtx(c) => e.ctx == c
    case ByFn(f) => e.fn == f
  }

  /** handler_instances_remove: the first selected entry goes. */
  function RemoveH(hs: seq<Entry>, sel: Sel): (seq<Entry>, bool) {
    if hs == [] then ([], false)
    else if Selects(hs[0], sel) then (hs[1..], true)
    else var (rest, found) := RemoveH(hs[1..], sel); ([hs[0]] + rest, found)
  }

  /** The walk over id nodes; true when a node became empty and was freed. */
  function RemoveIds(ids: seq<IdV>, id: int, sel: Sel): (seq<IdV>, bool) {
    if ids == [] then ([], false)
    else if ids[0].id != id then
      var (rest, ok) := RemoveIds(ids[1..], id, sel); ([ids[0]] + rest, ok)
    else
      var (hs, found) := RemoveH(ids[0].handlers, sel);
      if found && hs == [] then (ids[1..], true)
      else var (rest, ok) := RemoveIds(ids[1..], id, sel); ([ids[0].(handlers := hs)] + rest, ok)
  }

  function RemoveBase(b: BaseV, id: int, sel: Sel): (BaseV, bool) {
    if id == ANY_ID then
      var (hs, found) := RemoveH(b.handlers, sel); (b.(handlers := hs), found)
    else
      var (ids, ok) := RemoveIds(b.ids, id, sel); (b.(ids := ids), ok)
  }

  function RemoveBases(bs: seq<BaseV>, base: nat, id: int, sel: Sel): (seq<BaseV>, bool) {
    if bs == [] then ([], false)
    else if bs[0].base != base then
      var (rest, ok) := RemoveBases(bs[1..], base, id, sel); ([bs[0]] + rest, ok)
    else
      var (b, gone) := RemoveBase(bs[0], id, sel);
      if gone && b.handlers == [] && b.ids == [] then (bs[1..], true)
      else var (rest, ok) := RemoveBases(bs[1..], base, id, sel); ([b] + rest, ok)
  }

  function RemoveLoop(l: LoopV, base: nat, id: int, sel: Sel): (LoopV, bool) {
    if IsLoopLevel(base, id) then
      var (hs, found) := RemoveH(l.handlers, sel); (l.(handlers := hs), found)
    else
      var (bs, ok) := RemoveBases(l.bases, base, id, sel); (l.(bases := bs), ok)
  }

  /** The walk over loop nodes stops at the first one that became empty. */
  function RemoveTree(t: Tree, base: nat, id: int, sel: Sel): Tree {
    if t == [] then []
    else
      var (l, ok) := RemoveLoop(t[0], base, id, sel);
      if ok && l.bases == [] && l.handlers == [] then t[1..]
      else [l] + RemoveTree(t[1..], base, id, sel)
  }

  // ---- dispatching ------------------------------------------------------------------

  function WalkH(hs: seq<Entry>, base: nat, id: int): (w: seq<Reg>)
  {
    seq(|hs|, i requires 0 <= i < |hs| => Reg(hs[i].ctx, base, id, hs[i].fn))
  }

  /** Only the first id node with the id runs. */
  function WalkIds(ids: seq<IdV>, base: nat, id: int): seq<Reg> {
    if ids == [] then []
    else if ids[0].id == id then WalkH(ids[0].handlers, base, id)
    else WalkIds(ids[1..], base, id)
  }

  function WalkBases(bs: seq<BaseV>, base: nat, id: int): seq<Reg> {
    if bs == [] then []
    else
      (if bs[0].base == base then WalkH(bs[0].handlers, base, ANY_ID) + WalkIds(bs[0].ids, base, id)
       else [])
      + WalkBases(bs[1..], base, id)
  }

  /** The registrations the dispatch loop visits for an event, in the order it calls them. */
  function WalkTree(t: Tree, base: nat, id: int): seq<Reg> {
    if t == [] then []
    else
      WalkH(t[0].handlers, ANY_BASE, ANY_ID) + WalkBases(t[0].bases, base, id)
      + WalkTree(t[1..], base, id)
  }

  // ---- contents ---------------------------------------------------------------------

  function RegsH(hs: seq<Entry>, base: nat, id: int): set<Reg> {
    set e | e in hs :: Reg(e.ctx, base, id, e.fn)
  }

  function RegsIds(ids: seq<IdV>, base: nat): set<Reg> {
    if ids == [] then {} else RegsH(ids[0].handlers, base, ids[0].id) + RegsIds(ids[1..], base)
  }

  function RegsBase(b: BaseV): set<Reg> {
    RegsH(b.handlers, b.base, ANY_ID) + RegsIds(b.ids, b.base)
  }

  function RegsBases(bs: seq<BaseV>): set<Reg> {
    if bs == [] then {} else RegsBase(bs[0]) + RegsBases(bs[1..])
  }

  function RegsLoop(l: LoopV): set<Reg> {
    RegsH(l.handlers, ANY_BASE, ANY_ID) + RegsBases(l.bases)
  }

  /** All live registrations. */
  function Regs(t: Tree): set<Reg> {
    if t == [] then {} else RegsLoop(t[0]) + Regs(t[1..])
  }

  // ---- heap blocks: how often the block `a` occurs ------------------------------------

  function BlocksH(hs: seq<Entry>, a: nat): nat {
    if hs == [] then 0
    else (if hs[0].node == a then 1 else 0) + (if hs[0].ctx == a then 1 else 0) + BlocksH(hs[1..], a)
  }

  function BlocksId(d: IdV, a: nat): nat {
    (if d.addr == a then 1 else 0) + BlocksH(d.handlers, a)
  }

  function BlocksIds(ids: seq<IdV>, a: nat): nat {
    if ids == [] then 0 else BlocksId(ids[0], a) + BlocksIds(ids[1..], a)
  }

  function BlocksBase(b: BaseV, a: nat): nat {
    (if b.addr == a then 1 else 0) + BlocksH(b.handlers, a) + BlocksIds(b.ids, a)
  }

  function BlocksBases(bs: seq<BaseV>, a: nat): nat {
    if bs == [] then 0 else BlocksBase(bs[0], a) + BlocksBases(bs[1..], a)
  }

  function BlocksLoop(l: LoopV, a: nat): nat {
    (if l.addr == a then 1 else 0) + BlocksH(l.handlers, a) + BlocksBases(l.bases, a)
  }

  /** How many nodes and contexts of the registry are the block `a`. */
  function Blocks(t: Tree, a: nat): nat {
    if t == [] then 0 else BlocksLoop(t[0], a) + Blocks(t[1..], a)
  }
}
