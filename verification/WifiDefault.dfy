/** The default Wi-Fi handlers: a bundle of legacy registrations on the default event loop that
    is installed all at once or not at all. */
module WifiDefault {
  import opened Allocator
  import opened Registry
  import opened RegistryRemoval
  import opened RegistryDispatch
  import opened EventLoopNodes
  import opened EventLoops

  const WIFI_EVENT: nat := 2   // the addresses of two event bases
  const IP_EVENT: nat := 3

  datatype Pair = Pair(base: nat, id: int, fn: int)

  /** The handlers of the bundle, in the order they are registered. The functions are static in
      wifi_default.c, so that nobody else registers them. */
  const STA_START := Pair(WIFI_EVENT, 2, 1)
  const STA_STOP := Pair(WIFI_EVENT, 3, 2)
  const STA_CONNECTED := Pair(WIFI_EVENT, 4, 3)
  const STA_DISCONNECTED := Pair(WIFI_EVENT, 5, 4)
  const AP_START := Pair(WIFI_EVENT, 12, 5)
  const AP_STOP := Pair(WIFI_EVENT, 13, 6)
  const STA_GOT_IP := Pair(IP_EVENT, 0, 7)

  function Bundle(): seq<Pair> {
    [STA_START, STA_STOP, STA_CONNECTED, STA_DISCONNECTED, AP_START, AP_STOP, STA_GOT_IP]
  }

  function PairOf(r: Reg): Pair {
    Pair(r.base, r.id, r.fn)
  }

  /** How often a pair is registered. */
  function Count(flat: seq<Reg>, p: Pair): nat {
    if flat == [] then 0 else (if PairOf(flat[0]) == p then 1 else 0) + Count(flat[1..], p)
  }

  /** Everyone else's registrations, in order. */
  function Others(flat: seq<Reg>): seq<Reg> {
    if flat == [] then []
    else (if PairOf(flat[0]) in Bundle() then [] else [flat[0]]) + Others(flat[1..])
  }

  /** These are the registrations outside the bundle, and they keep their order. */
  lemma {:induction false} OthersMembers(flat: seq<Reg>)
    requires InOrder(flat)
    ensures InOrder(Others(flat))
    ensures forall r :: r in Others(flat) <==> r in flat && Pair(r.base, r.id, r.fn) !in Bundle()
  {
    hide Bundle;
    if flat != [] {
      OthersMembers(flat[1..]);
      var rest := Others(flat[1..]);
      Consed(flat[0], flat[1..], rest);
      if PairOf(flat[0]) in Bundle() {
        assert Others(flat) == rest;
      } else {
        assert Others(flat) == [flat[0]] + rest;
      }
    }
  }

  lemma {:induction false} Appending(flat: seq<Reg>, r: Reg)
    requires PairOf(r) in Bundle()
    ensures Others(flat + [r]) == Others(flat)
    ensures forall p :: Count(flat + [r], p) == Count(flat, p) + if p == PairOf(r) then 1 else 0
  {
    hide Bundle;
    if flat == [] {
      assert flat + [r] == [r] && [r][1..] == [];
    } else {
      assert (flat + [r])[1..] == flat[1..] + [r];
      Appending(flat[1..], r);
    }
  }

  lemma {:induction false} CountIn(flat: seq<Reg>, p: Pair)
    ensures Count(flat, p) > 0 <==> exists r | r in flat :: PairOf(r) == p
  {
    if flat != [] {
      CountIn(flat[1..], p);
      assert forall r :: r in flat <==> r == flat[0] || r in flat[1..];
    }
  }

  /** Taking out registrations of one pair leaves the others alone. */
  lemma {:induction false} Removing(flat: seq<Reg>, gone: set<Reg>, p: Pair)
    requires p in Bundle() && forall r | r in gone :: PairOf(r) == p
    ensures Others(Without(flat, gone)) == Others(flat)
    ensures forall q | q != p :: Count(Without(flat, gone), q) == Count(flat, q)
    ensures Count(Without(flat, gone), p) <= Count(flat, p)
    ensures (exists r | r in flat :: r in gone) ==> Count(Without(flat, gone), p) < Count(flat, p)
  {
    hide Bundle;
    if flat != [] {
      Removing(flat[1..], gone, p);
      assert forall r :: r in flat <==> r == flat[0] || r in flat[1..];
      var rest := Without(flat[1..], gone);
      if flat[0] in gone {
        assert Without(flat, gone) == rest;
      } else {
        assert Without(flat, gone) == [flat[0]] + rest && ([flat[0]] + rest)[1..] == rest;
      }
    }
  }

  /** The first `k` pairs of the bundle are registered exactly once, the others not at all. */
  ghost predicate Installed(flat: seq<Reg>, k: nat) {
    forall j | 0 <= j < |Bundle()| :: Count(flat, Bundle()[j]) == if j < k then 1 else 0
  }

  lemma InstallStep(flat: seq<Reg>, k: nat, r: Reg)
    requires k < |Bundle()| && PairOf(r) == Bundle()[k] && Installed(flat, k)
    ensures Installed(flat + [r], k + 1) && Others(flat + [r]) == Others(flat)
  {
    Appending(flat, r);
    forall j | 0 <= j < |Bundle()| && j != k ensures Bundle()[j] != Bundle()[k] { Distinct(j, k); }
  }

  lemma Distinct(j: nat, k: nat)
    requires j < |Bundle()| && k < |Bundle()| && j != k
    ensures Bundle()[j] != Bundle()[k]
  {
  }

  /** A registration that was not there before cannot have been overwritten. */
  lemma RegisterStep(flat: seq<Reg>, words: map<nat, int>, flat': seq<Reg>, words': map<nat, int>, k: nat,
                     handle: Option<nat>)
    requires k < |Bundle()| && Installed(flat, k)
    requires var p := Bundle()[k]; Registered(flat, words, flat', words', p.base, p.id, p.fn, 0, handle)
    ensures Installed(flat', k + 1) && Others(flat') == Others(flat)
  {
    var p := Bundle()[k];
    CountIn(flat, p);
    assert forall r | r in flat :: PairOf(r) != p;
    assert handle.Some?;
    InstallStep(flat, k, Reg(handle.value, p.base, p.id, p.fn));
  }

  /** The first `k` pairs are gone; of the others there is at most one registration each. */
  ghost predicate Cleared(flat: seq<Reg>, k: nat) {
    forall j | 0 <= j < |Bundle()| :: Count(flat, Bundle()[j]) <= if j < k then 0 else 1
  }

  lemma UnregisterStep(flat: seq<Reg>, words: map<nat, int>, flat': seq<Reg>, words': map<nat, int>, k: nat,
                       gone: set<Reg>)
    requires k < |Bundle()| && Cleared(flat, k)
    requires var p := Bundle()[k]; Unregistered(flat, words, flat', words', p.base, p.id, ByFn(p.fn), gone)
    ensures Cleared(flat', k + 1) && Others(flat') == Others(flat)
  {
    var p := Bundle()[k];
    CountIn(flat, p);
    forall r | r in gone ensures PairOf(r) == p { assert Named(r, p.base, p.id, ByFn(p.fn)); }
    Removing(flat, gone, p);
    if r :| r in flat && PairOf(r) == p {
      assert Named(r, p.base, p.id, ByFn(p.fn));
      var g :| g in gone;
      assert g in flat;
    }
    forall j | 0 <= j < |Bundle()| && j != k ensures Bundle()[j] != p { Distinct(j, k); }
  }

  // ---- what other clients of the loop do ------------------------------------------------------

  lemma {:induction false} CountAppended(flat: seq<Reg>, r: Reg, p: Pair)
    requires PairOf(r) != p
    ensures Count(flat + [r], p) == Count(flat, p)
  {
    if flat == [] {
      assert flat + [r] == [r] && [r][1..] == [];
    } else {
      assert (flat + [r])[1..] == flat[1..] + [r];
      CountAppended(flat[1..], r, p);
    }
  }

  lemma {:induction false} CountKept(flat: seq<Reg>, gone: set<Reg>, p: Pair)
    requires forall r | r in flat && r in gone :: PairOf(r) != p
    ensures Count(Without(flat, gone), p) == Count(flat, p)
  {
    if flat != [] {
      var rest := Without(flat[1..], gone);
      assert forall r | r in flat[1..] :: r in flat;
      CountKept(flat[1..], gone, p);
      if flat[0] in gone {
        assert flat[0] in flat && Without(flat, gone) == rest;
      } else {
        assert Without(flat, gone) == [flat[0]] + rest && ([flat[0]] + rest)[1..] == rest;
      }
    }
  }

  /** A registration of anything that is not in the bundle leaves the bundle as installed as it
      was. */
  lemma OthersRegister(flat: seq<Reg>, words: map<nat, int>, flat': seq<Reg>, words': map<nat, int>, base: nat,
                       id: int, fn: int, arg: int, handle: Option<nat>, k: nat)
    requires Registered(flat, words, flat', words', base, id, fn, arg, handle)
    requires Pair(base, id, fn) !in Bundle() && Installed(flat, k)
    ensures Installed(flat', k)
  {
    hide Count;
    if handle.Some? {
      forall j | 0 <= j < |Bundle()| ensures Count(flat', Bundle()[j]) == Count(flat, Bundle()[j]) {
        CountAppended(flat, Reg(handle.value, base, id, fn), Bundle()[j]);
      }
    }
  }

  /** So does an unregister call that names nothing of the bundle. */
  lemma OthersUnregister(flat: seq<Reg>, words: map<nat, int>, flat': seq<Reg>, words': map<nat, int>, base: nat,
                         id: int, sel: Sel, gone: set<Reg>, k: nat)
    requires Unregistered(flat, words, flat', words', base, id, sel, gone) && Installed(flat, k)
    requires forall r | r in flat && Named(r, base, id, sel) :: PairOf(r) !in Bundle()
    ensures Installed(flat', k)
  {
    hide Count;
    forall j | 0 <= j < |Bundle()| ensures Count(flat', Bundle()[j]) == Count(flat, Bundle()[j]) {
      assert forall r | r in gone :: PairOf(r) != Bundle()[j];
      CountKept(flat, gone, Bundle()[j]);
    }
  }

  // ---- what the bundle costs --------------------------------------------------------------------

  /** The registry after the first `k` pairs were registered, and the number of blocks that took. */
  ghost function Planned(t: Tree, a: nat, k: nat): (Tree, nat)
    requires k <= |Bundle()|
  {
    if k == 0 then (t, 0)
    else
      var (u, n) := Planned(t, a, k - 1);
      var p := Bundle()[k - 1];
      (AddTree(u, p.base, p.id, p.fn, true, a + n), n + Cost(u, p.base, p.id))
  }

  /** The number of blocks that the whole bundle takes. */
  ghost function BundleCost(t: Tree, a: nat): nat {
    Planned(t, a, |Bundle()|).1
  }

  lemma PlannedNext(t: Tree, a: nat, k: nat)
    requires k < |Bundle()|
    ensures var (u, n) := Planned(t, a, k);
            var p := Bundle()[k];
            Planned(t, a, k + 1) == (AddTree(u, p.base, p.id, p.fn, true, a + n), n + Cost(u, p.base, p.id))
  {
    hide AddTree, Cost, Bundle;
  }

  lemma CostAtMost(t: Tree, base: nat, id: int)
    ensures 2 <= Cost(t, base, id) <= 5
  {
  }

  /** Every registration takes two to five blocks. */
  lemma {:induction false} PlannedAtMost(t: Tree, a: nat, k: nat)
    requires k <= |Bundle()|
    ensures 2 * k <= Planned(t, a, k).1 <= 5 * k
  {
    hide Bundle, AddTree, Cost;
    if k > 0 {
      PlannedAtMost(t, a, k - 1);
      var (u, n) := Planned(t, a, k - 1);
      CostAtMost(u, Bundle()[k - 1].base, Bundle()[k - 1].id);
    }
  }

  lemma {:induction false} PlannedGrows(t: Tree, a: nat, k: nat, m: nat)
    requires k <= m <= |Bundle()|
    ensures Planned(t, a, k).1 <= Planned(t, a, m).1
  {
    hide Bundle, AddTree, Cost;
    if k < m {
      PlannedGrows(t, a, k, m - 1);
    }
  }

  lemma BundleSize()
    ensures |Bundle()| == 7
  {
  }

  lemma GrantedBoth(grants: nat -> bool, a: nat, n: nat, m: nat)
    ensures Granted(grants, a, n + m) <==> Granted(grants, a, n) && Granted(grants, a + n, m)
  {
  }

  lemma NoneAsked(grants: nat -> bool, a: nat)
    ensures Granted(grants, a, 0)
  {
  }

  lemma FirstRefused(grants: nat -> bool, a: nat, n: nat)
    requires n > 0
    ensures Granted(grants, a, n) ==> grants(a)
  {
  }

  lemma GrantedLess(grants: nat -> bool, a: nat, n: nat, m: nat)
    requires n <= m && Granted(grants, a, m)
    ensures Granted(grants, a, n)
  {
  }

  lemma Finished(flat: seq<Reg>)
    ensures Cleared(flat, 7) ==> Installed(flat, 0)
    ensures forall k | Installed(flat, k) :: Cleared(flat, 0)
  {
  }

  /** The state of wifi_default.c on one live default loop. */
  class DefaultHandlers {
    const loop: EventLoop
    const netifs: array<nat>   // s_wifi_netifs; 0 is a null pointer
    var handlersSet: bool      // wifi_default_handlers_set

    /** The flag tells the truth: the whole bundle is registered once, or nothing of it. */
    ghost predicate Valid()
      reads this, loop, loop.heap, loop.loopNodes, BasesOf(loop.loopNodes), IdsBelow(loop.loopNodes)
    {
      loop.Valid() && Installed(loop.flat, if handlersSet then |Bundle()| else 0)
    }

    constructor (loop: EventLoop, netifs: array<nat>)
      requires loop.Valid() && Installed(loop.flat, 0)
      ensures Valid() && this.loop == loop && this.netifs == netifs && !handlersSet
    {
      hide EventLoop.Valid, Installed;
      this.loop, this.netifs, handlersSet := loop, netifs, false;
      new;
      loop.Undisturbed();
    }

    /** The first `k` pairs were registered since the registry was `t` and the next request `a`. */
    ghost predicate OnPlan(t: Tree, a: nat, k: nat)
      requires k <= |Bundle()|
      reads loop, loop.heap, loop.loopNodes, BasesOf(loop.loopNodes), IdsBelow(loop.loopNodes)
    {
      && loop.View() == Planned(t, a, k).0 && loop.heap.asked == a + Planned(t, a, k).1
      && Granted(loop.heap.grants, a, Planned(t, a, k).1)
    }

    lemma PlanStarts(t: Tree, a: nat)
      requires t == loop.View() && a == loop.heap.asked
      ensures OnPlan(t, a, 0)
    {
      NoneAsked(loop.heap.grants, a);
    }

    lemma PlanEnds(t: Tree, a: nat)
      requires OnPlan(t, a, 7)
      ensures Granted(loop.heap.grants, a, BundleCost(t, a))
    {
      hide Planned;
      BundleSize();
    }

    /** One registration of the bundle. */
    method Register(p: Pair, ghost k: nat, ghost t: Tree, ghost a: nat) returns (err: Err)
      requires loop.Valid() && k < |Bundle()| && p == Bundle()[k] && Installed(loop.flat, k)
      requires OnPlan(t, a, k)
      modifies loop`loopNodes, loop`flat, loop.heap, loop.Nodes()
      ensures loop.Valid() && forall o | o in loop.Nodes() && o !in old(loop.Nodes()) :: fresh(o)
      ensures err == Ok || err == NoMem
      ensures Installed(loop.flat, if err == Ok then k + 1 else k) && Others(loop.flat) == old(Others(loop.flat))
      ensures if err == Ok then OnPlan(t, a, k + 1) else !Granted(loop.heap.grants, a, BundleCost(t, a))
    {
      hide EventLoop.Valid, EventLoop.Nodes, EventLoop.View, EventLoop.Owned, Registered, Installed, Others, Granted,
        Planned, AddTree, Cost, Target, BoundH, Bundle;
      ghost var flat, words, n := loop.flat, loop.heap.words, Planned(t, a, k).1;
      PlannedNext(t, a, k);
      GrantedBoth(loop.heap.grants, a, n, Cost(loop.View(), p.base, p.id));
      PlannedGrows(t, a, k + 1, |Bundle()|);
      if Granted(loop.heap.grants, a, BundleCost(t, a)) {
        GrantedLess(loop.heap.grants, a, Planned(t, a, k + 1).1, BundleCost(t, a));
      }
      Keys(k);
      var handle;
      err, handle := loop.RegisterInternal(p.base, p.id, p.fn, 0, true);
      if err == Ok {
        RegisterStep(flat, words, loop.flat, loop.heap.words, k, handle);
      }
    }

    lemma Keys(k: nat)
      requires k < |Bundle()|
      ensures Bundle()[k].base != NULL_BASE && Bundle()[k].base != ANY_BASE && Key(Bundle()[k].base) == Bundle()[k].base
    {
    }

    method Unregister(p: Pair, ghost k: nat)
      requires loop.Valid() && k < |Bundle()| && p == Bundle()[k] && Cleared(loop.flat, k)
      modifies loop`loopNodes, loop`flat, loop.heap`live, loop.heap`words, loop.Nodes()
      ensures loop.Valid() && forall o | o in loop.Nodes() && o !in old(loop.Nodes()) :: fresh(o)
      ensures Cleared(loop.flat, k + 1) && Others(loop.flat) == old(Others(loop.flat))
    {
      hide EventLoop.Valid, EventLoop.Nodes, EventLoop.View, EventLoop.Owned, Unregistered, Cleared, Others, Gone,
        RemoveTree;
      ghost var flat, words, t := loop.flat, loop.heap.words, loop.View();
      Keys(k);
      var _ := loop.UnregisterInternal(p.base, p.id, ByFn(p.fn));
      UnregisterStep(flat, words, loop.flat, loop.heap.words, k, Gone(t, p.base, p.id, ByFn(p.fn)));
    }

    /** Another client registers a handler that is not in the bundle: the flag stays true to the
        facts. */
    method OtherRegisters(base: nat, id: int, fn: int, arg: int, legacy: bool) returns (err: Err, handle: Option<nat>)
      requires Valid() && base != ANY_BASE && Pair(Key(base), id, fn) !in Bundle()
      modifies loop`loopNodes, loop`flat, loop.heap, loop.Nodes()
      ensures Valid() && handlersSet == old(handlersSet)
    {
      hide EventLoop.Valid, EventLoop.Nodes, EventLoop.View, EventLoop.Owned, Registered, Installed, Granted, Bundle,
        Overwrites, AddTree, Cost;
      ghost var flat, words := loop.flat, loop.heap.words;
      err, handle := loop.RegisterInternal(base, id, fn, arg, legacy);
      if err == Ok {
        OthersRegister(flat, words, loop.flat, loop.heap.words, Key(base), id, fn, arg, handle,
                       if handlersSet then |Bundle()| else 0);
      }
    }

    /** Another client unregisters something that is not in the bundle. */
    method OtherUnregisters(base: nat, id: int, sel: Sel) returns (err: Err)
      requires Valid() && base != ANY_BASE
      requires forall r | r in loop.flat && Named(r, Key(base), id, sel) :: PairOf(r) !in Bundle()
      modifies loop`loopNodes, loop`flat, loop.heap`live, loop.heap`words, loop.Nodes()
      ensures Valid() && handlersSet == old(handlersSet)
    {
      hide EventLoop.Valid, EventLoop.Nodes, EventLoop.View, EventLoop.Owned, Unregistered, Installed, Bundle, Gone,
        RemoveTree, Named;
      ghost var flat, words, t := loop.flat, loop.heap.words, loop.View();
      err := loop.UnregisterInternal(base, id, sel);
      if err == Ok {
        OthersUnregister(flat, words, loop.flat, loop.heap.words, Key(base), id, sel, Gone(t, Key(base), id, sel),
                         if handlersSet then |Bundle()| else 0);
      }
    }

    /** clear_default_wifi_handlers, also from a half-installed bundle. */
    method ClearHandlers()
      requires loop.Valid() && Cleared(loop.flat, 0)
      modifies this`handlersSet, loop`loopNodes, loop`flat, loop.heap`live, loop.heap`words, loop.Nodes()
      ensures Valid() && !handlersSet && forall o | o in loop.Nodes() && o !in old(loop.Nodes()) :: fresh(o)
      ensures Others(loop.flat) == old(Others(loop.flat))
    {
      hide EventLoop.Valid, EventLoop.Nodes, Cleared, Others, Installed;
      Unregister(STA_START, 0);
      Unregister(STA_STOP, 1);
      Unregister(STA_CONNECTED, 2);
      Unregister(STA_DISCONNECTED, 3);
      Unregister(AP_START, 4);
      Unregister(AP_STOP, 5);
      Unregister(STA_GOT_IP, 6);
      Finished(loop.flat);
      label L:
      handlersSet := false;
      loop.Undisturbed@L();
    }

    /** The registrations of set_default_wifi_handlers, up to the first that fails. */
    method RegisterAll(ghost t: Tree, ghost a: nat) returns (err: Err, ghost k: nat)
      requires loop.Valid() && Installed(loop.flat, 0) && t == loop.View() && a == loop.heap.asked
      modifies loop`loopNodes, loop`flat, loop.heap, loop.Nodes()
      ensures err == Ok <==> Granted(loop.heap.grants, a, BundleCost(t, a))
      ensures loop.Valid() && forall o | o in loop.Nodes() && o !in old(loop.Nodes()) :: fresh(o)
      ensures (err == Ok || err == NoMem) && (err == Ok ==> k == |Bundle()|)
      ensures k <= |Bundle()| && Installed(loop.flat, k) && Others(loop.flat) == old(Others(loop.flat))
    {
      hide EventLoop.Valid, EventLoop.Nodes, EventLoop.View, Others, Installed, Granted, OnPlan, BundleCost;
      PlanStarts(t, a);
      err := Register(STA_START, 0, t, a);
      if err != Ok { return err, 0; }
      err := Register(STA_STOP, 1, t, a);
      if err != Ok { return err, 1; }
      err := Register(STA_CONNECTED, 2, t, a);
      if err != Ok { return err, 2; }
      err := Register(STA_DISCONNECTED, 3, t, a);
      if err != Ok { return err, 3; }
      err := Register(AP_START, 4, t, a);
      if err != Ok { return err, 4; }
      err := Register(AP_STOP, 5, t, a);
      if err != Ok { return err, 5; }
      err := Register(STA_GOT_IP, 6, t, a);
      if err == Ok { PlanEnds(t, a); }
      k := if err == Ok then 7 else 6;
    }

    /** set_default_wifi_handlers succeeds exactly if the bundle is installed already or every block
        that its seven registrations ask for is granted, two to five each; wherever one fails, the
        whole bundle is taken back. Everyone else's registrations keep their order. */
    method SetHandlers() returns (err: Err)
      requires Valid()
      modifies this`handlersSet, loop`loopNodes, loop`flat, loop.heap, loop.Nodes()
      ensures Valid() && handlersSet == (err == Ok) && (err == Ok || err == NoMem)
      ensures err == Ok <==>
                || old(handlersSet)
                || Granted(loop.heap.grants, old(loop.heap.asked), BundleCost(old(loop.View()), old(loop.heap.asked)))
      ensures 14 <= BundleCost(old(loop.View()), old(loop.heap.asked)) <= 35
      ensures (forall n | old(loop.heap.asked) <= n < old(loop.heap.asked) + 35 :: loop.heap.grants(n)) ==> err == Ok
      ensures !old(handlersSet) && !loop.heap.grants(old(loop.heap.asked)) ==> err == NoMem
      ensures old(handlersSet) ==> err == Ok && loop.flat == old(loop.flat)
      ensures Others(loop.flat) == old(Others(loop.flat))
      ensures forall o | o in loop.Nodes() && o !in old(loop.Nodes()) :: fresh(o)
    {
      hide EventLoop.Valid, EventLoop.Nodes, EventLoop.View, Others, Installed, Cleared, Planned, Bundle;
      ghost var t, a := loop.View(), loop.heap.asked;
      BundleSize();
      PlannedAtMost(t, a, 7);
      FirstRefused(loop.heap.grants, a, BundleCost(t, a));
      if handlersSet {
        return Ok;
      }
      ghost var k;
      err, k := RegisterAll(t, a);
      Finished(loop.flat);
      if err != Ok {
        ClearHandlers();
        return;
      }
      label L:
      handlersSet := true;
      loop.Undisturbed@L();
    }

    /** esp_wifi_clear_default_wifi_driver_and_handlers: the interface's slots are emptied, and
        with the last slot the bundle goes. */
    method ClearDriverAndHandlers(netif: nat)
      requires Valid()
      modifies this`handlersSet, netifs, loop`loopNodes, loop`flat, loop.heap`live, loop.heap`words, loop.Nodes()
      ensures Valid() && Others(loop.flat) == old(Others(loop.flat))
      ensures forall i | 0 <= i < netifs.Length :: netifs[i] == if old(netifs[i]) == netif then 0 else old(netifs[i])
      ensures handlersSet == (old(handlersSet) && exists i | 0 <= i < netifs.Length :: netifs[i] != 0)
    {
      hide EventLoop.Valid, EventLoop.Nodes, Others, Installed, Cleared;
      label L:
      var left := ClearSlots(netif);
      loop.Undisturbed@L();
      if !left {
        Finished(loop.flat);
        ClearHandlers();
      }
    }

    /** Both loops over s_wifi_netifs; true when a slot is still in use. */
    method ClearSlots(netif: nat) returns (left: bool)
      modifies netifs
      ensures forall i | 0 <= i < netifs.Length :: netifs[i] == if old(netifs[i]) == netif then 0 else old(netifs[i])
      ensures left == exists i | 0 <= i < netifs.Length :: netifs[i] != 0
    {
      for i := 0 to netifs.Length
        invariant forall j | 0 <= j < netifs.Length ::
                    netifs[j] == if j < i && old(netifs[j]) == netif then 0 else old(netifs[j])
      {
        if netifs[i] == netif {
          netifs[i] := 0;
        }
      }
      for i := 0 to netifs.Length
        invariant forall j | 0 <= j < i :: netifs[j] == 0
      {
        if netifs[i] != 0 {
          return true;
        }
      }
      left := false;
    }
  }
}
