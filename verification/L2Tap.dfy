/** The socket table of esp_vfs_l2tap.c and the ownership of received frame buffers. */
module L2Tap {
  import opened Allocator

  const ETH_IEEE802_3_MAX_LEN: nat := 1500   // larger type fields are Ethernet II types
  const NO_DRIVER: nat := 0

  newtype byte = x: int | 0 <= x < 256

  datatype SocketState = Ready | Opened | Closing
  datatype Errno = NoErr | BadFd | Again | Access | Invalid | NoDevice

  /** A queue entry: a buffer and the bytes it is said to hold. An entry without bytes marks a
      socket that is about to close. */
  datatype Frame = Frame(buff: nat, bytes: seq<byte>)

  datatype Socket = Socket(state: SocketState, nonBlocking: bool, driver: nat, filter: nat, queue: seq<Frame>)

  const CLOSED := Socket(Ready, false, NO_DRIVER, 0, [])

  // ---- which buffers a socket holds -----------------------------------------------------------

  function HeldIn(queue: seq<Frame>, b: nat): nat {
    if queue == [] then 0
    else (if queue[0].buff == b && queue[0].bytes != [] then 1 else 0) + HeldIn(queue[1..], b)
  }

  /** How many receive queue entries hold the buffer `b`. */
  function Held(sockets: seq<Socket>, b: nat): nat {
    if sockets == [] then 0 else HeldIn(sockets[0].queue, b) + Held(sockets[1..], b)
  }

  lemma {:induction false} HeldInAdd(queue: seq<Frame>, f: Frame, b: nat)
    ensures HeldIn(queue + [f], b) == HeldIn(queue, b) + if f.buff == b && f.bytes != [] then 1 else 0
  {
    if queue == [] {
      assert queue + [f] == [f] && [f][1..] == [];
    } else {
      assert (queue + [f])[1..] == queue[1..] + [f];
      HeldInAdd(queue[1..], f, b);
    }
  }

  lemma {:induction false} HeldSet(sockets: seq<Socket>, i: nat, s: Socket, b: nat)
    requires i < |sockets|
    ensures Held(sockets[i := s], b) + HeldIn(sockets[i].queue, b) == Held(sockets, b) + HeldIn(s.queue, b)
  {
    if i == 0 {
      assert sockets[i := s][1..] == sockets[1..];
    } else {
      assert sockets[i := s][1..] == sockets[1..][i - 1 := s];
      HeldSet(sockets[1..], i - 1, s, b);
    }
  }

  lemma {:induction false} HeldAt(sockets: seq<Socket>, i: nat, b: nat)
    requires i < |sockets|
    ensures HeldIn(sockets[i].queue, b) <= Held(sockets, b)
  {
    if i > 0 { HeldAt(sockets[1..], i - 1, b); }
  }

  // ---- the receive filter ---------------------------------------------------------------------

  /** The condition under which a socket takes a frame. */
  predicate Takes(s: Socket, driver: nat, ethType: nat) {
    && s.state == Opened && s.driver == driver
    && (s.filter == ethType || (s.filter <= ETH_IEEE802_3_MAX_LEN && ethType <= ETH_IEEE802_3_MAX_LEN))
  }

  ghost predicate AtMostOne(sockets: seq<Socket>, driver: nat, ethType: nat) {
    forall i, j | 0 <= i < j < |sockets| ::
      !(Takes(sockets[i], driver, ethType) && Takes(sockets[j], driver, ethType))
  }

  /** Opened sockets with nonzero filters never share driver and filter. */
  ghost predicate Unique(sockets: seq<Socket>) {
    forall i, j | 0 <= i < j < |sockets| ::
      !(sockets[i].state == sockets[j].state == Opened && sockets[i].filter == sockets[j].filter != 0
        && sockets[i].driver == sockets[j].driver)
  }

  /** A frame whose type field is no length matches at most one socket. */
  lemma UniqueMatch(sockets: seq<Socket>, driver: nat, ethType: nat)
    requires Unique(sockets) && ethType > ETH_IEEE802_3_MAX_LEN
    ensures AtMostOne(sockets, driver, ethType)
  {
  }

  /** For a type field that is a length this fails: two sockets with different filters both take
      the frame. */
  lemma LengthsMatchTwice()
    ensures var sockets := [Socket(Opened, false, 1, 0, []), Socket(Opened, false, 1, 7, [])];
            Unique(sockets) && !AtMostOne(sockets, 1, 100)
  {
    var sockets := [Socket(Opened, false, 1, 0, []), Socket(Opened, false, 1, 7, [])];
    assert Takes(sockets[0], 1, 100) && Takes(sockets[1], 1, 100);
  }

  // ---- what becomes of a frame that any number of sockets take ---------------------------------

  function Enqueued(s: Socket, f: Frame): Socket {
    s.(queue := s.queue + [f])
  }

  /** The table after the frame passed all sockets: the first taker is offered the frame, each
      later one an entry without bytes, because the size is zero by then. A full queue takes
      nothing. */
  function Filtered(sockets: seq<Socket>, driver: nat, ethType: nat, f: Frame, capacity: nat): (now: seq<Socket>)
    ensures |now| == |sockets|
  {
    if sockets == [] then []
    else if Takes(sockets[0], driver, ethType) then
      [if |sockets[0].queue| < capacity then Enqueued(sockets[0], f) else sockets[0]]
      + Filtered(sockets[1..], driver, ethType, Frame(f.buff, []), capacity)
    else [sockets[0]] + Filtered(sockets[1..], driver, ethType, f, capacity)
  }

  /** How often the buffer is freed on the way: once by every taker whose queue is full. */
  function Frees(sockets: seq<Socket>, driver: nat, ethType: nat, capacity: nat): nat {
    if sockets == [] then 0
    else (if Takes(sockets[0], driver, ethType) && |sockets[0].queue| >= capacity then 1 else 0)
         + Frees(sockets[1..], driver, ethType, capacity)
  }

  predicate Taken(sockets: seq<Socket>, driver: nat, ethType: nat) {
    exists i | 0 <= i < |sockets| :: Takes(sockets[i], driver, ethType)
  }

  /** Every taker after the first has room in its queue. */
  predicate LaterRoom(sockets: seq<Socket>, driver: nat, ethType: nat, capacity: nat) {
    forall i, j | 0 <= i < j < |sockets| && Takes(sockets[i], driver, ethType) && Takes(sockets[j], driver, ethType) ::
      |sockets[j].queue| < capacity
  }

  /** Every taker has room in its queue. */
  predicate AllRoom(sockets: seq<Socket>, driver: nat, ethType: nat, capacity: nat) {
    forall i | 0 <= i < |sockets| && Takes(sockets[i], driver, ethType) :: |sockets[i].queue| < capacity
  }

  /** The pass over the table, seen from a socket in the middle. */
  lemma FilterStep(rest: seq<Socket>, driver: nat, ethType: nat, f: Frame, capacity: nat)
    requires rest != []
    ensures var takes := Takes(rest[0], driver, ethType);
            && Filtered(rest, driver, ethType, f, capacity)
               == [if takes && |rest[0].queue| < capacity then Enqueued(rest[0], f) else rest[0]]
                  + Filtered(rest[1..], driver, ethType, if takes then Frame(f.buff, []) else f, capacity)
            && Frees(rest, driver, ethType, capacity)
               == (if takes && |rest[0].queue| >= capacity then 1 else 0)
                  + Frees(rest[1..], driver, ethType, capacity)
            && Taken(rest, driver, ethType) == (takes || Taken(rest[1..], driver, ethType))
  {
    if i :| 0 <= i < |rest| && Takes(rest[i], driver, ethType) {
      assert i == 0 || rest[i] == rest[1..][i - 1];
    }
    if i :| 0 <= i < |rest[1..]| && Takes(rest[1..][i], driver, ethType) {
      assert rest[i + 1] == rest[1..][i];
    }
  }

  lemma Associate<T>(x: seq<T>, y: seq<T>, z: seq<T>)
    ensures x + (y + z) == x + y + z
  {
  }

  lemma FilterDone(driver: nat, ethType: nat, f: Frame, capacity: nat)
    ensures Filtered([], driver, ethType, f, capacity) == [] && Frees([], driver, ethType, capacity) == 0
    ensures !Taken([], driver, ethType)
  {
  }

  lemma {:induction false} NoFrees(sockets: seq<Socket>, driver: nat, ethType: nat, capacity: nat)
    ensures Frees(sockets, driver, ethType, capacity) == 0 <==> AllRoom(sockets, driver, ethType, capacity)
  {
    if sockets != [] {
      NoFrees(sockets[1..], driver, ethType, capacity);
      if AllRoom(sockets[1..], driver, ethType, capacity) {
        assert forall i | 1 <= i < |sockets| :: sockets[i] == sockets[1..][i - 1];
      }
    }
  }

  lemma {:induction false} NotTaken(sockets: seq<Socket>, driver: nat, ethType: nat, f: Frame, capacity: nat)
    requires !Taken(sockets, driver, ethType)
    ensures Filtered(sockets, driver, ethType, f, capacity) == sockets
    ensures Frees(sockets, driver, ethType, capacity) == 0
  {
    if sockets != [] {
      assert !Takes(sockets[0], driver, ethType);
      assert !Taken(sockets[1..], driver, ethType);
      NotTaken(sockets[1..], driver, ethType, f, capacity);
    }
  }

  /** An entry without bytes holds no buffer; an entry with bytes holds its own. */
  lemma {:induction false} EmptyHeld(sockets: seq<Socket>, driver: nat, ethType: nat, buff: nat, capacity: nat, b: nat)
    ensures Held(Filtered(sockets, driver, ethType, Frame(buff, []), capacity), b) == Held(sockets, b)
  {
    if sockets != [] {
      HeldInAdd(sockets[0].queue, Frame(buff, []), b);
      EmptyHeld(sockets[1..], driver, ethType, buff, capacity, b);
    }
  }

  /** Other buffers stay where they are. */
  lemma {:induction false} OthersHeld(sockets: seq<Socket>, driver: nat, ethType: nat, f: Frame, capacity: nat, b: nat)
    requires b != f.buff
    ensures Held(Filtered(sockets, driver, ethType, f, capacity), b) == Held(sockets, b)
  {
    if sockets != [] {
      HeldInAdd(sockets[0].queue, f, b);
      OthersHeld(sockets[1..], driver, ethType, if Takes(sockets[0], driver, ethType) then Frame(f.buff, []) else f,
                 capacity, b);
    }
  }

  /** How many takers after the first have a full queue. */
  function LaterFull(sockets: seq<Socket>, driver: nat, ethType: nat, capacity: nat): nat {
    if sockets == [] then 0
    else if Takes(sockets[0], driver, ethType) then Frees(sockets[1..], driver, ethType, capacity)
    else LaterFull(sockets[1..], driver, ethType, capacity)
  }

  /** A frame that is taken is held or freed once by its first taker, and freed once more by every
      later taker with a full queue. */
  lemma {:induction false} PlacedAndFreed(sockets: seq<Socket>, driver: nat, ethType: nat, f: Frame, capacity: nat)
    requires Taken(sockets, driver, ethType) && f.bytes != []
    ensures Held(Filtered(sockets, driver, ethType, f, capacity), f.buff) + Frees(sockets, driver, ethType, capacity)
         == Held(sockets, f.buff) + 1 + LaterFull(sockets, driver, ethType, capacity)
    ensures Held(Filtered(sockets, driver, ethType, f, capacity), f.buff) <= Held(sockets, f.buff) + 1
  {
    if Takes(sockets[0], driver, ethType) {
      HeldInAdd(sockets[0].queue, f, f.buff);
      EmptyHeld(sockets[1..], driver, ethType, f.buff, capacity, f.buff);
    } else {
      var i :| 0 <= i < |sockets| && Takes(sockets[i], driver, ethType);
      assert Takes(sockets[1..][i - 1], driver, ethType);
      PlacedAndFreed(sockets[1..], driver, ethType, f, capacity);
    }
  }

  lemma {:induction false} NoLaterFull(sockets: seq<Socket>, driver: nat, ethType: nat, capacity: nat)
    ensures LaterFull(sockets, driver, ethType, capacity) == 0 <==> LaterRoom(sockets, driver, ethType, capacity)
  {
    if sockets != [] {
      var rest := sockets[1..];
      assert forall i | 1 <= i < |sockets| :: sockets[i] == rest[i - 1];
      assert forall i | 0 <= i < |rest| :: rest[i] == sockets[i + 1];
      if Takes(sockets[0], driver, ethType) {
        NoFrees(rest, driver, ethType, capacity);
        if LaterRoom(sockets, driver, ethType, capacity) {
          assert AllRoom(rest, driver, ethType, capacity);
        }
      } else {
        NoLaterFull(rest, driver, ethType, capacity);
      }
    }
  }

  /** The buffer of a nonempty frame that some socket takes ends up in exactly one place, held or
      freed once, if and only if every taker after the first has room. */
  lemma OwnedOnce(sockets: seq<Socket>, driver: nat, ethType: nat, f: Frame, capacity: nat)
    requires Taken(sockets, driver, ethType) && f.bytes != [] && Held(sockets, f.buff) == 0
    ensures Held(Filtered(sockets, driver, ethType, f, capacity), f.buff)
            + Frees(sockets, driver, ethType, capacity) == 1
            <==> LaterRoom(sockets, driver, ethType, capacity)
  {
    PlacedAndFreed(sockets, driver, ethType, f, capacity);
    NoLaterFull(sockets, driver, ethType, capacity);
  }

  lemma RestOfOne(sockets: seq<Socket>, i: nat, driver: nat, ethType: nat)
    requires i < |sockets| && Takes(sockets[i], driver, ethType) && AtMostOne(sockets, driver, ethType)
    ensures i == 0 ==> !Taken(sockets[1..], driver, ethType)
    ensures i > 0 ==> !Takes(sockets[0], driver, ethType) && sockets[1..][i - 1] == sockets[i]
    ensures AtMostOne(sockets[1..], driver, ethType)
  {
    var rest := sockets[1..];
    assert forall j | 0 <= j < |rest| :: rest[j] == sockets[j + 1];
  }

  /** With a single taker, only its entry of the table can change. */
  lemma {:induction false} FilteredAt(sockets: seq<Socket>, i: nat, driver: nat, ethType: nat, f: Frame, capacity: nat)
    requires i < |sockets| && Takes(sockets[i], driver, ethType) && AtMostOne(sockets, driver, ethType)
    ensures Filtered(sockets, driver, ethType, f, capacity)
         == if |sockets[i].queue| < capacity then sockets[i := Enqueued(sockets[i], f)] else sockets
    ensures Frees(sockets, driver, ethType, capacity) == if |sockets[i].queue| < capacity then 0 else 1
  {
    hide Filtered, Frees, Takes, Enqueued, Taken, AtMostOne;
    var rest := sockets[1..];
    FilterStep(sockets, driver, ethType, f, capacity);
    RestOfOne(sockets, i, driver, ethType);
    if i == 0 {
      NotTaken(rest, driver, ethType, Frame(f.buff, []), capacity);
      assert sockets == [sockets[0]] + rest;
    } else {
      FilteredAt(rest, i - 1, driver, ethType, f, capacity);
      assert sockets == [sockets[0]] + rest;
      assert sockets[i := Enqueued(sockets[i], f)] == [sockets[0]] + rest[i - 1 := Enqueued(sockets[i], f)];
    }
  }

  /** The socket `i` is the first one to take such a frame. */
  predicate First(sockets: seq<Socket>, i: nat, driver: nat, ethType: nat) {
    && i < |sockets| && Takes(sockets[i], driver, ethType)
    && forall j | 0 <= j < i :: !Takes(sockets[j], driver, ethType)
  }

  /** Where the frame goes: to the back of the queue of every taker with room, and with its bytes
      only for the first taker. Nothing but queues changes. */
  lemma {:induction false} FilteredQueue(sockets: seq<Socket>, driver: nat, ethType: nat, f: Frame, capacity: nat,
                                         i: nat)
    requires i < |sockets|
    ensures var was, now := sockets[i], Filtered(sockets, driver, ethType, f, capacity)[i];
            && now == was.(queue := now.queue)
            && now.queue == if !Takes(was, driver, ethType) || |was.queue| >= capacity then was.queue
                            else if First(sockets, i, driver, ethType) then was.queue + [f]
                            else was.queue + [Frame(f.buff, [])]
  {
    if i > 0 {
      var f' := if Takes(sockets[0], driver, ethType) then Frame(f.buff, []) else f;
      FilteredQueue(sockets[1..], driver, ethType, f', capacity, i - 1);
      FirstRest(sockets, i, driver, ethType);
    }
  }

  lemma FirstRest(sockets: seq<Socket>, i: nat, driver: nat, ethType: nat)
    requires 0 < i < |sockets|
    ensures First(sockets, i, driver, ethType)
            <==> !Takes(sockets[0], driver, ethType) && First(sockets[1..], i - 1, driver, ethType)
  {
    var rest := sockets[1..];
    assert forall j | 0 <= j < |rest| :: rest[j] == sockets[j + 1];
    assert forall j | 1 <= j < |sockets| :: sockets[j] == rest[j - 1];
  }

  lemma {:induction false} QueuesOk(sockets: seq<Socket>, driver: nat, ethType: nat, f: Frame, capacity: nat)
    requires forall i | 0 <= i < |sockets| ::
               |sockets[i].queue| <= capacity && (sockets[i].state == Ready ==> sockets[i].queue == [])
    ensures var now := Filtered(sockets, driver, ethType, f, capacity);
            forall i | 0 <= i < |now| ::
              |now[i].queue| <= capacity && (now[i].state == Ready ==> now[i].queue == [])
  {
    if sockets != [] {
      var now := Filtered(sockets, driver, ethType, f, capacity);
      var f' := if Takes(sockets[0], driver, ethType) then Frame(f.buff, []) else f;
      QueuesOk(sockets[1..], driver, ethType, f', capacity);
      forall i | 0 <= i < |now|
        ensures |now[i].queue| <= capacity && (now[i].state == Ready ==> now[i].queue == [])
      {
        if i > 0 {
          assert now[i] == Filtered(sockets[1..], driver, ethType, f', capacity)[i - 1];
        }
      }
    }
  }

  class Tap {
    const heap: Heap
    const capacity: nat            // CONFIG_ESP_NETIF_L2_TAP_RX_QUEUE_SIZE
    const sockets: array<Socket>   // s_l2tap_sockets

    /** Every buffer in a receive queue is allocated and in no other queue. */
    ghost predicate Valid()
      reads this, heap, sockets
    {
      && heap.Valid() && capacity > 0
      && (forall i | 0 <= i < sockets.Length :: |sockets[i].queue| <= capacity)
      && (forall i | 0 <= i < sockets.Length && sockets[i].state == Ready :: sockets[i].queue == [])
      && forall b :: Held(sockets[..], b) <= heap.Has(b)
    }

    constructor (heap: Heap, capacity: nat, sockets: array<Socket>)
      requires heap.Valid() && capacity > 0 && forall i | 0 <= i < sockets.Length :: sockets[i] == CLOSED
      ensures Valid() && Unique(sockets[..]) && forall b :: Held(sockets[..], b) == 0
      ensures this.heap == heap && this.sockets == sockets && this.capacity == capacity
    {
      this.heap, this.capacity, this.sockets := heap, capacity, sockets;
      new;
      forall b ensures Held(sockets[..], b) == 0 { AllEmpty(sockets[..], b); }
    }

    // ---- receiving ----------------------------------------------------------------------------

    /** esp_vfs_l2tap_eth_filter, for any table. `frees` counts how often the buffer was given to the
        free function. The buffer of a nonempty frame that is taken is held or freed exactly once if
        and only if every taker after the first has room; an empty one is held by nobody and stays
        allocated if and only if every taker has room. */
    method EthFilter(driver: nat, ethType: nat, buff: nat, bytes: seq<byte>) returns (size: nat, ghost frees: nat)
      requires Valid() && buff in heap.live && Held(sockets[..], buff) == 0
      modifies sockets, heap`live, heap`words
      ensures sockets[..] == Filtered(old(sockets[..]), driver, ethType, Frame(buff, bytes), capacity)
      ensures frees == Frees(old(sockets[..]), driver, ethType, capacity)
      ensures heap.live == old(heap.live) - if frees > 0 then {buff} else {}
      ensures size == if Taken(old(sockets[..]), driver, ethType) then 0 else |bytes|
      ensures forall i | 0 <= i < sockets.Length ::
                var was := old(sockets[i]);
                && sockets[i] == was.(queue := sockets[i].queue)
                && sockets[i].queue == if !Takes(was, driver, ethType) || |was.queue| >= capacity then was.queue
                                       else if forall j | 0 <= j < i :: !Takes(old(sockets[j]), driver, ethType) then
                                         was.queue + [Frame(buff, bytes)]
                                       else was.queue + [Frame(buff, [])]
      ensures bytes != [] && Taken(old(sockets[..]), driver, ethType) ==>
                (Held(sockets[..], buff) + frees == 1 <==> LaterRoom(old(sockets[..]), driver, ethType, capacity))
      ensures bytes == [] ==>
                && Held(sockets[..], buff) == 0
                && (buff in heap.live <==> AllRoom(old(sockets[..]), driver, ethType, capacity))
      ensures Valid() <==> !(Held(sockets[..], buff) > 0 && frees > 0)
      ensures LaterRoom(old(sockets[..]), driver, ethType, capacity) ==> Valid()
      ensures forall b | b != buff ::
                Held(sockets[..], b) == old(Held(sockets[..], b)) && heap.Has(b) == old(heap.Has(b))
    {
      hide Filtered, Frees, Taken, Takes, First, Held, HeldIn, LaterRoom, AllRoom;
      ghost var was := sockets[..];
      size, frees := PassAll(driver, ethType, buff, bytes, was);
      FilterOwned(was, driver, ethType, Frame(buff, bytes), frees, old(heap.live));
      FilteredQueues(was, driver, ethType, Frame(buff, bytes));
    }

    lemma FilteredQueues(was: seq<Socket>, driver: nat, ethType: nat, f: Frame)
      requires sockets[..] == Filtered(was, driver, ethType, f, capacity)
      ensures forall i | 0 <= i < sockets.Length ::
                && sockets[i] == was[i].(queue := sockets[i].queue)
                && sockets[i].queue ==
                     if !Takes(was[i], driver, ethType) || |was[i].queue| >= capacity then was[i].queue
                     else if forall j | 0 <= j < i :: !Takes(was[j], driver, ethType) then was[i].queue + [f]
                     else was[i].queue + [Frame(f.buff, [])]
    {
      hide Filtered, Takes;
      forall i | 0 <= i < sockets.Length
        ensures sockets[i] == was[i].(queue := sockets[i].queue)
        ensures sockets[i].queue == if !Takes(was[i], driver, ethType) || |was[i].queue| >= capacity then was[i].queue
                                    else if forall j | 0 <= j < i :: !Takes(was[j], driver, ethType) then
                                      was[i].queue + [f]
                                    else was[i].queue + [Frame(f.buff, [])]
      {
        FilteredQueue(was, driver, ethType, f, capacity, i);
        assert sockets[..][i] == sockets[i];
      }
    }

    /** The loop over the socket table. */
    method PassAll(driver: nat, ethType: nat, buff: nat, bytes: seq<byte>, ghost was: seq<Socket>)
      returns (size: nat, ghost frees: nat)
      requires heap.Valid() && was == sockets[..]
      modifies sockets, heap`live, heap`words
      ensures heap.Valid() && sockets[..] == Filtered(was, driver, ethType, Frame(buff, bytes), capacity)
      ensures frees == Frees(was, driver, ethType, capacity)
      ensures heap.live == old(heap.live) - if frees > 0 then {buff} else {}
      ensures size == if Taken(was, driver, ethType) then 0 else |bytes|
    {
      hide Filtered, Frees, Taken, Takes;
      size, frees := |bytes|, 0;
      ghost var done: seq<Socket>, rest, f := [], was, Frame(buff, bytes);
      ghost var taken := false;
      for i := 0 to sockets.Length
        invariant heap.Valid() && |done| == i && rest == was[i..] && sockets[..] == done + rest
        invariant Filtered(was, driver, ethType, Frame(buff, bytes), capacity)
               == done + Filtered(rest, driver, ethType, f, capacity)
        invariant Frees(was, driver, ethType, capacity) == frees + Frees(rest, driver, ethType, capacity)
        invariant Taken(was, driver, ethType) == (taken || Taken(rest, driver, ethType))
        invariant size == (if taken then 0 else |bytes|) && f == Frame(buff, bytes[..size])
        invariant heap.live == old(heap.live) - if frees > 0 then {buff} else {}
      {
        FilterStep(rest, driver, ethType, f, capacity);
        var takes; ghost var freed, next;
        takes, freed, next := Pass(i, driver, ethType, Frame(buff, bytes[..size]), done, rest);
        if takes {
          size := 0;
          taken, f := true, Frame(buff, []);
        }
        frees := frees + freed;
        Associate(done, [next], Filtered(rest[1..], driver, ethType, f, capacity));
        done, rest := done + [next], rest[1..];
      }
      FilterDone(driver, ethType, f, capacity);
    }

    /** One turn of the loop: the socket `i` is offered the frame. */
    method Pass(i: nat, driver: nat, ethType: nat, f: Frame, ghost done: seq<Socket>, ghost rest: seq<Socket>)
      returns (takes: bool, ghost freed: nat, ghost next: Socket)
      requires heap.Valid() && i < sockets.Length && |done| == i && sockets[..] == done + rest
      modifies sockets, heap`live, heap`words
      ensures heap.Valid() && rest != [] && takes == Takes(rest[0], driver, ethType)
      ensures next == if takes && |rest[0].queue| < capacity then Enqueued(rest[0], f) else rest[0]
      ensures freed == if takes && |rest[0].queue| >= capacity then 1 else 0
      ensures sockets[..] == done + [next] + rest[1..]
      ensures heap.live == old(heap.live) - if freed > 0 then {f.buff} else {}
    {
      assert sockets[..][i] == rest[0];
      next, freed := sockets[i], 0;
      takes := Matches(i, driver, ethType);
      if takes {
        if |sockets[i].queue| < capacity {
          sockets[i] := Enqueued(sockets[i], f);
          next := sockets[i];
        } else {
          heap.FreeUnchecked(f.buff);
          freed := 1;
        }
      }
      assert sockets[..] == done + [next] + rest[1..];
    }

    /** The test whether the socket `i` takes the frame. */
    method Matches(i: nat, driver: nat, ethType: nat) returns (takes: bool)
      requires i < sockets.Length
      ensures takes == Takes(sockets[i], driver, ethType)
      ensures takes <==>
                && sockets[i].state == Opened && sockets[i].driver == driver
                && (ethType == sockets[i].filter || (ethType <= 1500 && sockets[i].filter <= 1500))
    {
      takes := false;
      if sockets[i].state == Opened {
        if sockets[i].driver == driver
           && (sockets[i].filter == ethType
               || (sockets[i].filter <= ETH_IEEE802_3_MAX_LEN && ethType <= ETH_IEEE802_3_MAX_LEN)) {
          takes := true;
        }
      }
    }

    /** What the pass means for the ownership of the buffer. */
    lemma FilterOwned(was: seq<Socket>, driver: nat, ethType: nat, f: Frame, frees: nat, live: set<nat>)
      requires |was| == sockets.Length && heap.Valid() && capacity > 0
      requires forall i | 0 <= i < |was| :: |was[i].queue| <= capacity && (was[i].state == Ready ==> was[i].queue == [])
      requires forall b :: Held(was, b) <= if b in live then 1 else 0
      requires f.buff in live && Held(was, f.buff) == 0
      requires sockets[..] == Filtered(was, driver, ethType, f, capacity)
      requires frees == Frees(was, driver, ethType, capacity)
      requires heap.live == live - if frees > 0 then {f.buff} else {}
      ensures f.bytes != [] && Taken(was, driver, ethType) ==>
                (Held(sockets[..], f.buff) + frees == 1 <==> LaterRoom(was, driver, ethType, capacity))
      ensures f.bytes == [] ==>
                Held(sockets[..], f.buff) == 0 && (f.buff in heap.live <==> AllRoom(was, driver, ethType, capacity))
      ensures Valid() <==> !(Held(sockets[..], f.buff) > 0 && frees > 0)
      ensures LaterRoom(was, driver, ethType, capacity) ==> Valid()
      ensures forall b | b != f.buff :: Held(sockets[..], b) == Held(was, b)
    {
      hide Held, Filtered, Frees, Taken, LaterRoom, AllRoom;
      forall b | b != f.buff { OthersHeld(was, driver, ethType, f, capacity, b); }
      NoFrees(was, driver, ethType, capacity);
      QueuesOk(was, driver, ethType, f, capacity);
      if f.bytes == [] {
        EmptyHeld(was, driver, ethType, f.buff, capacity, f.buff);
      } else if Taken(was, driver, ethType) {
        OwnedOnce(was, driver, ethType, f, capacity);
        PlacedAndFreed(was, driver, ethType, f, capacity);
      } else {
        NotTaken(was, driver, ethType, f, capacity);
      }
      forall b | b != f.buff ensures Held(sockets[..], b) <= heap.Has(b) {
        assert Held(was, b) <= if b in live then 1 else 0;
      }
      assert Held(sockets[..], f.buff) <= heap.Has(f.buff) <==> !(Held(sockets[..], f.buff) > 0 && frees > 0);
    }

    lemma DeliveredHeld(was: seq<Socket>, i: nat, f: Frame, b: nat)
      requires i < |was|
      ensures Held(was[i := Enqueued(was[i], f)], b) == Held(was, b) + if f.buff == b && f.bytes != [] then 1 else 0
    {
      HeldInAdd(was[i].queue, f, b);
      HeldSet(was, i, Enqueued(was[i], f), b);
    }

    // ---- reading --------------------------------------------------------------------------------

    /** l2tap_read. The buffer of a frame that was read is freed. `waits` is true when the call does
        not return yet, because the queue is empty and the socket blocks. */
    method Read(fd: nat, data: array<byte>, size: nat) returns (n: int, errno: Errno, waits: bool)
      requires Valid() && fd < sockets.Length && size <= data.Length
      modifies sockets, data, heap`live, heap`words
      ensures Valid() && Unique(sockets[..]) == old(Unique(sockets[..]))
      ensures var s := old(sockets[fd]);
              waits == (s.state == Opened && size > 0 && s.queue == [] && !s.nonBlocking)
      ensures var q := old(sockets[fd].queue);
              if old(sockets[fd].state) != Opened then n == -1 && errno == BadFd && sockets[..] == old(sockets[..])
              else if size == 0 then n == 0 && errno == NoErr && sockets[..] == old(sockets[..])
              else if q == [] then n == -1 && errno == Again && sockets[..] == old(sockets[..])
              else if q[0].bytes == [] then
                && n == -1 && errno == Again && heap.live == old(heap.live)
                && sockets[..] == old(sockets[..])[fd := old(sockets[fd]).(queue := q[1..] + [Frame(0, [])])]
              else
                && n == (if size < |q[0].bytes| then size else |q[0].bytes|) && errno == NoErr
                && data[..n] == q[0].bytes[..n]
                && sockets[..] == old(sockets[..])[fd := old(sockets[fd]).(queue := q[1..])]
                && heap.live == old(heap.live) - {q[0].buff}
      ensures forall b :: heap.Has(b) + old(Held(sockets[..], b)) == old(heap.Has(b)) + Held(sockets[..], b)
    {
      waits := false;
      if sockets[fd].state != Opened {
        return -1, BadFd, false;
      }
      if size == 0 {
        return 0, NoErr, false;
      }
      n, waits := PopRxQueue(fd, data, size);
      errno := if n < 0 then Again else NoErr;
    }

    /** pop_rx_queue: an entry without bytes is put back for the task that waits to close. `waits`
        is true when the receive blocks on an empty queue. */
    method PopRxQueue(fd: nat, data: array<byte>, size: nat) returns (n: int, waits: bool)
      requires Valid() && fd < sockets.Length && sockets[fd].state != Ready && size <= data.Length
      modifies sockets, data, heap`live, heap`words
      ensures Valid() && Unique(sockets[..]) == old(Unique(sockets[..]))
      ensures sockets[fd] == old(sockets[fd]).(queue := sockets[fd].queue)
      ensures forall i | 0 <= i < sockets.Length && i != fd :: sockets[i] == old(sockets[i])
      ensures waits == (old(sockets[fd].queue) == [] && !old(sockets[fd].nonBlocking))
      ensures var q := old(sockets[fd].queue);
              if q == [] then n == -1 && sockets[..] == old(sockets[..]) && heap.live == old(heap.live)
              else if q[0].bytes == [] then
                n == -1 && sockets[fd].queue == q[1..] + [Frame(0, [])] && heap.live == old(heap.live)
              else
                && n == (if size < |q[0].bytes| then size else |q[0].bytes|)
                && data[..n] == q[0].bytes[..n]
                && sockets[fd].queue == q[1..] && heap.live == old(heap.live) - {q[0].buff}
      ensures forall b :: heap.Has(b) + old(Held(sockets[..], b)) == old(heap.Has(b)) + Held(sockets[..], b)
    {
      var s := sockets[fd];
      waits := false;
      if s.queue == [] {
        return -1, !s.nonBlocking;
      }
      var f := s.queue[0];
      if f.bytes == [] {
        RequeueMark(fd, sockets[..]);
        return -1, false;
      }
      n := if size < |f.bytes| then size else |f.bytes|;
      FreeFirst(fd, sockets[..]);
      CopyOut(f.bytes, data, n);
    }

    method CopyOut(bytes: seq<byte>, data: array<byte>, n: nat)
      requires Valid() && n <= data.Length && n <= |bytes|
      modifies data
      ensures Valid() && data[..n] == bytes[..n]
    {
      forall k | 0 <= k < n {
        data[k] := bytes[k];
      }
    }

    /** The first frame of a queue leaves it and its buffer is freed. */
    method FreeFirst(fd: nat, ghost was: seq<Socket>)
      requires Valid() && fd < sockets.Length && was == sockets[..]
      requires sockets[fd].queue != [] && sockets[fd].queue[0].bytes != [] && sockets[fd].state != Ready
      modifies sockets, heap`live, heap`words
      ensures Valid() && Unique(sockets[..]) == Unique(was)
      ensures sockets[..] == was[fd := was[fd].(queue := was[fd].queue[1..])]
      ensures heap.live == old(heap.live) - {was[fd].queue[0].buff}
      ensures forall b :: heap.Has(b) + Held(was, b) == old(heap.Has(b)) + Held(sockets[..], b)
    {
      hide Held, HeldIn, Unique;
      var s := sockets[fd];
      forall b { PoppedHeld(was, fd, b); }
      var buff := s.queue[0].buff;
      assert was[fd] == s && heap.Has(buff) <= 1;
      assert forall b :: Held(was, b) <= heap.Has(b);
      assert Held(was, buff) >= 1;
      heap.Free(buff);
      sockets[fd] := s.(queue := s.queue[1..]);
      assert sockets[..] == was[fd := s.(queue := s.queue[1..])];
      forall b ensures Held(sockets[..], b) <= heap.Has(b) {
        assert Held(was, b) <= old(heap.Has(b));
      }
      SameTable(was, sockets[..], fd);
    }

    method RequeueMark(fd: nat, ghost was: seq<Socket>)
      requires Valid() && fd < sockets.Length && was == sockets[..]
      requires sockets[fd].queue != [] && sockets[fd].queue[0].bytes == [] && sockets[fd].state != Ready
      modifies sockets
      ensures Valid() && Unique(sockets[..]) == Unique(was)
      ensures sockets[..] == was[fd := was[fd].(queue := was[fd].queue[1..] + [Frame(0, [])])]
      ensures forall b :: Held(sockets[..], b) == Held(was, b)
    {
      hide Held, HeldIn, Unique;
      var s := sockets[fd];
      forall b { MarkerHeld(was, fd, b); }
      sockets[fd] := s.(queue := s.queue[1..] + [Frame(0, [])]);
      assert sockets[..] == was[fd := s.(queue := s.queue[1..] + [Frame(0, [])])];
      SameTable(was, sockets[..], fd);
    }

    // ---- opening and closing ------------------------------------------------------------------

    /** l2tap_open: the first ready socket is taken; `made` is false when its queue could not be
        created. */
    method Open(made: bool, nonBlocking: bool) returns (fd: int)
      requires Valid()
      modifies sockets
      ensures Valid() && (old(Unique(sockets[..])) ==> Unique(sockets[..]))
      ensures -1 <= fd < sockets.Length
      ensures fd == -1 ==> sockets[..] == old(sockets[..])
      ensures fd == -1 <==> !made || forall i | 0 <= i < sockets.Length :: old(sockets[i].state) != Ready
      ensures fd != -1 ==>
                && old(sockets[fd].state) == Ready && (forall i | 0 <= i < fd :: old(sockets[i].state) != Ready)
                && sockets[..] == old(sockets[..])[fd := Socket(Opened, nonBlocking, NO_DRIVER, 0, [])]
      ensures forall b :: Held(sockets[..], b) == old(Held(sockets[..], b))
    {
      hide Held, HeldIn;
      ghost var was := sockets[..];
      for i := 0 to sockets.Length
        invariant sockets[..] == was
        invariant forall j | 0 <= j < i :: was[j].state != Ready
      {
        if sockets[i].state == Ready {
          if !made {
            return -1;
          }
          forall b { OpenedHeld(was, i, nonBlocking, b); }
          sockets[i] := Socket(Opened, nonBlocking, NO_DRIVER, 0, []);
          assert sockets[..] == was[i := Socket(Opened, nonBlocking, NO_DRIVER, 0, [])];
          return i;
        }
      }
      fd := -1;
    }

    lemma OpenedHeld(was: seq<Socket>, i: nat, nonBlocking: bool, b: nat)
      requires i < |was| && was[i].queue == []
      ensures Held(was[i := Socket(Opened, nonBlocking, NO_DRIVER, 0, [])], b) == Held(was, b)
    {
      HeldSet(was, i, Socket(Opened, nonBlocking, NO_DRIVER, 0, []), b);
    }

    /** Changes of a socket other than its queue. */
    method Change(fd: nat, s: Socket, ghost was: seq<Socket>)
      requires Valid() && fd < sockets.Length && was == sockets[..]
      requires s.queue == sockets[fd].queue && (s.state == Ready ==> s.queue == [])
      modifies sockets
      ensures Valid() && sockets[..] == was[fd := s]
      ensures forall b :: Held(sockets[..], b) == Held(was, b)
    {
      hide Held, HeldIn;
      forall b ensures Held(was[fd := s], b) == Held(was, b) { HeldSet(was, fd, s, b); }
      sockets[fd] := s;
      assert sockets[..] == was[fd := s];
    }

    /** l2tap_clean_task: the queue ends empty and every buffer in it is freed once. */
    method CleanTask(fd: nat, ghost was: seq<Socket>)
      requires Valid() && fd < sockets.Length && sockets[fd].state == Closing && was == sockets[..]
      modifies sockets, heap`live, heap`words
      ensures Valid() && sockets[..] == was[fd := was[fd].(queue := [])] && heap.live <= old(heap.live)
      ensures forall b :: heap.Has(b) + Held(was, b) == old(heap.Has(b)) + Held(sockets[..], b)
    {
      hide Held, HeldIn, Unique;
      PushMark(fd, sockets[..]);
      var none := new byte[0];
      var _, waits := PopRxQueue(fd, none, 0);
      assert !waits;
      while sockets[fd].queue != []
        invariant Valid() && heap.live <= old(heap.live) && |sockets[..]| == |was|
        invariant sockets[fd] == was[fd].(queue := sockets[fd].queue)
        invariant forall i | 0 <= i < sockets.Length && i != fd :: sockets[i] == was[i]
        invariant forall b :: heap.Has(b) + Held(was, b) == old(heap.Has(b)) + Held(sockets[..], b)
        decreases |sockets[fd].queue|
      {
        if sockets[fd].queue[0].bytes != [] {
          FreeFirst(fd, sockets[..]);
        } else {
          DropMark(fd, sockets[..]);
        }
      }
      assert sockets[..] == was[fd := was[fd].(queue := [])];
    }

    method PushMark(fd: nat, ghost was: seq<Socket>)
      requires Valid() && fd < sockets.Length && was == sockets[..] && sockets[fd].state != Ready
      modifies sockets
      ensures Valid() && sockets[fd] == was[fd].(queue := sockets[fd].queue) && sockets[fd].queue != []
      ensures forall i | 0 <= i < sockets.Length && i != fd :: sockets[i] == was[i]
      ensures forall b :: Held(sockets[..], b) == Held(was, b)
    {
      hide Held, HeldIn;
      var s := sockets[fd];
      if |s.queue| < capacity {
        forall b { DeliveredHeld(was, fd, Frame(0, []), b); }
        sockets[fd] := Enqueued(s, Frame(0, []));
        assert sockets[..] == was[fd := Enqueued(s, Frame(0, []))];
      }
    }

    method DropMark(fd: nat, ghost was: seq<Socket>)
      requires Valid() && fd < sockets.Length && was == sockets[..]
      requires sockets[fd].queue != [] && sockets[fd].queue[0].bytes == []
      modifies sockets
      ensures Valid() && sockets[..] == was[fd := was[fd].(queue := was[fd].queue[1..])]
      ensures forall b :: Held(sockets[..], b) == Held(was, b)
    {
      hide Held, HeldIn;
      forall b { PoppedHeld(was, fd, b); }
      sockets[fd] := sockets[fd].(queue := sockets[fd].queue[1..]);
      assert sockets[..] == was[fd := was[fd].(queue := was[fd].queue[1..])];
    }

    /** l2tap_close. When the semaphore or the task cannot be made the socket stays closing, and
        its queue keeps its buffers. */
    method Close(fd: nat, semaphore: bool, task: bool) returns (result: int)
      requires Valid() && fd < sockets.Length
      modifies sockets, heap`live, heap`words
      ensures Valid() && (old(Unique(sockets[..])) ==> Unique(sockets[..]))
      ensures result == if old(sockets[fd].state) == Opened && semaphore && task then 0 else -1
      ensures heap.live <= old(heap.live)
      ensures result == 0 ==> sockets[..] == old(sockets[..])[fd := old(sockets[fd]).(state := Ready, queue := [])]
      ensures result == -1 ==>
                && heap.live == old(heap.live)
                && sockets[..] == if old(sockets[fd].state) != Opened then old(sockets[..])
                                  else old(sockets[..])[fd := old(sockets[fd]).(state := Closing)]
      ensures forall b :: heap.Has(b) + old(Held(sockets[..], b)) == old(heap.Has(b)) + Held(sockets[..], b)
    {
      hide Held, HeldIn, Unique;
      ghost var was := sockets[..];
      if sockets[fd].state != Opened {
        return -1;
      }
      ClosedUnique(was, fd, was[fd].(state := Closing));
      ClosedUnique(was, fd, was[fd].(state := Ready, queue := []));
      Change(fd, sockets[fd].(state := Closing), was);
      if !semaphore {
        return -1;
      }
      if !task {
        return -1;
      }
      CleanTask(fd, sockets[..]);
      Change(fd, sockets[fd].(state := Ready), sockets[..]);
      assert sockets[..] == was[fd := was[fd].(state := Ready, queue := [])];
      result := 0;
    }

    // ---- binding and filtering ------------------------------------------------------------------

    /** The L2TAP_S_RCV_FILTER request. */
    method SetFilter(fd: nat, filter: nat) returns (errno: Errno)
      requires Valid() && fd < sockets.Length
      modifies sockets
      ensures Valid() && (old(Unique(sockets[..])) ==> Unique(sockets[..]))
      ensures errno == if old(sockets[fd].driver) == NO_DRIVER then Access
                       else if old(sockets[fd].filter) != filter
                               && old(Used(sockets[..], sockets[fd].driver, filter)) then Invalid
                       else NoErr
      ensures sockets[..] == if errno == NoErr then old(sockets[..])[fd := old(sockets[fd]).(filter := filter)]
                             else old(sockets[..])
      ensures forall b :: Held(sockets[..], b) == old(Held(sockets[..], b))
    {
      hide Held, HeldIn;
      ghost var was := sockets[..];
      if sockets[fd].driver == NO_DRIVER {
        return Access;
      }
      if sockets[fd].filter != filter {
        for i := 0 to sockets.Length
          invariant sockets[..] == was
          invariant forall j | 0 <= j < i ::
                      !(was[j].state == Opened && was[j].driver == was[fd].driver && was[j].filter == filter)
        {
          if sockets[i].state == Opened && sockets[i].driver == sockets[fd].driver && sockets[i].filter == filter {
            return Invalid;
          }
        }
        Change(fd, sockets[fd].(filter := filter), was);
      } else {
        assert was == was[fd := was[fd].(filter := filter)];
      }
      errno := NoErr;
    }

    /** The L2TAP_S_INTF_DEVICE request (`found` tells whether there is such an interface) and,
        for a driver that is not null, L2TAP_S_DEVICE_DRV_HNDL. Rebinding keeps drivers and
        filters unique exactly when no other open socket of the new driver has the filter. */
    method Rebind(fd: nat, found: bool, driver: nat) returns (errno: Errno)
      requires Valid() && fd < sockets.Length
      modifies sockets
      ensures Valid() && errno == if found then NoErr else NoDevice
      ensures sockets[..] == if found then old(sockets[..])[fd := old(sockets[fd]).(driver := driver)]
                             else old(sockets[..])
      ensures old(Unique(sockets[..])) && found && old(sockets[fd].state) == Opened ==>
                (Unique(sockets[..]) <==>
                   || old(sockets[fd].filter) == 0
                   || old(sockets[fd].driver) == driver
                   || !old(Used(sockets[..], driver, sockets[fd].filter)))
      ensures forall b :: Held(sockets[..], b) == old(Held(sockets[..], b))
    {
      hide Held, HeldIn;
      if !found {
        return NoDevice;
      }
      ghost var was := sockets[..];
      Change(fd, sockets[fd].(driver := driver), was);
      RebindUnique(was, fd, driver);
      errno := NoErr;
    }

    /** Any run of arrivals and reads at an open socket. The bytes that the reads returned are those
        that waited in its queue at first and then those that it received, in the order of arrival
        and cut to the reader's buffer; the rest still waits, in the same order. The run ends early
        before a frame that would be freed at a later taker. */
    method Serve(fd: nat, turns: seq<Turn>, data: array<byte>) returns (got: seq<seq<byte>>, served: nat)
      requires Valid() && fd < sockets.Length && sockets[fd].state == Opened && data.Length > 0
      requires forall k | 0 <= k < |turns| && turns[k].Arrives? ::
                 turns[k].buff in heap.live && Held(sockets[..], turns[k].buff) == 0
      requires forall j, k | 0 <= j < k < |turns| && turns[j].Arrives? && turns[k].Arrives? ::
                 turns[j].buff != turns[k].buff
      modifies sockets, data, heap`live, heap`words
      ensures Valid() && served <= |turns|
      ensures served < |turns| ==>
                && turns[served].Arrives?
                && !LaterRoom(sockets[..], turns[served].driver, turns[served].ethType, capacity)
      ensures var q, table := old(Entries(sockets[fd].queue)), old(sockets[..]);
              var all := Data(q) + Received(q, table, fd, turns[..served], capacity);
              && |got| <= |all|
              && (forall k | 0 <= k < |got| ::
                    got[k] == if |all[k]| <= data.Length then all[k] else all[k][..data.Length])
              && Data(Entries(sockets[fd].queue)) == all[|got|..]
              && Entries(sockets[fd].queue) == Queued(q, table, fd, turns[..served], capacity)
    {
      hide Valid, Held, HeldIn, First, Takes, LaterRoom, Unique, Data, Stepped, SameButQueues, Entries, Queued, ReadOff,
        Received, In;
      ghost var q, table := Entries(sockets[fd].queue), sockets[..];
      ghost var out: seq<seq<byte>> := [];
      got, served := [], 0;
      RunNone(q, table, fd, capacity);
      SameToStart(table);
      while served < |turns|
        invariant Valid() && served <= |turns| && SameButQueues(table, sockets[..]) && sockets[fd].state == Opened
        invariant forall k | served <= k < |turns| && turns[k].Arrives? ::
                    turns[k].buff in heap.live && Held(sockets[..], turns[k].buff) == 0
        invariant Entries(sockets[fd].queue) == Queued(q, table, fd, turns[..served], capacity)
        invariant out == ReadOff(q, table, fd, turns[..served], capacity) && |got| == |out|
        invariant forall k | 0 <= k < |got| ::
                    got[k] == if |out[k]| <= data.Length then out[k] else out[k][..data.Length]
      {
        var t := turns[served];
        if t.Arrives? && !LaterRoom(sockets[..], t.driver, t.ethType, capacity) {
          break;
        }
        RunSnoc(q, table, fd, turns, served, capacity);
        var more := TakeTurn(fd, t, data, table);
        out := ReadOff(q, table, fd, turns[..served + 1], capacity);
        got := got + more;
        served := served + 1;
      }
      FirstInFirstOut(q, table, fd, turns[..served], capacity);
    }

    lemma SameToStart(table: seq<Socket>)
      ensures SameButQueues(table, table)
    {
    }

    /** One turn of such a run. */
    method TakeTurn(fd: nat, t: Turn, data: array<byte>, ghost table: seq<Socket>) returns (got: seq<seq<byte>>)
      requires Valid() && fd < sockets.Length && sockets[fd].state == Opened && data.Length > 0
      requires SameButQueues(table, sockets[..])
      requires t.Arrives? ==>
                 && t.buff in heap.live && Held(sockets[..], t.buff) == 0
                 && LaterRoom(sockets[..], t.driver, t.ethType, capacity)
      modifies sockets, data, heap`live, heap`words
      ensures Valid() && SameButQueues(table, sockets[..]) && sockets[fd].state == Opened
      ensures Entries(sockets[fd].queue) == Stepped(old(Entries(sockets[fd].queue)), table, fd, t, capacity)
      ensures var p := old(sockets[fd].queue);
              if t.Arrives? || p == [] || p[0].bytes == [] then got == []
              else |got| == 1 && got[0] == if |p[0].bytes| <= data.Length then p[0].bytes
                                           else p[0].bytes[..data.Length]
      ensures forall b | b in old(heap.live) && old(Held(sockets[..], b)) == 0 && !(t.Arrives? && b == t.buff) ::
                b in heap.live && Held(sockets[..], b) == 0
    {
      hide Held, HeldIn, Valid, LaterRoom, Filtered, Frees, Taken, AllRoom, Takes, Unique, Entries;
      ghost var was := sockets[..];
      got := [];
      match t {
        case Arrives(driver, ethType, buff, bytes) =>
          SameTakers(table, was, fd, driver, ethType);
          ghost var frees;
          var size;
          size, frees := EthFilter(driver, ethType, buff, bytes);
          EntriesStep(was[fd].queue, Frame(buff, if First(was, fd, driver, ethType) then bytes else []));
        case Reads =>
          var n, errno, waits := Read(fd, data, data.Length);
          if was[fd].queue != [] {
            EntriesStep(was[fd].queue, Frame(0, []));
            EntriesStep(was[fd].queue[1..], Frame(0, []));
          }
          if errno == NoErr {
            got := [data[..n]];
          }
      }
    }

    /** A frame without bytes is lost exactly when every taker has room: nobody holds its buffer, and
        closing a socket that took it does not free it. */
    method EmptyFrameIsLost(fd: nat, driver: nat, ethType: nat, buff: nat)
      requires Valid() && buff in heap.live && Held(sockets[..], buff) == 0
      requires fd < sockets.Length && Takes(sockets[fd], driver, ethType)
      modifies sockets, heap`live, heap`words
      ensures Valid() && sockets[fd].state == Ready && Held(sockets[..], buff) == 0
      ensures buff in heap.live <==> AllRoom(old(sockets[..]), driver, ethType, capacity)
    {
      hide Held, HeldIn, Filtered, Frees, AllRoom, LaterRoom;
      ghost var was := sockets[..];
      FilteredQueue(was, driver, ethType, Frame(buff, []), capacity, fd);
      ghost var frees;
      var size;
      size, frees := EthFilter(driver, ethType, buff, []);
      ghost var has := heap.Has(buff);
      assert sockets[..][fd] == sockets[fd];
      var result := Close(fd, true, true);
      assert heap.Has(buff) + 0 == has + Held(sockets[..], buff);
      assert Held(sockets[..], buff) <= heap.Has(buff) <= 1;
    }
  }

  // ---- first in, first out ----------------------------------------------------------------------

  /** A turn at one socket: a frame comes by, in a buffer of the driver, or the socket is read. */
  datatype Turn = Arrives(driver: nat, ethType: nat, buff: nat, bytes: seq<byte>) | Reads

  function Entries(queue: seq<Frame>): (r: seq<seq<byte>>)
    ensures |r| == |queue| && forall i | 0 <= i < |r| :: r[i] == queue[i].bytes
  {
    seq(|queue|, i requires 0 <= i < |queue| => queue[i].bytes)
  }

  /** The entries that are no closing marks. */
  function Data(q: seq<seq<byte>>): seq<seq<byte>> {
    if q == [] then [] else Data(q[..|q| - 1]) + if q[|q| - 1] == [] then [] else [q[|q| - 1]]
  }

  /** The entries at the socket `fd` after one turn. */
  function Stepped(p: seq<seq<byte>>, table: seq<Socket>, fd: nat, t: Turn, capacity: nat): seq<seq<byte>>
    requires fd < |table|
  {
    match t
    case Arrives(driver, ethType, _, bytes) =>
      if !Takes(table[fd], driver, ethType) || |p| >= capacity then p
      else p + [if First(table, fd, driver, ethType) then bytes else []]
    case Reads => if p == [] then p else if p[0] == [] then p[1..] + [[]] else p[1..]
  }

  /** The entries at the socket `fd` after some turns. */
  function Queued(q: seq<seq<byte>>, table: seq<Socket>, fd: nat, turns: seq<Turn>, capacity: nat): seq<seq<byte>>
    requires fd < |table|
  {
    if turns == [] then q
    else Stepped(Queued(q, table, fd, turns[..|turns| - 1], capacity), table, fd, turns[|turns| - 1], capacity)
  }

  /** A frame with bytes is received by its first taker, when that has room. */
  function In(p: seq<seq<byte>>, table: seq<Socket>, fd: nat, t: Turn, capacity: nat): seq<seq<byte>> {
    if t.Arrives? && t.bytes != [] && First(table, fd, t.driver, t.ethType) && |p| < capacity then [t.bytes] else []
  }

  /** A read takes out the entry at the front, when that has bytes. */
  function Out(p: seq<seq<byte>>, t: Turn): seq<seq<byte>> {
    if t.Reads? && p != [] && p[0] != [] then [p[0]] else []
  }

  /** The frames that the socket receives in these turns. */
  function Received(q: seq<seq<byte>>, table: seq<Socket>, fd: nat, turns: seq<Turn>, capacity: nat): seq<seq<byte>>
    requires fd < |table|
  {
    if turns == [] then []
    else
      var before := turns[..|turns| - 1];
      Received(q, table, fd, before, capacity)
      + In(Queued(q, table, fd, before, capacity), table, fd, turns[|turns| - 1], capacity)
  }

  /** The frames that the reads take out. */
  function ReadOff(q: seq<seq<byte>>, table: seq<Socket>, fd: nat, turns: seq<Turn>, capacity: nat): seq<seq<byte>>
    requires fd < |table|
  {
    if turns == [] then []
    else
      var before := turns[..|turns| - 1];
      ReadOff(q, table, fd, before, capacity)
      + Out(Queued(q, table, fd, before, capacity), turns[|turns| - 1])
  }

  lemma RunSnoc(q: seq<seq<byte>>, table: seq<Socket>, fd: nat, turns: seq<Turn>, k: nat, capacity: nat)
    requires fd < |table| && k < |turns|
    ensures var p := Queued(q, table, fd, turns[..k], capacity);
            && Queued(q, table, fd, turns[..k + 1], capacity) == Stepped(p, table, fd, turns[k], capacity)
            && Received(q, table, fd, turns[..k + 1], capacity)
               == Received(q, table, fd, turns[..k], capacity) + In(p, table, fd, turns[k], capacity)
            && ReadOff(q, table, fd, turns[..k + 1], capacity)
               == ReadOff(q, table, fd, turns[..k], capacity) + Out(p, turns[k])
  {
    assert turns[..k + 1][..k] == turns[..k];
  }

  lemma RunNone(q: seq<seq<byte>>, table: seq<Socket>, fd: nat, capacity: nat)
    requires fd < |table|
    ensures Queued(q, table, fd, [], capacity) == q
    ensures Received(q, table, fd, [], capacity) == ReadOff(q, table, fd, [], capacity) == []
  {
  }

  /** The tables differ in nothing but queues. */
  predicate SameButQueues(table: seq<Socket>, now: seq<Socket>) {
    |now| == |table| && forall i | 0 <= i < |now| :: now[i] == table[i].(queue := now[i].queue)
  }

  lemma SameTakers(table: seq<Socket>, now: seq<Socket>, fd: nat, driver: nat, ethType: nat)
    requires SameButQueues(table, now)
    ensures fd < |table| ==> Takes(now[fd], driver, ethType) == Takes(table[fd], driver, ethType)
    ensures First(now, fd, driver, ethType) == First(table, fd, driver, ethType)
  {
    assert forall i | 0 <= i < |now| :: Takes(now[i], driver, ethType) == Takes(table[i], driver, ethType);
  }

  lemma EntriesStep(queue: seq<Frame>, f: Frame)
    ensures Entries(queue + [f]) == Entries(queue) + [f.bytes]
    ensures queue != [] ==> Entries(queue)[1..] == Entries(queue[1..])
  {
  }

  lemma DataAdd(q: seq<seq<byte>>, e: seq<byte>)
    ensures Data(q + [e]) == Data(q) + if e == [] then [] else [e]
  {
    assert (q + [e])[..|q|] == q;
  }

  lemma {:induction false} DataFirst(q: seq<seq<byte>>)
    requires q != []
    ensures Data(q) == (if q[0] == [] then [] else [q[0]]) + Data(q[1..])
  {
    hide Data;
    var p, e := q[..|q| - 1], q[|q| - 1];
    assert q == p + [e];
    DataAdd(p, e);
    if |q| == 1 {
      DataNone();
      assert p == [] && q[1..] == [];
    } else {
      DataFirst(p);
      assert q[1..] == p[1..] + [e];
      DataAdd(p[1..], e);
      Associate(if q[0] == [] then [] else [q[0]], Data(p[1..]), if e == [] then [] else [e]);
    }
  }

  lemma DataNone()
    ensures Data([]) == []
  {
  }

  /** What the reads took out, followed by what waits, is what waited before, followed by what was
      received, in the order of arrival. */
  lemma {:induction false} FirstInFirstOut(q: seq<seq<byte>>, table: seq<Socket>, fd: nat, turns: seq<Turn>,
                                           capacity: nat)
    requires fd < |table|
    ensures ReadOff(q, table, fd, turns, capacity) + Data(Queued(q, table, fd, turns, capacity))
         == Data(q) + Received(q, table, fd, turns, capacity)
  {
    hide ReadOff, Data, Queued, Received, Stepped, In, Out;
    RunNone(q, table, fd, capacity);
    if turns != [] {
      var k := |turns| - 1;
      FirstInFirstOut(q, table, fd, turns[..k], capacity);
      RunSnoc(q, table, fd, turns, k, capacity);
      assert turns[..k + 1] == turns;
      var p := Queued(q, table, fd, turns[..k], capacity);
      var more, less := In(p, table, fd, turns[k], capacity), Out(p, turns[k]);
      OneTurn(p, table, fd, turns[k], capacity);
      Associate(ReadOff(q, table, fd, turns[..k], capacity), less, Data(Queued(q, table, fd, turns, capacity)));
      Associate(ReadOff(q, table, fd, turns[..k], capacity), Data(p), more);
      Associate(Data(q), Received(q, table, fd, turns[..k], capacity), more);
    }
  }

  lemma OneTurn(p: seq<seq<byte>>, table: seq<Socket>, fd: nat, t: Turn, capacity: nat)
    requires fd < |table|
    ensures Out(p, t) + Data(Stepped(p, table, fd, t, capacity)) == Data(p) + In(p, table, fd, t, capacity)
  {
    hide Data, Takes;
    if t.Arrives? {
      DataAdd(p, if First(table, fd, t.driver, t.ethType) then t.bytes else []);
    } else if p != [] {
      DataFirst(p);
      DataAdd(p[1..], []);
    }
  }

  // ---- runs in which the code loses what it should keep ------------------------------------------

  lemma TwoTakersTable(f: Frame, g: Frame)
    requires f.bytes != [] && g.buff != f.buff
    ensures var first, second := Socket(Opened, false, 1, 0, []), Socket(Opened, false, 1, 0, [g]);
            var was, now := [first, second], [Enqueued(first, f), second];
            && Filtered(was, 1, 100, f, 1) == now && Frees(was, 1, 100, 1) == 1
            && Held(now, f.buff) == 1
  {
    var first, second := Socket(Opened, false, 1, 0, []), Socket(Opened, false, 1, 0, [g]);
    FilterStep([first, second], 1, 100, f, 1);
    FilterStep([second], 1, 100, Frame(f.buff, []), 1);
    FilterDone(1, 100, Frame(f.buff, []), 1);
    assert [first, second][1..] == [second] && [second][1..] == [];
    var now := [Enqueued(first, f), second];
    assert Enqueued(first, f).queue == [f] && [f][1..] == [] && [g][1..] == [] && now[1..] == [second];
    assert HeldIn([f], f.buff) == 1 && HeldIn([g], f.buff) == 0;
    assert Held(now, f.buff) == HeldIn([f], f.buff) + Held([second], f.buff);
    assert Held([second], f.buff) == HeldIn([g], f.buff) + Held([], f.buff);
  }

  lemma OneTakerTable(f: Frame)
    ensures var first, second := Socket(Opened, false, NO_DRIVER, 0, []), Socket(Opened, false, 1, 0, []);
            && Filtered([first, second], 1, 100, f, 1) == [first, Enqueued(second, f)]
            && Frees([first, second], 1, 100, 1) == 0
            && AllRoom([first, second], 1, 100, 1)
  {
    var first, second := Socket(Opened, false, NO_DRIVER, 0, []), Socket(Opened, false, 1, 0, []);
    FilterStep([first, second], 1, 100, f, 1);
    FilterStep([second], 1, 100, f, 1);
    FilterDone(1, 100, Frame(f.buff, []), 1);
    assert [first, second][1..] == [second] && [second][1..] == [];
  }

  const UNBOUND := Socket(Opened, false, NO_DRIVER, 0, [])

  /** A table of two sockets that were just opened. */
  method TwoOpen(heap: Heap, capacity: nat) returns (tap: Tap)
    requires heap.Valid() && capacity > 0
    ensures fresh(tap) && fresh(tap.sockets) && tap.heap == heap && tap.capacity == capacity
    ensures tap.Valid() && Unique(tap.sockets[..]) && tap.sockets[..] == [UNBOUND, UNBOUND]
    ensures forall b :: Held(tap.sockets[..], b) == 0
  {
    hide Tap.Valid, Held, HeldIn, Unique;
    var table := new Socket[2](_ => CLOSED);
    tap := new Tap(heap, capacity, table);
    assert table[..] == [CLOSED, CLOSED] && table[0].state == table[1].state == Ready;
    var fd := tap.Open(true, false);
    assert fd == 0 && table[..] == [UNBOUND, CLOSED] && table[0] == UNBOUND && table[1] == CLOSED;
    fd := tap.Open(true, false);
    assert fd == 1 && table[..] == [UNBOUND, UNBOUND];
  }

  /** The second socket is bound to driver 1 and gets a frame. */
  method QueueAtSecond(tap: Tap, g: Frame)
    requires tap.Valid() && tap.sockets[..] == [UNBOUND, UNBOUND] && tap.capacity == 1
    requires g.buff in tap.heap.live && Held(tap.sockets[..], g.buff) == 0
    modifies tap.sockets, tap.heap`live, tap.heap`words
    ensures tap.Valid() && tap.sockets[..] == [UNBOUND, Socket(Opened, false, 1, 0, [g])]
    ensures tap.heap.live == old(tap.heap.live)
    ensures forall b | b != g.buff :: Held(tap.sockets[..], b) == old(Held(tap.sockets[..], b))
  {
    hide Tap.Valid, Held, HeldIn, Filtered, Frees, Taken, LaterRoom, AllRoom, Takes, Unique, Used;
    var errno := tap.Rebind(1, true, 1);
    assert tap.sockets[..] == [UNBOUND, Socket(Opened, false, 1, 0, [])];
    OneTakerTable(g);
    var size; ghost var frees;
    size, frees := tap.EthFilter(1, 100, g.buff, g.bytes);
    assert Frame(g.buff, g.bytes) == g && [] + [g] == [g];
  }

  /** Two sockets with the filter they are opened with, bound to one driver: when the second one's
      queue is full, a frame with a length as its type is freed while the first one holds it. */
  method FreedWhileHeld() returns (tap: Tap, buff: nat)
    ensures fresh(tap) && Held(tap.sockets[..], buff) == 1 && buff !in tap.heap.live && !tap.Valid()
  {
    hide Tap.Valid, Held, HeldIn, Filtered, Frees, Taken, LaterRoom, AllRoom, Takes, Unique, Used;
    var heap := new Heap(_ => true);
    var b0 := heap.Calloc();
    var b1 := heap.Calloc();
    tap := TwoOpen(heap, 1);
    var f, g := Frame(b1.value, [0]), Frame(b0.value, [0]);
    QueueAtSecond(tap, g);
    var errno := tap.Rebind(0, true, 1);
    assert tap.sockets[..] == [Socket(Opened, false, 1, 0, []), Socket(Opened, false, 1, 0, [g])];
    TwoTakersTable(f, g);
    buff := f.buff;
    var size; ghost var frees;
    size, frees := tap.EthFilter(1, 100, buff, f.bytes);
  }

  /** Two open sockets on different drivers with one filter; rebinding the second to the first
      one's driver makes both take the same frames. */
  method ReboundToShare() returns (tap: Tap)
    ensures fresh(tap) && tap.Valid() && !Unique(tap.sockets[..]) && !AtMostOne(tap.sockets[..], 1, 0x88f7)
  {
    hide Tap.Valid, Held, HeldIn;
    var heap := new Heap(_ => true);
    tap := TwoOpen(heap, 1);
    var s := Socket(Opened, false, 1, 0x88f7, []);
    BindAndFilter(tap, 0, 1, 0x88f7);
    assert tap.sockets[..] == [s, UNBOUND];
    BindAndFilter(tap, 1, 2, 0x88f7);
    assert tap.sockets[..] == [s, s.(driver := 2)];
    var errno := tap.Rebind(1, true, 1);
    assert tap.sockets[..] == [s, s];
    assert Takes(tap.sockets[..][0], 1, 0x88f7) && Takes(tap.sockets[..][1], 1, 0x88f7);
  }

  /** A fresh socket gets a driver and a filter that nobody has there. */
  method BindAndFilter(tap: Tap, fd: nat, driver: nat, filter: nat)
    requires tap.Valid() && fd < tap.sockets.Length && tap.sockets[fd] == UNBOUND
    requires driver != NO_DRIVER && filter != 0 && !Used(tap.sockets[..], driver, filter)
    modifies tap.sockets
    ensures tap.Valid()
    ensures tap.sockets[..] == old(tap.sockets[..])[fd := UNBOUND.(driver := driver, filter := filter)]
  {
    hide Tap.Valid, Held, HeldIn, Unique;
    ghost var was := tap.sockets[..];
    var errno := tap.Rebind(fd, true, driver);
    assert tap.sockets[..] == was[fd := UNBOUND.(driver := driver)];
    errno := tap.SetFilter(fd, filter);
    assert tap.sockets[..] == was[fd := UNBOUND.(driver := driver, filter := filter)];
  }

  /** Some open socket of the driver has the filter. */
  ghost predicate Used(sockets: seq<Socket>, driver: nat, filter: nat) {
    exists i | 0 <= i < |sockets| ::
      sockets[i].state == Opened && sockets[i].driver == driver && sockets[i].filter == filter
  }

  lemma RebindUnique(was: seq<Socket>, fd: nat, driver: nat)
    requires fd < |was|
    ensures Unique(was) && was[fd].state == Opened ==>
              (Unique(was[fd := was[fd].(driver := driver)]) <==>
                 was[fd].filter == 0 || was[fd].driver == driver || !Used(was, driver, was[fd].filter))
  {
    var now := was[fd := was[fd].(driver := driver)];
    if was[fd].driver == driver {
      assert now == was;
    } else if was[fd].state == Opened && was[fd].filter != 0 && Used(was, driver, was[fd].filter) {
      var i :| 0 <= i < |was| && was[i].state == Opened && was[i].driver == driver && was[i].filter == was[fd].filter;
      assert now[i] == was[i] && now[fd].state == Opened;
    }
  }

  /** Closing a socket takes its filter out of use. */
  lemma ClosedUnique(was: seq<Socket>, fd: nat, s: Socket)
    requires fd < |was| && s.state != Opened
    ensures Unique(was) ==> Unique(was[fd := s])
  {
  }

  lemma {:induction false} AllEmpty(sockets: seq<Socket>, b: nat)
    requires forall i | 0 <= i < |sockets| :: sockets[i].queue == []
    ensures Held(sockets, b) == 0
  {
    if sockets != [] { AllEmpty(sockets[1..], b); }
  }

  /** Queues do not matter for who owns which filter. */
  lemma SameTable(was: seq<Socket>, now: seq<Socket>, i: nat)
    requires |was| == |now| && i < |was| && now[i] == was[i].(queue := now[i].queue) && now == was[i := now[i]]
    ensures Unique(now) == Unique(was)
  {
    assert forall j | 0 <= j < |was| ::
        now[j].state == was[j].state && now[j].filter == was[j].filter && now[j].driver == was[j].driver;
    if Unique(was) {
      assert Unique(now);
    } else {
      var j, k :| 0 <= j < k < |was| && was[j].state == was[k].state == Opened && was[j].filter == was[k].filter != 0
                  && was[j].driver == was[k].driver;
      assert now[j].state == now[k].state == Opened;
    }
  }

  /** Taking the first entry out of a queue. */
  lemma PoppedHeld(was: seq<Socket>, i: nat, b: nat)
    requires i < |was| && was[i].queue != []
    ensures Held(was, b) == Held(was[i := was[i].(queue := was[i].queue[1..])], b)
                            + if was[i].queue[0].buff == b && was[i].queue[0].bytes != [] then 1 else 0
  {
    HeldSet(was, i, was[i].(queue := was[i].queue[1..]), b);
  }

  /** Moving a closing mark to the end of its queue. */
  lemma MarkerHeld(was: seq<Socket>, i: nat, b: nat)
    requires i < |was| && was[i].queue != [] && was[i].queue[0].bytes == []
    ensures Held(was[i := was[i].(queue := was[i].queue[1..] + [Frame(0, [])])], b) == Held(was, b)
  {
    HeldInAdd(was[i].queue[1..], Frame(0, []), b);
    HeldSet(was, i, was[i].(queue := was[i].queue[1..] + [Frame(0, [])]), b);
  }
}
