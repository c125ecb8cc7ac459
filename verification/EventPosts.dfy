/** Posted events and what dispatching them means: the flat view of an event loop's queue,
    the trace of handler calls it must produce, and the arithmetic of the tick budget. */
module EventPosts {
  import opened Allocator
  import opened Registry
  import opened RegistryDispatch

  newtype byte = x: int | 0 <= x < 256

  /** The data of a queued post: none, the four bytes kept in the post itself, or the number
      of the block that holds a copy. */
  datatype Data = NoData | Inline(val: seq<byte>) | Copied(block: nat)

  datatype Post = Post(base: nat, id: int, data: Data)

  /** An event as handlers see it. */
  datatype Event = Event(base: nat, id: int, data: Option<seq<byte>>)

  /** One execution of a handler. */
  datatype Call = Call(fn: int, arg: int, event: Event)

  const VAL_SIZE := 4   // sizeof(post.data.val)

  predicate Addressable(e: Event) {
    e.base > ANY_BASE && e.id != ANY_ID
  }

  function Bytes(data: Data, copies: map<nat, seq<byte>>): Option<seq<byte>> {
    match data
    case NoData => None
    case Inline(v) => Some(v)
    case Copied(b) => Some(if b in copies then copies[b] else [])
  }

  function EventOf(post: Post, copies: map<nat, seq<byte>>): Event {
    Event(post.base, post.id, Bytes(post.data, copies))
  }

  function Pending(queue: seq<Post>, copies: map<nat, seq<byte>>): (es: seq<Event>)
    ensures |es| == |queue|
  {
    seq(|queue|, i requires 0 <= i < |queue| => EventOf(queue[i], copies))
  }

  function PayloadOf(post: Post, a: nat): nat {
    if post.data == Copied(a) then 1 else 0
  }

  function PayloadBlock(post: Post): set<nat> {
    if post.data.Copied? then {post.data.block} else {}
  }

  /** How many queued posts own the block `a`. */
  function Payloads(queue: seq<Post>, a: nat): nat {
    if queue == [] then 0 else PayloadOf(queue[0], a) + Payloads(queue[1..], a)
  }

  lemma {:induction false} PayloadsAdd(queue: seq<Post>, post: Post, a: nat)
    ensures Payloads(queue + [post], a) == Payloads(queue, a) + PayloadOf(post, a)
  {
    if queue == [] {
      assert queue + [post] == [post] && [post][1..] == [];
    } else {
      assert (queue + [post])[1..] == queue[1..] + [post];
      PayloadsAdd(queue[1..], post, a);
    }
  }

  lemma {:induction false} PayloadIn(queue: seq<Post>, k: nat)
    requires k < |queue| && queue[k].data.Copied?
    ensures Payloads(queue, queue[k].data.block) >= 1
  {
    if k > 0 { PayloadIn(queue[1..], k - 1); }
  }

  // ---- traces -------------------------------------------------------------------------

  /** The argument a handler is called with is read from its context when it is called. */
  function ArgOf(words: map<nat, int>, ctx: nat): int {
    if ctx in words then words[ctx] else 0
  }

  function CallsOf(regs: seq<Reg>, words: map<nat, int>, e: Event): (calls: seq<Call>)
    ensures |calls| == |regs|
  {
    seq(|regs|, i requires 0 <= i < |regs| => Call(regs[i].fn, ArgOf(words, regs[i].ctx), e))
  }

  /** With an argument in every context, each call gets the one of its own registration. */
  lemma CallsOfAt(regs: seq<Reg>, words: map<nat, int>, e: Event)
    requires forall i | 0 <= i < |regs| :: regs[i].ctx in words
    ensures forall i | 0 <= i < |regs| :: CallsOf(regs, words, e)[i] == Call(regs[i].fn, words[regs[i].ctx], e)
  {
  }

  lemma CallsOfBoth(r: seq<Reg>, s: seq<Reg>, words: map<nat, int>, e: Event)
    ensures CallsOf(r + s, words, e) == CallsOf(r, words, e) + CallsOf(s, words, e)
  {
  }

  /** The specification of a run with fixed handlers: event after event, the registrations
      that match it, in the order they were registered. */
  function Trace(flat: seq<Reg>, words: map<nat, int>, events: seq<Event>): seq<Call> {
    if events == [] then []
    else CallsOf(Select(flat, events[0].base, events[0].id), words, events[0]) + Trace(flat, words, events[1..])
  }

  lemma {:induction false} TraceSnoc(flat: seq<Reg>, words: map<nat, int>, events: seq<Event>, e: Event)
    ensures Trace(flat, words, events + [e])
         == Trace(flat, words, events) + CallsOf(Select(flat, e.base, e.id), words, e)
  {
    if events == [] {
      assert events + [e] == [e] && [e][1..] == [];
    } else {
      assert (events + [e])[1..] == events[1..] + [e];
      TraceSnoc(flat, words, events[1..], e);
    }
  }

  /** How many handlers the events before the `k`-th call. */
  function Offset(flat: seq<Reg>, events: seq<Event>, k: nat): nat
    requires k <= |events|
  {
    if k == 0 then 0
    else Offset(flat, events, k - 1) + |Select(flat, events[k - 1].base, events[k - 1].id)|
  }

  lemma {:induction false} OffsetTail(flat: seq<Reg>, events: seq<Event>, k: nat)
    requires 0 < k <= |events|
    ensures Offset(flat, events, k)
         == |Select(flat, events[0].base, events[0].id)| + Offset(flat, events[1..], k - 1)
  {
    if k > 1 { OffsetTail(flat, events, k - 1); }
  }

  lemma {:induction false} TraceLength(flat: seq<Reg>, words: map<nat, int>, events: seq<Event>)
    ensures |Trace(flat, words, events)| == Offset(flat, events, |events|)
  {
    if events != [] {
      TraceLength(flat, words, events[1..]);
      OffsetTail(flat, events, |events|);
    }
  }

  /** Call by call: the `i`-th registration for the `k`-th event is called with the argument in its
      context and with that event. */
  lemma {:induction false} TraceAt(flat: seq<Reg>, words: map<nat, int>, events: seq<Event>, k: nat, i: nat)
    requires forall r | r in flat :: r.ctx in words
    requires k < |events| && i < |Select(flat, events[k].base, events[k].id)|
    ensures var r := Select(flat, events[k].base, events[k].id)[i];
            && r.ctx in words && Offset(flat, events, k) + i < |Trace(flat, words, events)|
            && Trace(flat, words, events)[Offset(flat, events, k) + i] == Call(r.fn, words[r.ctx], events[k])
  {
    hide CallsOf, Select;
    var e, rest := events[0], events[1..];
    var s := Select(flat, e.base, e.id);
    if k == 0 {
      SelectIn(flat, e.base, e.id);
      assert forall j | 0 <= j < |s| :: s[j] in s;
      CallsOfAt(s, words, e);
    } else {
      TraceAt(flat, words, rest, k - 1, i);
      OffsetTail(flat, events, k);
      assert Trace(flat, words, events) == CallsOf(s, words, e) + Trace(flat, words, rest);
    }
  }

  lemma {:induction false} SelectIn(flat: seq<Reg>, base: nat, id: int)
    ensures forall r | r in Select(flat, base, id) :: r in flat
  {
    if flat != [] { SelectIn(flat[1..], base, id); }
  }

  /** Two dispatches in a row produce what one dispatch of both batches would. */
  lemma {:induction false} TraceCat(flat: seq<Reg>, words: map<nat, int>, es: seq<Event>, fs: seq<Event>)
    ensures Trace(flat, words, es + fs) == Trace(flat, words, es) + Trace(flat, words, fs)
  {
    if es == [] {
      assert es + fs == fs;
    } else {
      assert (es + fs)[1..] == es[1..] + fs;
      TraceCat(flat, words, es[1..], fs);
    }
  }
}
