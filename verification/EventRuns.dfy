/** Running an event loop: what arrives while it runs, and the arithmetic of the tick budget. */
module EventRuns {
  import opened Allocator
  import opened Registry
  import opened RegistryDispatch
  import opened EventPosts

  const TICKS: nat := 0x1_0000_0000     // the tick counter has 32 bits
  const MAX_DELAY: nat := 0xffff_ffff   // portMAX_DELAY: run without a budget

  /** A post by some task or interrupt while the loop runs. */
  datatype Request = Request(base: nat, id: int, data: array?<byte>, size: nat, fromIsr: bool, mutexFree: bool)

  /** One round of the loop as its surroundings shape it: the posts that arrive before the
      receive succeeds, and the ticks spent waiting for an event, for the mutex, and in the
      handlers. Handlers leave the queue alone, so what is posted while they run (by themselves,
      too) is the same as what arrives first in the next turn. */
  datatype Turn = Turn(arrivals: seq<Request>, wait: nat, lock: nat, work: nat)

  /** Why a run stopped: budget spent, no event in time, or the script of turns is over. */
  datatype RunEnd = Expired | TimedOut | Cut

  ghost predicate Callers(r: Request) {
    r.base != ANY_BASE && (r.data != null ==> r.size <= r.data.Length)
  }

  /** The bytes a post carries, read from the caller's buffer when the event is posted. */
  function Snapshot(data: array?<byte>, size: nat): Option<seq<byte>>
    requires data != null ==> size <= data.Length
    reads data
  {
    if data != null && size != 0 then Some(data[..size]) else None
  }

  function Zeros(n: nat): seq<byte> {
    seq(n, _ => 0)
  }

  /** What handlers see of a post from an interrupt: the bytes, padded with zeros. */
  function IsrSnapshot(data: array?<byte>, size: nat): Option<seq<byte>>
    requires data != null ==> size <= data.Length
    reads data
  {
    if data != null && 0 < size <= VAL_SIZE then Some(data[..size] + Zeros(VAL_SIZE - size)) else None
  }

  /** The event a request stands for, should it be accepted. */
  ghost function Given(r: Request): Event
    requires Callers(r)
    reads r.data
  {
    Event(r.base, r.id, if r.fromIsr then IsrSnapshot(r.data, r.size) else Snapshot(r.data, r.size))
  }

  ghost predicate Heard(requests: seq<Request>, events: seq<Event>)
    reads set r | r in requests && r.data != null :: r.data
  {
    && |events| == |requests|
    && forall i | 0 <= i < |requests| :: Callers(requests[i]) && events[i] == Given(requests[i])
  }

  /** Exactly the events whose post was answered with Ok, in order. */
  function AcceptedOf(events: seq<Event>, verdicts: seq<Err>): seq<Event>
    requires |events| == |verdicts|
  {
    if events == [] then []
    else (if verdicts[0] == Ok then [events[0]] else []) + AcceptedOf(events[1..], verdicts[1..])
  }

  /** What a post is answered with; `room` tells whether the queue has room and `granted` whether a
      block for the data would be granted. */
  function Answer(r: Request, task: nat, room: bool, granted: bool): Err {
    if r.base == NULL_BASE || r.id == ANY_ID || (r.fromIsr && r.size > VAL_SIZE) then InvalidArg
    else if r.fromIsr then if room then Ok else Fail
    else if Asks(r) == 1 && !granted then NoMem
    else if (task == 0 && !r.mutexFree) || !room then Timeout
    else Ok
  }

  /** How many blocks a post asks for. */
  function Asks(r: Request): nat {
    if r.base == NULL_BASE || r.id == ANY_ID || r.fromIsr || r.data == null || r.size == 0 then 0 else 1
  }

  /** The answers to some posts, how many posts wait after them, and the next request number. */
  datatype Intake = Intake(verdicts: seq<Err>, waiting: nat, asked: nat)

  function Intaken(p: Intake, r: Request, task: nat, capacity: nat, grants: nat -> bool): Intake {
    var v := Answer(r, task, p.waiting < capacity, grants(p.asked));
    Intake(p.verdicts + [v], p.waiting + (if v == Ok then 1 else 0), p.asked + Asks(r))
  }

  /** One post after the other. */
  function Answers(rs: seq<Request>, task: nat, capacity: nat, grants: nat -> bool, waiting: nat, asked: nat): Intake {
    if rs == [] then Intake([], waiting, asked)
    else Intaken(Answers(rs[..|rs| - 1], task, capacity, grants, waiting, asked), rs[|rs| - 1], task, capacity, grants)
  }

  lemma AnswersNone(task: nat, capacity: nat, grants: nat -> bool, waiting: nat, asked: nat)
    ensures Answers([], task, capacity, grants, waiting, asked) == Intake([], waiting, asked)
  {
  }

  lemma AnswersNext(rs: seq<Request>, k: nat, task: nat, capacity: nat, grants: nat -> bool, waiting: nat, asked: nat)
    requires k < |rs|
    ensures Answers(rs[..k + 1], task, capacity, grants, waiting, asked)
         == Intaken(Answers(rs[..k], task, capacity, grants, waiting, asked), rs[k], task, capacity, grants)
  {
    assert rs[..k + 1][..k] == rs[..k];
  }

  /** Turn after turn: the arrivals of each, and then one post, if there is any, leaves the queue. */
  function TurnAnswers(turns: seq<Turn>, k: nat, task: nat, capacity: nat, grants: nat -> bool, waiting: nat,
                       asked: nat): Intake
    requires k <= |turns|
  {
    if k == 0 then Intake([], waiting, asked)
    else
      var p := TurnAnswers(turns, k - 1, task, capacity, grants, waiting, asked);
      var q := Answers(turns[k - 1].arrivals, task, capacity, grants, p.waiting, p.asked);
      Intake(p.verdicts + q.verdicts, if q.waiting > 0 then q.waiting - 1 else 0, q.asked)
  }

  lemma TurnAnswersNone(turns: seq<Turn>, task: nat, capacity: nat, grants: nat -> bool, waiting: nat, asked: nat)
    ensures TurnAnswers(turns, 0, task, capacity, grants, waiting, asked) == Intake([], waiting, asked)
  {
  }

  lemma TurnAnswersNext(turns: seq<Turn>, k: nat, task: nat, capacity: nat, grants: nat -> bool, waiting: nat,
                        asked: nat)
    requires k < |turns|
    ensures var p := TurnAnswers(turns, k, task, capacity, grants, waiting, asked);
            var q := Answers(turns[k].arrivals, task, capacity, grants, p.waiting, p.asked);
            TurnAnswers(turns, k + 1, task, capacity, grants, waiting, asked)
            == Intake(p.verdicts + q.verdicts, if q.waiting > 0 then q.waiting - 1 else 0, q.asked)
  {
  }

  lemma Associate<T>(x: seq<T>, y: seq<T>, z: seq<T>)
    ensures x + (y + z) == (x + y) + z
  {
  }

  lemma {:induction false} AcceptedCat(es: seq<Event>, vs: seq<Err>, fs: seq<Event>, ws: seq<Err>)
    requires |es| == |vs| && |fs| == |ws|
    ensures AcceptedOf(es + fs, vs + ws) == AcceptedOf(es, vs) + AcceptedOf(fs, ws)
  {
    if es == [] {
      assert es + fs == fs && vs + ws == ws;
    } else {
      assert (es + fs)[1..] == es[1..] + fs && (vs + ws)[1..] == vs[1..] + ws;
      AcceptedCat(es[1..], vs[1..], fs, ws);
      Associate(if vs[0] == Ok then [es[0]] else [], AcceptedOf(es[1..], vs[1..]), AcceptedOf(fs, ws));
    }
  }

  lemma AcceptedNone()
    ensures AcceptedOf([], []) == []
  {
  }

  lemma AcceptedSnoc(events: seq<Event>, i: nat, verdicts: seq<Err>, v: Err)
    requires i < |events| && |verdicts| == i
    ensures AcceptedOf(events[..i + 1], verdicts + [v])
         == AcceptedOf(events[..i], verdicts) + if v == Ok then [events[i]] else []
  {
    AcceptedCat(events[..i], verdicts, [events[i]], [v]);
    AcceptedOne(events[i], v);
    assert events[..i + 1] == events[..i] + [events[i]];
  }

  lemma AcceptedOne(e: Event, v: Err)
    ensures AcceptedOf([e], [v]) == if v == Ok then [e] else []
  {
    assert [e][1..] == [] && [v][1..] == [];
  }

  /** The first `k` batches one after the other. */
  function Joined<T>(batches: seq<seq<T>>, k: nat): seq<T>
    requires k <= |batches|
  {
    if k == 0 then [] else Joined(batches, k - 1) + batches[k - 1]
  }

  lemma JoinedNone<T>(batches: seq<seq<T>>)
    ensures Joined(batches, 0) == []
  {
  }

  lemma JoinedNext<T>(batches: seq<seq<T>>, k: nat)
    requires k < |batches|
    ensures Joined(batches, k + 1) == Joined(batches, k) + batches[k]
  {
  }

  // ---- the trace of a run ---------------------------------------------------------------

  /** The arguments the live registrations are called with did not change. */
  ghost predicate SameArgs(flat: seq<Reg>, words: map<nat, int>, words': map<nat, int>) {
    forall r | r in flat ::
      (r.ctx in words <==> r.ctx in words') && (r.ctx in words ==> words'[r.ctx] == words[r.ctx])
  }

  lemma SameArgsRefl(flat: seq<Reg>, words: map<nat, int>)
    ensures SameArgs(flat, words, words)
  {
  }

  lemma SameArgsThen(flat: seq<Reg>, w: map<nat, int>, w': map<nat, int>, w'': map<nat, int>)
    requires SameArgs(flat, w, w') && SameArgs(flat, w', w'')
    ensures SameArgs(flat, w, w'')
  {
  }

  lemma {:induction false} TraceSame(flat: seq<Reg>, w: map<nat, int>, w': map<nat, int>, events: seq<Event>)
    requires SameArgs(flat, w, w')
    ensures Trace(flat, w, events) == Trace(flat, w', events)
  {
    if events != [] {
      var e := events[0];
      var regs := Select(flat, e.base, e.id);
      SelectIn(flat, e.base, e.id);
      assert forall i | 0 <= i < |regs| :: regs[i] in regs;
      assert CallsOf(regs, w, e) == CallsOf(regs, w', e);
      TraceSame(flat, w, w', events[1..]);
    }
  }

  /** Since the state (w0, c0, d0), handlers were executed for exactly the accepted events
      from d0 to d, each in registration order. */
  ghost predicate Traced(flat: seq<Reg>, w0: map<nat, int>, c0: seq<Call>, d0: nat,
                         w: map<nat, int>, c: seq<Call>, d: nat, accepted: seq<Event>)
  {
    d0 <= d <= |accepted| && SameArgs(flat, w0, w) && c == c0 + Trace(flat, w0, accepted[d0..d])
  }

  lemma TracedNone(flat: seq<Reg>, w: map<nat, int>, c: seq<Call>, d: nat, accepted: seq<Event>)
    requires d <= |accepted|
    ensures Traced(flat, w, c, d, w, c, d, accepted)
  {
    assert accepted[d..d] == [];
  }

  lemma TracedAccept(flat: seq<Reg>, w0: map<nat, int>, c0: seq<Call>, d0: nat, w: map<nat, int>, c: seq<Call>,
                     d: nat, accepted: seq<Event>, w': map<nat, int>, more: seq<Event>)
    requires Traced(flat, w0, c0, d0, w, c, d, accepted) && SameArgs(flat, w, w')
    ensures Traced(flat, w0, c0, d0, w', c, d, accepted + more)
  {
    assert (accepted + more)[d0..d] == accepted[d0..d];
  }

  lemma TracedDispatch(flat: seq<Reg>, w0: map<nat, int>, c0: seq<Call>, d0: nat, w: map<nat, int>, c: seq<Call>,
                       d: nat, accepted: seq<Event>, w': map<nat, int>, c': seq<Call>)
    requires Traced(flat, w0, c0, d0, w, c, d, accepted) && SameArgs(flat, w, w')
    requires d < |accepted| && c' == c + Trace(flat, w, accepted[d..d + 1])
    ensures Traced(flat, w0, c0, d0, w', c', d + 1, accepted)
  {
    hide Trace, SameArgs;
    SameArgsThen(flat, w0, w, w');
    TraceSame(flat, w0, w, accepted[d..d + 1]);
    Associate(c0, Trace(flat, w0, accepted[d0..d]), Trace(flat, w0, accepted[d..d + 1]));
    TraceCat(flat, w0, accepted[d0..d], accepted[d..d + 1]);
    assert accepted[d0..d] + accepted[d..d + 1] == accepted[d0..d + 1];
  }

  /** The calls after those in `c0`, one by one: for event after event, every registration that
      matches it is called in turn, with the argument in its context and with that event. */
  ghost predicate CallsMade(flat: seq<Reg>, words: map<nat, int>, events: seq<Event>, c0: seq<Call>, c: seq<Call>) {
    && |c| == |c0| + Offset(flat, events, |events|) && c[..|c0|] == c0
    && forall k, i | 0 <= k < |events| && 0 <= i < |Select(flat, events[k].base, events[k].id)| ::
         var r := Select(flat, events[k].base, events[k].id)[i];
         && r.ctx in words && |c0| + Offset(flat, events, k) + i < |c|
         && c[|c0| + Offset(flat, events, k) + i] == Call(r.fn, words[r.ctx], events[k])
  }

  /** In particular, every registration that matches one of the events is called for it. */
  lemma CallsMadeHas(flat: seq<Reg>, words: map<nat, int>, events: seq<Event>, c0: seq<Call>, c: seq<Call>,
                     k: nat, r: Reg)
    returns (j: nat)
    requires CallsMade(flat, words, events, c0, c) && k < |events|
    requires r in Select(flat, events[k].base, events[k].id)
    ensures r.ctx in words && |c0| <= j < |c| && c[j] == Call(r.fn, words[r.ctx], events[k])
  {
    hide Select, Offset;
    var s := Select(flat, events[k].base, events[k].id);
    var i :| 0 <= i < |s| && s[i] == r;
    j := |c0| + Offset(flat, events, k) + i;
  }

  /** What such a run adds to the calls. */
  lemma TracedAt(flat: seq<Reg>, w0: map<nat, int>, c0: seq<Call>, d0: nat, w: map<nat, int>, c: seq<Call>, d: nat,
                 accepted: seq<Event>, es: seq<Event>)
    requires Traced(flat, w0, c0, d0, w, c, d, accepted) && forall r | r in flat :: r.ctx in w0
    requires es == accepted[d0..d]
    ensures CallsMade(flat, w0, es, c0, c)
  {
    hide Trace, SameArgs, Select, Offset;
    TraceLength(flat, w0, es);
    forall k, i | 0 <= k < |es| && 0 <= i < |Select(flat, es[k].base, es[k].id)|
      ensures var r := Select(flat, es[k].base, es[k].id)[i];
              && r.ctx in w0 && |c0| + Offset(flat, es, k) + i < |c|
              && c[|c0| + Offset(flat, es, k) + i] == Call(r.fn, w0[r.ctx], es[k])
    {
      TraceAt(flat, w0, es, k, i);
    }
  }

  // ---- the tick budget ------------------------------------------------------------------

  function Ticks(turn: Turn): nat {
    turn.wait + turn.lock + turn.work
  }

  /** The value of the tick counter at a time. */
  function Tick32(time: nat): nat {
    time % TICKS
  }

  /** Subtraction of unsigned 32-bit numbers. */
  function Sub32(a: nat, b: nat): nat {
    (a - b) % TICKS
  }

  /** True time spent in the first `k` turns. */
  function Elapsed(turns: seq<Turn>, k: nat): nat
    requires k <= |turns|
  {
    if k == 0 then 0 else Elapsed(turns, k - 1) + Ticks(turns[k - 1])
  }

  /** What the loop subtracts for them: differences of a counter that wraps around. */
  function Charged(turns: seq<Turn>, k: nat): nat
    requires k <= |turns|
  {
    if k == 0 then 0 else Charged(turns, k - 1) + Ticks(turns[k - 1]) % TICKS
  }

  /** The difference of two 32-bit tick counts taken around a turn. */
  lemma TickDifference(clock: nat, ticks: nat)
    ensures Sub32(Tick32(clock + ticks), Tick32(clock)) == ticks % TICKS
  {
  }

  lemma {:induction false} ChargedAtMost(turns: seq<Turn>, k: nat)
    requires k <= |turns|
    ensures Charged(turns, k) <= Elapsed(turns, k)
  {
    if k > 0 { ChargedAtMost(turns, k - 1); }
  }

  /** Exactly when is the budget charged for the time that really passed? When no turn took
      2^32 ticks or more, whatever the counter's value and however often it wrapped. */
  lemma {:induction false} ChargedIsElapsed(turns: seq<Turn>, k: nat)
    requires k <= |turns|
    ensures Charged(turns, k) == Elapsed(turns, k) <==> forall i | 0 <= i < k :: Ticks(turns[i]) < TICKS
  {
    if k > 0 {
      ChargedIsElapsed(turns, k - 1);
      ChargedAtMost(turns, k - 1);
    }
  }

  /** A run that has used `k` turns was within its budget before each of them but the first. */
  ghost predicate WithinBudget(turns: seq<Turn>, k: nat, budget: nat)
    requires k <= |turns|
  {
    forall i | 1 <= i < k :: Charged(turns, i) < budget
  }

  lemma BudgetStart(turns: seq<Turn>, budget: nat)
    ensures Charged(turns, 0) == 0 && WithinBudget(turns, 0, budget)
  {
  }

  /** What one turn that starts at `begun` takes off the budget. */
  lemma BudgetStep(turns: seq<Turn>, k: nat, budget: nat, begun: nat)
    requires k < |turns| && WithinBudget(turns, k, budget) && (k >= 1 ==> Charged(turns, k) < budget)
    ensures WithinBudget(turns, k + 1, budget)
    ensures var ticks := turns[k].wait + turns[k].lock + turns[k].work;
            && Elapsed(turns, k + 1) == Elapsed(turns, k) + ticks
            && Sub32(Tick32(begun + ticks), Tick32(begun)) == Charged(turns, k + 1) - Charged(turns, k)
            && Charged(turns, k + 1) == Charged(turns, k) + ticks % 0x1_0000_0000
  {
    TickDifference(begun, Ticks(turns[k]));
  }

  /** With a budget of T >= 1 ticks, the last event is received less than 2T ticks after the
      start; what remains is its mutex wait and its handlers. With T = 0 at most one event is
      dispatched. */
  lemma RunTime(turns: seq<Turn>, k: nat, budget: nat)
    requires 1 <= k <= |turns| && WithinBudget(turns, k, budget)
    requires forall i | 0 <= i < k :: Ticks(turns[i]) < TICKS && turns[i].wait <= budget
    ensures budget == 0 ==> k == 1
    ensures budget >= 1 ==> Elapsed(turns, k) < 2 * budget + turns[k - 1].lock + turns[k - 1].work
  {
    if k > 1 {
      ChargedIsElapsed(turns, k - 1);
      assert Charged(turns, 1) >= 0;
    }
  }

  /** A finite run with a budget of T >= 1 ticks returns in time: in less than 2T ticks when no
      event came, otherwise in less than that plus the last event's mutex wait and handlers. */
  lemma RunReturns(turns: seq<Turn>, used: nat, ended: RunEnd, budget: nat)
    requires budget >= 1 && used <= |turns| && WithinBudget(turns, used, budget)
    requires forall i | 0 <= i < |turns| :: Ticks(turns[i]) < TICKS && turns[i].wait <= budget
    requires ended == TimedOut ==> used < |turns| && (used >= 1 ==> Charged(turns, used) < budget)
    requires ended == Expired ==> used >= 1 && Charged(turns, used) >= budget
    ensures ended == TimedOut ==> Elapsed(turns, used) + turns[used].wait < 2 * budget
    ensures ended == Expired ==>
              budget <= Elapsed(turns, used) < 2 * budget + turns[used - 1].lock + turns[used - 1].work
  {
    ChargedIsElapsed(turns, used);
    if ended == Expired {
      RunTime(turns, used, budget);
    }
  }

  /** A turn of 2^32 ticks is charged nothing: with it, a budget of one tick does not end. */
  lemma LongTurnIsFree()
    ensures var turns := [Turn([], 0, 0, TICKS), Turn([], 0, 0, 0)];
            Elapsed(turns, 2) == TICKS && Charged(turns, 2) == 0 && WithinBudget(turns, 2, 1)
  {
    var turns := [Turn([], 0, 0, TICKS), Turn([], 0, 0, 0)];
    assert Charged(turns, 1) == Charged(turns, 0) + TICKS % TICKS;
    assert Elapsed(turns, 1) == TICKS;
  }
}
