/** The allocator behind `g_h.funcs->_h_calloc` and `_h_free`, shared by the components that
    keep heap objects.

    A pointer is the number of the request that created it, so addresses are never reused.
    Which requests are granted is decided by an arbitrary oracle: every theorem about failing
    allocations quantifies over it. `live` is the set of blocks that are allocated and not
    yet freed; `Free` demands that its block is live, so a verified caller frees nothing
    twice. */
module Allocator {

  datatype Option<+T> = None | Some(value: T)

  /** Error codes of the event and network components. */
  datatype Err = Ok | NoMem | InvalidArg | InvalidState | Timeout | Fail | NotFound

  class Heap {
    const grants: nat -> bool
    var asked: nat
    ghost var live: set<nat>
    var words: map<nat, int>   // the word stored in a block, for blocks that store one

    ghost predicate Valid()
      reads this
    {
      words.Keys <= live && forall a | a in live :: a < asked
    }

    /** How often the block `a` is allocated: once or not at all. */
    ghost function Has(a: nat): nat
      reads this
    {
      if a in live then 1 else 0
    }

    constructor (grants: nat -> bool)
      ensures Valid() && this.grants == grants && asked == 0 && live == {} && words == map[]
    {
      this.grants := grants;
      asked := 0;
      live, words := {}, map[];
    }

    /** One zeroed block, or None where the C code sees a null pointer. */
    method Calloc() returns (p: Option<nat>)
      requires Valid()
      modifies this
      ensures Valid() && asked == old(asked) + 1 && words == old(words)
      ensures p == if grants(old(asked)) then Some(old(asked)) else None
      ensures live == old(live) + (if p.Some? then {p.value} else {})
    {
      p := if grants(asked) then Some(asked) else None;
      if p.Some? {
        live := live + {p.value};
      }
      asked := asked + 1;
    }

    method Free(a: nat)
      requires Valid() && a in live
      modifies this`live, this`words
      ensures Valid() && live == old(live) - {a} && words == old(words) - {a}
    {
      live := live - {a};
      words := words - {a};
    }

    /** What the C library does when it is handed any address. Only code that can free a block
        twice uses this, and counts its calls. */
    method FreeUnchecked(a: nat)
      requires Valid()
      modifies this`live, this`words
      ensures Valid() && live == old(live) - {a} && words == old(words) - {a}
    {
      live := live - {a};
      words := words - {a};
    }

    method Store(a: nat, w: int)
      requires Valid() && a in live
      modifies this`words
      ensures Valid() && words == old(words)[a := w]
    {
      words := words[a := w];
    }
  }

  /** The requests numbered `from` up to `from + n` are all granted. */
  ghost predicate Granted(grants: nat -> bool, from: nat, n: nat) {
    forall k | from <= k < from + n :: grants(k)
  }

  /** What freeing some blocks leaves: the words of the blocks that are still live. */
  ghost predicate Freed(words: map<nat, int>, live: set<nat>, words': map<nat, int>, live': set<nat>) {
    && live' <= live
    && (forall a :: a in words' <==> a in words && a in live')
    && (forall a | a in words' :: words'[a] == words[a])
  }

  lemma FreedNone(words: map<nat, int>, live: set<nat>)
    requires words.Keys <= live
    ensures Freed(words, live, words, live)
  {
  }

  lemma FreedThen(w: map<nat, int>, l: set<nat>, w': map<nat, int>, l': set<nat>, w'': map<nat, int>, l'': set<nat>)
    requires Freed(w, l, w', l') && Freed(w', l', w'', l'')
    ensures Freed(w, l, w'', l'')
  {
  }
}
