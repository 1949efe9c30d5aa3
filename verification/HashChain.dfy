/**
 * Hash tables whose chains run through the entries themselves: the head of a slot and the link of an
 * entry are entry numbers, -1 is null, and new entries go to the front of their chain.
 */
module HashChain {

  /** The last of the first `n` entries in a slot, or -1. */
  function LastIn(slots: seq<nat>, n: nat, slot: nat): (r: int)
    requires n <= |slots|
    ensures -1 <= r < n
    ensures r >= 0 ==> slots[r] == slot
    ensures forall j :: r < j < n ==> slots[j] != slot
  {
    if n == 0 then -1
    else if slots[n - 1] == slot then n - 1
    else LastIn(slots, n - 1, slot)
  }

  /** The last of the first `n` flags that is set, or -1. */
  function LastTrue(flags: seq<bool>, n: nat): (r: int)
    requires n <= |flags|
    ensures -1 <= r < n
    ensures r >= 0 ==> flags[r]
    ensures forall j :: r < j < n ==> !flags[j]
  {
    if n == 0 then -1
    else if flags[n - 1] then n - 1
    else LastTrue(flags, n - 1)
  }

  /** Heads and links are as inserting the entries one after the other leaves them. */
  ghost predicate Linked(heads: seq<int>, next: seq<int>, slots: seq<nat>) {
    && |next| == |slots|
    && (forall slot: nat :: slot < |heads| ==> heads[slot] == LastIn(slots, |slots|, slot))
    && (forall k: nat :: k < |slots| ==> slots[k] < |heads| && next[k] == LastIn(slots, k, slots[k]))
  }

  lemma EmptyIsLinked(heads: seq<int>)
    requires forall slot: nat :: slot < |heads| ==> heads[slot] == -1
    ensures Linked(heads, [], [])
  {
  }

  lemma {:induction false} LastInOfMore(slots: seq<nat>, more: seq<nat>, n: nat, slot: nat)
    requires n <= |slots|
    ensures LastIn(slots + more, n, slot) == LastIn(slots, n, slot)
  {
    if n > 0 {
      LastInOfMore(slots, more, n - 1, slot);
    }
  }

  /** Putting a new entry in front of its chain keeps all chains. */
  lemma LinkInFront(heads: seq<int>, next: seq<int>, slots: seq<nat>, slot: nat)
    requires Linked(heads, next, slots) && slot < |heads|
    ensures Linked(heads[slot := |slots|], next + [heads[slot]], slots + [slot])
  {
    var heads', next', slots' := heads[slot := |slots|], next + [heads[slot]], slots + [slot];
    forall s: nat | s < |heads|
      ensures heads'[s] == LastIn(slots', |slots'|, s)
    {
      LastInOfMore(slots, [slot], |slots|, s);
    }
    forall k: nat | k < |slots'|
      ensures slots'[k] < |heads'| && next'[k] == LastIn(slots', k, slots'[k])
    {
      LastInOfMore(slots, [slot], k, slots'[k]);
    }
  }

  /** The entries that following the links from `at` visits. */
  function Chain(next: seq<int>, at: int): seq<int>
    requires forall k :: 0 <= k < |next| ==> -1 <= next[k] < k
    requires -1 <= at < |next|
    decreases at + 1
  {
    if at < 0 then [] else [at] + Chain(next, next[at])
  }

  /** The entries below `n` of one slot, each once, newest first. */
  ghost predicate LiesIn(chain: seq<int>, slots: seq<nat>, n: nat, slot: nat)
    requires n <= |slots|
  {
    && (forall k :: k in chain <==> 0 <= k < n && slots[k] == slot)
    && (forall i, j :: 0 <= i < j < |chain| ==> chain[i] > chain[j])
  }

  lemma LongerChain(rest: seq<int>, slots: seq<nat>, n: nat, slot: nat)
    requires n <= |slots| && LastIn(slots, n, slot) >= 0
    requires LiesIn(rest, slots, LastIn(slots, n, slot), slot)
    ensures LiesIn([LastIn(slots, n, slot)] + rest, slots, n, slot)
  {
    hide LastIn;
    var at := LastIn(slots, n, slot);
    var chain := [at] + rest;
    assert forall k :: k in chain <==> k == at || k in rest;
    forall i, j | 0 <= i < j < |chain|
      ensures chain[i] > chain[j]
    {
      assert chain[j] == rest[j - 1] && rest[j - 1] in rest;
    }
  }

  lemma {:induction false} ChainFrom(heads: seq<int>, next: seq<int>, slots: seq<nat>, n: nat, slot: nat)
    requires Linked(heads, next, slots) && n <= |slots|
    ensures LiesIn(Chain(next, LastIn(slots, n, slot)), slots, n, slot)
  {
    hide LastIn, LiesIn;
    var at := LastIn(slots, n, slot);
    if at >= 0 {
      ChainFrom(heads, next, slots, at, slot);
      LongerChain(Chain(next, next[at]), slots, n, slot);
    } else {
      EmptyChain(slots, n, slot);
    }
  }

  lemma EmptyChain(slots: seq<nat>, n: nat, slot: nat)
    requires n <= |slots| && LastIn(slots, n, slot) == -1
    ensures LiesIn([], slots, n, slot)
  {
  }

  /** Every entry is in the chain of its own slot, once, and in no other chain. */
  lemma EachInOneChain(heads: seq<int>, next: seq<int>, slots: seq<nat>, slot: nat)
    requires Linked(heads, next, slots) && slot < |heads|
    ensures LiesIn(Chain(next, heads[slot]), slots, |slots|, slot)
  {
    hide LastIn, LiesIn;
    ChainFrom(heads, next, slots, |slots|, slot);
  }

  /** The last of the first `n` entries that is in the slot and is wanted. */
  function LastWanted(slots: seq<nat>, wanted: seq<bool>, n: nat, slot: nat): (r: int)
    requires n <= |slots| == |wanted|
    ensures -1 <= r < n
    ensures r >= 0 ==> slots[r] == slot && wanted[r]
    ensures forall j :: r < j < n ==> slots[j] != slot || !wanted[j]
  {
    if n == 0 then -1
    else if slots[n - 1] == slot && wanted[n - 1] then n - 1
    else LastWanted(slots, wanted, n - 1, slot)
  }

  /** One step of a walk along a chain. */
  lemma WalkStep(slots: seq<nat>, wanted: seq<bool>, n: nat, slot: nat)
    requires n <= |slots| == |wanted|
    ensures (var k := LastIn(slots, n, slot);
             LastWanted(slots, wanted, n, slot)
             == if k < 0 then -1 else if wanted[k] then k else LastWanted(slots, wanted, k, slot))
  {
    hide LastIn, LastWanted;
    var k, r := LastIn(slots, n, slot), LastWanted(slots, wanted, n, slot);
    if k >= 0 && !wanted[k] {
      var r' := LastWanted(slots, wanted, k, slot);
      assert r <= k ==> r <= k - 1;
      assert r == r';
    }
  }

  /** The walk finds what a scan of all entries finds exactly if that is nothing, or lies in the slot. */
  lemma ChainIsEnoughIff(slots: seq<nat>, wanted: seq<bool>, n: nat, slot: nat)
    requires n <= |slots| == |wanted|
    ensures LastWanted(slots, wanted, n, slot) == LastTrue(wanted, n)
       <==> LastTrue(wanted, n) < 0 || slots[LastTrue(wanted, n)] == slot
  {
    hide LastWanted, LastTrue;
    var r, t := LastWanted(slots, wanted, n, slot), LastTrue(wanted, n);
    assert t >= 0 ==> wanted[t];
    assert r >= 0 ==> wanted[r];
  }
}
