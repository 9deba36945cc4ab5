/** Which stacks survive a merge round: stacks are grouped by (state, byte), and a key
    keeps a bounded number of survivors chosen by rank.  Whether two stacks merge in the
    graph or count as duplicates is decided elsewhere and may change from call to call;
    here it is an oracle consulted with a running call number. */
module Survivors {

  datatype Stack = Stack(id: nat, state: nat, byteOffset: nat, accepted: bool, score: int, shifted: bool, depth: nat, branchOrder: nat)

  datatype Key = Key(state: nat, byteOffset: nat)

  function KeyOf(s: Stack): Key {
    if s.depth == 0 then Key(0, 0) else Key(s.state, s.byteOffset)
  }

  /** Stacks that hold something share a key exactly when they are in one state at one byte. */
  lemma KeysMeetIff(a: Stack, b: Stack)
    requires a.depth > 0 && b.depth > 0
    ensures KeyOf(a) == KeyOf(b) <==> a.state == b.state && a.byteOffset == b.byteOffset
  {
  }

  // ----- rank ---------------------------------------------------------------

  /** Accepted first, then score, then not yet shifted, then depth, then offset, then the
      earlier branch. */
  function Compare(a: Stack, b: Stack): int {
    if a.accepted != b.accepted then (if a.accepted then 1 else -1)
    else if a.score != b.score then (if a.score > b.score then 1 else -1)
    else if a.shifted != b.shifted then (if !a.shifted then 1 else -1)
    else if a.depth != b.depth then (if a.depth > b.depth then 1 else -1)
    else if a.byteOffset != b.byteOffset then (if a.byteOffset > b.byteOffset then 1 else -1)
    else if a.branchOrder != b.branchOrder then (if a.branchOrder < b.branchOrder then 1 else -1)
    else 0
  }

  /** What counts for rank, the weightiest first, more being better. */
  function Merits(s: Stack): (ms: seq<int>)
    ensures |ms| == 6
  {
    [if s.accepted then 1 else 0, s.score, if s.shifted then 0 else 1, s.depth, s.byteOffset, -(s.branchOrder as int)]
  }

  /** `x` is greater where the two first differ. */
  ghost predicate GreaterFirst(x: seq<int>, y: seq<int>) {
    exists k: nat :: k < |x| && k < |y| && x[k] > y[k] && forall j: nat :: j < k ==> x[j] == y[j]
  }

  /** The comparison is the lexicographic one of the merits. */
  lemma {:induction false} CompareIsLexicographic(a: Stack, b: Stack)
    ensures Compare(a, b) > 0 <==> GreaterFirst(Merits(a), Merits(b))
    ensures Compare(a, b) < 0 <==> GreaterFirst(Merits(b), Merits(a))
    ensures Compare(a, b) == 0 <==> Merits(a) == Merits(b)
  {
    var x, y := Merits(a), Merits(b);
    if k: nat :| k < 6 && x[k] != y[k] && forall j: nat :: j < k ==> x[j] == y[j] {
      FirstDifference(x, y, k);
    } else {
      SameMerits(x, y);
    }
    assert x[1] == a.score && x[3] == a.depth && x[4] == a.byteOffset && x[5] == -(a.branchOrder as int);
    assert y[1] == b.score && y[3] == b.depth && y[4] == b.byteOffset && y[5] == -(b.branchOrder as int);
    assert x[0] == y[0] <==> a.accepted == b.accepted;
    assert x[2] == y[2] <==> a.shifted == b.shifted;
  }

  /** The first difference decides. */
  lemma {:induction false} FirstDifference(x: seq<int>, y: seq<int>, k: nat)
    requires k < |x| && k < |y| && x[k] != y[k] && forall j: nat :: j < k ==> x[j] == y[j]
    ensures GreaterFirst(x, y) <==> x[k] > y[k]
    ensures GreaterFirst(y, x) <==> x[k] < y[k]
  {
  }

  /** Without a first difference there is none. */
  lemma {:induction false} SameMerits(x: seq<int>, y: seq<int>)
    requires |x| == |y| == 6 && !exists k: nat :: k < 6 && x[k] != y[k] && forall j: nat :: j < k ==> x[j] == y[j]
    ensures x == y && !GreaterFirst(x, y) && !GreaterFirst(y, x)
  {
    var k := 0;
    while k < 6
      invariant 0 <= k <= 6 && forall j: nat :: j < k ==> x[j] == y[j]
    {
      k := k + 1;
    }
  }

  /** The comparison is a total preorder. */
  lemma CompareOrders(a: Stack, b: Stack, c: Stack)
    ensures Compare(a, b) == -Compare(b, a) && Compare(a, a) == 0
    ensures Compare(a, b) <= 0 && Compare(b, c) <= 0 ==> Compare(a, c) <= 0
    ensures Compare(a, b) <= 0 && Compare(b, c) < 0 ==> Compare(a, c) < 0
  {
  }

  // ----- oracles ------------------------------------------------------------

  datatype Attempt = NotTried | Refused | Merged

  datatype Oracle = Oracle(attempt: (nat, Stack, Stack) -> Attempt, same: (nat, Stack, Stack) -> bool, hash: Stack -> nat)

  /** Decisions taken elsewhere, asked with a running call number: the merge oracle, the
      cap-one comparison, the recovery-cost class of a stack among the survivors of its
      key (a survivor of equal cost, or whether a new cost must be preserved), and
      whether cap-one merges are faithful or recovery-suppressed. */
  datatype Choices = Choices(
    o: Oracle, capOne: (nat, Stack, Stack) -> int, sameCost: (nat, Stack) -> int, newCost: (nat, Stack) -> bool,
    faithful: bool, suppress: bool)

  // ----- one key's slot -----------------------------------------------------

  /** The survivors of one key: their positions in the result, their hashes, a 64-bit
      membership mask of the hashes, and the position of the lowest-ranked survivor. */
  datatype Slot = Slot(key: Key, indices: seq<nat>, hashes: seq<nat>, mask: set<nat>, worst: nat)

  ghost predicate Holds(result: seq<Stack>, slot: Slot, j: nat)
    requires j < |slot.indices|
  {
    && slot.indices[j] < |result| && KeyOf(result[slot.indices[j]]) == slot.key
    && slot.worst < |result| && Compare(result[slot.worst], result[slot.indices[j]]) <= 0
  }

  ghost predicate Distinct(indices: seq<nat>) {
    forall i: nat, j: nat :: i < j < |indices| ==> indices[i] != indices[j]
  }

  /** The slot holds different stacks of its key, and `worst` is a minimum of them. */
  ghost predicate SlotOk(result: seq<Stack>, slot: Slot) {
    && 1 <= |slot.indices| == |slot.hashes| && slot.worst < |result|
    && (forall j: nat :: j < |slot.indices| ==> slot.indices[j] < |result|)
    && (forall j: nat :: j < |slot.indices| ==> Holds(result, slot, j))
    && slot.worst in slot.indices && Distinct(slot.indices)
    && (forall j: nat :: j < |slot.hashes| ==> slot.hashes[j] % 64 in slot.mask)
  }

  function Mask(hashes: seq<nat>): (m: set<nat>)
    ensures forall j: nat :: j < |hashes| ==> hashes[j] % 64 in m
  {
    if hashes == [] then {} else Mask(hashes[..|hashes| - 1]) + {hashes[|hashes| - 1] % 64}
  }

  /** The first lowest-ranked position of a slot. */
  method RecomputeWorst(result: seq<Stack>, indices: seq<nat>) returns (worst: nat)
    requires |indices| > 0 && forall j: nat :: j < |indices| ==> indices[j] < |result|
    ensures worst in indices && worst < |result|
    ensures forall j: nat :: j < |indices| ==> Compare(result[worst], result[indices[j]]) <= 0
  {
    worst := indices[0];
    var j := 1;
    while j < |indices|
      invariant 1 <= j <= |indices| && worst in indices && worst < |result|
      invariant forall k: nat :: k < j ==> Compare(result[worst], result[indices[k]]) <= 0
    {
      if Compare(result[indices[j]], result[worst]) < 0 {
        forall k: nat | k < j
          ensures Compare(result[indices[j]], result[indices[k]]) <= 0
        {
          CompareOrders(result[indices[j]], result[worst], result[indices[k]]);
        }
        worst := indices[j];
      } else {
        CompareOrders(result[indices[j]], result[worst], result[worst]);
      }
      j := j + 1;
    }
  }

  /** Position `p` is not one of the slot's. */
  ghost predicate Outside(slot: Slot, p: nat) {
    p !in slot.indices
  }

  /** What admitting a stack to its slot may do to the rest of the result. */
  ghost predicate OnlyInSlot(before: seq<Stack>, after: seq<Stack>, slot: Slot, next: Slot) {
    && |before| <= |after| && next.key == slot.key
    && (forall p: nat :: p < |before| && Outside(slot, p) ==> after[p] == before[p])
    && (forall j: nat :: j < |slot.indices| ==> slot.indices[j] in next.indices)
    && (forall p: nat :: |before| <= p < |after| ==> p in next.indices)
    && (forall j: nat :: j < |next.indices| ==> next.indices[j] in slot.indices || |before| <= next.indices[j] < |after|)
  }

  /** The slot's least rank has not fallen. */
  ghost predicate FloorKept(before: seq<Stack>, slot: Slot, after: seq<Stack>, next: Slot) {
    slot.worst < |before| && next.worst < |after| && Compare(before[slot.worst], after[next.worst]) <= 0
  }

  /** Puts `stack` in the place of survivor `j`.  The lowest-ranked survivor is looked up
      again when that survivor is replaced, or on any replacement by rank. */
  method Replace(result: seq<Stack>, slot: Slot, j: nat, stack: Stack, hash: nat, byRank: bool) returns (after: seq<Stack>, next: Slot)
    requires SlotOk(result, slot) && j < |slot.indices| && KeyOf(stack) == slot.key
    requires byRank || (hash == slot.hashes[j] && Compare(result[slot.indices[j]], stack) <= 0)
    ensures SlotOk(after, next) && OnlyInSlot(result, after, slot, next)
    ensures next.indices == slot.indices && after == result[slot.indices[j] := stack]
    ensures Compare(result[slot.indices[j]], stack) <= 0 ==> FloorKept(result, slot, after, next)
  {
    assert Holds(result, slot, j);
    var at := slot.indices[j];
    after := result[at := stack];
    forall k: nat | k < |slot.indices|
      ensures slot.indices[k] < |after| && KeyOf(after[slot.indices[k]]) == slot.key
      ensures Compare(result[at], stack) <= 0 ==> Compare(result[slot.worst], after[slot.indices[k]]) <= 0
    {
      assert Holds(result, slot, k);
      CompareOrders(result[slot.worst], result[at], stack);
    }
    var worst := slot.worst;
    if byRank || worst == at {
      worst := RecomputeWorst(after, slot.indices);
    }
    var hashes := slot.hashes[j := hash];
    next := Slot(slot.key, slot.indices, hashes, if byRank then Mask(hashes) else slot.mask, worst);
    forall k: nat | k < |next.indices|
      ensures Holds(after, next, k)
    {
    }
    ghost var w: nat :| w < |slot.indices| && slot.indices[w] == worst;
    assert KeyOf(after[slot.indices[w]]) == slot.key;
  }

  /** Appends `stack` as a further survivor. */
  method Append(result: seq<Stack>, slot: Slot, stack: Stack, hash: nat) returns (after: seq<Stack>, next: Slot)
    requires SlotOk(result, slot) && KeyOf(stack) == slot.key
    ensures SlotOk(after, next) && OnlyInSlot(result, after, slot, next) && after == result + [stack]
    ensures |next.indices| == |slot.indices| + 1
  {
    var at := |result|;
    after := result + [stack];
    assert Holds(result, slot, 0);
    var lower := Compare(stack, result[slot.worst]) < 0;
    next := Slot(slot.key, slot.indices + [at], slot.hashes + [hash], slot.mask + {hash % 64}, if lower then at else slot.worst);
    forall k: nat | k < |next.indices|
      ensures Holds(after, next, k)
    {
      if k < |slot.indices| {
        assert Holds(result, slot, k);
        CompareOrders(stack, result[slot.worst], result[slot.indices[k]]);
      } else {
        CompareOrders(stack, result[slot.worst], stack);
      }
    }
    assert forall k: nat :: k < |slot.indices| ==> next.indices[k] == slot.indices[k];
    assert next.indices[|slot.indices|] == at;
    assert next.worst in next.indices by {
      if !lower {
        var w: nat :| w < |slot.indices| && slot.indices[w] == slot.worst;
        assert next.indices[w] == slot.worst;
      }
    }
  }

  // ----- where the stacks of a round go -----------------------------------------

  /** By the cap-one rules `x` gives way to `y`: it ranks no higher by rank or by the cap-one
      comparison, or the two tie and recovery suppresses the fallback. */
  ghost predicate BeatenBy(c: Choices, x: Stack, y: Stack, clock: nat) {
    || Compare(x, y) <= 0 || c.capOne(clock, x, y) < 0 || c.capOne(clock, y, x) > 0
    || (c.suppress && c.capOne(clock, x, y) == 0)
  }

  /** At call number `clock` stack `x` was folded into `y` of its key: by a graph merge, or as
      a duplicate that ranks no higher, or, when a key keeps one survivor, as the lesser. */
  ghost predicate FoldedBy(c: Choices, one: bool, x: Stack, y: Stack, clock: nat) {
    KeyOf(x) == KeyOf(y) &&
    (|| c.o.attempt(clock, y, x) == Merged
     || ((c.o.same(clock, y, x) || c.o.same(clock, x, y)) && Compare(x, y) <= 0)
     || (one && BeatenBy(c, x, y, clock)))
  }

  /** Folded into another stack of `pool` by one of the calls after `from` up to `til`. */
  ghost predicate Folded(c: Choices, one: bool, x: Stack, pool: multiset<Stack>, from: nat, til: nat) {
    exists y, clock {:trigger FoldedBy(c, one, x, y, clock)} ::
      y in pool - multiset{x} && from < clock <= til && FoldedBy(c, one, x, y, clock)
  }

  /** At call number `clock` stack `x` was kept beside `y` of its key whatever the cap: a graph
      merge was tried and refused or, when a key keeps one survivor, its recovery cost is new. */
  ghost predicate SparedBy(c: Choices, one: bool, x: Stack, y: Stack, clock: nat) {
    KeyOf(x) == KeyOf(y) && (c.o.attempt(clock, y, x) == Refused || (one && c.newCost(clock, x)))
  }

  ghost predicate Spare(c: Choices, one: bool, x: Stack, pool: multiset<Stack>, from: nat, til: nat) {
    exists y, clock {:trigger SparedBy(c, one, x, y, clock)} ::
      y in pool - multiset{x} && from < clock <= til && SparedBy(c, one, x, y, clock)
  }

  lemma {:induction false} FoldedWider(c: Choices, one: bool, x: Stack, pool: multiset<Stack>, from: nat, til: nat,
                                       wider: multiset<Stack>, first: nat, last: nat)
    requires pool <= wider && first <= from && til <= last
    ensures Folded(c, one, x, pool, from, til) ==> Folded(c, one, x, wider, first, last)
    ensures Spare(c, one, x, pool, from, til) ==> Spare(c, one, x, wider, first, last)
  {
    if Folded(c, one, x, pool, from, til) {
      var y, clock :| y in pool - multiset{x} && from < clock <= til && FoldedBy(c, one, x, y, clock);
      assert y in wider - multiset{x} && FoldedBy(c, one, x, y, clock);
    }
    if Spare(c, one, x, pool, from, til) {
      var y, clock :| y in pool - multiset{x} && from < clock <= til && SparedBy(c, one, x, y, clock);
      assert y in wider - multiset{x} && SparedBy(c, one, x, y, clock);
    }
  }

  /** The stacks present in one step. */
  ghost function Pool(result: seq<Stack>, stack: Stack): multiset<Stack> {
    multiset(result) + multiset{stack}
  }

  /** What one step did: the stack was kept, or kept beyond the cap, or one stack was given up. */
  datatype Given = Kept | Spared | FoldedAway(stack: Stack) | Overflowed(stack: Stack)

  /** The accounts of one step: nothing vanishes and nothing is made up. */
  ghost predicate Accounts(before: seq<Stack>, stack: Stack, after: seq<Stack>, g: Given) {
    multiset(before) + multiset{stack}
    == multiset(after) + (if g.Kept? || g.Spared? then multiset{} else multiset{g.stack})
  }

  lemma {:induction false} ReplaceAccounts(before: seq<Stack>, p: nat, stack: Stack)
    requires p < |before|
    ensures multiset(before) + multiset{stack} == multiset(before[p := stack]) + multiset{before[p]}
    ensures stack in Pool(before, stack) - multiset{before[p]} && before[p] in Pool(before, stack) - multiset{stack}
  {
    var after := before[p := stack];
    assert before == before[..p] + [before[p]] + before[p + 1..];
    assert after == before[..p] + [stack] + before[p + 1..];
  }

  /** Why a step was allowed to do what it did. */
  ghost predicate Grounds(c: Choices, one: bool, stack: Stack, pool: multiset<Stack>, from: nat, til: nat, g: Given) {
    && (g.FoldedAway? ==> Folded(c, one, g.stack, pool, from, til))
    && (g.Spared? ==> Spare(c, one, stack, pool, from, til))
  }

  lemma {:induction false} GroundsWider(c: Choices, one: bool, stack: Stack, pool: multiset<Stack>, from: nat, til: nat, g: Given,
                                        first: nat, last: nat)
    requires Grounds(c, one, stack, pool, from, til, g) && first <= from && til <= last
    ensures Grounds(c, one, stack, pool, first, last, g)
  {
    if g.FoldedAway? {
      FoldedWider(c, one, g.stack, pool, from, til, pool, first, last);
    }
    FoldedWider(c, one, stack, pool, from, til, pool, first, last);
  }

  /** What a step does to the slot of its stack.  While a key keeps several survivors, only a
      stack kept beyond the cap can lower the least rank of a full slot. */
  ghost predicate Stepped(before: seq<Stack>, slot: Slot, after: seq<Stack>, next: Slot, g: Given, cap: nat) {
    && SlotOk(after, next) && OnlyInSlot(before, after, slot, next)
    && |next.indices| == |slot.indices| + (if g.Kept? || g.Spared? then 1 else 0)
    && (g.Kept? ==> |slot.indices| < cap)
    && (cap > 1 && cap <= |slot.indices| && !g.Spared? ==> FloorKept(before, slot, after, next))
    && (g.Overflowed? ==>
          1 < cap <= |slot.indices| && KeyOf(g.stack) == slot.key && Compare(g.stack, after[next.worst]) <= 0)
  }

  // ----- admitting one stack (more than six survivors per key) ----------------

  /** One of the calls after `from` up to `til` found the two stacks different. */
  ghost predicate ToldApart(o: Oracle, x: Stack, y: Stack, from: nat, til: nat) {
    exists t: nat {:trigger o.same(t, x, y)} :: from < t <= til && !o.same(t, x, y)
  }

  /** One of the calls after `from` up to `til` tried to merge `y` into `x`, in vain. */
  ghost predicate NotMerged(o: Oracle, x: Stack, y: Stack, from: nat, til: nat) {
    exists t: nat {:trigger o.attempt(t, x, y)} :: from < t <= til && o.attempt(t, x, y) != Merged
  }

  /** The stack matches no survivor of its slot: every merge was tried in vain and, where
      `compared`, every survivor of the same hash was told apart. */
  ghost predicate Unmatched(o: Oracle, result: seq<Stack>, slot: Slot, stack: Stack, compared: bool, from: nat, til: nat)
    requires SlotOk(result, slot)
  {
    && (forall j: nat :: j < |slot.indices| ==> NotMerged(o, result[slot.indices[j]], stack, from, til))
    && (compared ==> forall j: nat :: j < |slot.indices| && slot.hashes[j] == o.hash(stack) ==>
                       ToldApart(o, result[slot.indices[j]], stack, from, til))
  }

  lemma {:induction false} UnmatchedSince(o: Oracle, result: seq<Stack>, slot: Slot, stack: Stack, compared: bool,
                                          clock: nat, tried: nat, from: nat, til: nat, last: nat)
    requires SlotOk(result, slot) && clock <= from && tried <= last && til <= last
    requires forall j: nat :: j < |slot.indices| ==> NotMerged(o, result[slot.indices[j]], stack, clock, tried)
    requires compared ==> forall j: nat :: j < |slot.indices| && slot.hashes[j] == o.hash(stack) ==>
                            ToldApart(o, result[slot.indices[j]], stack, from, til)
    ensures Unmatched(o, result, slot, stack, compared, clock, last)
  {
  }

  /** Tries a graph merge with each survivor of the key. */
  method TryMerges(c: Choices, one: bool, clock: nat, result: seq<Stack>, slot: Slot, stack: Stack)
    returns (attempted: bool, merged: bool, tick: nat)
    requires SlotOk(result, slot) && KeyOf(stack) == slot.key
    ensures clock < tick <= clock + |slot.indices|
    ensures merged ==> Folded(c, one, stack, Pool(result, stack), clock, tick)
    ensures attempted && !merged ==> Spare(c, one, stack, Pool(result, stack), clock, tick)
    ensures !merged ==> forall j: nat :: j < |slot.indices| ==> NotMerged(c.o, result[slot.indices[j]], stack, clock, tick)
  {
    tick, attempted, merged := clock, false, false;
    var j := 0;
    while j < |slot.indices|
      invariant 0 <= j <= |slot.indices| && tick == clock + j && !merged
      invariant attempted ==> Spare(c, one, stack, Pool(result, stack), clock, tick)
      invariant forall k: nat :: k < j ==> NotMerged(c.o, result[slot.indices[k]], stack, clock, tick)
    {
      assert Holds(result, slot, j);
      ReplaceAccounts(result, slot.indices[j], stack);
      FoldedWider(c, one, stack, Pool(result, stack), clock, tick, Pool(result, stack), clock, tick + 1);
      tick := tick + 1;
      var outcome := c.o.attempt(tick, result[slot.indices[j]], stack);
      if outcome == Merged {
        assert FoldedBy(c, one, stack, result[slot.indices[j]], tick);
        return true, true, tick;
      }
      if outcome == Refused {
        assert SparedBy(c, one, stack, result[slot.indices[j]], tick);
        attempted := true;
      }
      j := j + 1;
    }
  }

  /** Looks for the first duplicate among the survivors with the same hash. */
  method FindDuplicate(o: Oracle, clock: nat, result: seq<Stack>, slot: Slot, stack: Stack, hash: nat) returns (at: nat, tick: nat)
    requires SlotOk(result, slot)
    ensures at <= |slot.indices| && clock <= tick <= clock + |slot.indices|
    ensures at < |slot.indices| ==> clock < tick && slot.hashes[at] == hash && o.same(tick, result[slot.indices[at]], stack)
    ensures forall j: nat :: j < at && slot.hashes[j] == hash ==> ToldApart(o, result[slot.indices[j]], stack, clock, tick)
  {
    tick := clock;
    if hash % 64 in slot.mask {
      at := 0;
      while at < |slot.indices|
        invariant 0 <= at <= |slot.indices| && clock <= tick <= clock + at
        invariant forall j: nat :: j < at && slot.hashes[j] == hash ==> ToldApart(o, result[slot.indices[j]], stack, clock, tick)
      {
        if slot.hashes[at] == hash {
          tick := tick + 1;
          if o.same(tick, result[slot.indices[at]], stack) {
            return;
          }
        }
        at := at + 1;
      }
    }
    return |slot.indices|, tick;
  }

  /** A duplicate at `j`: the higher-ranked of the two stays, the newcomer on a tie. */
  method KeepBetter(c: Choices, one: bool, clock: nat, tick: nat, result: seq<Stack>, slot: Slot, j: nat, stack: Stack, hash: nat, cap: nat)
    returns (after: seq<Stack>, next: Slot, ghost g: Given)
    requires SlotOk(result, slot) && KeyOf(stack) == slot.key && j < |slot.indices| && slot.hashes[j] == hash
    requires clock < tick && c.o.same(tick, result[slot.indices[j]], stack)
    ensures Stepped(result, slot, after, next, g, cap) && Accounts(result, stack, after, g)
    ensures g == FoldedAway(if Compare(stack, result[slot.indices[j]]) >= 0 then result[slot.indices[j]] else stack)
    ensures Grounds(c, one, stack, Pool(result, stack), clock, tick, g)
  {
    assert Holds(result, slot, j);
    var incumbent := result[slot.indices[j]];
    ReplaceAccounts(result, slot.indices[j], stack);
    CompareOrders(stack, incumbent, stack);
    CompareOrders(result[slot.worst], result[slot.worst], stack);
    if Compare(stack, incumbent) >= 0 {
      assert FoldedBy(c, one, incumbent, stack, tick);
      after, next := Replace(result, slot, j, stack, hash, false);
      g := FoldedAway(incumbent);
    } else {
      assert FoldedBy(c, one, stack, incumbent, tick);
      after, next, g := result, slot, FoldedAway(stack);
    }
  }

  /** Admits a stack to the slot of its key: folded into a survivor, taken as a further
      survivor, or in competition with the lowest-ranked one. */
  method Admit(c: Choices, clock: nat, result: seq<Stack>, slot: Slot, stack: Stack, cap: nat)
    returns (after: seq<Stack>, next: Slot, ghost g: Given, tick: nat)
    requires SlotOk(result, slot) && KeyOf(stack) == slot.key && cap > 1
    ensures Stepped(result, slot, after, next, g, cap) && Accounts(result, stack, after, g) && !g.Spared?
    ensures Grounds(c, false, stack, Pool(result, stack), clock, tick, g)
    ensures !g.FoldedAway? ==> Unmatched(c.o, result, slot, stack, true, clock, tick)
    ensures clock <= tick <= clock + 2 * |slot.indices|
  {
    after, next, g := result, slot, FoldedAway(stack);
    CompareOrders(result[slot.worst], result[slot.worst], stack);
    var hash := c.o.hash(stack);
    var _, merged, tried := TryMerges(c, false, clock, result, slot, stack);
    tick := tried;
    if merged {
      return;
    }
    var at;
    at, tick := FindDuplicate(c.o, tick, result, slot, stack, hash);
    if at < |slot.indices| {
      after, next, g := KeepBetter(c, false, clock, tick, result, slot, at, stack, hash, cap);
      return;
    }
    if |slot.indices| < cap {
      after, next := Append(result, slot, stack, hash);
      g := Kept;
      return;
    }
    ghost var x, y;
    var won;
    after, next, x, y, won := Compete(result, slot, stack, hash);
    g := Overflowed(x);
  }

  /** The place of the lowest-ranked survivor within its slot. */
  method WorstPlace(slot: Slot) returns (j: nat)
    requires slot.worst in slot.indices
    ensures j < |slot.indices| && slot.indices[j] == slot.worst
  {
    j := 0;
    while slot.indices[j] != slot.worst
      invariant 0 <= j < |slot.indices|
      invariant forall k: nat :: k < j ==> slot.indices[k] != slot.worst
      decreases |slot.indices| - j
    {
      ghost var w: nat :| w < |slot.indices| && slot.indices[w] == slot.worst;
      j := j + 1;
    }
  }

  /** A full slot: the stack replaces the lowest-ranked survivor if it is better, on equal rank if
      it has the higher hash.  Either way `x` gives way to `y`. */
  method Compete(result: seq<Stack>, slot: Slot, stack: Stack, hash: nat)
    returns (after: seq<Stack>, next: Slot, ghost x: Stack, ghost y: Stack, won: bool)
    requires SlotOk(result, slot) && KeyOf(stack) == slot.key
    ensures SlotOk(after, next) && OnlyInSlot(result, after, slot, next) && |next.indices| == |slot.indices|
    ensures FloorKept(result, slot, after, next) && Accounts(result, stack, after, Overflowed(x))
    ensures KeyOf(x) == KeyOf(y) == slot.key && Compare(x, after[next.worst]) <= 0
    ensures y in Pool(result, stack) - multiset{x} && Compare(x, y) <= 0
    ensures (x, y) == if won then (result[slot.worst], stack) else (stack, result[slot.worst])
    ensures Compare(x, y) == 0 ==>
      forall j: nat :: j < |slot.indices| && slot.indices[j] == slot.worst ==> (won <==> hash > slot.hashes[j])
  {
    var j := WorstPlace(slot);
    assert Holds(result, slot, j);
    var incumbent := result[slot.worst];
    var cmp := Compare(stack, incumbent);
    CompareOrders(stack, incumbent, incumbent);
    CompareOrders(incumbent, incumbent, incumbent);
    ReplaceAccounts(result, slot.indices[j], stack);
    if !(cmp > 0 || (cmp == 0 && hash > slot.hashes[j])) {
      return result, slot, stack, incumbent, false;
    }
    after, next := Replace(result, slot, j, stack, hash, true);
    x, y, won := incumbent, stack, true;
  }

  // ----- the whole round ----------------------------------------------------

  /** What became of the inputs that are not survivors, and which stacks were kept whatever the cap. */
  datatype Books = Books(lost: seq<Stack>, folded: seq<Stack>, spared: seq<Stack>)

  /** How many stacks of `xs` have this key. */
  ghost function Times(xs: seq<Stack>, key: Key): (n: nat)
    ensures n <= |xs|
  {
    if xs == [] then 0 else Times(xs[..|xs| - 1], key) + (if KeyOf(xs[|xs| - 1]) == key then 1 else 0)
  }

  lemma {:induction false} TimesMore(xs: seq<Stack>, x: Stack, key: Key)
    ensures Times(xs + [x], key) == Times(xs, key) + (if KeyOf(x) == key then 1 else 0)
  {
    assert (xs + [x])[..|xs|] == xs;
  }

  ghost function Booked(b: Books, stack: Stack, g: Given): Books {
    match g
    case Kept => b
    case Spared => b.(spared := b.spared + [stack])
    case FoldedAway(x) => b.(folded := b.folded + [x])
    case Overflowed(x) => b.(lost := b.lost + [x])
  }

  /** Every input is a survivor, folded or lost. */
  ghost predicate Balanced(inputs: multiset<Stack>, result: seq<Stack>, b: Books) {
    inputs == multiset(result) + multiset(b.lost) + multiset(b.folded)
  }

  lemma {:induction false} BalancedOneMore(inputs: multiset<Stack>, before: seq<Stack>, stack: Stack, after: seq<Stack>, g: Given, b: Books)
    requires Balanced(inputs, before, b) && Accounts(before, stack, after, g)
    ensures Balanced(inputs + multiset{stack}, after, Booked(b, stack, g))
  {
    assert inputs + multiset{stack} == (multiset(before) + multiset{stack}) + multiset(b.lost) + multiset(b.folded);
    if g.FoldedAway? || g.Overflowed? {
      assert multiset(b.lost + [g.stack]) == multiset(b.lost) + multiset{g.stack};
      assert multiset(b.folded + [g.stack]) == multiset(b.folded) + multiset{g.stack};
    }
  }

  ghost predicate OwnedBy(result: seq<Stack>, slot: Slot, p: nat)
    requires p < |result|
  {
    slot.key == KeyOf(result[p]) && p in slot.indices
  }

  ghost predicate Owned(result: seq<Stack>, slots: seq<Slot>, p: nat)
    requires p < |result|
  {
    exists i: nat :: i < |slots| && OwnedBy(result, slots[i], p)
  }

  /** Slots of distinct keys that between them hold the whole result. */
  ghost predicate Tidy(result: seq<Stack>, slots: seq<Slot>) {
    && (forall i: nat, j: nat :: i < j < |slots| ==> slots[i].key != slots[j].key)
    && (forall i: nat :: i < |slots| ==> SlotOk(result, slots[i]))
    && (forall p: nat :: p < |result| ==> Owned(result, slots, p))
  }

  /** No slot holds more than `cap` stacks beside those of its key that were spared. */
  ghost predicate Within(slots: seq<Slot>, cap: nat, spared: seq<Stack>) {
    forall i: nat :: i < |slots| ==> |slots[i].indices| <= cap + Times(spared, slots[i].key)
  }

  /** The slot of a lost stack is full, and unless one of its key was spared the lost stack
      ranks no higher than any survivor of its key. */
  ghost predicate Outranked(result: seq<Stack>, slot: Slot, cap: nat, x: Stack, spared: seq<Stack>) {
    && slot.key == KeyOf(x) && 1 < cap <= |slot.indices| && slot.worst < |result|
    && (Times(spared, slot.key) == 0 ==> Compare(x, result[slot.worst]) <= 0)
  }

  ghost predicate LostOk(result: seq<Stack>, slots: seq<Slot>, cap: nat, b: Books) {
    forall x: Stack {:trigger x in b.lost} :: x in b.lost ==>
      exists i: nat :: i < |slots| && Outranked(result, slots[i], cap, x, b.spared)
  }

  lemma {:induction false} SlotUnmoved(result: seq<Stack>, after: seq<Stack>, slot: Slot, next: Slot, other: Slot)
    requires SlotOk(result, slot) && SlotOk(result, other) && slot.key != other.key
    requires OnlyInSlot(result, after, slot, next)
    ensures SlotOk(after, other) && after[other.worst] == result[other.worst]
  {
    forall j: nat | j < |other.indices|
      ensures Outside(slot, other.indices[j]) && after[other.indices[j]] == result[other.indices[j]]
    {
      assert Holds(result, other, j);
      forall k: nat | k < |slot.indices|
        ensures slot.indices[k] != other.indices[j]
      {
        assert Holds(result, slot, k);
      }
    }
    var w: nat :| w < |other.indices| && other.indices[w] == other.worst;
    assert after[other.indices[w]] == result[other.indices[w]];
    forall j: nat | j < |other.indices|
      ensures Holds(after, other, j)
    {
      assert Holds(result, other, j);
    }
  }

  lemma {:induction false} TidyAfter(result: seq<Stack>, slots: seq<Slot>, s: nat, after: seq<Stack>, next: Slot)
    requires Tidy(result, slots) && s < |slots|
    requires SlotOk(after, next) && OnlyInSlot(result, after, slots[s], next)
    ensures Tidy(after, slots[s := next])
  {
    var now := slots[s := next];
    forall i: nat | i < |now|
      ensures SlotOk(after, now[i])
    {
      if i != s {
        SlotUnmoved(result, after, slots[s], next, slots[i]);
      }
    }
    forall p: nat | p < |after|
      ensures Owned(after, now, p)
    {
      if p in next.indices {
        var k: nat :| k < |next.indices| && next.indices[k] == p;
        assert Holds(after, next, k);
        assert OwnedBy(after, now[s], p);
      } else {
        assert Owned(result, slots, p);
        var i: nat :| i < |slots| && OwnedBy(result, slots[i], p);
        assert Outside(slots[s], p) && after[p] == result[p];
        assert OwnedBy(after, now[i], p);
      }
    }
  }

  lemma {:induction false} WithinAfter(slots: seq<Slot>, s: nat, before: seq<Stack>, after: seq<Stack>, next: Slot, cap: nat,
                                       b: Books, stack: Stack, g: Given)
    requires Within(slots, cap, b.spared) && s < |slots| && KeyOf(stack) == slots[s].key
    requires Stepped(before, slots[s], after, next, g, cap)
    ensures Within(slots[s := next], cap, Booked(b, stack, g).spared)
  {
    var now := slots[s := next];
    forall i: nat | i < |now|
      ensures |now[i].indices| <= cap + Times(Booked(b, stack, g).spared, now[i].key)
    {
      TimesMore(b.spared, stack, slots[i].key);
    }
  }

  lemma {:induction false} LostAfter(result: seq<Stack>, slots: seq<Slot>, s: nat, after: seq<Stack>, next: Slot, cap: nat,
                                     b: Books, stack: Stack, g: Given)
    requires Tidy(result, slots) && s < |slots| && LostOk(result, slots, cap, b) && KeyOf(stack) == slots[s].key
    requires Stepped(result, slots[s], after, next, g, cap)
    ensures LostOk(after, slots[s := next], cap, Booked(b, stack, g))
  {
    var now, more := slots[s := next], Booked(b, stack, g);
    forall x: Stack | x in more.lost
      ensures exists i: nat :: i < |now| && Outranked(after, now[i], cap, x, more.spared)
    {
      if x in b.lost {
        var i: nat :| i < |slots| && Outranked(result, slots[i], cap, x, b.spared);
        TimesMore(b.spared, stack, slots[i].key);
        if i == s {
          CompareOrders(x, result[slots[s].worst], after[next.worst]);
        } else {
          SlotUnmoved(result, after, slots[s], next, slots[i]);
        }
        assert Outranked(after, now[i], cap, x, more.spared);
      } else {
        assert x == g.stack;
        assert Outranked(after, now[s], cap, x, more.spared);
      }
    }
  }

  /** The slot of a key, or the slot count. */
  method FindSlot(slots: seq<Slot>, key: Key) returns (s: nat)
    ensures s <= |slots|
    ensures s < |slots| ==> slots[s].key == key
    ensures s == |slots| ==> forall i: nat :: i < |slots| ==> slots[i].key != key
  {
    s := 0;
    while s < |slots|
      invariant 0 <= s <= |slots|
      invariant forall i: nat :: i < s ==> slots[i].key != key
    {
      if slots[s].key == key {
        return;
      }
      s := s + 1;
    }
  }

  /** Opens a slot for a new key with its first survivor. */
  method OpenSlot(result: seq<Stack>, slots: seq<Slot>, stack: Stack, hash: nat) returns (after: seq<Stack>, now: seq<Slot>)
    requires Tidy(result, slots)
    requires forall i: nat :: i < |slots| ==> slots[i].key != KeyOf(stack)
    ensures Tidy(after, now) && after == result + [stack] && |now| == |slots| + 1 && now[..|slots|] == slots
    ensures now[|slots|].key == KeyOf(stack) && |now[|slots|].indices| == 1
  {
    after := result + [stack];
    var slot := Slot(KeyOf(stack), [|result|], [hash], {hash % 64}, |result|);
    now := slots + [slot];
    CompareOrders(stack, stack, stack);
    assert Holds(after, slot, 0);
    assert slot.indices[0] == |result|;
    forall i: nat | i < |slots|
      ensures SlotOk(after, slots[i])
    {
      forall j: nat | j < |slots[i].indices|
        ensures Holds(after, slots[i], j)
      {
        assert Holds(result, slots[i], j);
      }
    }
    forall p: nat | p < |after|
      ensures Owned(after, now, p)
    {
      if p < |result| {
        assert Owned(result, slots, p);
        var i: nat :| i < |slots| && OwnedBy(result, slots[i], p);
        assert OwnedBy(after, now[i], p);
      } else {
        assert OwnedBy(after, now[|slots|], p);
      }
    }
  }

  lemma {:induction false} KeptOpened(result: seq<Stack>, slots: seq<Slot>, after: seq<Stack>, now: seq<Slot>, cap: nat, b: Books)
    requires LostOk(result, slots, cap, b) && Within(slots, cap, b.spared) && cap > 0
    requires result <= after && |now| == |slots| + 1 && now[..|slots|] == slots && |now[|slots|].indices| == 1
    ensures LostOk(after, now, cap, b) && Within(now, cap, b.spared)
  {
    assert forall i: nat :: i < |slots| ==> now[i] == now[..|slots|][i];
    forall x: Stack | x in b.lost
      ensures exists i: nat :: i < |now| && Outranked(after, now[i], cap, x, b.spared)
    {
      var i: nat :| i < |slots| && Outranked(result, slots[i], cap, x, b.spared);
      assert Outranked(after, now[i], cap, x, b.spared);
    }
  }

  ghost predicate KeySeen(result: seq<Stack>, key: Key) {
    exists p: nat :: p < |result| && KeyOf(result[p]) == key
  }

  function PositionsOf(result: seq<Stack>, key: Key): set<nat> {
    set p: nat | p < |result| && KeyOf(result[p]) == key
  }

  lemma {:induction false} SetOfIndices(indices: seq<nat>, ps: set<nat>)
    requires forall p :: p in ps ==> p in indices
    ensures |ps| <= |indices|
    decreases |indices|
  {
    if indices == [] {
      assert ps == {};
    } else {
      SetOfIndices(indices[1..], ps - {indices[0]});
      assert ps <= (ps - {indices[0]}) + {indices[0]};
      assert |ps| <= |ps - {indices[0]}| + 1 by {
        if indices[0] in ps {
          assert ps == (ps - {indices[0]}) + {indices[0]};
        } else {
          assert ps == ps - {indices[0]};
        }
      }
    }
  }

  lemma {:induction false} IndicesOfSet(indices: seq<nat>, ps: set<nat>)
    requires Distinct(indices) && forall j: nat :: j < |indices| ==> indices[j] in ps
    ensures |indices| <= |ps|
    decreases |indices|
  {
    if indices != [] {
      IndicesOfSet(indices[1..], ps - {indices[0]});
    }
  }

  /** The key of a lost stack is full. */
  lemma {:induction false} LostFromFull(result: seq<Stack>, slots: seq<Slot>, cap: nat, b: Books, x: Stack)
    requires Tidy(result, slots) && LostOk(result, slots, cap, b) && x in b.lost
    ensures |PositionsOf(result, KeyOf(x))| >= cap
  {
    var i: nat :| i < |slots| && Outranked(result, slots[i], cap, x, b.spared);
    forall j: nat | j < |slots[i].indices|
      ensures slots[i].indices[j] in PositionsOf(result, KeyOf(x))
    {
      assert Holds(result, slots[i], j);
    }
    IndicesOfSet(slots[i].indices, PositionsOf(result, KeyOf(x)));
  }

  /** What a tidy result promises: at most `cap` survivors of a key beside those spared. */
  lemma {:induction false} SlotsBound(result: seq<Stack>, slots: seq<Slot>, cap: nat, spared: seq<Stack>, k: Key)
    requires Tidy(result, slots) && Within(slots, cap, spared)
    ensures |PositionsOf(result, k)| <= cap + Times(spared, k)
  {
    var ps := PositionsOf(result, k);
    if ps != {} {
      var q: nat :| q in ps;
      assert Owned(result, slots, q);
      var i: nat :| i < |slots| && OwnedBy(result, slots[i], q);
      forall p | p in ps
        ensures p in slots[i].indices
      {
        assert Owned(result, slots, p);
        var j: nat :| j < |slots| && OwnedBy(result, slots[j], p);
      }
      SetOfIndices(slots[i].indices, ps);
    }
  }

  /** Where no stack of its key was spared, a lost stack ranks no higher than any survivor. */
  lemma {:induction false} LostRanksBelow(result: seq<Stack>, slots: seq<Slot>, cap: nat, b: Books, x: Stack, p: nat)
    requires Tidy(result, slots) && LostOk(result, slots, cap, b)
    requires x in b.lost && p < |result| && KeyOf(result[p]) == KeyOf(x) && Times(b.spared, KeyOf(x)) == 0
    ensures Compare(x, result[p]) <= 0
  {
    var i: nat :| i < |slots| && Outranked(result, slots[i], cap, x, b.spared);
    assert Owned(result, slots, p);
    var j: nat :| j < |slots| && OwnedBy(result, slots[j], p);
    var k: nat :| k < |slots[i].indices| && slots[i].indices[k] == p;
    assert Holds(result, slots[i], k);
    CompareOrders(x, result[slots[i].worst], result[p]);
  }

  ghost predicate KeySlotted(slots: seq<Slot>, key: Key) {
    exists i: nat :: i < |slots| && slots[i].key == key
  }

  /** The survivors so far and the next stack are all inputs. */
  lemma {:induction false} PoolOfInputs(alive: seq<Stack>, i: nat, result: seq<Stack>, b: Books)
    requires i < |alive| && Balanced(multiset(alive[..i]), result, b)
    ensures Pool(result, alive[i]) <= multiset(alive)
  {
    assert alive == alive[..i] + [alive[i]] + alive[i + 1..];
    assert multiset(alive) == multiset(alive[..i]) + multiset{alive[i]} + multiset(alive[i + 1..]);
  }

  /** Every stack folded or spared was so beside another input by one of the first `asked` calls. */
  ghost predicate Grounded(c: Choices, one: bool, b: Books, alive: seq<Stack>, asked: nat) {
    && (forall x {:trigger x in b.folded} :: x in b.folded ==> Folded(c, one, x, multiset(alive), 0, asked))
    && (forall x {:trigger x in b.spared} :: x in b.spared ==> Spare(c, one, x, multiset(alive), 0, asked))
  }

  lemma {:induction false} GroundedOneMore(c: Choices, one: bool, b: Books, alive: seq<Stack>, asked: nat, pool: multiset<Stack>,
                                           stack: Stack, g: Given, now: nat)
    requires Grounded(c, one, b, alive, asked) && asked <= now && pool <= multiset(alive)
    requires Grounds(c, one, stack, pool, asked, now, g)
    ensures Grounded(c, one, Booked(b, stack, g), alive, now)
  {
    var more := Booked(b, stack, g);
    forall x | x in more.folded ensures Folded(c, one, x, multiset(alive), 0, now) {
      FoldedWider(c, one, x, multiset(alive), 0, asked, multiset(alive), 0, now);
      FoldedWider(c, one, x, pool, asked, now, multiset(alive), 0, now);
    }
    forall x | x in more.spared ensures Spare(c, one, x, multiset(alive), 0, now) {
      FoldedWider(c, one, x, multiset(alive), 0, asked, multiset(alive), 0, now);
      FoldedWider(c, one, x, pool, asked, now, multiset(alive), 0, now);
    }
  }
}
