/** The merge round.  Up to four stacks are merged in place; beyond that stacks go through
    one slot per key, and up to six survivors per key the slots may also keep stacks beyond
    the cap.  On every path nothing vanishes without grounds and no key dies out. */
module MergePaths {
  import opened Survivors

  const SMALL: nat := 4
  const DEFAULT_CAP: nat := 6
  const CAP_CEILING: nat := 256

  // ----- the accounts of a round ------------------------------------------------

  /** The calls of `i` stacks at `n` calls each. */
  function Calls(i: nat, n: nat): nat {
    if i == 0 then 0 else Calls(i - 1, n) + n
  }

  lemma {:induction false} MoreCalls(i: nat, m: nat, n: nat)
    requires m <= n
    ensures Calls(i, m) <= Calls(i, n)
  {
    if i > 0 {
      MoreCalls(i - 1, m, n);
    }
  }

  /** The accounts of a round in which the first `i` inputs have been taken in, with at most `n` calls each. */
  ghost predicate Account(c: Choices, one: bool, alive: seq<Stack>, i: nat, result: seq<Stack>, b: Books, clock: nat, n: nat) {
    && i <= |alive| && Balanced(multiset(alive[..i]), result, b) && Grounded(c, one, b, alive, clock)
    && clock <= Calls(i, n) && |b.spared| <= i
  }

  lemma {:induction false} AccountOneMore(c: Choices, one: bool, alive: seq<Stack>, i: nat, result: seq<Stack>, b: Books, clock: nat,
                                       after: seq<Stack>, g: Given, tick: nat, n: nat)
    requires i < |alive| && Account(c, one, alive, i, result, b, clock, n) && clock <= tick <= clock + n
    requires Accounts(result, alive[i], after, g) && Grounds(c, one, alive[i], Pool(result, alive[i]), clock, tick, g)
    ensures Account(c, one, alive, i + 1, after, Booked(b, alive[i], g), tick, n)
  {
    assert alive[..i + 1] == alive[..i] + [alive[i]];
    PoolOfInputs(alive, i, result, b);
    BalancedOneMore(multiset(alive[..i]), result, alive[i], after, g, b);
    GroundedOneMore(c, one, b, alive, clock, Pool(result, alive[i]), alive[i], g, tick);
  }

  // ----- up to four stacks, in place ------------------------------------------

  /** What the scan over the survivors decided for one stack. */
  datatype Verdict = Keep | Merge(at: nat) | Duplicate(at: nat, replaced: bool)

  /** Why a stack left the result: it merged into the survivor, or one of the two gave way. */
  ghost predicate ScanGrounds(c: Choices, one: bool, survivors: seq<Stack>, stack: Stack, v: Verdict, clock: nat) {
    match v
    case Keep => true
    case Merge(at) => at < |survivors| && FoldedBy(c, one, stack, survivors[at], clock)
    case Duplicate(at, replaced) =>
      && at < |survivors| && KeyOf(survivors[at]) == KeyOf(stack)
      && (one || c.o.same(clock, survivors[at], stack))
      && (replaced ==> one && c.capOne(clock, stack, survivors[at]) > 0)
  }

  /** The stack was not merged into this survivor and, where `compared`, is not its duplicate. */
  ghost predicate Apart(o: Oracle, x: Stack, y: Stack, compared: bool, from: nat, til: nat) {
    KeyOf(x) == KeyOf(y) ==> NotMerged(o, x, y, from, til) && (compared ==> ToldApart(o, x, y, from, til))
  }

  /** Why a stack stays: a merge was refused or, with one survivor per key, its cost is new; or
      it is apart from every survivor of its key. */
  ghost predicate KeepGrounds(c: Choices, one: bool, defer: bool, survivors: seq<Stack>, stack: Stack, from: nat, til: nat) {
    || (exists j: nat, t: nat {:trigger SparedBy(c, one, stack, survivors[j], t)} ::
          j < |survivors| && from < t <= til && SparedBy(c, one, stack, survivors[j], t))
    || forall j: nat :: j < |survivors| ==> Apart(c.o, survivors[j], stack, !one && !defer, from, til)
  }

  /** Scans the survivors for the stack; `one` is on when the cap is one. */
  method ScanSmall(c: Choices, clock: nat, survivors: seq<Stack>, stack: Stack, cap: nat, one: bool, defer: bool)
    returns (v: Verdict, tick: nat)
    ensures ScanGrounds(c, one, survivors, stack, v, tick)
    ensures v.Keep? ==> KeepGrounds(c, one, defer, survivors, stack, clock, tick)
    ensures clock < tick <= clock + 1 + |survivors|
  {
    tick := clock + 1;
    var key := KeyOf(stack);
    var same := if one then c.sameCost(tick, stack) else -1;
    var preserve := one && c.newCost(tick, stack);
    var sameKey := 0;
    var j := 0;
    while j < |survivors|
      invariant 0 <= j <= |survivors| && clock < tick <= clock + 1 + j
      invariant preserve ==> one && c.newCost(clock + 1, stack)
      invariant forall k: nat :: k < j ==> Apart(c.o, survivors[k], stack, !one && !defer, clock, tick)
    {
      if KeyOf(survivors[j]) == key {
        sameKey := sameKey + 1;
        tick := tick + 1;
        match c.o.attempt(tick, survivors[j], stack) {
          case Merged => return Merge(j), tick;
          case Refused =>
            assert SparedBy(c, one, stack, survivors[j], tick);
            return Keep, tick;
          case NotTried =>
        }
        var skip := false;
        if one {
          if preserve {
            assert SparedBy(c, one, stack, survivors[j], clock + 1);
            return Keep, tick;
          }
          skip := same >= 0 && j != same;
          if !skip {
            var cmp := c.capOne(tick, stack, survivors[j]);
            if cmp != 0 {
              return Duplicate(j, cmp > 0), tick;
            }
          }
        }
        if !skip && (!defer || sameKey >= cap) {
          if c.o.same(tick, survivors[j], stack) {
            return Duplicate(j, false), tick;
          }
        }
      }
      j := j + 1;
    }
    return Keep, tick;
  }

  /** Every key of `inputs` has a survivor in `result`. */
  ghost predicate KeysSeen(result: seq<Stack>, inputs: seq<Stack>) {
    forall i: nat :: i < |inputs| ==> KeySeen(result, KeyOf(inputs[i]))
  }

  /** Where the keys stay in place, no key is lost; the next stack's key must be among them. */
  lemma {:induction false} KeysStay(before: seq<Stack>, after: seq<Stack>, inputs: seq<Stack>, stack: Stack, p: nat)
    requires KeysSeen(before, inputs) && |before| <= |after| && p < |after| && KeyOf(after[p]) == KeyOf(stack)
    requires forall q: nat :: q < |before| ==> KeyOf(after[q]) == KeyOf(before[q])
    ensures KeysSeen(after, inputs + [stack])
  {
    var more := inputs + [stack];
    forall i: nat | i < |more|
      ensures KeySeen(after, KeyOf(more[i]))
    {
      if i < |inputs| {
        assert KeySeen(before, KeyOf(inputs[i]));
        var q: nat :| q < |before| && KeyOf(before[q]) == KeyOf(inputs[i]);
        assert KeyOf(after[q]) == KeyOf(inputs[i]);
      }
    }
  }

  /** The result after a verdict, and what was given up. */
  function Applied(survivors: seq<Stack>, stack: Stack, v: Verdict): seq<Stack>
    requires !v.Keep? ==> v.at < |survivors|
  {
    match v
    case Keep => survivors + [stack]
    case Merge(_) => survivors
    case Duplicate(at, replaced) => if replaced || Compare(stack, survivors[at]) >= 0 then survivors[at := stack] else survivors
  }

  /** A verdict carried out keeps the accounts and the keys, on the grounds the scan found. */
  lemma {:induction false} VerdictMeans(c: Choices, one: bool, survivors: seq<Stack>, stack: Stack, v: Verdict, clock: nat, tick: nat,
                                        inputs: seq<Stack>) returns (g: Given)
    requires ScanGrounds(c, one, survivors, stack, v, tick) && clock < tick && KeysSeen(survivors, inputs)
    ensures Accounts(survivors, stack, Applied(survivors, stack, v), g) && (g.Kept? || g.FoldedAway?)
    ensures Grounds(c, one, stack, Pool(survivors, stack), clock, tick, g)
    ensures KeysSeen(Applied(survivors, stack, v), inputs + [stack])
  {
    var after := Applied(survivors, stack, v);
    if v.Keep? {
      g := Kept;
      KeysStay(survivors, after, inputs, stack, |survivors|);
    } else {
      var y := survivors[v.at];
      ReplaceAccounts(survivors, v.at, stack);
      CompareOrders(stack, y, stack);
      KeysStay(survivors, after, inputs, stack, v.at);
      if v.Duplicate? && (v.replaced || Compare(stack, y) >= 0) {
        g := FoldedAway(y);
        assert FoldedBy(c, one, y, stack, tick);
      } else {
        g := FoldedAway(stack);
        assert FoldedBy(c, one, stack, y, tick);
      }
    }
  }

  /** The first `i` inputs have been taken in, with at most `n` calls each. */
  ghost predicate TakenIn(c: Choices, one: bool, inputs: seq<Stack>, i: nat, survivors: seq<Stack>, b: Books, clock: nat, n: nat) {
    && Account(c, one, inputs, i, survivors, b, clock, n)
    && KeysSeen(survivors, inputs[..i]) && b.lost == [] && b.spared == []
  }

  lemma {:induction false} TakenInOneMore(c: Choices, one: bool, inputs: seq<Stack>, i: nat, survivors: seq<Stack>, b: Books, clock: nat,
                                          v: Verdict, tick: nat, n: nat) returns (more: Books)
    requires i < |inputs| && TakenIn(c, one, inputs, i, survivors, b, clock, n)
    requires ScanGrounds(c, one, survivors, inputs[i], v, tick) && clock < tick <= clock + n
    ensures TakenIn(c, one, inputs, i + 1, Applied(survivors, inputs[i], v), more, tick, n)
  {
    var stack := inputs[i];
    assert inputs[..i + 1] == inputs[..i] + [stack];
    var g := VerdictMeans(c, one, survivors, stack, v, clock, tick, inputs[..i]);
    AccountOneMore(c, one, inputs, i, survivors, b, clock, Applied(survivors, stack, v), g, tick, n);
    more := Booked(b, stack, g);
  }

  /** Carries out a verdict on the survivors a[..n]; what is still to be read stays. */
  method Apply(a: array<Stack>, n: nat, i: nat, stack: Stack, v: Verdict) returns (m: nat)
    requires n <= i < a.Length && (!v.Keep? ==> v.at < n)
    modifies a
    ensures m <= i + 1 && a[..m] == Applied(old(a[..n]), stack, v) && a[i + 1..] == old(a[i + 1..])
  {
    m := n;
    if v.Keep? {
      a[n] := stack;
      m := n + 1;
    } else if v.Duplicate? && (v.replaced || Compare(stack, a[v.at]) >= 0) {
      a[v.at] := stack;
    }
  }

  lemma {:induction false} TakenInNone(c: Choices, one: bool, inputs: seq<Stack>, n: nat)
    ensures TakenIn(c, one, inputs, 0, [], Books([], [], []), 0, n)
  {
    assert inputs[..0] == [];
  }

  /** Takes in the stack at `i`. */
  method SmallStep(c: Choices, a: array<Stack>, n: nat, i: nat, clock: nat, cap: nat, one: bool, defer: bool,
                   ghost inputs: seq<Stack>, ghost b: Books) returns (m: nat, tick: nat, ghost more: Books)
    requires n <= i < a.Length == |inputs| && a[i..] == inputs[i..] && TakenIn(c, one, inputs, i, a[..n], b, clock, 1 + a.Length)
    modifies a
    ensures m <= i + 1 && a[i + 1..] == inputs[i + 1..] && TakenIn(c, one, inputs, i + 1, a[..m], more, tick, 1 + a.Length)
  {
    var stack := a[i];
    assert stack == a[i..][0] == inputs[i];
    assert a[i + 1..] == a[i..][1..] == inputs[i + 1..];
    var v;
    v, tick := ScanSmall(c, clock, a[..n], stack, cap, one, defer);
    more := TakenInOneMore(c, one, inputs, i, a[..n], b, clock, v, tick, 1 + a.Length);
    m := Apply(a, n, i, stack, v);
  }

  /** Merges the array in place: survivors are written over its front while its rest is still
      to be read.  Every input is a survivor or was folded into another, and no key dies out. */
  method MergeSmall(c: Choices, a: array<Stack>, cap: nat, one: bool, defer: bool) returns (n: nat, ghost b: Books, ghost asked: nat)
    modifies a
    ensures n <= a.Length && TakenIn(c, one, old(a[..]), a.Length, a[..n], b, asked, 1 + a.Length)
  {
    n, b := 0, Books([], [], []);
    ghost var inputs := a[..];
    TakenInNone(c, one, inputs, 1 + a.Length);
    assert a[..0] == [];
    var clock := 0;
    var i := 0;
    while i < a.Length
      invariant 0 <= n <= i <= a.Length && a[i..] == inputs[i..]
      invariant TakenIn(c, one, inputs, i, a[..n], b, clock, 1 + a.Length)
    {
      n, clock, b := SmallStep(c, a, n, i, clock, cap, one, defer, inputs, b);
      i := i + 1;
    }
    asked := clock;
  }

  // ----- up to six survivors per key ------------------------------------------

  /** With one survivor per key, the rules before any test for duplicates: a new recovery cost
      is kept beside the others, else the cap-one comparison with one survivor decides, and on
      a tie a graph merge with it.  `done` is off when none of them settles the matter. */
  method AdmitOne(c: Choices, clock: nat, result: seq<Stack>, slot: Slot, stack: Stack, hash: nat)
    returns (done: bool, after: seq<Stack>, next: Slot, ghost g: Given, tick: nat)
    requires SlotOk(result, slot) && KeyOf(stack) == slot.key
    ensures done ==> Stepped(result, slot, after, next, g, 1) && Accounts(result, stack, after, g) && (g.FoldedAway? || g.Spared?)
    ensures done ==> Grounds(c, true, stack, Pool(result, stack), clock, tick, g)
    ensures clock < tick <= clock + 2
  {
    done, after, next, g, tick := true, result, slot, FoldedAway(stack), clock + 1;
    var j := CostPlace(slot, c.sameCost(tick, stack));
    assert Holds(result, slot, 0) && Holds(result, slot, j);
    ReplaceAccounts(result, slot.indices[0], stack);
    ReplaceAccounts(result, slot.indices[j], stack);
    if c.newCost(tick, stack) {
      assert SparedBy(c, true, stack, result[slot.indices[0]], tick);
      after, next := Append(result, slot, stack, hash);
      g := Spared;
      return;
    }
    var incumbent := result[slot.indices[j]];
    var cmp := c.capOne(tick, stack, incumbent);
    if cmp > 0 {
      assert FoldedBy(c, true, incumbent, stack, tick);
      after, next := Replace(result, slot, j, stack, hash, true);
      g := FoldedAway(incumbent);
      return;
    }
    if cmp < 0 || c.suppress {
      assert FoldedBy(c, true, stack, incumbent, tick);
    }
    if cmp < 0 {
      return;
    }
    tick := tick + 1;
    match c.o.attempt(tick, incumbent, stack) {
      case Merged =>
        assert FoldedBy(c, true, stack, incumbent, tick);
      case Refused =>
        assert SparedBy(c, true, stack, incumbent, tick);
        after, next := Append(result, slot, stack, hash);
        g := Spared;
      case NotTried =>
        done := c.suppress;
    }
  }

  /** The place of the survivor of equal cost within its slot, else the first. */
  method CostPlace(slot: Slot, same: int) returns (j: nat)
    requires |slot.indices| > 0
    ensures j < |slot.indices| && (same in slot.indices ==> slot.indices[j] == same)
  {
    j := 0;
    while j < |slot.indices|
      invariant 0 <= j <= |slot.indices| && same !in slot.indices[..j]
    {
      if slot.indices[j] == same {
        return;
      }
      j := j + 1;
    }
    assert slot.indices[..j] == slot.indices;
    j := 0;
  }

  /** A duplicate of survivor `j`: merged into it, kept beside it when the merge is refused, and
      otherwise the better of the two stays. */
  method AdmitDuplicate(c: Choices, clock: nat, now: nat, result: seq<Stack>, slot: Slot, j: nat, stack: Stack, hash: nat, cap: nat)
    returns (after: seq<Stack>, next: Slot, ghost g: Given)
    requires SlotOk(result, slot) && KeyOf(stack) == slot.key && j < |slot.indices| && slot.hashes[j] == hash
    requires clock < now && c.o.same(now, result[slot.indices[j]], stack)
    ensures Stepped(result, slot, after, next, g, cap) && Accounts(result, stack, after, g) && (g.FoldedAway? || g.Spared?)
    ensures Grounds(c, cap == 1, stack, Pool(result, stack), clock, now + 1, g)
  {
    assert Holds(result, slot, j);
    var incumbent := result[slot.indices[j]];
    ReplaceAccounts(result, slot.indices[j], stack);
    CompareOrders(result[slot.worst], result[slot.worst], stack);
    match c.o.attempt(now + 1, incumbent, stack) {
      case Merged =>
        assert FoldedBy(c, cap == 1, stack, incumbent, now + 1);
        after, next, g := result, slot, FoldedAway(stack);
      case Refused =>
        assert SparedBy(c, cap == 1, stack, incumbent, now + 1);
        after, next := Append(result, slot, stack, hash);
        g := Spared;
      case NotTried =>
        after, next, g := KeepBetter(c, cap == 1, clock, now, result, slot, j, stack, hash, cap);
        GroundsWider(c, cap == 1, stack, Pool(result, stack), clock, now, g, clock, now + 1);
    }
  }

  /** A full slot: with one survivor per key and faithful merges, once more a graph merge with
      each survivor; then competition with the lowest-ranked one. */
  method AdmitFull(c: Choices, clock: nat, result: seq<Stack>, slot: Slot, stack: Stack, hash: nat, cap: nat)
    returns (after: seq<Stack>, next: Slot, ghost g: Given, tick: nat)
    requires SlotOk(result, slot) && KeyOf(stack) == slot.key && 0 < cap <= |slot.indices|
    ensures Stepped(result, slot, after, next, g, cap) && Accounts(result, stack, after, g)
    ensures Grounds(c, cap == 1, stack, Pool(result, stack), clock, tick, g) && clock < tick <= clock + |slot.indices|
  {
    after, next, tick := result, slot, clock + 1;
    if cap == 1 && c.faithful {
      var attempted, merged;
      attempted, merged, tick := TryMerges(c, true, clock, result, slot, stack);
      if merged {
        g := FoldedAway(stack);
        return;
      }
      if attempted {
        after, next := Append(result, slot, stack, hash);
        g := Spared;
        return;
      }
    }
    ghost var x, y;
    var won;
    after, next, x, y, won := Compete(result, slot, stack, hash);
    assert FoldedBy(c, true, x, y, tick);
    g := if cap == 1 then FoldedAway(x) else Overflowed(x);
  }

  /** A stack that matches no survivor: kept while there is room. */
  method AdmitNew(c: Choices, clock: nat, result: seq<Stack>, slot: Slot, stack: Stack, hash: nat, cap: nat)
    returns (after: seq<Stack>, next: Slot, ghost g: Given, tick: nat)
    requires SlotOk(result, slot) && KeyOf(stack) == slot.key && 0 < cap
    ensures Stepped(result, slot, after, next, g, cap) && Accounts(result, stack, after, g)
    ensures Grounds(c, cap == 1, stack, Pool(result, stack), clock, tick, g) && clock <= tick <= clock + |slot.indices|
  {
    if |slot.indices| < cap {
      after, next := Append(result, slot, stack, hash);
      g, tick := Kept, clock;
    } else {
      after, next, g, tick := AdmitFull(c, clock, result, slot, stack, hash, cap);
    }
  }

  /** Admits a stack to the slot of its key when a key keeps at most six survivors. */
  method AdmitFew(c: Choices, clock: nat, result: seq<Stack>, slot: Slot, stack: Stack, cap: nat, defer: bool)
    returns (after: seq<Stack>, next: Slot, ghost g: Given, tick: nat)
    requires SlotOk(result, slot) && KeyOf(stack) == slot.key && cap > 0
    ensures Stepped(result, slot, after, next, g, cap) && Accounts(result, stack, after, g)
    ensures Grounds(c, cap == 1, stack, Pool(result, stack), clock, tick, g)
    ensures g.Kept? || g.Overflowed? ==> Unmatched(c.o, result, slot, stack, !defer || g.Overflowed?, clock, tick)
    ensures clock <= tick <= clock + 3 * |slot.indices| + 3
  {
    CompareOrders(result[slot.worst], result[slot.worst], stack);
    var hash := c.o.hash(stack);
    var _, merged, t := TryMerges(c, cap == 1, clock, result, slot, stack);
    if merged {
      return result, slot, FoldedAway(stack), t;
    }
    ghost var tried := t;
    if cap == 1 {
      var done, u;
      done, after, next, g, u := AdmitOne(c, t, result, slot, stack, hash);
      if done {
        GroundsWider(c, true, stack, Pool(result, stack), t, u, g, clock, u);
        return after, next, g, u;
      }
      t := u;
    }
    var at := |slot.indices|;
    ghost var from := t;
    if !defer || |slot.indices| >= cap {
      at, t := FindDuplicate(c.o, t, result, slot, stack, hash);
    }
    if at < |slot.indices| {
      after, next, g := AdmitDuplicate(c, clock, t, result, slot, at, stack, hash, cap);
      return after, next, g, t + 1;
    }
    after, next, g, tick := AdmitNew(c, t, result, slot, stack, hash, cap);
    GroundsWider(c, cap == 1, stack, Pool(result, stack), t, tick, g, clock, tick);
    UnmatchedSince(c.o, result, slot, stack, !defer || |slot.indices| >= cap, clock, tried, from, t, tick);
  }

  // ----- more than four stacks, one slot per key ----------------------------------

  /** The state of a round in progress. */
  ghost predicate Going(result: seq<Stack>, slots: seq<Slot>, cap: nat, b: Books) {
    && Tidy(result, slots) && Within(slots, cap, b.spared) && LostOk(result, slots, cap, b)
    && (cap > DEFAULT_CAP ==> b.spared == [])
  }

  /** Calls one stack may take when at most `n` stacks are in its slot. */
  function CallBound(n: nat): nat {
    3 * n + 3
  }

  /** Takes in one stack of the round: a new slot for a new key, else admission to its own. */
  method TakeIn(c: Choices, clock: nat, result: seq<Stack>, slots: seq<Slot>, stack: Stack, cap: nat, defer: bool, ghost b: Books)
    returns (after: seq<Stack>, now: seq<Slot>, ghost g: Given, tick: nat)
    requires cap > 0 && Going(result, slots, cap, b)
    ensures Going(after, now, cap, Booked(b, stack, g))
    ensures clock <= tick <= clock + CallBound(cap + |b.spared|)
    ensures Accounts(result, stack, after, g) && Grounds(c, cap == 1, stack, Pool(result, stack), clock, tick, g)
    ensures KeySlotted(now, KeyOf(stack)) && forall k :: KeySlotted(slots, k) ==> KeySlotted(now, k)
  {
    var s := FindSlot(slots, KeyOf(stack));
    tick := clock;
    if s == |slots| {
      g := Kept;
      after, now := OpenSlot(result, slots, stack, c.o.hash(stack));
      KeptOpened(result, slots, after, now, cap, b);
      assert forall i: nat :: i < |slots| ==> now[i] == now[..|slots|][i];
    } else {
      var next;
      if cap > DEFAULT_CAP {
        after, next, g, tick := Admit(c, clock, result, slots[s], stack, cap);
      } else {
        after, next, g, tick := AdmitFew(c, clock, result, slots[s], stack, cap, defer);
      }
      TidyAfter(result, slots, s, after, next);
      WithinAfter(slots, s, result, after, next, cap, b, stack, g);
      LostAfter(result, slots, s, after, next, cap, b, stack, g);
      now := slots[s := next];
      assert forall i: nat :: i < |slots| ==> now[i].key == slots[i].key;
    }
    assert now[s].key == KeyOf(stack);
    forall k | KeySlotted(slots, k)
      ensures KeySlotted(now, k)
    {
      var i: nat :| i < |slots| && slots[i].key == k;
      assert now[i].key == k;
    }
  }

  /** Every input is a survivor, folded into another input, or overflowed; every key survives;
      a key keeps no more than `cap` survivors beside those spared, and beyond six per key none
      is spared; a stack overflows only where its key keeps at least `cap` survivors; and where
      none of its key was spared, what overflowed ranks no higher than any survivor of its key.
      With one survivor per key nothing overflows. */
  ghost predicate Settled(c: Choices, result: seq<Stack>, alive: seq<Stack>, cap: nat, b: Books, asked: nat) {
    && Balanced(multiset(alive), result, b) && Grounded(c, cap == 1, b, alive, asked) && KeysSeen(result, alive)
    && (forall k :: |PositionsOf(result, k)| <= cap + Times(b.spared, k))
    && (forall x {:trigger x in b.lost} :: x in b.lost ==> |PositionsOf(result, KeyOf(x))| >= cap)
    && (forall x, p: nat :: x in b.lost && p < |result| && KeyOf(result[p]) == KeyOf(x) && Times(b.spared, KeyOf(x)) == 0 ==>
                              Compare(x, result[p]) <= 0)
    && (cap > DEFAULT_CAP ==> b.spared == []) && (cap == 1 ==> b.lost == [])
  }

  lemma {:induction false} GoingMeans(c: Choices, result: seq<Stack>, slots: seq<Slot>, alive: seq<Stack>, cap: nat, b: Books, asked: nat)
    requires Going(result, slots, cap, b) && Balanced(multiset(alive), result, b) && Grounded(c, cap == 1, b, alive, asked)
    requires forall i: nat :: i < |alive| ==> KeySlotted(slots, KeyOf(alive[i]))
    ensures Settled(c, result, alive, cap, b, asked)
  {
    forall i: nat | i < |alive|
      ensures KeySeen(result, KeyOf(alive[i]))
    {
      var t: nat :| t < |slots| && slots[t].key == KeyOf(alive[i]);
      assert Holds(result, slots[t], 0);
    }
    forall k
      ensures |PositionsOf(result, k)| <= cap + Times(b.spared, k)
    {
      SlotsBound(result, slots, cap, b.spared, k);
    }
    forall x | x in b.lost
      ensures |PositionsOf(result, KeyOf(x))| >= cap
    {
      LostFromFull(result, slots, cap, b, x);
    }
    forall x, p: nat | x in b.lost && p < |result| && KeyOf(result[p]) == KeyOf(x) && Times(b.spared, KeyOf(x)) == 0
      ensures Compare(x, result[p]) <= 0
    {
      LostRanksBelow(result, slots, cap, b, x, p);
    }
    if b.lost != [] {
      assert b.lost[0] in b.lost;
    }
  }

  /** In particular no overflowed stack was accepted where a survivor of its key was not, or has a
      higher score than a survivor that is accepted alike. */
  lemma {:induction false} OverflowScoresNoHigher(c: Choices, result: seq<Stack>, alive: seq<Stack>, cap: nat, b: Books, asked: nat, x: Stack, p: nat)
    requires Settled(c, result, alive, cap, b, asked)
    requires x in b.lost && p < |result| && KeyOf(result[p]) == KeyOf(x) && Times(b.spared, KeyOf(x)) == 0
    ensures x.accepted ==> result[p].accepted
    ensures x.accepted == result[p].accepted ==> x.score <= result[p].score
  {
    assert Compare(x, result[p]) <= 0;
  }

  method MergeSlots(c: Choices, alive: seq<Stack>, cap: nat, defer: bool)
    returns (result: seq<Stack>, ghost b: Books, ghost asked: nat)
    requires cap > 0
    ensures Settled(c, result, alive, cap, b, asked) && asked <= Calls(|alive|, CallBound(cap + |alive|))
  {
    result, b := [], Books([], [], []);
    var slots: seq<Slot> := [];
    var clock := 0;
    var i := 0;
    while i < |alive|
      invariant Account(c, cap == 1, alive, i, result, b, clock, CallBound(cap + |alive|))
      invariant Going(result, slots, cap, b)
      invariant forall k: nat :: k < i ==> KeySlotted(slots, KeyOf(alive[k]))
    {
      var after, tick;
      ghost var g;
      after, slots, g, tick := TakeIn(c, clock, result, slots, alive[i], cap, defer, b);
      AccountOneMore(c, cap == 1, alive, i, result, b, clock, after, g, tick, CallBound(cap + |alive|));
      b := Booked(b, alive[i], g);
      result, clock := after, tick;
      i := i + 1;
    }
    asked := clock;
    assert alive[..i] == alive;
    GoingMeans(c, result, slots, alive, cap, b, asked);
  }

  // ----- the round ----------------------------------------------------------

  /** The survivors one key may keep: six unless set, and never above the ceiling. */
  function KeyCap(perKeyCap: nat): (cap: nat)
    ensures 0 < cap <= CAP_CEILING
  {
    if perKeyCap == 0 then DEFAULT_CAP else if perKeyCap > CAP_CEILING then CAP_CEILING else perKeyCap
  }

  /** One merge round over the live stacks, below the live-stack limit and without a budget
      stop.  Whichever path the size and the cap select, every input survives, was folded or
      overflowed, and no merge key dies out; more than four stacks also keep to the cap. */
  method MergeRound(c: Choices, alive: seq<Stack>, perKeyCap: nat, defer: bool)
    returns (result: seq<Stack>, ghost b: Books, ghost asked: nat)
    ensures Balanced(multiset(alive), result, b) && Grounded(c, perKeyCap == 1, b, alive, asked) && KeysSeen(result, alive)
    ensures |alive| > SMALL ==> Settled(c, result, alive, KeyCap(perKeyCap), b, asked)
    ensures |alive| <= SMALL ==> b.lost == []
    ensures asked <= Calls(|alive|, CallBound(KeyCap(perKeyCap) + |alive|))
  {
    var cap := KeyCap(perKeyCap);
    if |alive| <= 1 {
      result, b, asked := alive, Books([], [], []), 0;
    } else if |alive| <= SMALL {
      var a := new Stack[|alive|](i requires 0 <= i < |alive| => alive[i]);
      assert a[..] == alive;
      var n;
      n, b, asked := MergeSmall(c, a, if perKeyCap == 0 then DEFAULT_CAP else perKeyCap, perKeyCap == 1, defer);
      result := a[..n];
      assert alive[..|alive|] == alive;
      MoreCalls(|alive|, 1 + |alive|, CallBound(cap + |alive|));
    } else {
      result, b, asked := MergeSlots(c, alive, cap, defer);
    }
  }
}
