/** Comparing two stack spines with a memo.  A spine is the chain of primary links below a
    node; the memo is a two-way cache keyed by the unordered pair of nodes and their
    fingerprints, consulted at every step and back-filled with the final answer. */
module SpineMemo {
  import opened Numbers

  datatype Ref = Nil | At(id: nat)

  datatype Entry = Entry(state: nat, payload: nat)

  /** `hash` is the node's fingerprint, 0 while unknown. */
  datatype Node = Node(entry: Entry, prev: Ref, depth: nat, hash: nat)

  type Equiv = (nat, nat) -> bool

  predicate ValidRef(ns: seq<Node>, r: Ref) {
    r.At? ==> r.id < |ns|
  }

  /** Primary links lead to shallower nodes. */
  ghost predicate Chained(ns: seq<Node>) {
    forall n: nat :: n < |ns| && ns[n].prev.At? ==> ns[n].prev.id < |ns| && ns[ns[n].prev.id].depth < ns[n].depth
  }

  ghost function Height(ns: seq<Node>, r: Ref): nat
    requires ValidRef(ns, r)
  {
    if r.Nil? then 0 else ns[r.id].depth + 1
  }

  ghost function Spine(ns: seq<Node>, r: Ref): seq<Entry>
    requires Chained(ns) && ValidRef(ns, r)
    decreases Height(ns, r)
  {
    if r.Nil? then [] else [ns[r.id].entry] + Spine(ns, ns[r.id].prev)
  }

  predicate Matches(equiv: Equiv, a: Entry, b: Entry) {
    a.state == b.state && equiv(a.payload, b.payload)
  }

  /** The memo-free walk: equal as far as the shorter spine goes. */
  ghost function RawEqual(equiv: Equiv, ns: seq<Node>, a: Ref, b: Ref): bool
    requires Chained(ns) && ValidRef(ns, a) && ValidRef(ns, b)
    decreases Height(ns, a)
  {
    a.Nil? || b.Nil? || a == b ||
    (Matches(equiv, ns[a.id].entry, ns[b.id].entry) && RawEqual(equiv, ns, ns[a.id].prev, ns[b.id].prev))
  }

  /** The same on the entries alone. */
  ghost function SpinesEqual(equiv: Equiv, s: seq<Entry>, t: seq<Entry>): bool
    decreases |s|
  {
    s == [] || t == [] || (Matches(equiv, s[0], t[0]) && SpinesEqual(equiv, s[1..], t[1..]))
  }

  ghost predicate Fair(equiv: Equiv) {
    (forall x: nat :: equiv(x, x)) && (forall x: nat, y: nat :: equiv(x, y) ==> equiv(y, x))
  }

  lemma {:induction false} SpinesReflexive(equiv: Equiv, s: seq<Entry>)
    requires Fair(equiv)
    ensures SpinesEqual(equiv, s, s)
    decreases |s|
  {
    if s != [] {
      SpinesReflexive(equiv, s[1..]);
    }
  }

  lemma {:induction false} SpinesSymmetric(equiv: Equiv, s: seq<Entry>, t: seq<Entry>)
    requires Fair(equiv)
    ensures SpinesEqual(equiv, s, t) == SpinesEqual(equiv, t, s)
    decreases |s|
  {
    if s != [] && t != [] {
      SpinesSymmetric(equiv, s[1..], t[1..]);
    }
  }

  /** The walk depends on nothing but the two spines; meeting in one node is no more than
      a shortcut. */
  lemma {:induction false} RawIsSpines(equiv: Equiv, ns: seq<Node>, a: Ref, b: Ref)
    requires Fair(equiv) && Chained(ns) && ValidRef(ns, a) && ValidRef(ns, b)
    ensures RawEqual(equiv, ns, a, b) == SpinesEqual(equiv, Spine(ns, a), Spine(ns, b))
    decreases Height(ns, a)
  {
    if a == b {
      SpinesReflexive(equiv, Spine(ns, a));
    } else if a.At? && b.At? {
      RawIsSpines(equiv, ns, ns[a.id].prev, ns[b.id].prev);
      assert Spine(ns, a)[1..] == Spine(ns, ns[a.id].prev);
      assert Spine(ns, b)[1..] == Spine(ns, ns[b.id].prev);
    }
  }

  lemma {:induction false} SpinesByPosition(equiv: Equiv, s: seq<Entry>, t: seq<Entry>)
    ensures SpinesEqual(equiv, s, t) <==>
      forall i: nat :: i < |s| && i < |t| ==> s[i].state == t[i].state && equiv(s[i].payload, t[i].payload)
    decreases |s|
  {
    if s != [] && t != [] {
      SpinesByPosition(equiv, s[1..], t[1..]);
      if SpinesEqual(equiv, s, t) {
        forall i: nat | i < |s| && i < |t|
          ensures s[i].state == t[i].state && equiv(s[i].payload, t[i].payload)
        {
          if i > 0 {
            assert s[i] == s[1..][i - 1] && t[i] == t[1..][i - 1];
          }
        }
      } else if s[0].state == t[0].state && equiv(s[0].payload, t[0].payload) {
        var i: nat :| i < |s[1..]| && i < |t[1..]| && !(s[1..][i].state == t[1..][i].state && equiv(s[1..][i].payload, t[1..][i].payload));
        assert s[i + 1] == s[1..][i] && t[i + 1] == t[1..][i];
      }
    }
  }

  /** Two spines compare equal exactly when, at every position both have, the parser states are
      equal and the payloads equivalent. */
  lemma {:induction false} RawByPosition(equiv: Equiv, ns: seq<Node>, a: Ref, b: Ref)
    requires Fair(equiv) && Chained(ns) && ValidRef(ns, a) && ValidRef(ns, b)
    ensures var s, t := Spine(ns, a), Spine(ns, b);
      RawEqual(equiv, ns, a, b) <==>
        forall i: nat :: i < |s| && i < |t| ==> s[i].state == t[i].state && equiv(s[i].payload, t[i].payload)
  {
    RawIsSpines(equiv, ns, a, b);
    SpinesByPosition(equiv, Spine(ns, a), Spine(ns, b));
  }

  // ----- the memo -----------------------------------------------------------

  datatype Slot = Slot(a: nat, b: nat, aHash: nat, bHash: nat, epoch: nat, result: bool)

  const SETS: nat := 16384

  type SetIndex = i: nat | i < SETS witness 0

  type Fingerprints = nat -> seq<Entry>

  /** A nonzero fingerprint determines the spine it stands for. */
  ghost predicate Prints(ns: seq<Node>, spineOf: Fingerprints) {
    Chained(ns) && forall n: nat :: n < |ns| && ns[n].hash != 0 ==> Spine(ns, At(n)) == spineOf(ns[n].hash)
  }

  ghost predicate SlotTrue(equiv: Equiv, spineOf: Fingerprints, s: Slot) {
    s.result == SpinesEqual(equiv, spineOf(s.aHash), spineOf(s.bHash))
  }

  ghost predicate SlotsTrue(equiv: Equiv, spineOf: Fingerprints, slots: seq<Slot>, epoch: nat) {
    forall k: nat :: k < |slots| && slots[k].epoch == epoch ==> SlotTrue(equiv, spineOf, slots[k])
  }

  class Memo {
    const equiv: Equiv
    const bucket: (nat, nat) -> SetIndex
    var slots: seq<Slot>
    var epoch: nat
    /** What the fingerprints of this epoch stand for. */
    ghost var spineOf: Fingerprints

    ghost predicate Ok()
      reads this
    {
      && Fair(equiv) && 0 < epoch <= MAX_WORD
      && (|slots| == 0 || |slots| == 2 * SETS)
      && (forall k: nat {:trigger slots[k]} :: k < |slots| ==> slots[k].epoch <= epoch)
      && SlotsTrue(equiv, spineOf, slots, epoch)
    }

    /** A memo over a zeroed slot table, or over none at all. */
    constructor (equiv: Equiv, bucket: (nat, nat) -> SetIndex, provision: bool, ghost spineOf: Fingerprints)
      requires Fair(equiv)
      ensures Ok() && this.equiv == equiv && this.spineOf == spineOf
    {
      this.equiv, this.bucket, this.spineOf := equiv, bucket, spineOf;
      slots := if provision then seq(2 * SETS, _ => Slot(0, 0, 0, 0, 0, false)) else [];
      epoch := 1;
    }

    /** The slot a pair of nodes is looked up under: smaller id first, with its fingerprint. */
    function Key(ns: seq<Node>, a: nat, b: nat): Slot
      requires a < |ns| && b < |ns|
      reads this
    {
      if a <= b then Slot(a, b, ns[a].hash, ns[b].hash, epoch, false)
      else Slot(b, a, ns[b].hash, ns[a].hash, epoch, false)
    }

    lemma KeyMeansPair(ns: seq<Node>, a: nat, b: nat)
      requires Fair(equiv) && Prints(ns, spineOf) && a < |ns| && b < |ns| && ns[a].hash != 0 && ns[b].hash != 0
      ensures var k := Key(ns, a, b);
              SpinesEqual(equiv, spineOf(k.aHash), spineOf(k.bHash)) == RawEqual(equiv, ns, At(a), At(b))
    {
      RawIsSpines(equiv, ns, At(a), At(b));
      SpinesSymmetric(equiv, Spine(ns, At(a)), Spine(ns, At(b)));
    }

    /** A hit in the second slot moves to the front. */
    method Lookup(ns: seq<Node>, a: nat, b: nat) returns (known: bool, r: bool)
      requires Ok() && Prints(ns, spineOf) && a < |ns| && b < |ns|
      modifies this`slots
      ensures Ok()
      ensures known ==> r == RawEqual(equiv, ns, At(a), At(b))
    {
      if |slots| == 0 || ns[a].hash == 0 || ns[b].hash == 0 {
        return false, false;
      }
      var key := Key(ns, a, b);
      KeyMeansPair(ns, a, b);
      var at := 2 * bucket(key.a, key.b);
      var first, second := slots[at], slots[at + 1];
      if first.(result := false) == key {
        return true, first.result;
      }
      if second.(result := false) == key {
        slots := slots[at := second][at + 1 := first];
        return true, second.result;
      }
      return false, false;
    }

    method Store(ns: seq<Node>, a: nat, b: nat, r: bool)
      requires Ok() && Prints(ns, spineOf) && a < |ns| && b < |ns|
      requires r == RawEqual(equiv, ns, At(a), At(b))
      modifies this`slots
      ensures Ok()
    {
      if |slots| == 0 || ns[a].hash == 0 || ns[b].hash == 0 {
        return;
      }
      var key := Key(ns, a, b);
      KeyMeansPair(ns, a, b);
      var at := 2 * bucket(key.a, key.b);
      slots := slots[at + 1 := slots[at]][at := key.(result := r)];
    }

    /** The memoised walk gives exactly the answer of the memo-free one. */
    method Equal(ns: seq<Node>, headA: Ref, headB: Ref) returns (r: bool)
      requires Ok() && Prints(ns, spineOf) && ValidRef(ns, headA) && ValidRef(ns, headB)
      modifies this`slots
      ensures Ok()
      ensures r == RawEqual(equiv, ns, headA, headB)
    {
      var visited: seq<(nat, nat)> := [];
      var a, b := headA, headB;
      r := true;
      while a.At? && b.At?
        invariant Ok() && r && ValidRef(ns, a) && ValidRef(ns, b)
        invariant RawEqual(equiv, ns, headA, headB) == RawEqual(equiv, ns, a, b)
        invariant SameAnswer(ns, visited, a, b)
        decreases Height(ns, a)
      {
        if a == b {
          break;
        }
        var known, answer := Lookup(ns, a.id, b.id);
        if known {
          StoreVisited(ns, visited, answer);
          return answer;
        }
        visited := visited + [(a.id, b.id)];
        if !Matches(equiv, ns[a.id].entry, ns[b.id].entry) {
          r := false;
          break;
        }
        a, b := ns[a.id].prev, ns[b.id].prev;
      }
      StoreVisited(ns, visited, r);
    }

    /** Every visited pair has the answer of the current one. */
    ghost predicate SameAnswer(ns: seq<Node>, visited: seq<(nat, nat)>, a: Ref, b: Ref)
      requires Chained(ns) && ValidRef(ns, a) && ValidRef(ns, b)
      reads this
    {
      AllAnswer(equiv, ns, visited, RawEqual(equiv, ns, a, b))
    }

    method StoreVisited(ns: seq<Node>, visited: seq<(nat, nat)>, r: bool)
      requires Ok() && Prints(ns, spineOf) && AllAnswer(equiv, ns, visited, r)
      modifies this`slots
      ensures Ok()
    {
      var i := 0;
      while i < |visited|
        invariant 0 <= i <= |visited| && Ok()
      {
        Store(ns, visited[i].0, visited[i].1, r);
        i := i + 1;
      }
    }

    /** A new epoch forgets all answers, so fingerprints may mean something else from here
        on.  A counter about to wrap clears the table instead. */
    method NextEpoch(ghost next: Fingerprints)
      requires Ok()
      modifies this
      ensures Ok() && spineOf == next && |slots| == |old(slots)|
      ensures epoch == if old(epoch) == MAX_WORD then 1 else old(epoch) + 1
    {
      if epoch == MAX_WORD {
        slots := seq(|slots|, _ => Slot(0, 0, 0, 0, 0, false));
        epoch := 0;
      }
      epoch := epoch + 1;
      spineOf := next;
    }
  }

  /** Comparisons over two node stores in turn, with a new epoch between them: each answer is
      the memo-free one of its own store. */
  method CompareAcross(memo: Memo, ns: seq<Node>, a: Ref, b: Ref, ms: seq<Node>, c: Ref, d: Ref, ghost next: Fingerprints)
    returns (first: bool, second: bool)
    requires memo.Ok() && Prints(ns, memo.spineOf) && Prints(ms, next)
    requires ValidRef(ns, a) && ValidRef(ns, b) && ValidRef(ms, c) && ValidRef(ms, d)
    modifies memo
    ensures memo.Ok() && first == RawEqual(memo.equiv, ns, a, b) && second == RawEqual(memo.equiv, ms, c, d)
  {
    first := memo.Equal(ns, a, b);
    memo.NextEpoch(next);
    second := memo.Equal(ms, c, d);
  }

  ghost predicate AllAnswer(equiv: Equiv, ns: seq<Node>, visited: seq<(nat, nat)>, r: bool)
    requires Chained(ns)
  {
    forall k: nat :: k < |visited| ==>
      visited[k].0 < |ns| && visited[k].1 < |ns| && r == RawEqual(equiv, ns, At(visited[k].0), At(visited[k].1))
  }

  function TwoSpines(bottom: nat, hash: nat): seq<Node> {
    [Node(Entry(1, bottom), Nil, 0, hash), Node(Entry(2, 6), At(0), 1, 8),
     Node(Entry(1, 5), Nil, 0, 9), Node(Entry(2, 6), At(2), 1, 10)]
  }

  lemma {:induction false} TwoSpinesRaw(equiv: Equiv, bottom: nat, hash: nat)
    requires equiv(6, 6)
    ensures Chained(TwoSpines(bottom, hash))
    ensures RawEqual(equiv, TwoSpines(bottom, hash), At(1), At(3)) == equiv(bottom, 5)
  {
    var ns := TwoSpines(bottom, hash);
    assert RawEqual(equiv, ns, At(0), At(2)) == (Matches(equiv, ns[0].entry, ns[2].entry) && RawEqual(equiv, ns, Nil, Nil));
  }

  /** The assumption on fingerprints is needed: rewriting an entry further down, with its
      own fingerprint cleared, changes the answer for two nodes whose entries, links and
      fingerprints stay as they were. */
  lemma FingerprintMustCoverSpine(equiv: Equiv, x: nat)
    requires Fair(equiv) && !equiv(x, 5)
    ensures var before, after := TwoSpines(5, 7), TwoSpines(x, 0);
            && Chained(before) && Chained(after)
            && before[1] == after[1] && before[3] == after[3]
            && RawEqual(equiv, before, At(1), At(3)) && !RawEqual(equiv, after, At(1), At(3))
  {
    TwoSpinesRaw(equiv, 5, 7);
    TwoSpinesRaw(equiv, x, 0);
  }
}
