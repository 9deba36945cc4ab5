/** Scanner checkpoints kept beside the node arena: per slab, two parallel slices sorted by
    node index, found by binary search and filled by appending or by shifting in place. */
module Sidecar {
  import opened Snapshots
  import opened Wrappers

  /** Node indexes within a slab are kept as 32-bit words. */
  type Index = i: nat | i < 0x1_0000_0000

  datatype Checkpoint = Checkpoint(start: SnapshotRef, end: SnapshotRef)

  predicate Complete(cp: Checkpoint) {
    cp.start.len != 0 && cp.end.len != 0
  }

  // ---------------------------------------------------------------- one sorted set

  datatype CheckpointSet = CheckpointSet(indexes: seq<Index>, refs: seq<Checkpoint>)

  const EMPTY := CheckpointSet([], [])

  ghost predicate Sorted(s: CheckpointSet) {
    |s.indexes| == |s.refs| &&
    forall i, j :: 0 <= i < j < |s.indexes| ==> s.indexes[i] < s.indexes[j]
  }

  /** The set as a map: `key` is bound to `cp`. */
  ghost predicate Binds(s: CheckpointSet, key: Index, cp: Checkpoint)
    requires |s.indexes| == |s.refs|
  {
    exists i :: 0 <= i < |s.indexes| && s.indexes[i] == key && s.refs[i] == cp
  }

  /** What a finite map bound to a set holds. */
  ghost predicate Represents(s: CheckpointSet, m: map<Index, Checkpoint>)
    requires |s.indexes| == |s.refs|
  {
    forall key: Index, cp: Checkpoint :: Binds(s, key, cp) <==> key in m && m[key] == cp
  }

  /** The first position whose index is at least `key`, by halving. */
  method Search(indexes: seq<Index>, key: Index) returns (pos: nat)
    requires forall i, j :: 0 <= i < j < |indexes| ==> indexes[i] < indexes[j]
    ensures pos <= |indexes|
    ensures forall i :: 0 <= i < pos ==> indexes[i] < key
    ensures forall i :: pos <= i < |indexes| ==> indexes[i] >= key
  {
    var lo, hi := 0, |indexes|;
    while lo < hi
      invariant 0 <= lo <= hi <= |indexes|
      invariant forall i :: 0 <= i < lo ==> indexes[i] < key
      invariant forall i :: hi <= i < |indexes| ==> indexes[i] >= key
    {
      var mid := (lo + hi) / 2;
      if indexes[mid] >= key {
        hi := mid;
      } else {
        lo := mid + 1;
      }
    }
    return lo;
  }

  method Lookup(s: CheckpointSet, key: Index) returns (r: Option<Checkpoint>)
    requires Sorted(s)
    ensures forall cp :: r == Some(cp) <==> Binds(s, key, cp)
  {
    if |s.indexes| == 0 {
      return None;
    }
    var pos := Search(s.indexes, key);
    if pos >= |s.indexes| || s.indexes[pos] != key {
      return None;
    }
    r := Some(s.refs[pos]);
    assert Binds(s, key, s.refs[pos]);
  }

  /** The set with `cp` placed at `pos` and everything from there on shifted up. */
  function Inserted(s: CheckpointSet, pos: nat, key: Index, cp: Checkpoint): CheckpointSet
    requires |s.indexes| == |s.refs| && pos <= |s.refs|
  {
    CheckpointSet(s.indexes[..pos] + [key] + s.indexes[pos..], s.refs[..pos] + [cp] + s.refs[pos..])
  }

  /** `t` is `s` with `key` bound to `cp` and every other binding as it was. */
  ghost predicate Rebound(s: CheckpointSet, t: CheckpointSet, key: Index, cp: Checkpoint)
    requires |s.indexes| == |s.refs| && |t.indexes| == |t.refs|
  {
    forall k: Index, c: Checkpoint {:trigger Binds(t, k, c)} {:trigger Binds(s, k, c)} ::
      Binds(t, k, c) <==> if k == key then c == cp else Binds(s, k, c)
  }

  ghost predicate Fits(s: CheckpointSet, pos: nat, key: Index) {
    && Sorted(s) && pos <= |s.refs|
    && (forall i :: 0 <= i < pos ==> s.indexes[i] < key)
    && (forall i :: pos <= i < |s.indexes| ==> s.indexes[i] > key)
  }

  lemma {:induction false} InsertedAt(s: CheckpointSet, pos: nat, key: Index, cp: Checkpoint, i: nat)
    requires Fits(s, pos, key) && i <= |s.refs|
    ensures var t := Inserted(s, pos, key, cp);
      && |t.indexes| == |t.refs| == |s.refs| + 1
      && t.indexes[i] == (if i < pos then s.indexes[i] else if i == pos then key else s.indexes[i - 1])
      && t.refs[i] == (if i < pos then s.refs[i] else if i == pos then cp else s.refs[i - 1])
  {
  }

  lemma {:induction false} InsertSorts(s: CheckpointSet, pos: nat, key: Index, cp: Checkpoint)
    requires Fits(s, pos, key)
    ensures Sorted(Inserted(s, pos, key, cp))
  {
    var t := Inserted(s, pos, key, cp);
    forall i, j | 0 <= i < j < |t.indexes| ensures t.indexes[i] < t.indexes[j] {
      InsertedAt(s, pos, key, cp, i);
      InsertedAt(s, pos, key, cp, j);
    }
  }

  lemma {:induction false} InsertKeepsBinding(s: CheckpointSet, pos: nat, key: Index, cp: Checkpoint,
                                              k: Index, c: Checkpoint)
    requires Fits(s, pos, key) && Binds(s, k, c)
    ensures k != key && Binds(Inserted(s, pos, key, cp), k, c)
  {
    var i :| 0 <= i < |s.indexes| && s.indexes[i] == k && s.refs[i] == c;
    InsertedAt(s, pos, key, cp, if i < pos then i else i + 1);
  }

  lemma {:induction false} InsertAddsNoOther(s: CheckpointSet, pos: nat, key: Index, cp: Checkpoint,
                                             k: Index, c: Checkpoint)
    requires Fits(s, pos, key) && Binds(Inserted(s, pos, key, cp), k, c)
    ensures if k == key then c == cp else Binds(s, k, c)
  {
    var t := Inserted(s, pos, key, cp);
    var j :| 0 <= j < |t.indexes| && t.indexes[j] == k && t.refs[j] == c;
    InsertedAt(s, pos, key, cp, j);
  }

  lemma {:induction false} InsertRebinds(s: CheckpointSet, pos: nat, key: Index, cp: Checkpoint)
    requires Fits(s, pos, key)
    ensures Sorted(Inserted(s, pos, key, cp)) && Rebound(s, Inserted(s, pos, key, cp), key, cp)
  {
    InsertSorts(s, pos, key, cp);
    var t := Inserted(s, pos, key, cp);
    InsertedAt(s, pos, key, cp, pos);
    assert Binds(t, key, cp);
    forall k: Index, c: Checkpoint ensures Binds(t, k, c) <==> if k == key then c == cp else Binds(s, k, c) {
      if Binds(s, k, c) {
        InsertKeepsBinding(s, pos, key, cp, k, c);
      }
      if Binds(t, k, c) {
        InsertAddsNoOther(s, pos, key, cp, k, c);
      }
    }
  }

  lemma {:induction false} ReplaceRebinds(s: CheckpointSet, pos: nat, key: Index, cp: Checkpoint)
    requires Sorted(s) && pos < |s.refs| && s.indexes[pos] == key
    ensures var t := s.(refs := s.refs[pos := cp]);
      Sorted(t) && Rebound(s, t, key, cp)
  {
    var t := s.(refs := s.refs[pos := cp]);
    forall k: Index, c: Checkpoint ensures Binds(t, k, c) <==> if k == key then c == cp else Binds(s, k, c) {
      assert t.indexes[pos] == key && t.refs[pos] == cp;
      if k != key && Binds(s, k, c) {
        var i :| 0 <= i < |s.indexes| && s.indexes[i] == k && s.refs[i] == c;
        assert t.indexes[i] == k && t.refs[i] == c;
      }
      if k != key && Binds(t, k, c) {
        var j :| 0 <= j < |t.indexes| && t.indexes[j] == k && t.refs[j] == c;
        assert s.indexes[j] == k && s.refs[j] == c;
      }
    }
  }

  /** Shifts the tail of a slice grown by one up by one, from the back. */
  method ShiftUp<T>(grown: seq<T>, pos: nat) returns (shifted: seq<T>)
    requires pos < |grown|
    ensures |shifted| == |grown|
    ensures forall i :: 0 <= i <= pos ==> shifted[i] == grown[i]
    ensures forall i :: pos < i < |grown| ==> shifted[i] == grown[i - 1]
  {
    shifted := grown;
    for i := |grown| - 1 downto pos
      invariant |shifted| == |grown|
      invariant forall k :: 0 <= k <= i ==> shifted[k] == grown[k]
      invariant forall k :: i < k < |grown| ==> shifted[k] == grown[k - 1]
    {
      shifted := shifted[i + 1 := shifted[i]];
    }
  }

  /** Binds `key` to `cp`: appended past the end, replaced in place, or shifted in. */
  method Upsert(s: CheckpointSet, key: Index, cp: Checkpoint) returns (t: CheckpointSet)
    requires Sorted(s)
    ensures Sorted(t) && Rebound(s, t, key, cp)
  {
    var n := |s.indexes|;
    if n == 0 || s.indexes[n - 1] < key {
      InsertRebinds(s, n, key, cp);
      t := CheckpointSet(s.indexes + [key], s.refs + [cp]);
      assert t == Inserted(s, n, key, cp);
      return;
    }
    var pos := Search(s.indexes, key);
    if pos < n && s.indexes[pos] == key {
      ReplaceRebinds(s, pos, key, cp);
      return s.(refs := s.refs[pos := cp]);
    }
    InsertRebinds(s, pos, key, cp);
    var indexes := ShiftUp(s.indexes + [0], pos);
    var refs := ShiftUp(s.refs + [Checkpoint(SnapshotRef(0, 0, 0), SnapshotRef(0, 0, 0))], pos);
    t := CheckpointSet(indexes[pos := key], refs[pos := cp]);
    assert t.indexes == Inserted(s, pos, key, cp).indexes;
    assert t.refs == Inserted(s, pos, key, cp).refs;
  }

  /** A run of writes, the last one to a key winning. */
  ghost function LastWrites(writes: seq<(Index, Checkpoint)>): map<Index, Checkpoint> {
    if writes == [] then map[]
    else LastWrites(writes[..|writes| - 1])[writes[|writes| - 1].0 := writes[|writes| - 1].1]
  }

  lemma {:induction false} ReboundRepresents(s: CheckpointSet, t: CheckpointSet, m: map<Index, Checkpoint>,
                                             key: Index, cp: Checkpoint)
    requires Sorted(s) && Sorted(t) && Represents(s, m) && Rebound(s, t, key, cp)
    ensures Represents(t, m[key := cp])
  {
  }

  /** Any sequence of writes leaves a strictly sorted set that is the last-write-wins map. */
  method UpsertAll(writes: seq<(Index, Checkpoint)>) returns (s: CheckpointSet)
    ensures Sorted(s) && Represents(s, LastWrites(writes))
  {
    s := EMPTY;
    for i := 0 to |writes|
      invariant Sorted(s) && Represents(s, LastWrites(writes[..i]))
    {
      var t := Upsert(s, writes[i].0, writes[i].1);
      assert writes[..i + 1][..i] == writes[..i];
      ReboundRepresents(s, t, LastWrites(writes[..i]), writes[i].0, writes[i].1);
      s := t;
    }
    assert writes[..|writes|] == writes;
  }

  // ---------------------------------------------------------------- the arena's sidecar

  /** Where a node lives: the primary slab, an overflow slab, or another arena. */
  datatype Slot = Main(index: Index) | Overflow(slab: nat, index: Index) | Foreign

  ghost predicate AllSorted(main: CheckpointSet, slabs: seq<CheckpointSet>) {
    Sorted(main) && forall i :: 0 <= i < |slabs| ==> Sorted(slabs[i])
  }

  ghost predicate Holds(main: CheckpointSet, slabs: seq<CheckpointSet>, slot: Slot, cp: Checkpoint)
    requires AllSorted(main, slabs)
  {
    match slot
    case Main(i) => Binds(main, i, cp)
    case Overflow(k, i) => k < |slabs| && Binds(slabs[k], i, cp)
    case Foreign => false
  }

  /** The sets together are the map `m` from slots. */
  ghost predicate Holding(main: CheckpointSet, slabs: seq<CheckpointSet>, m: map<Slot, Checkpoint>)
    requires AllSorted(main, slabs)
  {
    forall slot: Slot, cp: Checkpoint {:trigger Holds(main, slabs, slot, cp)} ::
      Holds(main, slabs, slot, cp) <==> slot in m && m[slot] == cp
  }

  /** A slot's complete checkpoint. */
  function Found(m: map<Slot, Checkpoint>, slot: Slot): (r: Option<Checkpoint>)
    ensures r.Some? <==> slot in m && m[slot].start.len > 0 && m[slot].end.len > 0
  {
    if slot in m && Complete(m[slot]) then Some(m[slot]) else None
  }

  lemma {:induction false} MainRebinds(main: CheckpointSet, slabs: seq<CheckpointSet>, m: map<Slot, Checkpoint>,
                                       t: CheckpointSet, i: Index, cp: Checkpoint)
    requires AllSorted(main, slabs) && Holding(main, slabs, m) && Sorted(t) && Rebound(main, t, i, cp)
    ensures AllSorted(t, slabs) && Holding(t, slabs, m[Main(i) := cp])
  {
    forall slot: Slot, c: Checkpoint
      ensures Holds(t, slabs, slot, c) <==> slot in m[Main(i) := cp] && m[Main(i) := cp][slot] == c
    {
      assert Holds(main, slabs, slot, c) <==> slot in m && m[slot] == c;
    }
  }

  lemma {:induction false} OverflowRebinds(main: CheckpointSet, slabs: seq<CheckpointSet>, m: map<Slot, Checkpoint>,
                                           k: nat, t: CheckpointSet, i: Index, cp: Checkpoint)
    requires AllSorted(main, slabs) && Holding(main, slabs, m) && k < |slabs|
    requires Sorted(t) && Rebound(slabs[k], t, i, cp)
    ensures AllSorted(main, slabs[k := t]) && Holding(main, slabs[k := t], m[Overflow(k, i) := cp])
  {
    var after := slabs[k := t];
    forall slot: Slot, c: Checkpoint
      ensures Holds(main, after, slot, c) <==>
              slot in m[Overflow(k, i) := cp] && m[Overflow(k, i) := cp][slot] == c
    {
      assert Holds(main, slabs, slot, c) <==> slot in m && m[slot] == c;
    }
  }

  lemma {:induction false} EmptySlabHoldsNothing(main: CheckpointSet, slabs: seq<CheckpointSet>, m: map<Slot, Checkpoint>)
    requires AllSorted(main, slabs) && Holding(main, slabs, m)
    ensures AllSorted(main, slabs + [EMPTY]) && Holding(main, slabs + [EMPTY], m)
  {
    var grown := slabs + [EMPTY];
    forall slot: Slot, c: Checkpoint ensures Holds(main, grown, slot, c) <==> slot in m && m[slot] == c {
      assert Holds(main, slabs, slot, c) <==> slot in m && m[slot] == c;
    }
  }

  class Store {
    var main: CheckpointSet
    var slabs: seq<CheckpointSet>
    ghost var contents: map<Slot, Checkpoint>

    ghost predicate Valid()
      reads this
    {
      AllSorted(main, slabs) && Holding(main, slabs, contents)
    }

    constructor ()
      ensures Valid() && contents == map[]
    {
      main, slabs, contents := EMPTY, [], map[];
    }

    /** The node's checkpoint, unless it is missing or incomplete. */
    method Get(slot: Slot) returns (r: Option<Checkpoint>)
      requires Valid()
      ensures r == Found(contents, slot)
    {
      match slot {
        case Main(i) =>
          r := Lookup(main, i);
        case Overflow(k, i) =>
          if k >= |slabs| {
            r := None;
          } else {
            r := Lookup(slabs[k], i);
          }
        case Foreign =>
          r := None;
      }
      assert forall cp :: r == Some(cp) <==> Holds(main, slabs, slot, cp);
      assert slot in contents ==> Holds(main, slabs, slot, contents[slot]);
      if r.Some? && !Complete(r.value) {
        r := None;
      }
    }

    /** Overflow sets are created on the first write that needs them. */
    method Set(slot: Slot, cp: Checkpoint) returns (ok: bool)
      requires Valid()
      modifies this
      ensures Valid() && ok == !slot.Foreign?
      ensures contents == if ok then old(contents)[slot := cp] else old(contents)
    {
      match slot {
        case Foreign =>
          ok := false;
        case Main(i) =>
          var t := Upsert(main, i, cp);
          MainRebinds(main, slabs, contents, t, i, cp);
          main, contents := t, contents[slot := cp];
          ok := true;
        case Overflow(k, i) =>
          GrowSlabs(k);
          var t := Upsert(slabs[k], i, cp);
          OverflowRebinds(main, slabs, contents, k, t, i, cp);
          slabs, contents := slabs[k := t], contents[slot := cp];
          ok := true;
      }
    }

    method GrowSlabs(k: nat)
      requires Valid()
      modifies this
      ensures Valid() && contents == old(contents) && k < |slabs|
    {
      while |slabs| <= k
        invariant Valid() && contents == old(contents)
        decreases k + 1 - |slabs|
      {
        EmptySlabHoldsNothing(main, slabs, contents);
        slabs := slabs + [EMPTY];
      }
    }

  }
}
