/** Slab lists: fixed buffers filled from the front, a cursor to the one being filled, and
    ranges handed out of them.  Cells are numbers, 0 being the zero value of the element. */
module Slabs {

  datatype Slab = Slab(data: seq<nat>, used: nat)

  /** Cells `start` up to `start + len` of one slab.  A range's capacity is its length. */
  datatype Range = Range(slab: nat, start: nat, len: nat)

  function Zeros(n: nat): (z: seq<nat>)
    ensures |z| == n && forall i :: 0 <= i < n ==> z[i] == 0
  {
    seq(n, _ => 0)
  }

  ghost predicate Sane(slabs: seq<Slab>) {
    forall i :: 0 <= i < |slabs| ==> slabs[i].used <= |slabs[i].data|
  }

  ghost function Capacity(slabs: seq<Slab>): nat {
    if slabs == [] then 0 else Capacity(slabs[..|slabs| - 1]) + |slabs[|slabs| - 1].data|
  }

  ghost function InUse(slabs: seq<Slab>): nat {
    if slabs == [] then 0 else InUse(slabs[..|slabs| - 1]) + slabs[|slabs| - 1].used
  }

  /** The bytes behind a slab list, summed slab by slab. */
  ghost function SlabBytes(slabs: seq<Slab>, size: nat): nat {
    if slabs == [] then 0 else SlabBytes(slabs[..|slabs| - 1], size) + |slabs[|slabs| - 1].data| * size
  }

  method CountBytes(slabs: seq<Slab>, size: nat) returns (total: nat)
    ensures total == SlabBytes(slabs, size)
  {
    total := 0;
    for i := 0 to |slabs|
      invariant total == SlabBytes(slabs[..i], size)
    {
      assert slabs[..i + 1][..i] == slabs[..i];
      total := total + |slabs[i].data| * size;
    }
    assert slabs[..|slabs|] == slabs;
  }

  ghost predicate SameSizes(a: seq<Slab>, b: seq<Slab>) {
    |a| == |b| && forall i :: 0 <= i < |a| ==> |a[i].data| == |b[i].data|
  }

  lemma {:induction false} SameSizesSameBytes(a: seq<Slab>, b: seq<Slab>, size: nat)
    requires SameSizes(a, b)
    ensures SlabBytes(a, size) == SlabBytes(b, size) && Capacity(a) == Capacity(b)
    decreases |a|
  {
    if a != [] {
      SameSizesSameBytes(a[..|a| - 1], b[..|b| - 1], size);
    }
  }

  lemma {:induction false} AppendedBytes(a: seq<Slab>, s: Slab, size: nat)
    ensures SlabBytes(a + [s], size) == SlabBytes(a, size) + |s.data| * size
    ensures Capacity(a + [s]) == Capacity(a) + |s.data| && InUse(a + [s]) == InUse(a) + s.used
  {
    assert (a + [s])[..|a|] == a;
  }

  lemma {:induction false} UseMore(a: seq<Slab>, i: nat, used: nat)
    requires i < |a|
    ensures InUse(a[i := a[i].(used := used)]) == InUse(a) - a[i].used + used
    decreases |a|
  {
    var n := |a| - 1;
    var b := a[i := a[i].(used := used)];
    if i < n {
      UseMore(a[..n], i, used);
      assert b[..n] == a[..n][i := a[i].(used := used)];
    } else {
      assert b[..n] == a[..n];
    }
  }

  // ---------------------------------------------------------------- taking a range

  /** `after` is `before` with one range taken from the front of a slab's free part, that slab
      being an old one or a new zeroed one at the end. */
  ghost predicate Took(before: seq<Slab>, after: seq<Slab>, r: Range) {
    && r.slab < |after| && r.start + r.len <= |after[r.slab].data|
    && (if r.slab < |before| then
          && before[r.slab].used == r.start
          && after == before[r.slab := before[r.slab].(used := r.start + r.len)]
        else
          && r.start == 0 && |after| == |before| + 1
          && after == before + [Slab(Zeros(|after[r.slab].data|), r.len)])
  }

  /** A cursor outside the list goes back to the front. */
  function Start(slabs: seq<Slab>, cursor: int): nat {
    if 0 <= cursor < |slabs| then cursor else 0
  }

  /** Finds the first slab from the cursor on with room for `n`, adding one of `grow` cells
      when there is none. */
  method Take(slabs: seq<Slab>, cursor: int, n: nat, grow: nat) returns (after: seq<Slab>, r: Range, added: nat)
    requires Sane(slabs) && slabs != [] && 0 < n <= grow
    ensures Took(slabs, after, r) && r.len == n && Sane(after)
    ensures Start(slabs, cursor) <= r.slab && (0 <= cursor < |slabs| ==> cursor <= r.slab)
    ensures forall k :: Start(slabs, cursor) <= k < r.slab ==> |slabs[k].data| - slabs[k].used < n
    ensures added == if r.slab < |slabs| then 0 else grow
    ensures forall size: nat {:trigger SlabBytes(after, size)} ::
      SlabBytes(after, size) == SlabBytes(slabs, size) + added * size
    ensures Capacity(after) == Capacity(slabs) + added && InUse(after) == InUse(slabs) + n
    ensures r.slab >= |slabs| ==> |after[r.slab].data| == grow
  {
    var i := Start(slabs, cursor);
    while i < |slabs| && |slabs[i].data| - slabs[i].used < n
      invariant Start(slabs, cursor) <= i <= |slabs|
      invariant forall k :: Start(slabs, cursor) <= k < i ==> |slabs[k].data| - slabs[k].used < n
    {
      i := i + 1;
    }
    if i == |slabs| {
      after, r, added := slabs + [Slab(Zeros(grow), n)], Range(i, 0, n), grow;
      forall size: nat ensures SlabBytes(after, size) == SlabBytes(slabs, size) + added * size {
        AppendedBytes(slabs, Slab(Zeros(grow), n), size);
      }
      AppendedBytes(slabs, Slab(Zeros(grow), n), 0);
    } else {
      var start := slabs[i].used;
      after, r, added := slabs[i := slabs[i].(used := start + n)], Range(i, start, n), 0;
      forall size: nat ensures SlabBytes(after, size) == SlabBytes(slabs, size) + added * size {
        SameSizesSameBytes(slabs, after, size);
      }
      SameSizesSameBytes(slabs, after, 0);
      UseMore(slabs, i, start + n);
    }
  }

  // ---------------------------------------------------------------- isolation

  ghost predicate Within(slabs: seq<Slab>, r: Range) {
    r.len > 0 && r.slab < |slabs| && r.start + r.len <= slabs[r.slab].used <= |slabs[r.slab].data|
  }

  ghost predicate Disjoint(p: Range, q: Range) {
    p.slab != q.slab || p.start + p.len <= q.start || q.start + q.len <= p.start
  }

  /** The live ranges lie in the used parts and do not overlap. */
  ghost predicate Isolated(slabs: seq<Slab>, live: set<Range>) {
    && (forall p {:trigger p in live} :: p in live ==> Within(slabs, p))
    && (forall p, q {:trigger Disjoint(p, q)} :: p in live && q in live && p != q ==> Disjoint(p, q))
  }

  ghost function Cells(slabs: seq<Slab>, r: Range): seq<nat>
    requires Within(slabs, r)
  {
    slabs[r.slab].data[r.start..r.start + r.len]
  }

  /** A range just taken overlaps no live one, and the live ones keep their cells. */
  lemma {:induction false} TookIsApart(before: seq<Slab>, after: seq<Slab>, live: set<Range>, r: Range)
    requires Isolated(before, live) && Took(before, after, r) && r.len > 0
    ensures r !in live && Isolated(after, live + {r})
    ensures forall p {:trigger Cells(after, p)} :: p in live ==> Cells(after, p) == Cells(before, p)
  {
    forall p | p in live ensures Within(after, p) && Disjoint(p, r) && Disjoint(r, p) && p != r {
      assert Within(before, p);
    }
    forall p | p in live ensures Within(after, p) && Cells(after, p) == Cells(before, p) {
      assert Within(before, p);
    }
  }

  /** Takes one cell, in bytes of the given size. */
  method TakeOne(slabs: seq<Slab>, cursor: int, grow: nat, size: nat) returns (after: seq<Slab>, r: Range, bytes: nat)
    requires Sane(slabs) && slabs != [] && 0 < grow
    ensures Took(slabs, after, r) && r.len == 1 && Sane(after)
    ensures Start(slabs, cursor) <= r.slab
    ensures forall k :: Start(slabs, cursor) <= k < r.slab ==> slabs[k].used == |slabs[k].data|
    ensures SlabBytes(after, size) == SlabBytes(slabs, size) + bytes && InUse(after) == InUse(slabs) + 1
    ensures Capacity(after) == Capacity(slabs) + if r.slab < |slabs| then 0 else grow
    ensures r.slab >= |slabs| ==> |after[r.slab].data| == grow
  {
    var added;
    after, r, added := Take(slabs, cursor, 1, grow);
    bytes := added * size;
    assert SlabBytes(after, size) == SlabBytes(slabs, size) + added * size;
  }

  /** Overwrites the cells of one range. */
  function Filled(slabs: seq<Slab>, r: Range, cells: seq<nat>): seq<Slab>
    requires r.slab < |slabs| && r.start + r.len <= |slabs[r.slab].data| && |cells| == r.len
  {
    var data := slabs[r.slab].data;
    slabs[r.slab := slabs[r.slab].(data := data[..r.start] + cells + data[r.start + r.len..])]
  }

  /** Writing one live range leaves every other one alone. */
  lemma {:induction false} FillIsLocal(slabs: seq<Slab>, live: set<Range>, r: Range, cells: seq<nat>)
    requires Isolated(slabs, live) && r in live && Within(slabs, r) && |cells| == r.len
    ensures var after := Filled(slabs, r, cells);
      && Isolated(after, live) && SameSizes(slabs, after) && Cells(after, r) == cells
      && (forall i :: 0 <= i < |slabs| ==> after[i].used == slabs[i].used)
      && (forall p {:trigger Cells(after, p)} :: p in live && p != r ==> Cells(after, p) == Cells(slabs, p))
  {
    var after := Filled(slabs, r, cells);
    assert after[r.slab].data[r.start..r.start + r.len] == cells;
    forall p | p in live && p != r ensures Within(after, p) && Cells(after, p) == Cells(slabs, p) {
      assert Within(slabs, p) && Disjoint(p, r);
      FillIsElsewhere(slabs, r, cells, p);
    }
  }

  lemma {:induction false} FillIsElsewhere(slabs: seq<Slab>, r: Range, cells: seq<nat>, p: Range)
    requires Within(slabs, r) && Within(slabs, p) && Disjoint(p, r) && |cells| == r.len
    ensures var after := Filled(slabs, r, cells); Within(after, p) && Cells(after, p) == Cells(slabs, p)
  {
    var after := Filled(slabs, r, cells);
    if p.slab == r.slab {
      var was, now := slabs[p.slab].data, after[p.slab].data;
      assert |now| == |was| && now[..r.start] == was[..r.start] && now[r.start + r.len..] == was[r.start + r.len..];
      forall i | p.start <= i < p.start + p.len ensures now[i] == was[i] {
        if i < r.start {
          assert now[i] == now[..r.start][i];
        } else {
          assert now[i] == now[r.start + r.len..][i - r.start - r.len];
        }
      }
    }
  }

  lemma {:induction false} SameUse(a: seq<Slab>, b: seq<Slab>)
    requires |a| == |b| && forall i :: 0 <= i < |a| ==> a[i].used == b[i].used
    ensures InUse(a) == InUse(b)
    decreases |a|
  {
    if a != [] {
      SameUse(a[..|a| - 1], b[..|b| - 1]);
    }
  }

  // ---------------------------------------------------------------- reset

  /** How many slabs a reset keeps: the longest front whose capacity stays within the limit,
      the first one in any case when `always`. */
  method Retained(slabs: seq<Slab>, limit: nat, always: bool) returns (keep: nat)
    ensures keep <= |slabs| && (always && slabs != [] ==> keep > 0)
    ensures Capacity(slabs[..keep]) <= limit || (always && keep <= 1)
    ensures keep < |slabs| ==>
      Capacity(slabs[..keep + 1]) > limit || exists k :: 0 <= k <= keep && |slabs[k].data| == 0
  {
    keep := 0;
    var retained, i := 0, 0;
    while i < |slabs|
      invariant 0 <= i == keep <= |slabs|
      invariant retained == Capacity(slabs[..i])
      invariant retained <= limit || (always && keep == 1)
    {
      var capacity := |slabs[i].data|;
      assert slabs[..i + 1][..i] == slabs[..i];
      if capacity == 0 {
        assert |slabs[i].data| == 0;
        break;
      }
      if (!always || keep > 0) && retained + capacity > limit {
        break;
      }
      retained := retained + capacity;
      keep, i := i + 1, i + 1;
    }
    if always && keep == 0 && slabs != [] {
      keep := 1;
    }
  }

  ghost predicate Unused(slabs: seq<Slab>) {
    forall i :: 0 <= i < |slabs| ==> slabs[i].used == 0
  }

  lemma {:induction false} UnusedIsZero(slabs: seq<Slab>)
    requires Unused(slabs)
    ensures InUse(slabs) == 0
    decreases |slabs|
  {
    if slabs != [] {
      UnusedIsZero(slabs[..|slabs| - 1]);
    }
  }

  /** Every cell past the used part is zero. */
  ghost predicate ZeroPast(slabs: seq<Slab>) {
    forall i, k {:trigger slabs[i].data[k]} :: 0 <= i < |slabs| && slabs[i].used <= k < |slabs[i].data| ==> slabs[i].data[k] == 0
  }

  /** Empties every slab, zeroing the used parts when asked to. */
  method Rewind(slabs: seq<Slab>, wipe: bool) returns (after: seq<Slab>)
    requires Sane(slabs)
    ensures SameSizes(slabs, after) && Unused(after) && Sane(after)
    ensures wipe && ZeroPast(slabs) ==> ZeroPast(after)
  {
    after := [];
    for i := 0 to |slabs|
      invariant |after| == i
      invariant forall k :: 0 <= k < i ==> |after[k].data| == |slabs[k].data| && after[k].used == 0
      invariant wipe && ZeroPast(slabs) ==> ZeroPast(after)
    {
      var s := slabs[i];
      var data := if wipe then Zeros(s.used) + s.data[s.used..] else s.data;
      after := after + [Slab(data, 0)];
    }
  }

  // ---------------------------------------------------------------- single cells

  /** Slabs before the cursor are full and those after it untouched. */
  ghost predicate FilledTo(slabs: seq<Slab>, cursor: nat) {
    && (forall i :: 0 <= i < |slabs| && i < cursor ==> slabs[i].used == |slabs[i].data|)
    && (forall i :: cursor < i < |slabs| ==> slabs[i].used == 0)
  }

  lemma {:induction false} FullUse(slabs: seq<Slab>)
    requires forall i :: 0 <= i < |slabs| ==> slabs[i].used == |slabs[i].data|
    ensures InUse(slabs) == Capacity(slabs)
    decreases |slabs|
  {
    if slabs != [] {
      FullUse(slabs[..|slabs| - 1]);
    }
  }

  /** Free capacity is the rest of the slab at the cursor and the slabs after it. */
  lemma {:induction false} WasteSplits(slabs: seq<Slab>, cursor: nat)
    requires cursor < |slabs| && FilledTo(slabs, cursor)
    ensures Capacity(slabs) - InUse(slabs) ==
            |slabs[cursor].data| - slabs[cursor].used + Capacity(slabs[cursor + 1..])
    decreases |slabs|
  {
    var n := |slabs| - 1;
    if cursor == n {
      FullUse(slabs[..n]);
    } else {
      WasteSplits(slabs[..n], cursor);
      assert slabs[..n][cursor + 1..] == slabs[cursor + 1..][..n - cursor - 1];
    }
  }

  // ---------------------------------------------------------------- lists of known sizes

  /** The first `n` capacities together. */
  function Total(cap: nat -> nat, n: nat): nat {
    if n == 0 then 0 else Total(cap, n - 1) + cap(n - 1)
  }

  lemma {:induction false} TotalsGrow(cap: nat -> nat, m: nat, n: nat)
    requires m <= n
    ensures Total(cap, m) <= Total(cap, n)
    decreases n - m
  {
    if m < n {
      TotalsGrow(cap, m, n - 1);
    }
  }

  lemma {:induction false} TotalSteps(cap: nat -> nat, n: nat)
    ensures Total(cap, n + 1) == Total(cap, n) + cap(n)
  {
  }

  ghost predicate Sized(slabs: seq<Slab>, cap: nat -> nat) {
    forall i :: 0 <= i < |slabs| ==> |slabs[i].data| == cap(i)
  }

  lemma {:induction false} SizedTotal(slabs: seq<Slab>, cap: nat -> nat)
    requires Sized(slabs, cap)
    ensures Capacity(slabs) == Total(cap, |slabs|)
    decreases |slabs|
  {
    if slabs != [] {
      var n := |slabs| - 1;
      assert Sized(slabs[..n], cap);
      SizedTotal(slabs[..n], cap);
    }
  }

  /** How many slabs there are follows from the cells in use, as long as the last is in use. */
  lemma {:induction false} SlabsByUse(slabs: seq<Slab>, cursor: nat, cap: nat -> nat, n: nat)
    requires Sized(slabs, cap) && Sane(slabs) && FilledTo(slabs, cursor)
    requires slabs != [] ==> cursor == |slabs| - 1 && slabs[cursor].used > 0
    requires Total(cap, n) < InUse(slabs) <= Total(cap, n + 1)
    ensures |slabs| == n + 1 && Capacity(slabs) == Total(cap, n + 1)
  {
    SizedTotal(slabs, cap);
    assert slabs != [];
    WasteSplits(slabs, cursor);
    if |slabs| <= n {
      TotalsGrow(cap, |slabs|, n);
    } else {
      TotalsGrow(cap, n + 1, |slabs|);
      if |slabs| > n + 1 {
        TotalsGrow(cap, n + 1, |slabs| - 1);
      }
    }
  }
}
