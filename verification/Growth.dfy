/** The capacities of the arena: default and retained sizes by class, and the growth of the
    overflow list by doubling up to a ceiling. */
module Growth {

  datatype Class = Incremental | Full

  const MIN_NODES: nat := 64
  const GROWTH_BYTES: nat := 8 * 1024 * 1024

  function Max(a: nat, b: nat): nat {
    if a >= b then a else b
  }

  function NodesForBytes(bytes: nat, size: nat): nat {
    if size == 0 then MIN_NODES else Max(bytes / size, MIN_NODES)
  }

  function NodeCapacity(class_: Class, size: nat): nat {
    NodesForBytes(if class_.Incremental? then 16 * 1024 else 2 * 1024 * 1024, size)
  }

  function SliceCapacity(class_: Class): nat {
    if class_.Incremental? then 2 * 1024 else 64 * 1024
  }

  function RetainedSlices(class_: Class): nat {
    if class_.Incremental? then Max(SliceCapacity(class_) * 4, 32 * 1024)
    else Max(SliceCapacity(class_) * 8, 512 * 1024)
  }

  function RetainedNodes(class_: Class, size: nat): nat {
    var unit := if size == 0 then 1 else size;
    if class_.Full? then 64 * 1024 * 1024 / unit
    else Max(NodeCapacity(class_, size) * 4, 256 * 1024 / unit)
  }

  function RetainedOverflow(class_: Class, size: nat): nat {
    if class_.Full? then Max(NodesForBytes(64 * 1024 * 1024, size), NodeCapacity(class_, size))
    else Max(RetainedNodes(class_, size) / 2, NodeCapacity(class_, size))
  }

  /** The largest overflow slab that growth alone asks for. */
  function Ceiling(size: nat): nat
    requires size > 0
  {
    Max(GROWTH_BYTES / size, MIN_NODES)
  }

  /** Capacity of the next overflow slab: double the last, up to the ceiling. */
  function NextCapacity(last: nat, atLeast: nat, size: nat): nat {
    var doubled := last * 2;
    var bounded := if size > 0 && doubled > Ceiling(size) then Ceiling(size) else doubled;
    Max(Max(bounded, atLeast), MIN_NODES)
  }

  /** What a reset may keep, in default slabs: sixteen or eight of slices; of nodes at least four in
      an incremental arena, of overflow at least one. */
  lemma {:induction false} RetainedInSlabs(size: nat)
    ensures RetainedSlices(Incremental) == 16 * SliceCapacity(Incremental) && RetainedSlices(Full) == 8 * SliceCapacity(Full)
    ensures RetainedNodes(Incremental, size) >= 4 * NodeCapacity(Incremental, size)
    ensures forall c: Class :: RetainedOverflow(c, size) >= NodeCapacity(c, size) >= MIN_NODES
  {
  }

  lemma {:induction false} FirstSlabBelowCeiling(class_: Class, size: nat)
    requires size > 0
    ensures Max(NodeCapacity(class_, size), MIN_NODES) <= Ceiling(size)
  {
    var bytes := if class_.Incremental? then 16 * 1024 else 2 * 1024 * 1024;
    assert bytes <= GROWTH_BYTES;
    DivideMonotonic(bytes, GROWTH_BYTES, size);
  }

  lemma {:induction false} DivideMonotonic(a: nat, b: nat, d: nat)
    requires a <= b && d > 0
    ensures a / d <= b / d
  {
    var q, p := a / d, b / d;
    assert d * q <= a && b < d * p + d;
    MultiplyMonotonic(d, p + 1, q);
    assert d * (p + 1) == d * p + d;
  }

  lemma {:induction false} MultiplyMonotonic(d: nat, x: nat, y: nat)
    ensures x <= y ==> d * x <= d * y
  {
    if x <= y {
      assert d * y == d * x + d * (y - x);
      assert d * (y - x) >= 0;
    }
  }

  // ---------------------------------------------------------------- how slabs grow

  function FirstCapacity(class_: Class, size: nat): nat {
    Max(NodeCapacity(class_, size), MIN_NODES)
  }

  /** Capacity of the i-th overflow slab of an arena that was never reset. */
  function GrowthCapacity(class_: Class, size: nat, i: nat): nat {
    if i == 0 then FirstCapacity(class_, size)
    else NextCapacity(GrowthCapacity(class_, size, i - 1), MIN_NODES, size)
  }

  /** Those capacities as one function. */
  function Growing(class_: Class, size: nat): nat -> nat {
    i => GrowthCapacity(class_, size, i)
  }

  lemma {:induction false} GrowthBelowCeiling(class_: Class, size: nat, i: nat)
    requires size > 0
    ensures MIN_NODES <= GrowthCapacity(class_, size, i) <= Ceiling(size)
    decreases i
  {
    if i == 0 {
      FirstSlabBelowCeiling(class_, size);
    } else {
      GrowthBelowCeiling(class_, size, i - 1);
    }
  }

  /** The largest node size for which default slabs hold more than the least capacity. */
  const LARGEST_NODE: nat := 32 * 1024

  lemma {:induction false} AtMostQuotient(x: nat, a: nat, d: nat)
    requires d > 0 && d * x <= a
    ensures x <= a / d
  {
    var q := a / d;
    assert a < d * q + d;
    MultiplyMonotonic(d, q + 1, x);
    assert d * (q + 1) == d * q + d;
  }

  /** A quotient times a factor is at most the quotient of the product. */
  lemma {:induction false} TimesQuotient(k: nat, a: nat, d: nat)
    requires d > 0
    ensures k * (a / d) <= k * a / d
  {
    var q := a / d;
    assert d * q <= a;
    MultiplyMonotonic(k, d * q, a);
    Regroup(d, k, q);
    AtMostQuotient(k * q, k * a, d);
  }

  lemma {:induction false} Regroup(d: nat, k: nat, q: nat)
    ensures d * (k * q) == k * (d * q)
  {
  }

  /** The first three slabs of a full parse double, and the ceiling is barely four times the first. */
  lemma {:induction false} FirstThree(size: nat) returns (c: nat)
    requires 0 < size <= LARGEST_NODE
    ensures c >= 64 && 4 * c <= Ceiling(size) <= 4 * c + 3
    ensures GrowthCapacity(Full, size, 0) == c && GrowthCapacity(Full, size, 1) == 2 * c && GrowthCapacity(Full, size, 2) == 4 * c
  {
    var unit := 2 * 1024 * 1024;
    c := unit / size;
    AtMostQuotient(64, unit, size);
    TimesQuotient(4, unit, size);
    assert size * c + size > unit;
    BelowNextMultiple(size, c);
  }

  lemma {:induction false} BelowNextMultiple(size: nat, c: nat)
    requires size > 0 && size * c + size > 2 * 1024 * 1024
    ensures GROWTH_BYTES / size <= 4 * c + 3
  {
    var q := GROWTH_BYTES / size;
    assert size * q <= GROWTH_BYTES;
    MultiplyMonotonic(size, 4 * c + 4, q);
    assert size * (4 * c + 4) == 4 * (size * c + size);
  }

  /** A full-parse arena retains at least two slabs of the ceiling, unless the ceiling is the least
      capacity. */
  lemma {:induction false} FullRetainsCeiling(size: nat)
    requires size > 0
    ensures RetainedOverflow(Full, size) >= Ceiling(size) >= MIN_NODES
    ensures Ceiling(size) > MIN_NODES ==> RetainedOverflow(Full, size) >= 2 * Ceiling(size)
  {
    TimesQuotient(2, GROWTH_BYTES, size);
    DivideMonotonic(2 * GROWTH_BYTES, 64 * 1024 * 1024, size);
    DivideMonotonic(GROWTH_BYTES, 64 * 1024 * 1024, size);
  }

  /** What an incremental arena retains is below the ceiling. */
  lemma {:induction false} IncrementalRetainsLittle(size: nat)
    requires 0 < size <= LARGEST_NODE
    ensures RetainedOverflow(Incremental, size) < Ceiling(size)
  {
    AtMostQuotient(256, GROWTH_BYTES, size);
    TimesQuotient(32, 256 * 1024, size);
    assert 32 * (256 * 1024) == GROWTH_BYTES;
    DivideMonotonic(16 * 1024, 256 * 1024, size);
  }
}
