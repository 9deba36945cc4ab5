/** The slab arena: nodes come from a primary slab and then from overflow slabs, child and
    field slices and scanner snapshots from slab lists of their own.  One counter tracks the
    bytes behind all of them, and a reset recycles the slabs for the next parse. */
module Arena {
  import opened Numbers
  import opened Snapshots
  import opened Wrappers
  import opened Growth
  import opened Slabs

  /** Element sizes in bytes. */
  datatype Sizes = Sizes(node: nat, pointer: nat, field: nat)

  // ---------------------------------------------------------------- nodes

  datatype NodeSlot = Primary(index: nat) | Overflow(slab: nat, index: nat)

  ghost predicate Served(nodes: seq<nat>, used: nat, slabs: seq<Slab>, slot: NodeSlot) {
    match slot
    case Primary(i) => i < |nodes| && i < used
    case Overflow(k, i) => k < |slabs| && i < slabs[k].used <= |slabs[k].data|
  }

  ghost predicate Held(nodes: seq<nat>, slabs: seq<Slab>, slot: NodeSlot) {
    match slot
    case Primary(i) => i < |nodes|
    case Overflow(k, i) => k < |slabs| && i < |slabs[k].data|
  }

  ghost function NodeAt(nodes: seq<nat>, slabs: seq<Slab>, slot: NodeSlot): nat
    requires Held(nodes, slabs, slot)
  {
    match slot
    case Primary(i) => nodes[i]
    case Overflow(k, i) => slabs[k].data[i]
  }

  /** Cells not yet served are zero; overflow is used only once the primary slab is. */
  ghost predicate NodesOk(nodes: seq<nat>, used: nat, slabs: seq<Slab>, cursor: nat) {
    && Sane(slabs) && ZeroPast(slabs) && FilledTo(slabs, cursor)
    && (forall i :: used <= i < |nodes| ==> nodes[i] == 0)
    && used == (if used < |nodes| then used else |nodes|) + InUse(slabs)
    && (slabs == [] || cursor < |slabs|)
  }

  /** Every slot served before is served still and holds the same node. */
  ghost predicate KeptNodes(nodes: seq<nat>, used: nat, slabs: seq<Slab>, nodes': seq<nat>, used': nat, slabs': seq<Slab>) {
    forall slot {:trigger Served(nodes', used', slabs', slot)} {:trigger Served(nodes, used, slabs, slot)} ::
      Served(nodes, used, slabs, slot) ==>
        Served(nodes', used', slabs', slot) && NodeAt(nodes', slabs', slot) == NodeAt(nodes, slabs, slot)
  }

  /** One cell was taken from the first overflow slab with room, at or after the cursor. */
  ghost predicate TookOne(nodes: seq<nat>, used: nat, slabs: seq<Slab>, cursor: nat, after: seq<Slab>, r: Range) {
    && NodesOk(nodes, used, slabs, cursor) && used >= |nodes| && cursor < |slabs|
    && Took(slabs, after, r) && r.len == 1 && Sane(after) && InUse(after) == InUse(slabs) + 1
    && cursor <= r.slab && forall k :: cursor <= k < r.slab ==> |slabs[k].data| - slabs[k].used < 1
  }

  lemma {:induction false} OneMoreInOrder(nodes: seq<nat>, used: nat, slabs: seq<Slab>, cursor: nat, after: seq<Slab>, r: Range)
    requires TookOne(nodes, used, slabs, cursor, after, r)
    ensures NodesOk(nodes, used + 1, after, r.slab)
  {
    assert forall i :: 0 <= i < |slabs| && i != r.slab ==> after[i] == slabs[i];
  }

  /** Taking one cell from the overflow slabs serves a new zero node and keeps the order. */
  lemma {:induction false} OneMore(nodes: seq<nat>, used: nat, slabs: seq<Slab>, cursor: nat, after: seq<Slab>, r: Range)
    requires TookOne(nodes, used, slabs, cursor, after, r)
    ensures ServedOneMore(nodes, used, slabs, after, r)
  {
    OneMoreInOrder(nodes, used, slabs, cursor, after, r);
    forall slot | Served(nodes, used, slabs, slot)
      ensures Served(nodes, used + 1, after, slot) && NodeAt(nodes, after, slot) == NodeAt(nodes, slabs, slot)
    {
      assert slot.Overflow? && slot.slab != r.slab ==> after[slot.slab] == slabs[slot.slab];
    }
  }

  /** What holds of the overflow slabs until the first reset: the last one is in use, and
      their sizes are those growth gives. */
  ghost predicate Pristine(slabs: seq<Slab>, cursor: nat, class_: Class, size: nat) {
    (slabs != [] ==> cursor == |slabs| - 1 && slabs[cursor].used > 0) && Doubling(slabs, class_, size)
  }

  ghost predicate Doubling(slabs: seq<Slab>, class_: Class, size: nat) {
    Sized(slabs, Growing(class_, size))
  }

  /** Every slab is between the least capacity and the ceiling. */
  ghost predicate Moderate(slabs: seq<Slab>, size: nat)
    requires size > 0
  {
    forall i :: 0 <= i < |slabs| ==> MIN_NODES <= |slabs[i].data| <= Ceiling(size)
  }

  /** Capacity runs ahead of use by less than one ceiling-sized slab. */
  ghost predicate KeepsUp(slabs: seq<Slab>, size: nat)
    requires size > 0
  {
    Capacity(slabs) - InUse(slabs) < Ceiling(size)
  }

  /** What holds of them over every run: the last one is in use and within the ceiling, or
      all of them together are within what a reset retains. */
  ghost predicate Lean(slabs: seq<Slab>, cursor: nat, class_: Class, size: nat)
    requires size > 0
  {
    || (slabs != [] && cursor == |slabs| - 1 && slabs[cursor].used > 0 && |slabs[cursor].data| <= Ceiling(size))
    || Capacity(slabs) <= RetainedOverflow(class_, size)
  }

  /** Until the first reset, overflow capacity runs ahead of overflow nodes in use by less
      than one ceiling-sized slab. */
  lemma {:induction false} WasteBelowCeiling(slabs: seq<Slab>, cursor: nat, class_: Class, size: nat)
    requires size > 0 && Pristine(slabs, cursor, class_, size) && FilledTo(slabs, cursor)
    ensures KeepsUp(slabs, size)
  {
    if slabs != [] {
      WasteSplits(slabs, cursor);
      GrowthBelowCeiling(class_, size, cursor);
    }
  }

  /** Over every run with any number of resets the overrun is below the ceiling or within
      what a reset retains. */
  lemma {:induction false} WasteOverEveryRun(slabs: seq<Slab>, cursor: nat, class_: Class, size: nat)
    requires size > 0 && Lean(slabs, cursor, class_, size) && FilledTo(slabs, cursor)
    ensures var waste := Capacity(slabs) - InUse(slabs);
      waste < Ceiling(size) || waste <= RetainedOverflow(class_, size)
  {
    if Capacity(slabs) > RetainedOverflow(class_, size) {
      WasteSplits(slabs, cursor);
    }
  }

  /** One cell taken at or after the cursor keeps both. */
  lemma {:induction false} StaysLean(slabs: seq<Slab>, cursor: nat, after: seq<Slab>, r: Range, class_: Class, size: nat)
    requires size > 0 && slabs != [] && cursor < |slabs|
    requires Took(slabs, after, r) && r.len == 1 && cursor <= r.slab
    requires r.slab >= |slabs| ==> |after[r.slab].data| == NextCapacity(|slabs[|slabs| - 1].data|, MIN_NODES, size)
    ensures cursor == |slabs| - 1 && Doubling(slabs, class_, size) ==>
      Pristine(after, r.slab, class_, size) && Lean(after, r.slab, class_, size)
    ensures Lean(slabs, cursor, class_, size) ==> Lean(after, r.slab, class_, size)
  {
    if r.slab < |slabs| {
      SameSizesSameBytes(slabs, after, 0);
      GrowthBelowCeiling(class_, size, r.slab);
    }
  }

  lemma {:induction false} StaysModerate(slabs: seq<Slab>, after: seq<Slab>, r: Range, size: nat)
    requires size > 0 && Moderate(slabs, size) && Took(slabs, after, r) && slabs != []
    requires r.slab >= |slabs| ==> |after[r.slab].data| == NextCapacity(|slabs[|slabs| - 1].data|, MIN_NODES, size)
    ensures Moderate(after, size)
  {
  }

  /** Taking a cell never ends keeping up: a slab is added only when all are full. */
  lemma {:induction false} StaysUp(slabs: seq<Slab>, cursor: nat, after: seq<Slab>, r: Range, grow: nat, size: nat)
    requires size > 0 && FilledTo(slabs, cursor) && grow <= Ceiling(size) && KeepsUp(slabs, size)
    requires forall k :: cursor <= k < r.slab && k < |slabs| ==> slabs[k].used == |slabs[k].data|
    requires Capacity(after) == (Capacity(slabs) + if r.slab < |slabs| then 0 else grow) && InUse(after) == InUse(slabs) + 1
    ensures KeepsUp(after, size)
  {
    if r.slab >= |slabs| {
      FullUse(slabs);
    }
  }

  /** The overflow list with its first slab added is still in order and serves nothing. */
  lemma {:induction false} FirstOverflow(class_: Class, size: nat, nodes: seq<nat>, used: nat, cursor: nat)
    requires size > 0 && NodesOk(nodes, used, [], cursor)
    ensures var first := FirstCapacity(class_, size);
      var slabs := [Slab(Zeros(first), 0)];
      NodesOk(nodes, used, slabs, 0) && SlabBytes(slabs, size) == first * size && Doubling(slabs, class_, size)
      && Moderate(slabs, size)
  {
    FirstSlabBelowCeiling(class_, size);
    var s := Slab(Zeros(FirstCapacity(class_, size)), 0);
    AppendedBytes([], s, size);
    assert [] + [s] == [s];
  }

  /** Takes one overflow cell, creating the first slab or the next one as needed. */
  method TakeOverflow(class_: Class, size: nat, ghost nodes: seq<nat>, ghost used: nat,
                      slabs: seq<Slab>, cursor: nat) returns (after: seq<Slab>, r: Range, bytes: nat)
    requires size > 0 && NodesOk(nodes, used, slabs, cursor) && used >= |nodes|
    ensures ServedOneMore(nodes, used, slabs, after, r) && SlabBytes(after, size) == SlabBytes(slabs, size) + bytes
    ensures Pristine(slabs, cursor, class_, size) ==> Pristine(after, r.slab, class_, size)
    ensures Lean(slabs, cursor, class_, size) ==> Lean(after, r.slab, class_, size)
    ensures Moderate(slabs, size) ==> Moderate(after, size) && (KeepsUp(slabs, size) ==> KeepsUp(after, size))
  {
    if slabs == [] {
      FirstOverflow(class_, size, nodes, used, cursor);
      var first := FirstCapacity(class_, size);
      var added;
      after, r, added := TakeNext(class_, size, nodes, used, [Slab(Zeros(first), 0)], 0);
      bytes := first * size + added;
      WasteBelowCeiling(after, r.slab, class_, size);
    } else {
      after, r, bytes := TakeNext(class_, size, nodes, used, slabs, cursor);
    }
  }

  /** A new zero node at the range's cell, the others as they were. */
  ghost predicate ServedOneMore(nodes: seq<nat>, used: nat, slabs: seq<Slab>, after: seq<Slab>, r: Range) {
    var slot := Overflow(r.slab, r.start);
    && NodesOk(nodes, used + 1, after, r.slab)
    && !Served(nodes, used, slabs, slot) && Served(nodes, used + 1, after, slot)
    && NodeAt(nodes, after, slot) == 0
    && KeptNodes(nodes, used, slabs, nodes, used + 1, after)
  }

  method TakeNext(ghost class_: Class, size: nat, ghost nodes: seq<nat>, ghost used: nat,
                  slabs: seq<Slab>, cursor: nat) returns (after: seq<Slab>, r: Range, bytes: nat)
    requires size > 0 && NodesOk(nodes, used, slabs, cursor) && used >= |nodes| && slabs != []
    ensures ServedOneMore(nodes, used, slabs, after, r) && SlabBytes(after, size) == SlabBytes(slabs, size) + bytes
    ensures cursor == |slabs| - 1 && Doubling(slabs, class_, size) ==>
      Pristine(after, r.slab, class_, size) && Lean(after, r.slab, class_, size)
    ensures Lean(slabs, cursor, class_, size) ==> Lean(after, r.slab, class_, size)
    ensures Moderate(slabs, size) ==> Moderate(after, size) && (KeepsUp(slabs, size) ==> KeepsUp(after, size))
  {
    var grow := NextCapacity(|slabs[|slabs| - 1].data|, MIN_NODES, size);
    after, r, bytes := TakeOne(slabs, cursor, grow, size);
    OneMore(nodes, used, slabs, cursor, after, r);
    StaysLean(slabs, cursor, after, r, class_, size);
    if Moderate(slabs, size) {
      StaysModerate(slabs, after, r, size);
      if KeepsUp(slabs, size) {
        StaysUp(slabs, cursor, after, r, grow, size);
      }
    }
  }

  /** Writing a served node changes that node only. */
  ghost predicate OnlyNode(nodes: seq<nat>, slabs: seq<Slab>, nodes': seq<nat>, slabs': seq<Slab>, used: nat, slot: NodeSlot) {
    forall other {:trigger Served(nodes', used, slabs', other)} ::
      other != slot && Served(nodes, used, slabs, other) ==>
        Served(nodes', used, slabs', other) && NodeAt(nodes', slabs', other) == NodeAt(nodes, slabs, other)
  }

  lemma {:induction false} WritePrimary(nodes: seq<nat>, used: nat, slabs: seq<Slab>, cursor: nat, i: nat, value: nat)
    requires NodesOk(nodes, used, slabs, cursor) && Served(nodes, used, slabs, Primary(i))
    ensures NodesOk(nodes[i := value], used, slabs, cursor)
    ensures OnlyNode(nodes, slabs, nodes[i := value], slabs, used, Primary(i))
  {
    var after := nodes[i := value];
    forall other | other != Primary(i) && Served(nodes, used, slabs, other)
      ensures Served(after, used, slabs, other) && NodeAt(after, slabs, other) == NodeAt(nodes, slabs, other)
    {
    }
  }

  lemma {:induction false} WriteOverflow(nodes: seq<nat>, used: nat, slabs: seq<Slab>, cursor: nat, k: nat, i: nat, value: nat, size: nat)
    requires NodesOk(nodes, used, slabs, cursor) && Served(nodes, used, slabs, Overflow(k, i))
    ensures var after := slabs[k := slabs[k].(data := slabs[k].data[i := value])];
      && NodesOk(nodes, used, after, cursor) && SlabBytes(after, size) == SlabBytes(slabs, size)
      && Served(nodes, used, after, Overflow(k, i)) && NodeAt(nodes, after, Overflow(k, i)) == value
      && OnlyNode(nodes, slabs, nodes, after, used, Overflow(k, i))
      && SameSizes(slabs, after) && Capacity(after) == Capacity(slabs)
  {
    var after := slabs[k := slabs[k].(data := slabs[k].data[i := value])];
    SameUse(slabs, after);
    SameSizesSameBytes(slabs, after, size);
    forall other | other != Overflow(k, i) && Served(nodes, used, slabs, other)
      ensures Served(nodes, used, after, other) && NodeAt(nodes, after, other) == NodeAt(nodes, slabs, other)
    {
      assert other.Overflow? && other.slab != k ==> after[other.slab] == slabs[other.slab];
    }
  }

  // ---------------------------------------------------------------- slices

  lemma {:induction false} WriteKeepsSizes(slabs: seq<Slab>, after: seq<Slab>, cursor: nat, class_: Class, size: nat)
    requires size > 0 && SameSizes(slabs, after) && forall i :: 0 <= i < |slabs| ==> after[i].used == slabs[i].used
    ensures Pristine(slabs, cursor, class_, size) ==> Pristine(after, cursor, class_, size)
    ensures Lean(slabs, cursor, class_, size) ==> Lean(after, cursor, class_, size)
    ensures Moderate(slabs, size) ==> Moderate(after, size)
  {
    SameSizesSameBytes(slabs, after, 0);
  }

  ghost predicate SlicesOk(slabs: seq<Slab>, live: set<Range>) {
    slabs != [] && Sane(slabs) && Isolated(slabs, live)
  }

  ghost predicate KeptCells(before: seq<Slab>, after: seq<Slab>, live: set<Range>)
  {
    forall p {:trigger p in live} :: p in live ==>
      Within(before, p) && Within(after, p) && Cells(after, p) == Cells(before, p)
  }

  lemma {:induction false} FewerIsolated(slabs: seq<Slab>, live: set<Range>, fewer: set<Range>)
    requires Isolated(slabs, live) && fewer <= live
    ensures Isolated(slabs, fewer)
  {
  }

  /** One range more: apart from the live ones, which keep their cells. */
  ghost predicate Extended(before: seq<Slab>, after: seq<Slab>, live: set<Range>, r: Range) {
    && r !in live && SlicesOk(after, live + {r}) && Within(after, r)
    && KeptCells(before, after, live)
  }

  /** The first slab of an empty list. */
  lemma {:induction false} FirstSlice(fallback: nat, size: nat)
    ensures SlabBytes([Slab(Zeros(fallback), 0)], size) == fallback * size
  {
    var s := Slab(Zeros(fallback), 0);
    AppendedBytes([], s, size);
    assert [] + [s] == [s];
  }

  /** Where a range was taken: after the used part of an old slab, or at the start of a new
      slab of `grow` cells.  Old slabs keep their sizes. */
  ghost predicate TakenAt(slabs: seq<Slab>, after: seq<Slab>, r: Range, grow: nat) {
    && r.slab <= |slabs| && |after| == (if r.slab < |slabs| then |slabs| else |slabs| + 1)
    && (forall k :: 0 <= k < |slabs| ==> |after[k].data| == |slabs[k].data|)
    && (if r.slab < |slabs| then r.start == slabs[r.slab].used && r.start + r.len <= |slabs[r.slab].data|
        else r.start == 0 && |after[r.slab].data| == grow)
  }

  lemma {:induction false} TookExtends(before: seq<Slab>, after: seq<Slab>, live: set<Range>, r: Range)
    requires Isolated(before, live) && Took(before, after, r) && r.len > 0 && Sane(after)
    ensures Extended(before, after, live, r) && TakenAt(before, after, r, |after[r.slab].data|)
  {
    TookIsApart(before, after, live, r);
    FewerIsolated(after, live + {r}, live);
  }

  lemma {:induction false} FillExtends(before: seq<Slab>, after: seq<Slab>, live: set<Range>, r: Range, cells: seq<nat>, size: nat)
    requires Extended(before, after, live, r) && |cells| == r.len
    ensures var filled := Filled(after, r, cells);
      && Extended(before, filled, live, r) && Cells(filled, r) == cells
      && SlabBytes(filled, size) == SlabBytes(after, size) && SameSizes(after, filled)
  {
    var filled := Filled(after, r, cells);
    FillIsLocal(after, live + {r}, r, cells);
    SameSizesSameBytes(after, filled, size);
    FewerIsolated(filled, live + {r}, live);
  }

  method TakeFrom(slabs: seq<Slab>, cursor: nat, n: nat, fallback: nat, size: nat, wipe: bool,
                  ghost live: set<Range>) returns (after: seq<Slab>, r: Range, bytes: nat)
    requires SlicesOk(slabs, live) && n > 0
    ensures Extended(slabs, after, live, r) && r.len == n && TakenAt(slabs, after, r, Max(fallback, n))
    ensures wipe ==> Cells(after, r) == Zeros(n)
    ensures SlabBytes(after, size) == SlabBytes(slabs, size) + bytes && (bytes == 0 || bytes == Max(fallback, n) * size)
  {
    var added;
    after, r, added := Take(slabs, cursor, n, Max(fallback, n));
    bytes := added * size;
    assert SlabBytes(after, size) == SlabBytes(slabs, size) + bytes;
    TookExtends(slabs, after, live, r);
    if wipe {
      FillExtends(slabs, after, live, r, Zeros(n), size);
      after := Filled(after, r, Zeros(n));
    }
  }

  /** Takes a slice of `n` cells, zeroed when `wipe`.  An empty list is first given a slab of
      the default size; `charge` says whether that slab is counted in `bytes`. */
  method TakeSlice(slabs: seq<Slab>, cursor: nat, n: nat, fallback: nat, size: nat, wipe: bool, charge: bool,
                   ghost live: set<Range>) returns (after: seq<Slab>, r: Range, bytes: nat)
    requires Sane(slabs) && Isolated(slabs, live) && n > 0
    ensures Extended(slabs, after, live, r) && r.len == n
    ensures slabs != [] ==> TakenAt(slabs, after, r, Max(fallback, n)) && (bytes == 0 || bytes == Max(fallback, n) * size)
    ensures wipe ==> Cells(after, r) == Zeros(n)
    ensures slabs != [] || charge ==> SlabBytes(after, size) == SlabBytes(slabs, size) + bytes
    ensures slabs == [] && !charge ==> SlabBytes(after, size) == bytes + fallback * size
  {
    if slabs == [] {
      assert live == {} by {
        assert forall p :: p in live ==> Within(slabs, p);
      }
      FirstSlice(fallback, size);
      after, r, bytes := TakeFrom([Slab(Zeros(fallback), 0)], 0, n, fallback, size, wipe, live);
      if charge {
        bytes := bytes + fallback * size;
      }
    } else {
      after, r, bytes := TakeFrom(slabs, cursor, n, fallback, size, wipe, live);
    }
  }

  // ---------------------------------------------------------------- snapshots

  const WORD16: nat := 0x1_0000

  const NO_SNAPSHOT := SnapshotRef(0, 0, 0)

  /** Offset, slab and length are kept in 32, 16 and 16 bits. */
  function RefTo(r: Range): SnapshotRef {
    SnapshotRef(r.start % WORD32, r.slab % WORD16, r.len % WORD16)
  }

  /** The bytes a reference reads; nothing when it does not lie in a used part. */
  function ReadSnapshot(slabs: seq<Slab>, ref: SnapshotRef): seq<nat> {
    if ref.len == 0 || ref.slab >= |slabs| then []
    else
      var s := slabs[ref.slab];
      if s.used > |s.data| || ref.off + ref.len > s.used then []
      else s.data[ref.off..ref.off + ref.len]
  }

  /** A range whose slab and offset fit reads back through its reference exactly when its
      length fits too. */
  lemma {:induction false} ReadsBackIffShort(slabs: seq<Slab>, r: Range)
    requires Within(slabs, r) && r.slab < WORD16 && r.start < WORD32
    ensures ReadSnapshot(slabs, RefTo(r)) == Cells(slabs, r) <==> r.len < WORD16
  {
    if r.len < WORD16 {
      assert RefTo(r) == SnapshotRef(r.start, r.slab, r.len);
    } else {
      assert |ReadSnapshot(slabs, RefTo(r))| < WORD16;
    }
  }

  /** What a reference should read, and the range it was stored in. */
  datatype Snap = Snap(bytes: seq<nat>, home: Range)

  ghost predicate SnapOk(slabs: seq<Slab>, live: set<Range>, handed: set<Range>, ref: SnapshotRef, snap: Snap) {
    && snap.home in live && snap.home !in handed && Within(slabs, snap.home)
    && ref.len > 0 && ref.slab == snap.home.slab
    && snap.home.start <= ref.off && ref.off + ref.len <= snap.home.start + snap.home.len
    && snap.bytes == slabs[ref.slab].data[ref.off..ref.off + ref.len]
  }

  /** Each remembered snapshot sits inside a live range that no caller may write. */
  ghost predicate SnapshotsOk(slabs: seq<Slab>, live: set<Range>, handed: set<Range>, snapshots: map<SnapshotRef, Snap>) {
    handed <= live &&
    forall ref {:trigger snapshots[ref]} :: ref in snapshots ==> SnapOk(slabs, live, handed, ref, snapshots[ref])
  }

  /** A remembered snapshot reads back. */
  lemma {:induction false} RememberedReadsBack(slabs: seq<Slab>, live: set<Range>, handed: set<Range>,
                                               snapshots: map<SnapshotRef, Snap>, ref: SnapshotRef)
    requires SnapshotsOk(slabs, live, handed, snapshots) && ref in snapshots
    ensures ReadSnapshot(slabs, ref) == snapshots[ref].bytes
  {
    assert SnapOk(slabs, live, handed, ref, snapshots[ref]);
  }

  lemma {:induction false} SnapKept(before: seq<Slab>, after: seq<Slab>, live: set<Range>, handed: set<Range>,
                                    live': set<Range>, handed': set<Range>, ref: SnapshotRef, snap: Snap)
    requires SnapOk(before, live, handed, ref, snap)
    requires snap.home in live' && snap.home !in handed' && Within(after, snap.home)
    requires Cells(after, snap.home) == Cells(before, snap.home)
    ensures SnapOk(after, live', handed', ref, snap)
  {
    var home := snap.home;
    SliceOfSlice(before[ref.slab].data, home.start, home.start + home.len, ref.off, ref.off + ref.len);
    SliceOfSlice(after[ref.slab].data, home.start, home.start + home.len, ref.off, ref.off + ref.len);
  }

  lemma {:induction false} SliceOfSlice(s: seq<nat>, from: nat, til: nat, i: nat, j: nat)
    requires from <= i <= j <= til <= |s|
    ensures s[i..j] == s[from..til][i - from..j - from]
  {
    var part := s[from..til];
    forall k | 0 <= k < j - i ensures s[i..j][k] == part[i - from..j - from][k] {
      assert part[i - from + k] == s[i + k];
    }
  }

  /** Snapshots outlive any step that keeps the ranges no caller may write. */
  lemma {:induction false} SnapshotsKept(before: seq<Slab>, after: seq<Slab>, live: set<Range>, handed: set<Range>,
                                         live': set<Range>, handed': set<Range>, snapshots: map<SnapshotRef, Snap>)
    requires SnapshotsOk(before, live, handed, snapshots)
    requires live <= live' && handed' <= live' && handed' * live <= handed
    requires forall p {:trigger p in live} :: p in live && p !in handed ==>
      Within(before, p) && Within(after, p) && Cells(after, p) == Cells(before, p)
    ensures SnapshotsOk(after, live', handed', snapshots)
  {
    forall ref | ref in snapshots ensures SnapOk(after, live', handed', ref, snapshots[ref]) {
      assert SnapOk(before, live, handed, ref, snapshots[ref]);
      SnapKept(before, after, live, handed, live', handed', ref, snapshots[ref]);
    }
  }

  /** Slab or offset do not fit the words of a reference. */
  ghost predicate Far(r: Range) {
    r.slab >= WORD16 || r.start >= WORD32
  }

  /** Every range taken from these slabs, or from one more, fits the words of a reference. */
  ghost predicate InReach(slabs: seq<Slab>) {
    |slabs| < WORD16 && forall k :: 0 <= k < |slabs| ==> |slabs[k].data| <= WORD32
  }

  /** Every slab holds at least `least` cells. */
  ghost predicate Roomy(slabs: seq<Slab>, least: nat) {
    forall k :: 0 <= k < |slabs| ==> |slabs[k].data| >= least
  }

  lemma {:induction false} ReachAndRoom(slabs: seq<Slab>, after: seq<Slab>, r: Range, fallback: nat, n: nat)
    requires TakenAt(slabs, after, r, Max(fallback, n)) && r.len > 0
    ensures InReach(slabs) ==> !Far(r)
    ensures Roomy(slabs, fallback) ==> Roomy(after, fallback)
  {
  }

  /** Slabs of at least `least` cells cannot be many when their bytes are few. */
  lemma {:induction false} FewBytesFewSlabs(slabs: seq<Slab>, least: nat)
    requires Roomy(slabs, least)
    ensures |slabs| * least <= SlabBytes(slabs, 1)
    ensures forall k :: 0 <= k < |slabs| ==> |slabs[k].data| <= SlabBytes(slabs, 1)
    decreases |slabs|
  {
    if slabs != [] {
      var n := |slabs| - 1;
      FewBytesFewSlabs(slabs[..n], least);
      assert |slabs| * least == n * least + least;
      forall k | 0 <= k < |slabs| ensures |slabs[k].data| <= SlabBytes(slabs, 1) {
        assert k < n ==> slabs[..n][k] == slabs[k];
      }
    }
  }

  ghost function Remember(snapshots: map<SnapshotRef, Snap>, r: Range, src: seq<nat>): map<SnapshotRef, Snap>
    requires |src| == r.len
  {
    if Far(r) || RefTo(r).len == 0 then snapshots else snapshots[RefTo(r) := Snap(src[..RefTo(r).len], r)]
  }

  /** The reference recalls the front of `src` that its length word covers. */
  ghost predicate Recalls(snapshots: map<SnapshotRef, Snap>, ref: SnapshotRef, src: seq<nat>) {
    && ref.len == |src| % WORD16
    && (ref.len > 0 ==> ref.len <= |src| && ref in snapshots && snapshots[ref].bytes == src[..ref.len])
  }

  /** Remembered snapshots are never forgotten or altered. */
  ghost predicate KeptSnapshots(before: map<SnapshotRef, Snap>, after: map<SnapshotRef, Snap>) {
    forall ref {:trigger after[ref]} {:trigger before[ref]} :: ref in before ==> ref in after && after[ref] == before[ref]
  }

  /** Storing a snapshot in a range of its own keeps the others, and its reference recalls it
      whenever slab and offset fit. */
  lemma {:induction false} SnapshotStored(slabs: seq<Slab>, live: set<Range>, handed: set<Range>,
                                          snapshots: map<SnapshotRef, Snap>, r: Range, src: seq<nat>)
    requires SnapshotsOk(slabs, live, handed, snapshots) && Isolated(slabs, live)
    requires r in live && r !in handed && Within(slabs, r) && Cells(slabs, r) == src
    requires forall ref {:trigger snapshots[ref]} :: ref in snapshots ==> snapshots[ref].home != r
    ensures SnapshotsOk(slabs, live, handed, Remember(snapshots, r, src))
    ensures KeptSnapshots(snapshots, Remember(snapshots, r, src))
    ensures !Far(r) ==> Recalls(Remember(snapshots, r, src), RefTo(r), src)
  {
    var ref := RefTo(r);
    if !Far(r) && ref.len > 0 {
      assert ref.off == r.start && ref.slab == r.slab && ref.len <= r.len;
      assert src[..ref.len] == slabs[ref.slab].data[ref.off..ref.off + ref.len];
      assert ref in snapshots ==> SnapOk(slabs, live, handed, ref, snapshots[ref]) && Disjoint(snapshots[ref].home, r);
    }
  }

  /** Stores a snapshot in cells of its own. */
  method TakeSnapshot(slabs: seq<Slab>, cursor: nat, fallback: nat, src: seq<nat>, ghost live: set<Range>,
                      ghost handed: set<Range>, ghost snapshots: map<SnapshotRef, Snap>)
    returns (after: seq<Slab>, r: Range, bytes: nat)
    requires SlicesOk(slabs, live) && SnapshotsOk(slabs, live, handed, snapshots) && src != []
    ensures Extended(slabs, after, live, r) && r.len == |src| && Cells(after, r) == src
    ensures SlabBytes(after, 1) == SlabBytes(slabs, 1) + bytes && bytes <= Max(fallback, |src|)
    ensures (InReach(slabs) ==> !Far(r)) && (Roomy(slabs, fallback) ==> Roomy(after, fallback))
    ensures SnapshotsOk(after, live + {r}, handed, Remember(snapshots, r, src))
    ensures KeptSnapshots(snapshots, Remember(snapshots, r, src))
    ensures !Far(r) ==> Recalls(Remember(snapshots, r, src), RefTo(r), src)
  {
    after, r, bytes := TakeSlice(slabs, cursor, |src|, fallback, 1, false, true, live);
    FillExtends(slabs, after, live, r, src, 1);
    after := Filled(after, r, src);
    SnapshotsKept(slabs, after, live, handed, live + {r}, handed, snapshots);
    SnapshotStored(after, live + {r}, handed, snapshots, r, src);
    ReachAndRoom(slabs, after, r, fallback, |src|);
  }

  // ---------------------------------------------------------------- the arena

  ghost function TotalBytes(sizes: Sizes, nodes: seq<nat>, nodeSlabs: seq<Slab>, childSlabs: seq<Slab>,
                            fieldSlabs: seq<Slab>, sourceSlabs: seq<Slab>): nat
  {
    |nodes| * sizes.node + SlabBytes(nodeSlabs, sizes.node) + SlabBytes(childSlabs, sizes.pointer) +
    SlabBytes(fieldSlabs, sizes.field) + SlabBytes(sourceSlabs, 1)
  }

  /** Sums the slabs afresh. */
  method Recount(sizes: Sizes, nodes: seq<nat>, nodeSlabs: seq<Slab>, childSlabs: seq<Slab>,
                 fieldSlabs: seq<Slab>, sourceSlabs: seq<Slab>) returns (total: nat)
    ensures total == TotalBytes(sizes, nodes, nodeSlabs, childSlabs, fieldSlabs, sourceSlabs)
  {
    var n := CountBytes(nodeSlabs, sizes.node);
    var c := CountBytes(childSlabs, sizes.pointer);
    var f := CountBytes(fieldSlabs, sizes.field);
    var s := CountBytes(sourceSlabs, 1);
    total := |nodes| * sizes.node + n + c + f + s;
  }

  datatype NodeStore = NodeStore(primary: seq<nat>, used: nat, slabs: seq<Slab>, cursor: nat)

  datatype SliceStore = SliceStore(slabs: seq<Slab>, cursor: nat)

  /** What callers hold since the last reset: ranges by kind, those of field sources they may
      write, the snapshots that should read back, whether one was stored out of a
      reference's reach, and whether the arena was ever reset. */
  datatype Live = Live(children: set<Range>, fields: set<Range>, sources: set<Range>, handed: set<Range>,
                       snapshots: map<SnapshotRef, Snap>, truncated: bool, everReset: bool)

  const NOTHING_LIVE := Live({}, {}, {}, {}, map[], false, false)

  ghost predicate SourcesOk(sources: SliceStore, live: Live, last: SnapshotRef, least: nat) {
    && SlicesOk(sources.slabs, live.sources) && Roomy(sources.slabs, least)
    && SnapshotsOk(sources.slabs, live.sources, live.handed, live.snapshots)
    && (last.len == 0 || last in live.snapshots || live.truncated)
  }

  lemma {:induction false} ShortIsRecalled(slabs: seq<Slab>, live: Live, ref: SnapshotRef, src: seq<nat>)
    requires SnapshotsOk(slabs, live.sources, live.handed, live.snapshots)
    requires Recalls(live.snapshots, ref, src) && 0 < |src| < WORD16
    ensures ref in live.snapshots && live.snapshots[ref].bytes == src && ReadSnapshot(slabs, ref) == src
  {
    assert ref.len == |src| && src[..|src|] == src;
    RememberedReadsBack(slabs, live.sources, live.handed, live.snapshots, ref);
  }

  class NodeArena {
    const class_: Class
    const sizes: Sizes

    var nodes: NodeStore
    var children: SliceStore
    var fields: SliceStore
    var sources: SliceStore
    var skipChildClear: bool
    var lastSnapshot: SnapshotRef
    var allocatedBytes: nat
    ghost var live: Live

    ghost predicate Valid()
      reads this
    {
      && sizes.node > 0
      && NodesOk(nodes.primary, nodes.used, nodes.slabs, nodes.cursor)
      && (!live.everReset ==> Pristine(nodes.slabs, nodes.cursor, class_, sizes.node))
      && Lean(nodes.slabs, nodes.cursor, class_, sizes.node) && Moderate(nodes.slabs, sizes.node)
      && SlicesOk(children.slabs, live.children)
      && SlicesOk(fields.slabs, live.fields)
      && SourcesOk(sources, live, lastSnapshot, SliceCapacity(class_))
      && allocatedBytes == TotalBytes(sizes, nodes.primary, nodes.slabs, children.slabs, fields.slabs, sources.slabs)
    }

    constructor (class_: Class, sizes: Sizes)
      requires sizes.node > 0
      ensures Valid() && nodes.used == 0 && live == NOTHING_LIVE && InReach(sources.slabs)
      ensures this.class_ == class_ && this.sizes == sizes
    {
      this.class_, this.sizes := class_, sizes;
      nodes := NodeStore(Zeros(NodeCapacity(class_, sizes.node)), 0, [], 0);
      children := SliceStore([Slab(Zeros(SliceCapacity(class_)), 0)], 0);
      fields := SliceStore([Slab(Zeros(SliceCapacity(class_)), 0)], 0);
      sources := SliceStore([Slab(Zeros(SliceCapacity(class_)), 0)], 0);
      skipChildClear, lastSnapshot := false, NO_SNAPSHOT;
      live := NOTHING_LIVE;
      new;
      allocatedBytes := Recount(sizes, nodes.primary, nodes.slabs, children.slabs, fields.slabs, sources.slabs);
    }

    /** Serves a zero node from a slot no earlier allocation since the last reset was given. */
    method AllocNode() returns (slot: NodeSlot)
      requires Valid()
      modifies this`nodes, this`allocatedBytes
      ensures Valid() && NewNode(old(nodes), nodes, slot)
      ensures KeepsUp(old(nodes.slabs), sizes.node) ==> KeepsUp(nodes.slabs, sizes.node)
    {
      if nodes.used < |nodes.primary| {
        slot := Primary(nodes.used);
        nodes := nodes.(used := nodes.used + 1);
      } else {
        slot := AllocOverflow();
      }
    }

    method AllocOverflow() returns (slot: NodeSlot)
      requires Valid() && nodes.used >= |nodes.primary|
      modifies this`nodes, this`allocatedBytes
      ensures Valid() && NewNode(old(nodes), nodes, slot)
      ensures KeepsUp(old(nodes.slabs), sizes.node) ==> KeepsUp(nodes.slabs, sizes.node)
    {
      var after, r, bytes := TakeOverflow(class_, sizes.node, nodes.primary, nodes.used, nodes.slabs, nodes.cursor);
      nodes := nodes.(used := nodes.used + 1, slabs := after, cursor := r.slab);
      allocatedBytes := allocatedBytes + bytes;
      slot := Overflow(r.slab, r.start);
    }

    method WriteNode(slot: NodeSlot, value: nat)
      requires Valid() && Served(nodes.primary, nodes.used, nodes.slabs, slot)
      modifies this`nodes
      ensures Valid() && nodes.used == old(nodes.used)
      ensures Served(nodes.primary, nodes.used, nodes.slabs, slot) && NodeAt(nodes.primary, nodes.slabs, slot) == value
      ensures OnlyNode(old(nodes.primary), old(nodes.slabs), nodes.primary, nodes.slabs, nodes.used, slot)
    {
      match slot {
        case Primary(i) =>
          WritePrimary(nodes.primary, nodes.used, nodes.slabs, nodes.cursor, i, value);
          nodes := nodes.(primary := nodes.primary[i := value]);
        case Overflow(k, i) =>
          WriteOverflow(nodes.primary, nodes.used, nodes.slabs, nodes.cursor, k, i, value, sizes.node);
          var slab := nodes.slabs[k];
          var after := nodes.slabs[k := slab.(data := slab.data[i := value])];
          WriteKeepsSizes(nodes.slabs, after, nodes.cursor, class_, sizes.node);
          nodes := nodes.(slabs := after);
      }
    }

    /** A child slice: all nil when cleared, apart from every live slice in any case. */
    method AllocChildren(n: int, clearOut: bool) returns (r: Option<Range>)
      requires Valid()
      modifies this`children, this`allocatedBytes, this`live
      ensures Valid() && r.Some? == (n > 0)
      ensures r.None? ==> live == old(live) && children == old(children)
      ensures r.Some? ==>
        && live == old(live).(children := old(live.children) + {r.value}) && r.value.len == n
        && Extended(old(children.slabs), children.slabs, old(live.children), r.value)
        && (clearOut ==> Cells(children.slabs, r.value) == Zeros(n))
    {
      if n <= 0 {
        return None;
      }
      var after, range, bytes := TakeSlice(children.slabs, children.cursor, n, SliceCapacity(class_), sizes.pointer,
                                           clearOut, false, live.children);
      children, allocatedBytes := SliceStore(after, range.slab), allocatedBytes + bytes;
      live := live.(children := live.children + {range});
      return Some(range);
    }

    method WriteChildren(r: Range, cells: seq<nat>)
      requires Valid() && r in live.children && |cells| == r.len
      modifies this`children
      ensures Valid() && Cells(children.slabs, r) == cells
      ensures KeptCells(old(children.slabs), children.slabs, live.children - {r})
    {
      var after := Filled(children.slabs, r, cells);
      FillIsLocal(children.slabs, live.children, r, cells);
      SameSizesSameBytes(children.slabs, after, sizes.pointer);
      children := children.(slabs := after);
    }

    method AllocFields(n: int) returns (r: Option<Range>)
      requires Valid()
      modifies this`fields, this`allocatedBytes, this`live
      ensures Valid() && r.Some? == (n > 0)
      ensures r.None? ==> live == old(live) && fields == old(fields)
      ensures r.Some? ==>
        && live == old(live).(fields := old(live.fields) + {r.value}) && r.value.len == n
        && Extended(old(fields.slabs), fields.slabs, old(live.fields), r.value)
        && Cells(fields.slabs, r.value) == Zeros(n)
    {
      if n <= 0 {
        return None;
      }
      var after, range, bytes := TakeSlice(fields.slabs, fields.cursor, n, SliceCapacity(class_), sizes.field,
                                           true, false, live.fields);
      fields, allocatedBytes := SliceStore(after, range.slab), allocatedBytes + bytes;
      live := live.(fields := live.fields + {range});
      return Some(range);
    }

    /** A slice of field sources, handed out for writing; remembered snapshots survive it. */
    method AllocSources(n: int) returns (r: Option<Range>)
      requires Valid()
      modifies this`sources, this`allocatedBytes, this`live
      ensures Valid() && r.Some? == (n > 0)
      ensures r.None? ==> live == old(live) && sources == old(sources) && allocatedBytes == old(allocatedBytes)
      ensures r.Some? ==>
        && live == old(live).(sources := old(live.sources) + {r.value}, handed := old(live.handed) + {r.value})
        && allocatedBytes <= old(allocatedBytes) + Max(SliceCapacity(class_), n)
        && r.value.len == n && Extended(old(sources.slabs), sources.slabs, old(live.sources), r.value)
        && Cells(sources.slabs, r.value) == Zeros(n)
    {
      if n <= 0 {
        return None;
      }
      var after, range, bytes := TakeSlice(sources.slabs, sources.cursor, n, SliceCapacity(class_), 1, true, true, live.sources);
      SnapshotsKept(sources.slabs, after, live.sources, live.handed, live.sources + {range}, live.handed + {range}, live.snapshots);
      ReachAndRoom(sources.slabs, after, range, SliceCapacity(class_), n);
      sources, allocatedBytes := SliceStore(after, range.slab), allocatedBytes + bytes;
      live := live.(sources := live.sources + {range}, handed := live.handed + {range});
      return Some(range);
    }

    method WriteSources(r: Range, cells: seq<nat>)
      requires Valid() && r in live.handed && |cells| == r.len
      modifies this`sources
      ensures Valid() && Cells(sources.slabs, r) == cells
      ensures KeptCells(old(sources.slabs), sources.slabs, live.sources - {r})
    {
      var after := Filled(sources.slabs, r, cells);
      FillIsLocal(sources.slabs, live.sources, r, cells);
      SameSizesSameBytes(sources.slabs, after, 1);
      SnapshotsKept(sources.slabs, after, live.sources, live.handed, live.sources, live.handed, live.snapshots);
      sources := sources.(slabs := after);
    }

    /** Stores a snapshot.  Where slab and offset fit their words the reference is remembered,
        for the length that fits; otherwise it is of no use. */
    method StoreSnapshot(src: seq<nat>) returns (ref: SnapshotRef)
      requires Valid() && src != []
      modifies this`sources, this`allocatedBytes, this`live
      ensures Valid() && KeptSnapshots(old(live.snapshots), live.snapshots)
      ensures !live.truncated ==> Recalls(live.snapshots, ref, src)
      ensures |src| < WORD16 && !live.truncated ==>
        ref in live.snapshots && live.snapshots[ref].bytes == src && ReadSnapshot(sources.slabs, ref) == src
      ensures InReach(old(sources.slabs)) ==> live.truncated == old(live.truncated)
      ensures allocatedBytes <= old(allocatedBytes) + Max(SliceCapacity(class_), |src|)
    {
      var after, r, bytes := TakeSnapshot(sources.slabs, sources.cursor, SliceCapacity(class_), src,
                                          live.sources, live.handed, live.snapshots);
      ref := RefTo(r);
      sources, allocatedBytes := SliceStore(after, r.slab), allocatedBytes + bytes;
      live := live.(sources := live.sources + {r}, truncated := live.truncated || Far(r),
                    snapshots := Remember(live.snapshots, r, src));
      if |src| < WORD16 && !live.truncated {
        ShortIsRecalled(sources.slabs, live, ref, src);
      }
    }

    /** Stores a snapshot unless it equals the last one stored. */
    method CopySnapshot(src: seq<nat>) returns (ref: SnapshotRef)
      requires Valid()
      modifies this`sources, this`allocatedBytes, this`live, this`lastSnapshot
      ensures Valid() && KeptSnapshots(old(live.snapshots), live.snapshots)
      ensures src == [] ==> ref == NO_SNAPSHOT
      ensures 0 < |src| < WORD16 && !live.truncated ==>
        ref in live.snapshots && live.snapshots[ref].bytes == src && ReadSnapshot(sources.slabs, ref) == src
      ensures InReach(old(sources.slabs)) ==> live.truncated == old(live.truncated)
      ensures allocatedBytes <= old(allocatedBytes) + Max(SliceCapacity(class_), |src|)
    {
      if src == [] {
        return NO_SNAPSHOT;
      }
      if src == ReadSnapshot(sources.slabs, lastSnapshot) {
        LastReadsBack();
        return lastSnapshot;
      }
      ref := StoreSnapshot(src);
      lastSnapshot := ref;
    }

    lemma LastReadsBack()
      requires Valid()
      ensures lastSnapshot in live.snapshots ==> ReadSnapshot(sources.slabs, lastSnapshot) == live.snapshots[lastSnapshot].bytes
    {
      if lastSnapshot in live.snapshots {
        RememberedReadsBack(sources.slabs, live.sources, live.handed, live.snapshots, lastSnapshot);
      }
    }

    /** In an incremental arena the overrun stays below the ceiling however often it is reset. */
    lemma IncrementalStaysBelow()
      requires Valid() && class_.Incremental? && sizes.node <= LARGEST_NODE
      ensures Capacity(nodes.slabs) - InUse(nodes.slabs) < Ceiling(sizes.node)
    {
      WasteOverEveryRun(nodes.slabs, nodes.cursor, class_, sizes.node);
      IncrementalRetainsLittle(sizes.node);
    }

    /** Below 128 MiB every snapshot is within reach of its reference. */
    lemma SmallIsInReach()
      requires Valid() && allocatedBytes < WORD16 * SliceCapacity(Incremental)
      ensures InReach(sources.slabs)
    {
      var least := SliceCapacity(class_);
      FewBytesFewSlabs(sources.slabs, least);
      assert SlabBytes(sources.slabs, 1) <= allocatedBytes;
      assert |sources.slabs| * least < WORD16 * SliceCapacity(Incremental);
      assert least >= SliceCapacity(Incremental);
      SmallerFactor(|sources.slabs|, least, WORD16, SliceCapacity(Incremental));
    }

    /** Empties the arena for the next parse: slabs within the retention limits are kept. */
    method Reset()
      requires Valid()
      modifies this
      ensures Valid() && nodes.used == 0 && live == NOTHING_LIVE.(everReset := true)
      ensures Unused(nodes.slabs) && KeptFront(old(nodes.slabs), nodes.slabs, RetainedOverflow(class_, sizes.node))
      ensures |nodes.primary| == if |old(nodes.primary)| > RetainedNodes(class_, sizes.node) then 0 else |old(nodes.primary)|
      ensures class_.Full? ==> KeepsUpIff(old(nodes.slabs), nodes.slabs, sizes.node, old(live.everReset))
    {
      nodes := ResetStore(nodes, class_, sizes.node, live.everReset);
      var slabs := RewindSlices(children.slabs, RetainedSlices(class_), !skipChildClear);
      children, skipChildClear := SliceStore(slabs, 0), false;
      slabs := RewindSlices(fields.slabs, RetainedSlices(class_), false);
      fields := SliceStore(slabs, 0);
      slabs := RewindSlices(sources.slabs, RetainedSlices(class_), false);
      sources, lastSnapshot := SliceStore(slabs, 0), NO_SNAPSHOT;
      live := NOTHING_LIVE.(everReset := true);
      allocatedBytes := Recount(sizes, nodes.primary, nodes.slabs, children.slabs, fields.slabs, sources.slabs);
    }

    /** Presizes the primary slab, before any node is served. */
    method EnsureNodeCapacity(min: nat)
      requires Valid() && (min > |nodes.primary| ==> nodes.used == 0)
      modifies this`nodes, this`allocatedBytes
      ensures Valid() && |nodes.primary| >= min
      ensures min <= old(|nodes.primary|) ==> nodes == old(nodes)
    {
      if min <= |nodes.primary| {
        return;
      }
      var capacity := Max(|nodes.primary|, MIN_NODES);
      while capacity < min
        invariant capacity > 0
        decreases min - capacity
      {
        capacity := capacity * 2;
      }
      nodes := NodeStore(Zeros(capacity), 0, [], 0);
      allocatedBytes := Recount(sizes, nodes.primary, nodes.slabs, children.slabs, fields.slabs, sources.slabs);
    }
  }

  lemma {:induction false} SmallerFactor(a: nat, b: nat, c: nat, d: nat)
    requires a * b < c * d && b >= d
    ensures a < c
  {
    MultiplyMonotonic(d, c, a);
    MultiplyMonotonic(a, d, b);
  }

  /** After any reset of a full-parse arena capacity keeps up with use exactly when all overflow
      slabs together held less than the ceiling before it. */
  lemma {:induction false} KeepsUpAfterReset(slabs: seq<Slab>, kept: seq<Slab>, size: nat)
    requires size > 0 && Moderate(slabs, size) && Unused(kept) && KeptFront(slabs, kept, RetainedOverflow(Full, size))
    ensures KeepsUp(kept, size) <==> Capacity(slabs) < Ceiling(size)
  {
    UnusedIsZero(kept);
    FullRetainsCeiling(size);
    var n := |kept|;
    SameSizesSameBytes(slabs[..n], kept, 0);
    if n < |slabs| {
      LastOfFront(slabs, n);
      FrontHolds(slabs, n);
      FrontHolds(slabs, n + 1);
    } else {
      assert slabs[..n] == slabs;
    }
  }

  lemma {:induction false} LastOfFront(slabs: seq<Slab>, n: nat)
    requires n < |slabs|
    ensures Capacity(slabs[..n + 1]) == Capacity(slabs[..n]) + |slabs[n].data|
  {
    assert slabs[..n + 1][..n] == slabs[..n];
  }

  /** A front holds no more than the whole, and at least the least capacity when it is not empty. */
  lemma {:induction false} FrontHolds(slabs: seq<Slab>, n: nat)
    requires n <= |slabs|
    ensures Capacity(slabs[..n]) <= Capacity(slabs)
    ensures n > 0 ==> Capacity(slabs[..n]) >= |slabs[n - 1].data|
    decreases |slabs| - n
  {
    if n < |slabs| {
      FrontHolds(slabs, n + 1);
      LastOfFront(slabs, n);
    } else {
      assert slabs[..n] == slabs;
    }
    if n > 0 {
      LastOfFront(slabs, n - 1);
    }
  }

  /** In a full-parse arena that was never reset it is the third slab that reaches the ceiling. */
  lemma {:induction false} ThirdSlabReachesCeiling(slabs: seq<Slab>, size: nat)
    requires 0 < size <= LARGEST_NODE && Doubling(slabs, Full, size)
    ensures Capacity(slabs) < Ceiling(size) <==> |slabs| <= 2
  {
    var cap := Growing(Full, size);
    var c := FirstThree(size);
    SizedTotal(slabs, cap);
    TotalSteps(cap, 0);
    TotalSteps(cap, 1);
    TotalSteps(cap, 2);
    if |slabs| > 2 {
      TotalsGrow(cap, 3, |slabs|);
    }
  }

  /** Capacity keeps up with use after a reset exactly when the slabs before it held less than the
      ceiling, and after a first reset exactly when there were at most two. */
  ghost predicate KeepsUpIff(before: seq<Slab>, kept: seq<Slab>, size: nat, again: bool)
    requires size > 0
  {
    && (KeepsUp(kept, size) <==> Capacity(before) < Ceiling(size))
    && (!again && size <= LARGEST_NODE ==> (KeepsUp(kept, size) <==> |before| <= 2))
  }

  lemma {:induction false} ResetKeepsUpIff(before: seq<Slab>, kept: seq<Slab>, size: nat, again: bool)
    requires size > 0 && Moderate(before, size) && Unused(kept) && KeptFront(before, kept, RetainedOverflow(Full, size))
    requires again || Doubling(before, Full, size)
    ensures KeepsUpIff(before, kept, size, again)
  {
    KeepsUpAfterReset(before, kept, size);
    if !again && size <= LARGEST_NODE {
      ThirdSlabReachesCeiling(before, size);
    }
  }

  lemma {:induction false} ResetMeans(before: seq<Slab>, kept: seq<Slab>, class_: Class, size: nat, again: bool)
    requires size > 0 && Moderate(before, size) && Unused(kept) && KeptFront(before, kept, RetainedOverflow(class_, size))
    requires again || Doubling(before, class_, size)
    ensures Moderate(kept, size) && Lean(kept, 0, class_, size)
    ensures class_.Full? ==> KeepsUpIff(before, kept, size, again)
  {
    if class_.Full? {
      ResetKeepsUpIff(before, kept, size, again);
    }
    forall i | 0 <= i < |kept| ensures MIN_NODES <= |kept[i].data| <= Ceiling(size) {
      assert before[..|kept|][i] == before[i];
    }
  }

  /** Recycles the node slabs. */
  method ResetStore(store: NodeStore, class_: Class, size: nat, ghost again: bool) returns (after: NodeStore)
    requires size > 0 && NodesOk(store.primary, store.used, store.slabs, store.cursor) && Moderate(store.slabs, size)
    requires again || Doubling(store.slabs, class_, size)
    ensures after.used == 0 && after.cursor == 0 && NodesOk(after.primary, 0, after.slabs, 0) && Unused(after.slabs)
    ensures KeptFront(store.slabs, after.slabs, RetainedOverflow(class_, size))
    ensures |after.primary| == if |store.primary| > RetainedNodes(class_, size) then 0 else |store.primary|
    ensures Moderate(after.slabs, size) && Lean(after.slabs, 0, class_, size)
    ensures class_.Full? ==> KeepsUpIff(store.slabs, after.slabs, size, again)
  {
    var primary, overflow := ResetNodes(store.primary, store.used, store.slabs, store.cursor,
                                        RetainedOverflow(class_, size), RetainedNodes(class_, size));
    ResetMeans(store.slabs, overflow, class_, size, again);
    after := NodeStore(primary, 0, overflow, 0);
  }

  method ServeNodes(arena: NodeArena, target: nat)
    requires arena.Valid() && arena.nodes.used <= target
    modifies arena
    ensures arena.Valid() && arena.nodes.used == target && arena.live == old(arena.live)
    ensures |arena.nodes.primary| == |old(arena.nodes.primary)|
  {
    while arena.nodes.used < target
      invariant arena.Valid() && arena.live == old(arena.live)
      invariant arena.nodes.used <= target && |arena.nodes.primary| == |old(arena.nodes.primary)|
    {
      var _ := arena.AllocNode();
    }
  }

  /** A full-parse arena that served nodes into its n-th overflow slab. */
  method ServeSlabs(sizes: Sizes, n: nat) returns (arena: NodeArena)
    requires 0 < sizes.node && 0 < n
    ensures fresh(arena) && arena.Valid() && arena.class_ == Full && arena.sizes == sizes && !arena.live.everReset
    ensures |arena.nodes.slabs| == n
  {
    arena := new NodeArena(Full, sizes);
    ServeNodes(arena, |arena.nodes.primary| + Total(Growing(Full, sizes.node), n - 1) + 1);
    GrowthBelowCeiling(Full, sizes.node, n - 1);
    TotalSteps(Growing(Full, sizes.node), n - 1);
    SlabsByUse(arena.nodes.slabs, arena.nodes.cursor, Growing(Full, sizes.node), n - 1);
  }

  /** Such an arena, then reset: with nothing in use, the capacity it holds is below the ceiling
      exactly when there were at most two slabs. */
  method ResetRunsAhead(sizes: Sizes, n: nat) returns (arena: NodeArena)
    requires 0 < sizes.node <= LARGEST_NODE && 0 < n
    ensures fresh(arena) && arena.Valid() && arena.nodes.used == 0
    ensures Capacity(arena.nodes.slabs) - InUse(arena.nodes.slabs) < Ceiling(sizes.node) <==> n <= 2
  {
    arena := ServeSlabs(sizes, n);
    arena.Reset();
  }

  /** A slice handed out and written: every snapshot stays. */
  method TakeSources(arena: NodeArena, cells: seq<nat>)
    requires arena.Valid()
    modifies arena
    ensures arena.Valid() && arena.live.snapshots == old(arena.live.snapshots) && arena.live.truncated == old(arena.live.truncated)
    ensures arena.allocatedBytes <= old(arena.allocatedBytes) + Max(SliceCapacity(arena.class_), |cells|)
  {
    var r := arena.AllocSources(|cells|);
    if r.Some? {
      arena.WriteSources(r.value, cells);
    }
  }

  /** Two snapshots of a parse, with a slice handed out and written between them: both read
      back at the end. */
  method StoreTwo(arena: NodeArena, first: seq<nat>, cells: seq<nat>, second: seq<nat>)
    returns (a: SnapshotRef, b: SnapshotRef)
    requires arena.Valid() && !arena.live.truncated
    requires 0 < |first| < WORD16 && 0 < |second| < WORD16
    requires arena.allocatedBytes + 2 * SliceCapacity(Full) + |first| + |cells| < WORD16 * SliceCapacity(Incremental)
    modifies arena
    ensures arena.Valid() && !arena.live.truncated
    ensures ReadSnapshot(arena.sources.slabs, a) == first && ReadSnapshot(arena.sources.slabs, b) == second
  {
    arena.SmallIsInReach();
    a := arena.CopySnapshot(first);
    TakeSources(arena, cells);
    arena.SmallIsInReach();
    b := arena.CopySnapshot(second);
    RememberedReadsBack(arena.sources.slabs, arena.live.sources, arena.live.handed, arena.live.snapshots, a);
  }

  /** A zero node in a slot not served before; served nodes are as they were. */
  ghost predicate NewNode(before: NodeStore, after: NodeStore, slot: NodeSlot) {
    && !Served(before.primary, before.used, before.slabs, slot)
    && Served(after.primary, after.used, after.slabs, slot)
    && NodeAt(after.primary, after.slabs, slot) == 0
    && after.used == before.used + 1 && |after.primary| == |before.primary|
    && KeptNodes(before.primary, before.used, before.slabs, after.primary, after.used, after.slabs)
  }

  /** The longest front of the slabs that stays within the limit and has no empty slab. */
  ghost predicate KeptFront(slabs: seq<Slab>, kept: seq<Slab>, limit: nat) {
    && |kept| <= |slabs| && SameSizes(slabs[..|kept|], kept) && Capacity(kept) <= limit
    && (|kept| < |slabs| ==>
          Capacity(slabs[..|kept| + 1]) > limit || exists k :: 0 <= k <= |kept| && |slabs[k].data| == 0)
  }

  /** The nodes after a reset: kept slabs zeroed and unused, an oversized primary dropped. */
  method ResetNodes(nodes: seq<nat>, used: nat, slabs: seq<Slab>, cursor: nat, overflowLimit: nat, primaryLimit: nat)
    returns (nodes': seq<nat>, slabs': seq<Slab>)
    requires NodesOk(nodes, used, slabs, cursor)
    ensures NodesOk(nodes', 0, slabs', 0) && Unused(slabs') && KeptFront(slabs, slabs', overflowLimit)
    ensures |nodes'| == if |nodes| > primaryLimit then 0 else |nodes|
  {
    var primaryUsed := if used < |nodes| then used else |nodes|;
    nodes' := Zeros(primaryUsed) + nodes[primaryUsed..];
    var keep := Retained(slabs, overflowLimit, false);
    slabs' := Rewind(slabs[..keep], true);
    SameSizesSameBytes(slabs[..keep], slabs', 0);
    UnusedIsZero(slabs');
    if |nodes'| > primaryLimit {
      nodes' := [];
    }
  }

  /** A slice list trimmed and emptied, never to nothing. */
  method RewindSlices(slabs: seq<Slab>, limit: nat, wipe: bool) returns (after: seq<Slab>)
    requires slabs != [] && Sane(slabs)
    ensures SlicesOk(after, {}) && Unused(after)
    ensures |after| <= |slabs| && forall k :: 0 <= k < |after| ==> |after[k].data| == |slabs[k].data|
    ensures Capacity(after) <= limit || |after| == 1
    ensures wipe && ZeroPast(slabs) ==> ZeroPast(after)
  {
    var keep := Retained(slabs, limit, true);
    after := Rewind(slabs[..keep], wipe);
    SameSizesSameBytes(slabs[..keep], after, 0);
  }
}
