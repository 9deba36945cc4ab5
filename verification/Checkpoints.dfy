/** The checkpoint of an internal node, computed two ways: recorded once from the direct
    children when the node is built, and rebuilt later by recursion from the root. */
module Checkpoints {
  import opened Wrappers
  import opened Sidecar

  /** A child is a node with a slot of its own, a compact leaf carrying its checkpoint, or a
      pending parent that has children but no slot yet.  A node without children is a leaf. */
  datatype Tree =
    | Node(slot: Slot, kids: seq<Tree>)
    | Compact(mark: Option<Checkpoint>)
    | Pending(kids: seq<Tree>)

  type Marks = map<Slot, Checkpoint>

  // ---------------------------------------------------------------- what a checkpoint should be

  /** The checkpoints of the leaves, in order. */
  function LeafMarks(m: Marks, t: Tree): seq<Checkpoint>
    decreases t
  {
    match t
    case Compact(mark) => if mark.Some? then [mark.value] else []
    case Pending(kids) => AllLeafMarks(m, kids)
    case Node(slot, kids) =>
      if kids != [] then AllLeafMarks(m, kids)
      else var f := Found(m, slot); if f.Some? then [f.value] else []
  }

  function AllLeafMarks(m: Marks, kids: seq<Tree>): seq<Checkpoint>
    decreases kids
  {
    if kids == [] then [] else LeafMarks(m, kids[0]) + AllLeafMarks(m, kids[1..])
  }

  /** From the start of the first to the end of the last. */
  function Span(marks: seq<Checkpoint>): Option<Checkpoint> {
    if marks == [] then None else Some(Checkpoint(marks[0].start, marks[|marks| - 1].end))
  }

  function Fold(m: Marks, t: Tree): Option<Checkpoint> {
    Span(LeafMarks(m, t))
  }

  lemma {:induction false} MarksConcat(m: Marks, xs: seq<Tree>, ys: seq<Tree>)
    ensures AllLeafMarks(m, xs + ys) == AllLeafMarks(m, xs) + AllLeafMarks(m, ys)
    decreases xs
  {
    if xs == [] {
      assert xs + ys == ys;
    } else {
      assert (xs + ys)[1..] == xs[1..] + ys;
      MarksConcat(m, xs[1..], ys);
    }
  }

  lemma {:induction false} MarksLast(m: Marks, kids: seq<Tree>)
    requires kids != []
    ensures AllLeafMarks(m, kids) ==
            AllLeafMarks(m, kids[..|kids| - 1]) + LeafMarks(m, kids[|kids| - 1])
  {
    var last := [kids[|kids| - 1]];
    assert kids == kids[..|kids| - 1] + last;
    MarksConcat(m, kids[..|kids| - 1], last);
    assert AllLeafMarks(m, last) == LeafMarks(m, last[0]) + [];
  }

  // ---------------------------------------------------------------- slots of a tree

  function LeafSlots(t: Tree): set<Slot>
    decreases t
  {
    match t
    case Compact(_) => {}
    case Pending(kids) => AllLeafSlots(kids)
    case Node(slot, kids) => if kids == [] then {slot} else AllLeafSlots(kids)
  }

  function AllLeafSlots(kids: seq<Tree>): set<Slot>
    decreases kids
  {
    if kids == [] then {} else LeafSlots(kids[0]) + AllLeafSlots(kids[1..])
  }

  function InnerSlots(t: Tree): set<Slot>
    decreases t
  {
    match t
    case Compact(_) => {}
    case Pending(kids) => AllInnerSlots(kids)
    case Node(slot, kids) => if kids == [] then {} else {slot} + AllInnerSlots(kids)
  }

  function AllInnerSlots(kids: seq<Tree>): set<Slot>
    decreases kids
  {
    if kids == [] then {} else InnerSlots(kids[0]) + AllInnerSlots(kids[1..])
  }

  lemma {:induction false} SlotsOfKid(kids: seq<Tree>, i: nat)
    requires i < |kids|
    ensures LeafSlots(kids[i]) <= AllLeafSlots(kids) && InnerSlots(kids[i]) <= AllInnerSlots(kids)
    decreases kids
  {
    if i > 0 {
      SlotsOfKid(kids[1..], i - 1);
    }
  }

  ghost predicate Agree(m: Marks, n: Marks, slots: set<Slot>) {
    forall s :: s in slots ==> Found(m, s) == Found(n, s)
  }

  /** The fold reads nothing but leaf slots. */
  lemma {:induction false} MarksReadLeaves(m: Marks, n: Marks, t: Tree)
    requires Agree(m, n, LeafSlots(t))
    ensures LeafMarks(m, t) == LeafMarks(n, t)
    decreases t
  {
    match t
    case Compact(_) =>
    case Pending(kids) => AllMarksReadLeaves(m, n, kids);
    case Node(_, kids) =>
      if kids != [] {
        AllMarksReadLeaves(m, n, kids);
      }
  }

  lemma {:induction false} AllMarksReadLeaves(m: Marks, n: Marks, kids: seq<Tree>)
    requires Agree(m, n, AllLeafSlots(kids))
    ensures AllLeafMarks(m, kids) == AllLeafMarks(n, kids)
    decreases kids
  {
    if kids != [] {
      MarksReadLeaves(m, n, kids[0]);
      AllMarksReadLeaves(m, n, kids[1..]);
    }
  }

  // ---------------------------------------------------------------- recording bottom-up

  /** The direct lookup at a child; only a node with a slot has one. */
  function FoundAt(m: Marks, t: Tree): Option<Checkpoint> {
    if t.Node? then Found(m, t.slot) else None
  }

  function FirstFound(m: Marks, kids: seq<Tree>): Option<Checkpoint> {
    if kids == [] then None
    else var f := FoundAt(m, kids[0]); if f.Some? then f else FirstFound(m, kids[1..])
  }

  function LastFound(m: Marks, kids: seq<Tree>): Option<Checkpoint> {
    if kids == [] then None
    else
      var f := FoundAt(m, kids[|kids| - 1]);
      if f.Some? then f else LastFound(m, kids[..|kids| - 1])
  }

  function ParentMark(m: Marks, kids: seq<Tree>): Option<Checkpoint> {
    var first, last := FirstFound(m, kids), LastFound(m, kids);
    if first.None? || last.None? then None else Some(Checkpoint(first.value.start, last.value.end))
  }

  /** Building the tree bottom-up records each internal node after its children. */
  function Recorded(m: Marks, t: Tree): Marks
    decreases t
  {
    if !t.Node? || t.kids == [] then m
    else
      var n := AllRecorded(m, t.kids);
      var mark := ParentMark(n, t.kids);
      if mark.None? || t.slot.Foreign? then n else n[t.slot := mark.value]
  }

  function AllRecorded(m: Marks, kids: seq<Tree>): Marks
    decreases kids
  {
    if kids == [] then m else AllRecorded(Recorded(m, kids[0]), kids[1..])
  }

  /** One arena: every child is a node, and no two nodes share a slot. */
  ghost predicate Placed(t: Tree)
    decreases t
  {
    t.Node? && !t.slot.Foreign? && AllPlaced(t.kids) && t.slot !in AllSlots(t.kids)
  }

  ghost predicate AllPlaced(kids: seq<Tree>)
    decreases kids
  {
    kids != [] ==> Placed(kids[0]) && AllPlaced(kids[1..]) && Slots(kids[0]) !! AllSlots(kids[1..])
  }

  ghost function Slots(t: Tree): set<Slot> {
    LeafSlots(t) + InnerSlots(t)
  }

  ghost function AllSlots(kids: seq<Tree>): set<Slot> {
    AllLeafSlots(kids) + AllInnerSlots(kids)
  }

  /** Every internal node bound to its fold. */
  ghost function AllFolds(m: Marks, t: Tree): Marks
    decreases t
  {
    match t
    case Compact(_) => map[]
    case Pending(kids) => FoldsBelow(m, kids)
    case Node(slot, kids) =>
      if kids == [] then map[]
      else if Fold(m, t).None? then FoldsBelow(m, kids)
      else FoldsBelow(m, kids)[slot := Fold(m, t).value]
  }

  ghost function FoldsBelow(m: Marks, kids: seq<Tree>): Marks
    decreases kids
  {
    if kids == [] then map[] else AllFolds(m, kids[0]) + FoldsBelow(m, kids[1..])
  }

  lemma {:induction false} FoldsAreInner(m: Marks, t: Tree)
    ensures AllFolds(m, t).Keys <= InnerSlots(t)
    decreases t
  {
    match t
    case Compact(_) =>
    case Pending(kids) => FoldsBelowAreInner(m, kids);
    case Node(_, kids) => FoldsBelowAreInner(m, kids);
  }

  lemma {:induction false} FoldsBelowAreInner(m: Marks, kids: seq<Tree>)
    ensures FoldsBelow(m, kids).Keys <= AllInnerSlots(kids)
    decreases kids
  {
    if kids != [] {
      FoldsAreInner(m, kids[0]);
      FoldsBelowAreInner(m, kids[1..]);
    }
  }

  lemma {:induction false} FoldsReadLeaves(m: Marks, n: Marks, t: Tree)
    requires Agree(m, n, LeafSlots(t))
    ensures AllFolds(m, t) == AllFolds(n, t)
    decreases t
  {
    MarksReadLeaves(m, n, t);
    match t
    case Compact(_) =>
    case Pending(kids) => FoldsBelowReadLeaves(m, n, kids);
    case Node(_, kids) =>
      if kids != [] {
        FoldsBelowReadLeaves(m, n, kids);
      }
  }

  lemma {:induction false} FoldsBelowReadLeaves(m: Marks, n: Marks, kids: seq<Tree>)
    requires Agree(m, n, AllLeafSlots(kids))
    ensures FoldsBelow(m, kids) == FoldsBelow(n, kids)
    decreases kids
  {
    if kids != [] {
      FoldsReadLeaves(m, n, kids[0]);
      FoldsBelowReadLeaves(m, n, kids[1..]);
    }
  }

  /** The leaves' marks, spanned, are complete. */
  ghost predicate MarksComplete(m: Marks, t: Tree) {
    forall i :: 0 <= i < |LeafMarks(m, t)| ==> Complete(LeafMarks(m, t)[i])
  }

  lemma {:induction false} PlacedMarksComplete(m: Marks, t: Tree)
    requires Placed(t)
    ensures MarksComplete(m, t)
    decreases t
  {
    if t.kids != [] {
      AllPlacedMarksComplete(m, t.kids);
    }
  }

  lemma {:induction false} AllPlacedMarksComplete(m: Marks, kids: seq<Tree>)
    requires AllPlaced(kids)
    ensures forall i :: 0 <= i < |AllLeafMarks(m, kids)| ==> Complete(AllLeafMarks(m, kids)[i])
    decreases kids
  {
    if kids != [] {
      PlacedMarksComplete(m, kids[0]);
      AllPlacedMarksComplete(m, kids[1..]);
    }
  }

  /** With each child's lookup equal to its fold, the first and last lookups span the leaves. */
  ghost predicate KidsFolded(m: Marks, n: Marks, kids: seq<Tree>) {
    forall i :: 0 <= i < |kids| ==> FoundAt(n, kids[i]) == Fold(m, kids[i])
  }

  lemma {:induction false} FirstFoundStarts(m: Marks, n: Marks, kids: seq<Tree>)
    requires KidsFolded(m, n, kids)
    ensures var f, marks := FirstFound(n, kids), AllLeafMarks(m, kids);
      if marks == [] then f.None? else f.Some? && f.value.start == marks[0].start
    decreases kids
  {
    if kids != [] {
      assert FoundAt(n, kids[0]) == Fold(m, kids[0]);
      assert KidsFolded(m, n, kids[1..]);
      FirstFoundStarts(m, n, kids[1..]);
    }
  }

  lemma {:induction false} LastFoundEnds(m: Marks, n: Marks, kids: seq<Tree>)
    requires KidsFolded(m, n, kids)
    ensures var f, marks := LastFound(n, kids), AllLeafMarks(m, kids);
      if marks == [] then f.None? else f.Some? && f.value.end == marks[|marks| - 1].end
    decreases kids
  {
    if kids != [] {
      MarksLast(m, kids);
      assert FoundAt(n, kids[|kids| - 1]) == Fold(m, kids[|kids| - 1]);
      assert KidsFolded(m, n, kids[..|kids| - 1]);
      LastFoundEnds(m, n, kids[..|kids| - 1]);
    }
  }

  lemma {:induction false} ParentMarkSpans(m: Marks, n: Marks, kids: seq<Tree>)
    requires KidsFolded(m, n, kids)
    ensures ParentMark(n, kids) == Span(AllLeafMarks(m, kids))
  {
    FirstFoundStarts(m, n, kids);
    LastFoundEnds(m, n, kids);
  }

  /** A placed tree's own lookup, among its recorded folds, is its fold. */
  lemma {:induction false} OwnLookup(m: Marks, n: Marks, t: Tree)
    requires Placed(t) && m.Keys !! InnerSlots(t)
    requires forall s :: s in Slots(t) ==> Found(n, s) == Found(m + AllFolds(m, t), s)
    ensures FoundAt(n, t) == Fold(m, t)
  {
    assert t.slot in Slots(t);
    FoldsAreInner(m, t);
    if t.kids != [] {
      FoldsBelowAreInner(m, t.kids);
      PlacedMarksComplete(m, t);
    }
  }

  /** After recording a row of trees, every root's lookup is its fold. */
  lemma {:induction false} RootsLookUp(m: Marks, n: Marks, kids: seq<Tree>)
    requires AllPlaced(kids) && m.Keys !! AllInnerSlots(kids)
    requires forall s :: s in AllSlots(kids) ==> Found(n, s) == Found(m + FoldsBelow(m, kids), s)
    ensures KidsFolded(m, n, kids)
    decreases kids
  {
    if kids != [] {
      var head, rest := AllFolds(m, kids[0]), FoldsBelow(m, kids[1..]);
      FoldsAreInner(m, kids[0]);
      FoldsBelowAreInner(m, kids[1..]);
      forall s | s in Slots(kids[0]) ensures Found(n, s) == Found(m + head, s) {
        assert s in AllSlots(kids) && s !in rest;
      }
      OwnLookup(m, n, kids[0]);
      forall s | s in AllSlots(kids[1..]) ensures Found(n, s) == Found(m + rest, s) {
        assert s in AllSlots(kids) && s !in head;
      }
      RootsLookUp(m, n, kids[1..]);
      forall i | 0 <= i < |kids| ensures FoundAt(n, kids[i]) == Fold(m, kids[i]) {
        if i > 0 {
          assert kids[1..][i - 1] == kids[i];
        }
      }
    }
  }

  /** Recording bottom-up gives every internal node of a placed tree its fold and touches
      nothing else. */
  lemma {:induction false} RecordingFolds(m: Marks, t: Tree)
    requires Placed(t) && m.Keys !! InnerSlots(t)
    ensures Recorded(m, t) == m + AllFolds(m, t)
    decreases t
  {
    if t.kids != [] {
      AllRecordingFolds(m, t.kids);
      RootsLookUp(m, AllRecorded(m, t.kids), t.kids);
      ParentMarkSpans(m, AllRecorded(m, t.kids), t.kids);
    }
  }

  lemma {:induction false} AllRecordingFolds(m: Marks, kids: seq<Tree>)
    requires AllPlaced(kids) && m.Keys !! AllInnerSlots(kids)
    ensures AllRecorded(m, kids) == m + FoldsBelow(m, kids)
    decreases kids
  {
    if kids != [] {
      RecordingFolds(m, kids[0]);
      var head, rest := AllFolds(m, kids[0]), kids[1..];
      FoldsAreInner(m, kids[0]);
      assert (m + head).Keys !! AllInnerSlots(rest);
      AllRecordingFolds(m + head, rest);
      AddingKeepsFound(m, head, AllLeafSlots(rest));
      FoldsBelowReadLeaves(m, m + head, rest);
      PlusAssociates(m, head, FoldsBelow(m, rest));
    }
  }

  lemma {:induction false} PlusAssociates(a: Marks, b: Marks, c: Marks)
    ensures (a + b) + c == a + (b + c)
  {
  }

  lemma {:induction false} AddingKeepsFound(m: Marks, n: Marks, slots: set<Slot>)
    requires n.Keys !! slots
    ensures Agree(m, m + n, slots)
  {
  }

  // ---------------------------------------------------------------- rebuilding by recursion

  /** The rebuild walks in from the left until a child yields, then in from the right, and
      writes the node it was called on; it returns the checkpoint and the new marks. */
  function Rebuilt(m: Marks, t: Tree): (Option<Checkpoint>, Marks)
    decreases t, 1
  {
    match t
    case Compact(mark) => (mark, m)
    case Pending(kids) => RebuiltEnds(m, kids)
    case Node(slot, kids) =>
      if kids == [] then (Found(m, slot), m)
      else
        var (r, n) := RebuiltEnds(m, kids);
        if r.None? || slot.Foreign? then (r, n) else (r, n[slot := r.value])
  }

  function RebuiltEnds(m: Marks, kids: seq<Tree>): (Option<Checkpoint>, Marks)
    decreases kids, 1
  {
    var (first, n) := FromLeft(m, kids);
    var (last, o) := FromRight(n, kids);
    (if first.None? || last.None? then None else Some(Checkpoint(first.value.start, last.value.end)), o)
  }

  function FromLeft(m: Marks, kids: seq<Tree>): (Option<Checkpoint>, Marks)
    decreases kids, 0
  {
    if kids == [] then (None, m)
    else
      var (r, n) := Rebuilt(m, kids[0]);
      if r.Some? then (r, n) else FromLeft(n, kids[1..])
  }

  function FromRight(m: Marks, kids: seq<Tree>): (Option<Checkpoint>, Marks)
    decreases kids, 0
  {
    if kids == [] then (None, m)
    else
      var (r, n) := Rebuilt(m, kids[|kids| - 1]);
      if r.Some? then (r, n) else FromRight(n, kids[..|kids| - 1])
  }

  /** The nodes a rebuild writes: those with a marked leaf that are reached through first and
      last marked children only. */
  ghost function Writes(m: Marks, t: Tree): Marks
    decreases t, 1
  {
    match t
    case Compact(_) => map[]
    case Pending(kids) => LeftWrites(m, kids) + RightWrites(m, kids)
    case Node(slot, kids) =>
      if kids == [] || Fold(m, t).None? then map[]
      else
        var ends := LeftWrites(m, kids) + RightWrites(m, kids);
        if slot.Foreign? then ends else ends[slot := Fold(m, t).value]
  }

  ghost function LeftWrites(m: Marks, kids: seq<Tree>): Marks
    decreases kids, 0
  {
    if kids == [] then map[]
    else if Fold(m, kids[0]).Some? then Writes(m, kids[0])
    else LeftWrites(m, kids[1..])
  }

  ghost function RightWrites(m: Marks, kids: seq<Tree>): Marks
    decreases kids, 0
  {
    if kids == [] then map[]
    else if Fold(m, kids[|kids| - 1]).Some? then Writes(m, kids[|kids| - 1])
    else RightWrites(m, kids[..|kids| - 1])
  }

  lemma {:induction false} WritesAreInner(m: Marks, t: Tree)
    ensures Writes(m, t).Keys <= InnerSlots(t)
    decreases t, 1
  {
    if !t.Compact? {
      LeftWritesAreInner(m, t.kids);
      RightWritesAreInner(m, t.kids);
    }
  }

  lemma {:induction false} LeftWritesAreInner(m: Marks, kids: seq<Tree>)
    ensures LeftWrites(m, kids).Keys <= AllInnerSlots(kids)
    decreases kids, 0
  {
    if kids != [] {
      WritesAreInner(m, kids[0]);
      LeftWritesAreInner(m, kids[1..]);
    }
  }

  lemma {:induction false} RightWritesAreInner(m: Marks, kids: seq<Tree>)
    ensures RightWrites(m, kids).Keys <= AllInnerSlots(kids)
    decreases kids, 0
  {
    if kids != [] {
      WritesAreInner(m, kids[|kids| - 1]);
      SlotsOfKid(kids, |kids| - 1);
      RightWritesAreInner(m, kids[..|kids| - 1]);
      SlotsOfPrefix(kids, |kids| - 1);
    }
  }

  lemma {:induction false} SlotsOfPrefix(kids: seq<Tree>, n: nat)
    requires n <= |kids|
    ensures AllInnerSlots(kids[..n]) <= AllInnerSlots(kids) && AllLeafSlots(kids[..n]) <= AllLeafSlots(kids)
    decreases kids
  {
    if n > 0 {
      assert kids[..n][1..] == kids[1..][..n - 1];
      SlotsOfPrefix(kids[1..], n - 1);
    }
  }

  lemma {:induction false} WritesReadLeaves(m: Marks, n: Marks, t: Tree)
    requires Agree(m, n, LeafSlots(t))
    ensures Writes(m, t) == Writes(n, t)
    decreases t, 1
  {
    MarksReadLeaves(m, n, t);
    if !t.Compact? && t.kids != [] {
      LeftWritesReadLeaves(m, n, t.kids);
      RightWritesReadLeaves(m, n, t.kids);
    }
  }

  lemma {:induction false} LeftWritesReadLeaves(m: Marks, n: Marks, kids: seq<Tree>)
    requires Agree(m, n, AllLeafSlots(kids))
    ensures LeftWrites(m, kids) == LeftWrites(n, kids)
    decreases kids, 0
  {
    if kids != [] {
      MarksReadLeaves(m, n, kids[0]);
      WritesReadLeaves(m, n, kids[0]);
      LeftWritesReadLeaves(m, n, kids[1..]);
    }
  }

  lemma {:induction false} RightWritesReadLeaves(m: Marks, n: Marks, kids: seq<Tree>)
    requires Agree(m, n, AllLeafSlots(kids))
    ensures RightWrites(m, kids) == RightWrites(n, kids)
    decreases kids, 0
  {
    if kids != [] {
      SlotsOfKid(kids, |kids| - 1);
      SlotsOfPrefix(kids, |kids| - 1);
      MarksReadLeaves(m, n, kids[|kids| - 1]);
      WritesReadLeaves(m, n, kids[|kids| - 1]);
      RightWritesReadLeaves(m, n, kids[..|kids| - 1]);
    }
  }

  /** Where no leaf is marked nothing is written. */
  lemma {:induction false} NoMarksNoWrites(m: Marks, t: Tree)
    requires LeafMarks(m, t) == []
    ensures Writes(m, t) == map[]
    decreases t, 1
  {
    if t.Pending? {
      NoMarksNoLeftWrites(m, t.kids);
      NoMarksNoRightWrites(m, t.kids);
    }
  }

  lemma {:induction false} NoMarksNoLeftWrites(m: Marks, kids: seq<Tree>)
    requires AllLeafMarks(m, kids) == []
    ensures LeftWrites(m, kids) == map[]
    decreases kids, 0
  {
    if kids != [] {
      NoMarksNoLeftWrites(m, kids[1..]);
    }
  }

  lemma {:induction false} NoMarksNoRightWrites(m: Marks, kids: seq<Tree>)
    requires AllLeafMarks(m, kids) == []
    ensures RightWrites(m, kids) == map[]
    decreases kids, 0
  {
    if kids != [] {
      MarksLast(m, kids);
      NoMarksNoRightWrites(m, kids[..|kids| - 1]);
    }
  }

  /** No slot is both a leaf's and an internal node's. */
  ghost predicate RolesApart(t: Tree) {
    LeafSlots(t) !! InnerSlots(t)
  }

  ghost predicate AllRolesApart(kids: seq<Tree>) {
    AllLeafSlots(kids) !! AllInnerSlots(kids)
  }

  /** The rebuild returns the fold and writes exactly the frontier of first and last marked
      children, whatever stale checkpoints internal nodes carried. */
  lemma {:induction false} RebuildFolds(m: Marks, t: Tree)
    requires RolesApart(t)
    ensures Rebuilt(m, t) == (Fold(m, t), m + Writes(m, t))
    decreases t, 2
  {
    assert m + map[] == m;
    if !t.Compact? && (t.Pending? || t.kids != []) {
      EndsFold(m, t.kids);
      if LeafMarks(m, t) == [] {
        NoMarksNoLeftWrites(m, t.kids);
        NoMarksNoRightWrites(m, t.kids);
      } else if t.Node? {
        UpdateOfPlus(m, LeftWrites(m, t.kids) + RightWrites(m, t.kids), t.slot, Fold(m, t).value);
      }
    }
  }

  lemma {:induction false} UpdateOfPlus(a: Marks, b: Marks, slot: Slot, cp: Checkpoint)
    ensures (a + b)[slot := cp] == a + b[slot := cp]
  {
  }

  lemma {:induction false} EndsFold(m: Marks, kids: seq<Tree>)
    requires AllRolesApart(kids)
    ensures RebuiltEnds(m, kids) ==
            (Span(AllLeafMarks(m, kids)), m + (LeftWrites(m, kids) + RightWrites(m, kids)))
    decreases kids, 1
  {
    LeftFolds(m, kids);
    var n := m + LeftWrites(m, kids);
    LeftWritesAreInner(m, kids);
    AddingKeepsFound(m, LeftWrites(m, kids), AllLeafSlots(kids));
    RightFolds(n, kids);
    RightWritesReadLeaves(m, n, kids);
    AllMarksReadLeaves(m, n, kids);
    PlusAssociates(m, LeftWrites(m, kids), RightWrites(m, kids));
  }

  lemma {:induction false} LeftFolds(m: Marks, kids: seq<Tree>)
    requires AllRolesApart(kids)
    ensures var r, marks := FromLeft(m, kids), AllLeafMarks(m, kids);
      && r.1 == m + LeftWrites(m, kids)
      && if marks == [] then r.0.None? else r.0.Some? && r.0.value.start == marks[0].start
    decreases kids, 0
  {
    if kids != [] {
      RebuildFolds(m, kids[0]);
      if Fold(m, kids[0]).None? {
        NoMarksNoWrites(m, kids[0]);
        assert m + map[] == m;
        LeftFolds(m, kids[1..]);
      }
    }
  }

  lemma {:induction false} RightFolds(m: Marks, kids: seq<Tree>)
    requires AllRolesApart(kids)
    ensures var r, marks := FromRight(m, kids), AllLeafMarks(m, kids);
      && r.1 == m + RightWrites(m, kids)
      && if marks == [] then r.0.None? else r.0.Some? && r.0.value.end == marks[|marks| - 1].end
    decreases kids, 0
  {
    if kids != [] {
      var last := kids[|kids| - 1];
      SlotsOfKid(kids, |kids| - 1);
      SlotsOfPrefix(kids, |kids| - 1);
      MarksLast(m, kids);
      RebuildFolds(m, last);
      if Fold(m, last).None? {
        NoMarksNoWrites(m, last);
        assert m + map[] == m;
        RightFolds(m, kids[..|kids| - 1]);
      }
    }
  }

  // ---------------------------------------------------------------- the two agree

  /** `n` has every binding of `w`. */
  ghost predicate Includes(n: Marks, w: Marks) {
    forall s :: s in w ==> s in n && n[s] == w[s]
  }

  lemma {:induction false} WritesAreFolds(m: Marks, t: Tree)
    requires Placed(t)
    ensures Includes(AllFolds(m, t), Writes(m, t))
    decreases t, 1
  {
    if t.kids != [] {
      LeftWritesAreFolds(m, t.kids);
      RightWritesAreFolds(m, t.kids);
      FoldsBelowAreInner(m, t.kids);
    }
  }

  lemma {:induction false} FoldsOfKid(m: Marks, kids: seq<Tree>, i: nat)
    requires AllPlaced(kids) && i < |kids|
    ensures Placed(kids[i]) && Includes(FoldsBelow(m, kids), AllFolds(m, kids[i]))
    decreases kids
  {
    FoldsAreInner(m, kids[0]);
    FoldsBelowAreInner(m, kids[1..]);
    if i > 0 {
      FoldsOfKid(m, kids[1..], i - 1);
    }
  }

  lemma {:induction false} LeftWritesAreFolds(m: Marks, kids: seq<Tree>)
    requires AllPlaced(kids)
    ensures Includes(FoldsBelow(m, kids), LeftWrites(m, kids))
    decreases kids, 0
  {
    if kids != [] {
      WritesAreFolds(m, kids[0]);
      LeftWritesAreFolds(m, kids[1..]);
      FoldsOfKid(m, kids, 0);
    }
  }

  lemma {:induction false} RightWritesAreFolds(m: Marks, kids: seq<Tree>)
    requires AllPlaced(kids)
    ensures Includes(FoldsBelow(m, kids), RightWrites(m, kids))
    decreases kids, 0
  {
    if kids != [] {
      var n := |kids| - 1;
      FoldsOfKid(m, kids, n);
      WritesAreFolds(m, kids[n]);
      PrefixPlaced(m, kids, n);
      RightWritesAreFolds(m, kids[..n]);
    }
  }

  lemma {:induction false} PrefixPlaced(m: Marks, kids: seq<Tree>, n: nat)
    requires AllPlaced(kids) && n <= |kids|
    ensures AllPlaced(kids[..n]) && Includes(FoldsBelow(m, kids), FoldsBelow(m, kids[..n]))
    decreases kids
  {
    if n > 0 {
      var rest := kids[1..];
      assert kids[..n][1..] == rest[..n - 1];
      PrefixPlaced(m, rest, n - 1);
      SlotsOfPrefix(rest, n - 1);
      FoldsAreInner(m, kids[0]);
      FoldsBelowAreInner(m, rest);
    }
  }

  lemma {:induction false} PlacedRolesApart(t: Tree)
    requires Placed(t)
    ensures RolesApart(t)
    decreases t
  {
    AllPlacedRolesApart(t.kids);
  }

  lemma {:induction false} AllPlacedRolesApart(kids: seq<Tree>)
    requires AllPlaced(kids)
    ensures AllRolesApart(kids)
    decreases kids
  {
    if kids != [] {
      PlacedRolesApart(kids[0]);
      AllPlacedRolesApart(kids[1..]);
    }
  }

  /** On a tree recorded bottom-up the rebuild finds the same checkpoint and changes nothing. */
  lemma {:induction false} RebuildAgrees(m: Marks, t: Tree)
    requires Placed(t) && m.Keys !! InnerSlots(t)
    ensures Rebuilt(Recorded(m, t), t) == (Fold(m, t), Recorded(m, t))
  {
    RecordingFolds(m, t);
    PlacedRolesApart(t);
    FoldsAreInner(m, t);
    var n := Recorded(m, t);
    AddingKeepsFound(m, AllFolds(m, t), LeafSlots(t));
    RebuildFolds(n, t);
    MarksReadLeaves(m, n, t);
    WritesReadLeaves(m, n, t);
    WritesAreFolds(m, t);
    assert n + Writes(m, t) == n;
  }

  // ---------------------------------------------------------------- what a rebuild alone leaves out

  ghost predicate Marked(m: Marks, t: Tree) {
    LeafMarks(m, t) != []
  }

  lemma {:induction false} LeftWritesStop(m: Marks, kids: seq<Tree>, j: nat, k: nat)
    requires AllPlaced(kids) && j < k < |kids| && Marked(m, kids[j])
    ensures LeftWrites(m, kids).Keys !! Slots(kids[k])
    decreases kids
  {
    SlotsOfKid(kids[1..], k - 1);
    if Marked(m, kids[0]) {
      WritesAreInner(m, kids[0]);
    } else {
      LeftWritesStop(m, kids[1..], j - 1, k - 1);
    }
  }

  lemma {:induction false} KidsApart(kids: seq<Tree>, j: nat, k: nat)
    requires AllPlaced(kids) && j < k < |kids|
    ensures Slots(kids[j]) !! Slots(kids[k])
    decreases kids
  {
    SlotsOfKid(kids[1..], k - 1);
    if j > 0 {
      KidsApart(kids[1..], j - 1, k - 1);
    }
  }

  lemma {:induction false} RightWritesStop(m: Marks, kids: seq<Tree>, j: nat, k: nat)
    requires AllPlaced(kids) && j < k < |kids| && Marked(m, kids[k])
    ensures RightWrites(m, kids).Keys !! Slots(kids[j])
    decreases kids
  {
    var n := |kids| - 1;
    if Marked(m, kids[n]) {
      WritesAreInner(m, kids[n]);
      KidsApart(kids, j, n);
    } else {
      PrefixPlaced(m, kids, n);
      RightWritesStop(m, kids[..n], j, k);
    }
  }

  /** A child with a marked child on either side is never visited: a rebuild without earlier
      recording leaves it, and everything below it, as it was. */
  lemma {:induction false} MiddleNotRebuilt(m: Marks, t: Tree, i: nat, j: nat, k: nat)
    requires Placed(t) && i < j < k < |t.kids| && Marked(m, t.kids[i]) && Marked(m, t.kids[k])
    ensures forall s :: s in Slots(t.kids[j]) ==> Found(Rebuilt(m, t).1, s) == Found(m, s)
  {
    PlacedRolesApart(t);
    RebuildFolds(m, t);
    LeftWritesStop(m, t.kids, i, j);
    RightWritesStop(m, t.kids, j, k);
    SlotsOfKid(t.kids, j);
    assert Writes(m, t).Keys !! Slots(t.kids[j]);
    AddingKeepsFound(m, Writes(m, t), Slots(t.kids[j]));
  }

  /** A rebuild gives every internal node its fold exactly when those off the walked frontier
      have theirs already. */
  lemma {:induction false} RebuildCompletes(m: Marks, t: Tree)
    requires Placed(t)
    ensures Includes(Rebuilt(m, t).1, AllFolds(m, t)) <==>
      forall s :: s in AllFolds(m, t) && s !in Writes(m, t) ==> s in m && m[s] == AllFolds(m, t)[s]
  {
    PlacedRolesApart(t);
    RebuildFolds(m, t);
    WritesAreFolds(m, t);
  }

  /** The kid has a marked sibling on either side. */
  ghost predicate Between(m: Marks, kids: seq<Tree>, j: nat) {
    && (exists i: nat :: i < j && i < |kids| && Marked(m, kids[i]))
    && (exists k: nat :: j < k < |kids| && Marked(m, kids[k]))
  }

  /** An internal node with a marked leaf. */
  ghost predicate MarkedInner(m: Marks, t: Tree) {
    t.Node? && t.kids != [] && Marked(m, t)
  }

  /** Nowhere in the tree does a marked internal node lie between two marked siblings. */
  ghost predicate NoneBetween(m: Marks, t: Tree)
    decreases t
  {
    !t.Compact? ==>
      forall j: nat :: j < |t.kids| ==>
        !(Between(m, t.kids, j) && MarkedInner(m, t.kids[j])) && NoneBetween(m, t.kids[j])
  }

  lemma {:induction false} MarkedKid(m: Marks, kids: seq<Tree>, i: nat)
    requires i < |kids| && AllLeafMarks(m, kids) == []
    ensures !Marked(m, kids[i])
    decreases kids
  {
    if i > 0 {
      MarkedKid(m, kids[1..], i - 1);
    }
  }

  /** The left walk ends at the first marked kid. */
  lemma {:induction false} LeftWritesFirst(m: Marks, kids: seq<Tree>) returns (f: nat)
    requires AllLeafMarks(m, kids) != []
    ensures f < |kids| && Marked(m, kids[f]) && LeftWrites(m, kids) == Writes(m, kids[f])
    ensures forall i: nat :: i < f ==> !Marked(m, kids[i])
    decreases kids
  {
    if Marked(m, kids[0]) {
      f := 0;
    } else {
      var g := LeftWritesFirst(m, kids[1..]);
      f := g + 1;
      forall i: nat | i < f ensures !Marked(m, kids[i]) {
        if i > 0 {
          assert kids[i] == kids[1..][i - 1];
        }
      }
    }
  }

  /** The right walk ends at the last marked kid. */
  lemma {:induction false} RightWritesLast(m: Marks, kids: seq<Tree>) returns (l: nat)
    requires AllLeafMarks(m, kids) != []
    ensures l < |kids| && Marked(m, kids[l]) && RightWrites(m, kids) == Writes(m, kids[l])
    ensures forall i: nat :: l < i < |kids| ==> !Marked(m, kids[i])
    decreases kids
  {
    var n := |kids| - 1;
    if Marked(m, kids[n]) {
      l := n;
    } else {
      MarksLast(m, kids);
      l := RightWritesLast(m, kids[..n]);
      forall i: nat | l < i < |kids| ensures !Marked(m, kids[i]) {
        if i < n {
          assert kids[i] == kids[..n][i];
        }
      }
    }
  }

  /** A fold below belongs to some kid. */
  lemma {:induction false} FoldOfSomeKid(m: Marks, kids: seq<Tree>, s: Slot) returns (j: nat)
    requires s in FoldsBelow(m, kids)
    ensures j < |kids| && s in AllFolds(m, kids[j])
    decreases kids
  {
    if s in AllFolds(m, kids[0]) {
      j := 0;
    } else {
      var k := FoldOfSomeKid(m, kids[1..], s);
      j := k + 1;
    }
  }

  lemma {:induction false} FoldsNeedMarks(m: Marks, t: Tree)
    requires AllFolds(m, t) != map[]
    ensures Marked(m, t)
    decreases t
  {
    if !t.Compact? && !Marked(m, t) {
      assert AllLeafMarks(m, t.kids) == [];
      var s :| s in AllFolds(m, t);
      var j := FoldOfSomeKid(m, t.kids, s);
      MarkedKid(m, t.kids, j);
      FoldsNeedMarks(m, t.kids[j]);
    }
  }

  /** What a rebuild writes below one kid: its own writes if the kid is the first or the last
      marked one, else nothing. */
  lemma {:induction false} WritesBelowKid(m: Marks, t: Tree, f: nat, l: nat, j: nat, s: Slot)
    requires Placed(t) && MarkedInner(m, t) && f < |t.kids| && l < |t.kids| && j < |t.kids|
    requires LeftWrites(m, t.kids) == Writes(m, t.kids[f]) && RightWrites(m, t.kids) == Writes(m, t.kids[l])
    requires s in AllFolds(m, t.kids[j])
    ensures s in Writes(m, t) <==> (j == f || j == l) && s in Writes(m, t.kids[j])
  {
    var kids := t.kids;
    FoldsAreInner(m, kids[j]);
    SlotsOfKid(kids, j);
    assert s in Slots(kids[j]) && s != t.slot;
    WritesAreInner(m, kids[f]);
    WritesAreInner(m, kids[l]);
    ApartUnlessSame(kids, j, f, s);
    ApartUnlessSame(kids, j, l, s);
  }

  lemma {:induction false} ApartUnlessSame(kids: seq<Tree>, j: nat, k: nat, s: Slot)
    requires AllPlaced(kids) && j < |kids| && k < |kids| && s in Slots(kids[j])
    ensures s in Slots(kids[k]) ==> j == k
  {
    if j < k {
      KidsApart(kids, j, k);
    } else if k < j {
      KidsApart(kids, k, j);
    }
  }

  /** The two walks end at kids `f` and `l`, the first and the last marked. */
  ghost predicate Ends(m: Marks, kids: seq<Tree>, f: nat, l: nat) {
    && f < |kids| && l < |kids| && Marked(m, kids[f]) && Marked(m, kids[l])
    && LeftWrites(m, kids) == Writes(m, kids[f]) && RightWrites(m, kids) == Writes(m, kids[l])
    && (forall i: nat :: i < f ==> !Marked(m, kids[i])) && (forall i: nat :: l < i < |kids| ==> !Marked(m, kids[i]))
  }

  ghost predicate KidsExact(m: Marks, kids: seq<Tree>) {
    forall j: nat :: j < |kids| ==>
      Placed(kids[j]) && (AllFolds(m, kids[j]).Keys <= Writes(m, kids[j]).Keys <==> NoneBetween(m, kids[j]))
  }

  /** The frontier is all of the marked internal nodes exactly when none lies between. */
  lemma {:induction false} FrontierIsAll(m: Marks, t: Tree)
    requires Placed(t)
    ensures AllFolds(m, t).Keys <= Writes(m, t).Keys <==> NoneBetween(m, t)
    decreases t
  {
    forall j: nat | j < |t.kids|
      ensures Placed(t.kids[j]) && (AllFolds(m, t.kids[j]).Keys <= Writes(m, t.kids[j]).Keys <==> NoneBetween(m, t.kids[j]))
    {
      FoldsOfKid(m, t.kids, j);
      FrontierIsAll(m, t.kids[j]);
    }
    if MarkedInner(m, t) {
      var f := LeftWritesFirst(m, t.kids);
      var l := RightWritesLast(m, t.kids);
      if AllFolds(m, t).Keys <= Writes(m, t).Keys {
        AllMeansNone(m, t, f, l);
      }
      if NoneBetween(m, t) {
        NoneMeansAll(m, t, f, l);
      }
    } else {
      UnmarkedHasNone(m, t);
    }
  }

  lemma {:induction false} UnmarkedHasNone(m: Marks, t: Tree)
    requires Placed(t) && !MarkedInner(m, t) && KidsExact(m, t.kids)
    ensures AllFolds(m, t) == map[] && NoneBetween(m, t)
  {
    if AllFolds(m, t) != map[] {
      FoldsNeedMarks(m, t);
    }
    forall j: nat | j < |t.kids| ensures !Marked(m, t.kids[j]) && NoneBetween(m, t.kids[j]) {
      MarkedKid(m, t.kids, j);
      if AllFolds(m, t.kids[j]) != map[] {
        FoldsNeedMarks(m, t.kids[j]);
      }
    }
  }

  lemma {:induction false} AllMeansNone(m: Marks, t: Tree, f: nat, l: nat)
    requires Placed(t) && MarkedInner(m, t) && Ends(m, t.kids, f, l) && KidsExact(m, t.kids)
    requires AllFolds(m, t).Keys <= Writes(m, t).Keys
    ensures NoneBetween(m, t)
  {
    forall j: nat | j < |t.kids|
      ensures !(Between(m, t.kids, j) && MarkedInner(m, t.kids[j])) && NoneBetween(m, t.kids[j])
    {
      FoldsOfKid(m, t.kids, j);
      FoldsBelowAreInner(m, t.kids);
      forall s | s in AllFolds(m, t.kids[j]) ensures (j == f || j == l) && s in Writes(m, t.kids[j]) {
        WritesBelowKid(m, t, f, l, j, s);
        assert s in AllFolds(m, t);
      }
      if MarkedInner(m, t.kids[j]) {
        assert t.kids[j].slot in AllFolds(m, t.kids[j]);
      }
    }
  }

  lemma {:induction false} NoneMeansAll(m: Marks, t: Tree, f: nat, l: nat)
    requires Placed(t) && MarkedInner(m, t) && Ends(m, t.kids, f, l) && KidsExact(m, t.kids)
    requires NoneBetween(m, t)
    ensures AllFolds(m, t).Keys <= Writes(m, t).Keys
  {
    forall s | s in AllFolds(m, t) && s != t.slot ensures s in Writes(m, t) {
      var j := FoldOfSomeKid(m, t.kids, s);
      FoldsNeedMarks(m, t.kids[j]);
      assert NoneBetween(m, t.kids[j]);
      WritesBelowKid(m, t, f, l, j, s);
      if j != f && j != l {
        assert Between(m, t.kids, j);
      }
    }
  }

  /** On a tree with no internal node recorded, one rebuild gives every internal node the start
      of its first and the end of its last marked leaf exactly when no marked internal node
      lies between two marked siblings. */
  lemma {:induction false} RebuildCompletesIff(m: Marks, t: Tree)
    requires Placed(t) && m.Keys !! InnerSlots(t)
    ensures Includes(Rebuilt(m, t).1, AllFolds(m, t)) <==> NoneBetween(m, t)
  {
    RebuildCompletes(m, t);
    FrontierIsAll(m, t);
    FoldsAreInner(m, t);
  }

  lemma {:induction false} KidsOneMore(m: Marks, t: Tree, rest: seq<Tree>)
    ensures var kids := [t] + rest;
      && AllLeafSlots(kids) == LeafSlots(t) + AllLeafSlots(rest) && AllInnerSlots(kids) == InnerSlots(t) + AllInnerSlots(rest)
      && (AllPlaced(kids) <==> Placed(t) && AllPlaced(rest) && Slots(t) !! AllSlots(rest))
      && AllLeafMarks(m, kids) == LeafMarks(m, t) + AllLeafMarks(m, rest)
  {
    assert ([t] + rest)[1..] == rest;
  }

  /** A node over a single leaf. */
  function Over(n: Index, leaf: Index): Tree {
    Node(Main(n), [Node(Main(leaf), [])])
  }

  lemma {:induction false} OverIs(m: Marks, n: Index, leaf: Index)
    requires n != leaf
    ensures Placed(Over(n, leaf)) && LeafSlots(Over(n, leaf)) == {Main(leaf)} && InnerSlots(Over(n, leaf)) == {Main(n)}
    ensures Found(m, Main(leaf)).Some? ==> LeafMarks(m, Over(n, leaf)) == [m[Main(leaf)]]
  {
    var x := Node(Main(leaf), []);
    KidsOneMore(m, x, []);
    assert [x] + [] == [x];
  }

  lemma {:induction false} ThreeKids(m: Marks, slot: Slot, a: Tree, b: Tree, c: Tree)
    requires Placed(a) && Placed(b) && Placed(c) && !slot.Foreign? && slot !in Slots(a) + Slots(b) + Slots(c)
    requires Slots(a) !! Slots(b) && Slots(a) !! Slots(c) && Slots(b) !! Slots(c)
    ensures var t := Node(slot, [a, b, c]);
      Placed(t) && InnerSlots(t) == {slot} + InnerSlots(a) + InnerSlots(b) + InnerSlots(c)
  {
    KidsOneMore(m, c, []);
    KidsOneMore(m, b, [c]);
    KidsOneMore(m, a, [b, c]);
    assert [c] + [] == [c] && [b] + [c] == [b, c] && [a] + [b, c] == [a, b, c];
  }

  /** A marked internal node between two marked siblings that has no checkpoint gets none. */
  lemma {:induction false} MiddleStaysBare(m: Marks, t: Tree, i: nat, j: nat, k: nat)
    requires Placed(t) && i < j < k < |t.kids| && Marked(m, t.kids[i]) && Marked(m, t.kids[k])
    requires MarkedInner(m, t.kids[j]) && FoundAt(m, t.kids[j]).None?
    ensures !NoneBetween(m, t) && Fold(m, t.kids[j]).Some? && FoundAt(Rebuilt(m, t).1, t.kids[j]).None?
  {
    MiddleNotRebuilt(m, t, i, j, k);
    assert t.kids[j].slot in Slots(t.kids[j]);
    assert Between(m, t.kids, j);
  }

  /** Nothing is recorded for the internal nodes, kid `j` should get `cp`, and a rebuild leaves it
      without a checkpoint. */
  ghost predicate LeftBare(m: Marks, t: Tree, j: nat, cp: Checkpoint) {
    && Placed(t) && m.Keys !! InnerSlots(t) && j < |t.kids|
    && Fold(m, t.kids[j]) == Some(cp) && FoundAt(Rebuilt(m, t).1, t.kids[j]).None?
  }

  lemma {:induction false} BareAmongThree(m: Marks, slot: Slot, a: Tree, b: Tree, c: Tree, cp: Checkpoint)
    requires Placed(a) && Placed(b) && Placed(c) && !slot.Foreign? && slot !in Slots(a) + Slots(b) + Slots(c)
    requires Slots(a) !! Slots(b) && Slots(a) !! Slots(c) && Slots(b) !! Slots(c)
    requires Marked(m, a) && MarkedInner(m, b) && Marked(m, c) && Fold(m, b) == Some(cp)
    requires m.Keys !! {slot} + InnerSlots(a) + InnerSlots(b) + InnerSlots(c)
    ensures LeftBare(m, Node(slot, [a, b, c]), 1, cp)
  {
    ThreeKids(m, slot, a, b, c);
    MiddleStaysBare(m, Node(slot, [a, b, c]), 0, 1, 2);
  }

  /** Such a tree: three nodes over one marked leaf each, with seven slots numbered from any
      base and nothing recorded for the internal nodes. */
  lemma {:induction false} ThreeOverLeaves(base: Index, cp: Checkpoint)
    requires Complete(cp) && base + 6 < 0x1_0000_0000
    ensures var m: Marks := map[Main(base) := cp, Main(base + 2) := cp, Main(base + 4) := cp];
      var t := Node(Main(base + 6), [Over(base + 1, base), Over(base + 3, base + 2), Over(base + 5, base + 4)]);
      LeftBare(m, t, 1, cp)
  {
    var m: Marks := map[Main(base) := cp, Main(base + 2) := cp, Main(base + 4) := cp];
    OverIs(m, base + 1, base);
    OverIs(m, base + 3, base + 2);
    OverIs(m, base + 5, base + 4);
    BareAmongThree(m, Main(base + 6), Over(base + 1, base), Over(base + 3, base + 2), Over(base + 5, base + 4), cp);
  }

  // ---------------------------------------------------------------- over the store

  /** Derives a parent's checkpoint from its children's own, by lookup only. */
  method RecordForParent(store: Store, slot: Slot, kids: seq<Tree>) returns (ok: bool)
    requires store.Valid()
    modifies store
    ensures store.Valid()
    ensures ok == (ParentMark(old(store.contents), kids).Some? && !slot.Foreign?)
    ensures store.contents ==
      if ok then old(store.contents)[slot := ParentMark(old(store.contents), kids).value] else old(store.contents)
  {
    if kids == [] {
      return false;
    }
    var first := LeftmostFound(store, kids);
    var last := RightmostFound(store, kids);
    if first.None? || last.None? {
      return false;
    }
    ok := store.Set(slot, Checkpoint(first.value.start, last.value.end));
  }

  method LeftmostFound(store: Store, kids: seq<Tree>) returns (r: Option<Checkpoint>)
    requires store.Valid()
    ensures r == FirstFound(store.contents, kids)
  {
    for i := 0 to |kids|
      invariant FirstFound(store.contents, kids[i..]) == FirstFound(store.contents, kids)
    {
      assert kids[i..][1..] == kids[i + 1..];
      if kids[i].Node? {
        r := store.Get(kids[i].slot);
        if r.Some? {
          return;
        }
      }
    }
    r := None;
  }

  method RightmostFound(store: Store, kids: seq<Tree>) returns (r: Option<Checkpoint>)
    requires store.Valid()
    ensures r == LastFound(store.contents, kids)
  {
    assert kids[..|kids|] == kids;
    for i := |kids| downto 0
      invariant LastFound(store.contents, kids[..i]) == LastFound(store.contents, kids)
    {
      assert kids[..i + 1][..i] == kids[..i];
      if kids[i].Node? {
        r := store.Get(kids[i].slot);
        if r.Some? {
          return;
        }
      }
    }
    r := None;
  }

  /** Rebuilds a node's checkpoint from its children, recursively, writing as it returns. */
  method Rebuild(store: Store, t: Tree) returns (r: Option<Checkpoint>)
    requires store.Valid()
    modifies store
    ensures store.Valid() && (r, store.contents) == Rebuilt(old(store.contents), t)
    decreases t, 1
  {
    match t {
      case Compact(mark) =>
        r := mark;
      case Pending(kids) =>
        r := RebuildEnds(store, kids);
      case Node(slot, kids) =>
        if kids == [] {
          r := store.Get(slot);
        } else {
          r := RebuildEnds(store, kids);
          if r.Some? {
            var _ := store.Set(slot, r.value);
          }
        }
    }
  }

  method RebuildEnds(store: Store, kids: seq<Tree>) returns (r: Option<Checkpoint>)
    requires store.Valid()
    modifies store
    ensures store.Valid() && (r, store.contents) == RebuiltEnds(old(store.contents), kids)
    decreases kids, 0
  {
    var first := None;
    var i := 0;
    while i < |kids| && first.None?
      invariant i <= |kids| && store.Valid()
      invariant FromLeft(old(store.contents), kids) ==
        if first.Some? then (first, store.contents) else FromLeft(store.contents, kids[i..])
    {
      assert kids[i..][1..] == kids[i + 1..];
      first := Rebuild(store, kids[i]);
      i := i + 1;
    }
    ghost var mid := store.contents;
    var last := None;
    i := |kids|;
    assert kids[..|kids|] == kids;
    while i > 0 && last.None?
      invariant 0 <= i <= |kids| && store.Valid()
      invariant FromRight(mid, kids) == if last.Some? then (last, store.contents) else FromRight(store.contents, kids[..i])
    {
      assert kids[..i][..i - 1] == kids[..i - 1];
      i := i - 1;
      last := Rebuild(store, kids[i]);
    }
    r := if first.None? || last.None? then None else Some(Checkpoint(first.value.start, last.value.end));
  }
}
