/** Node equivalence for stack merging and the structural signature that prefilters it.
    Both look at a node's header, its children's headers, and a few selected children to
    a bounded depth; they select children by different rules. */
module Signature {

  /** A node pointer; children may be nil. */
  datatype Ref = Nil | To(node: Node)

  datatype Node = Node(
    id: nat, symbol: nat, start: nat, end: nat,
    named: bool, extra: bool, missing: bool, hasError: bool,
    parseState: nat, preGoto: nat, production: nat, prec: int,
    fieldIds: seq<nat>, fieldSources: seq<nat>, children: seq<Ref>)

  const SOURCE_NONE: nat := 0
  const SOURCE_DIRECT: nat := 1
  const GENERIC_DEPTH: nat := 4

  // ----- shared observations ------------------------------------------------

  function FieldSource(n: Node, i: nat): nat {
    if i >= |n.fieldIds| || n.fieldIds[i] == 0 then SOURCE_NONE
    else if i >= |n.fieldSources| || n.fieldSources[i] == SOURCE_NONE then SOURCE_DIRECT
    else n.fieldSources[i]
  }

  predicate SameFields(a: Node, b: Node) {
    && a.fieldIds == b.fieldIds
    && forall i: nat :: i < |a.fieldIds| ==> FieldSource(a, i) == FieldSource(b, i)
  }

  predicate SameFlags(a: Node, b: Node) {
    a.named == b.named && a.extra == b.extra && a.missing == b.missing && a.hasError == b.hasError
  }

  /** The fields the frontier comparison demands of a node and of each child. */
  predicate SameHeader(a: Node, b: Node) {
    && a.symbol == b.symbol && a.start == b.start && a.end == b.end
    && |a.children| == |b.children| && SameFlags(a, b)
    && a.parseState == b.parseState && a.preGoto == b.preGoto
    && a.production == b.production && a.prec == b.prec
  }

  /** Neither nil nor extra, and either named or with children of its own. */
  predicate Semantic(r: Ref) {
    r.To? && !r.node.extra && (r.node.named || |r.node.children| > 0)
  }

  /** The last semantic child before position `i`, counted from 1; 0 if there is none. */
  function FrontierBefore(n: Node, i: nat): (f: nat)
    requires i <= |n.children|
    ensures f <= i && (f > 0 ==> Semantic(n.children[f - 1]))
  {
    if i == 0 then 0 else if Semantic(n.children[i - 1]) then i else FrontierBefore(n, i - 1)
  }

  function Add(cs: seq<nat>, i: nat): seq<nat> {
    if i in cs || |cs| >= 8 then cs else cs + [i]
  }

  function AddFrontier(n: Node, cs: seq<nat>): seq<nat> {
    var f := FrontierBefore(n, |n.children|);
    if f == 0 then cs else Add(cs, f - 1)
  }

  predicate DeepChild(r: Ref) {
    r.To? && (r.node.extra || r.node.preGoto != 0 || |r.node.fieldIds| != 0 || |r.node.children| > 0)
  }

  predicate NeedsDeep(n: Node) {
    n.extra || n.preGoto != 0 || |n.fieldIds| != 0
    || exists i :: 0 <= i < |n.children| && DeepChild(n.children[i])
  }

  // ----- equivalence --------------------------------------------------------

  predicate SameChildHeader(a: Ref, b: Ref) {
    a == b || (a.To? && b.To? && SameHeader(a.node, b.node) && SameFields(a.node, b.node))
  }

  /** Children compared in depth: up to three fielded or semantic ones, and the frontier. */
  function EquivCandidatesTo(n: Node, i: nat): seq<nat>
    requires i <= |n.children|
  {
    if i == 0 then []
    else
      var cs := EquivCandidatesTo(n, i - 1);
      var c := n.children[i - 1];
      var fielded := i - 1 < |n.fieldIds| && n.fieldIds[i - 1] != 0;
      if c.To? && !c.node.extra && (fielded || c.node.named || |c.node.children| > 0) then Add(cs, i - 1) else cs
  }

  function EquivCandidates(n: Node): seq<nat> {
    AddFrontier(n, if |n.children| <= 3 then EquivCandidatesTo(n, |n.children|) else [])
  }

  predicate FrontierEquivalent(a: Ref, b: Ref, depth: nat)
    decreases depth
  {
    a == b ||
    (&& a.To? && b.To? && SameHeader(a.node, b.node)
     && (a.node.hasError ||
         (&& SameFields(a.node, b.node)
          && (forall i :: 0 <= i < |a.node.children| ==> SameChildHeader(a.node.children[i], b.node.children[i]))
          && (depth == 0 ||
              CandidatesEquivalent(a.node, b.node, depth)))))
  }

  predicate CandidatesEquivalent(a: Node, b: Node, depth: nat)
    requires depth > 0 && |a.children| == |b.children|
    decreases depth, 1
  {
    forall i {:trigger CandidateEquivalent(a, b, i, depth)} :: 0 <= i < |a.children| && i in EquivCandidates(a) ==>
      CandidateEquivalent(a, b, i, depth)
  }

  predicate CandidateEquivalent(a: Node, b: Node, i: nat, depth: nat)
    requires depth > 0 && |a.children| == |b.children|
    decreases depth, 0
  {
    i < |a.children| ==> FrontierEquivalent(a.children[i], b.children[i], depth - 1)
  }

  predicate SameShallowChild(a: Ref, b: Ref) {
    a == b ||
    (&& a.To? && b.To?
     && a.node.symbol == b.node.symbol && a.node.start == b.node.start && a.node.end == b.node.end
     && a.node.named == b.node.named && a.node.extra == b.node.extra && a.node.hasError == b.node.hasError
     && a.node.prec == b.node.prec && |a.node.children| == |b.node.children|)
  }

  /** The base equivalence; it does not compare the pre-goto state of shallow nodes. */
  predicate BaseEquivalent(a: Ref, b: Ref) {
    a == b ||
    (&& a.To? && b.To?
     && a.node.symbol == b.node.symbol && a.node.start == b.node.start && a.node.end == b.node.end
     && SameFlags(a.node, b.node)
     && a.node.parseState == b.node.parseState && a.node.production == b.node.production
     && a.node.prec == b.node.prec && |a.node.children| == |b.node.children|
     && (a.node.hasError ||
         if NeedsDeep(a.node) || NeedsDeep(b.node) then FrontierEquivalent(a, b, GENERIC_DEPTH)
         else forall i :: 0 <= i < |a.node.children| ==> SameShallowChild(a.node.children[i], b.node.children[i])))
  }

  // ----- signature ----------------------------------------------------------

  /** How the observed values are folded into one number is a parameter; the congruences
      hold for every fold, so for the one the program mixes with. */
  type Mix = seq<int> -> int

  const NIL_SENTINEL: int := 0x9e3779b97f4a7c15

  function Bit(b: bool, weight: int): int {
    if b then weight else 0
  }

  function Span(n: Node): int {
    n.start * 0x1_0000_0000 + n.end
  }

  function Flags(n: Node): int {
    Bit(n.named, 1) + Bit(n.extra, 2) + Bit(n.missing, 4) + Bit(n.hasError, 8)
  }

  function FlagsNoMissing(n: Node): int {
    Bit(n.named, 1) + Bit(n.extra, 2) + Bit(n.hasError, 8)
  }

  function ShallowChild(mix: Mix, r: Ref): int {
    match r
    case Nil => mix([NIL_SENTINEL])
    case To(n) => mix([n.symbol, Span(n), |n.children|, n.prec, FlagsNoMissing(n)])
  }

  function FrontierChild(mix: Mix, r: Ref): int {
    match r
    case Nil => mix([NIL_SENTINEL])
    case To(n) =>
      mix([n.symbol, Span(n), |n.children|, |n.fieldIds|, Flags(n), n.parseState, n.preGoto, n.production, n.prec]
                      + Widen(n.fieldIds))
  }

  function Widen(ids: seq<nat>): (r: seq<int>) {
    seq(|ids|, i requires 0 <= i < |ids| => ids[i])
  }

  function ShallowChildren(mix: Mix, n: Node): seq<int> {
    seq(|n.children|, i requires 0 <= i < |n.children| => ShallowChild(mix, n.children[i]))
  }

  function FrontierChildren(mix: Mix, n: Node): seq<int> {
    seq(|n.children|, i requires 0 <= i < |n.children| => FrontierChild(mix, n.children[i]))
  }

  function FieldsTo(n: Node, i: nat): seq<int>
    requires i <= |n.fieldIds|
  {
    if i == 0 then [] else FieldsTo(n, i - 1) + [n.fieldIds[i - 1], FieldSource(n, i - 1)]
  }

  /** Children signed in depth: fielded semantic ones of small nodes, and the frontier. */
  function SigCandidatesTo(n: Node, i: nat): (cs: seq<nat>)
    requires i <= |n.fieldIds|
    ensures forall k :: 0 <= k < |cs| ==> cs[k] < i && cs[k] < |n.children| && Semantic(n.children[cs[k]])
  {
    if i == 0 then []
    else
      var cs := SigCandidatesTo(n, i - 1);
      if n.fieldIds[i - 1] != 0 && i - 1 < |n.children| && Semantic(n.children[i - 1]) then Add(cs, i - 1) else cs
  }

  function SigCandidates(n: Node): (cs: seq<nat>)
    ensures forall k :: 0 <= k < |cs| ==> cs[k] < |n.children| && Semantic(n.children[cs[k]])
  {
    AddFrontier(n, if |n.children| <= 3 then SigCandidatesTo(n, |n.fieldIds|) else [])
  }

  function Head(n: Node): seq<int> {
    [n.symbol, Span(n), |n.children|, Flags(n), n.parseState, n.production, n.prec]
  }

  function Signature(mix: Mix, r: Ref, depth: nat): int
    decreases depth, 2, 0
  {
    match r
    case Nil => mix([NIL_SENTINEL])
    case To(n) => NodeSignature(mix, n, depth)
  }

  function NodeSignature(mix: Mix, n: Node, depth: nat): int
    decreases depth, 1, 0
  {
    if n.hasError then mix(Head(n))
    else if !NeedsDeep(n) then mix(Head(n) + ShallowChildren(mix, n))
    else
      mix(
           Head(n) + [n.preGoto, |n.fieldIds|] + FieldsTo(n, |n.fieldIds|) + FrontierChildren(mix, n)
           + if depth == 0 then [] else InDepth(mix, n, SigCandidates(n), depth))
  }

  function InDepth(mix: Mix, n: Node, cs: seq<nat>, depth: nat): seq<int>
    requires depth > 0 && forall k :: 0 <= k < |cs| ==> cs[k] < |n.children|
    decreases depth, 0, |cs|
  {
    if cs == [] then []
    else [cs[0], Signature(mix, n.children[cs[0]], depth - 1)] + InDepth(mix, n, cs[1..], depth)
  }

  // ----- congruence ---------------------------------------------------------

  /** Every child the signature looks into, the comparison looks into as well. */
  lemma {:induction false} CandidatesCovered(n: Node, c: nat)
    requires c in SigCandidates(n)
    ensures c in EquivCandidates(n)
  {
    var f := FrontierBefore(n, |n.children|);
    if f > 0 && c == f - 1 {
      if |n.children| <= 3 {
        EquivCandidatesFew(n, |n.children|);
      }
    } else {
      assert c in SigCandidatesTo(n, |n.fieldIds|);
      EquivCandidatesHave(n, |n.children|, c);
    }
  }

  lemma {:induction false} EquivCandidatesFew(n: Node, i: nat)
    requires i <= |n.children|
    ensures |EquivCandidatesTo(n, i)| <= i
  {
    if i > 0 {
      EquivCandidatesFew(n, i - 1);
    }
  }

  lemma {:induction false} EquivCandidatesHave(n: Node, i: nat, c: nat)
    requires c < i <= |n.children| <= 3 && Semantic(n.children[c])
    ensures c in EquivCandidatesTo(n, i)
  {
    EquivCandidatesFew(n, i - 1);
    if c < i - 1 {
      EquivCandidatesHave(n, i - 1, c);
    }
  }

  predicate SameOutline(a: Node, b: Node) {
    && SameHeader(a, b) && SameFields(a, b)
    && forall i :: 0 <= i < |a.children| ==> SameChildHeader(a.children[i], b.children[i])
  }

  lemma {:induction false} OutlineFrontier(a: Node, b: Node, i: nat)
    requires SameOutline(a, b) && i <= |a.children|
    ensures FrontierBefore(a, i) == FrontierBefore(b, i)
  {
    if i > 0 {
      assert SameChildHeader(a.children[i - 1], b.children[i - 1]);
      OutlineFrontier(a, b, i - 1);
    }
  }

  lemma {:induction false} OutlineCandidates(a: Node, b: Node, i: nat)
    requires SameOutline(a, b) && i <= |a.fieldIds|
    ensures SigCandidatesTo(a, i) == SigCandidatesTo(b, i)
  {
    if i > 0 {
      OutlineCandidates(a, b, i - 1);
      if i - 1 < |a.children| {
        assert SameChildHeader(a.children[i - 1], b.children[i - 1]);
      }
    }
  }

  lemma {:induction false} OutlineSigCandidates(a: Node, b: Node)
    requires SameOutline(a, b)
    ensures SigCandidates(a) == SigCandidates(b)
  {
    OutlineFrontier(a, b, |a.children|);
    OutlineCandidates(a, b, |a.fieldIds|);
  }

  lemma {:induction false} OutlineFields(a: Node, b: Node, i: nat)
    requires SameFields(a, b) && i <= |a.fieldIds|
    ensures FieldsTo(a, i) == FieldsTo(b, i)
  {
    if i > 0 {
      OutlineFields(a, b, i - 1);
    }
  }

  lemma {:induction false} OutlineChild(mix: Mix, a: Ref, b: Ref)
    requires SameChildHeader(a, b)
    ensures ShallowChild(mix, a) == ShallowChild(mix, b) && FrontierChild(mix, a) == FrontierChild(mix, b)
    ensures DeepChild(a) == DeepChild(b)
  {
  }

  lemma {:induction false} OutlineChildren(mix: Mix, a: Node, b: Node)
    requires SameOutline(a, b)
    ensures ShallowChildren(mix, a) == ShallowChildren(mix, b) && FrontierChildren(mix, a) == FrontierChildren(mix, b)
  {
    forall i | 0 <= i < |a.children|
      ensures ShallowChild(mix, a.children[i]) == ShallowChild(mix, b.children[i])
      ensures FrontierChild(mix, a.children[i]) == FrontierChild(mix, b.children[i])
    {
      OutlineChild(mix, a.children[i], b.children[i]);
    }
  }

  lemma {:induction false} OutlineDeep(mix: Mix, a: Node, b: Node)
    requires SameOutline(a, b) && NeedsDeep(a)
    ensures NeedsDeep(b)
  {
    if !(a.extra || a.preGoto != 0 || |a.fieldIds| != 0) {
      var i :| 0 <= i < |a.children| && DeepChild(a.children[i]);
      OutlineChild(mix, a.children[i], b.children[i]);
    }
  }

  lemma {:induction false} OutlineSymmetric(a: Node, b: Node)
    requires SameOutline(a, b)
    ensures SameOutline(b, a)
  {
    forall i | 0 <= i < |b.children|
      ensures SameChildHeader(b.children[i], a.children[i])
    {
      assert SameChildHeader(a.children[i], b.children[i]);
    }
  }

  lemma {:induction false} OutlineDeepIff(mix: Mix, a: Node, b: Node)
    requires SameOutline(a, b)
    ensures NeedsDeep(a) == NeedsDeep(b)
  {
    OutlineSymmetric(a, b);
    if NeedsDeep(a) {
      OutlineDeep(mix, a, b);
    } else if NeedsDeep(b) {
      OutlineDeep(mix, b, a);
    }
  }

  /** Nodes of one outline sign their children alike and agree on going deep. */
  lemma {:induction false} OutlineAgrees(mix: Mix, a: Node, b: Node)
    requires SameOutline(a, b)
    ensures NeedsDeep(a) == NeedsDeep(b)
    ensures ShallowChildren(mix, a) == ShallowChildren(mix, b) && FrontierChildren(mix, a) == FrontierChildren(mix, b)
    ensures FieldsTo(a, |a.fieldIds|) == FieldsTo(b, |b.fieldIds|) && SigCandidates(a) == SigCandidates(b)
  {
    assert NeedsDeep(a) == NeedsDeep(b) by { OutlineDeepIff(mix, a, b); }
    assert ShallowChildren(mix, a) == ShallowChildren(mix, b) && FrontierChildren(mix, a) == FrontierChildren(mix, b) by {
      OutlineChildren(mix, a, b);
    }
    assert SigCandidates(a) == SigCandidates(b) by { OutlineSigCandidates(a, b); }
    assert FieldsTo(a, |a.fieldIds|) == FieldsTo(b, |b.fieldIds|) by { OutlineFields(a, b, |a.fieldIds|); }
  }

  /** Frontier equivalence to depth `d` gives equal signatures at every depth up to `d`. */
  lemma {:induction false} FrontierCongruence(mix: Mix, a: Ref, b: Ref, d: nat, s: nat)
    requires FrontierEquivalent(a, b, d) && s <= d
    ensures Signature(mix, a, s) == Signature(mix, b, s)
    decreases d, 1, 0
  {
    if a != b {
      HeadAgrees(a.node, b.node);
    }
    if a != b && !a.node.hasError {
      assert SameOutline(a.node, b.node);
      OutlineAgrees(mix, a.node, b.node);
      if NeedsDeep(a.node) && s > 0 {
        CandidatesCompared(a.node, b.node, d);
        InDepthCongruence(mix, a.node, b.node, SigCandidates(a.node), d, s);
      }
    }
  }

  /** The comparison has looked into the children `cs` down to depth `d`. */
  ghost predicate ComparedDeep(a: Node, b: Node, cs: seq<nat>, d: nat) {
    forall k :: 0 <= k < |cs| ==>
      cs[k] < |a.children| && cs[k] < |b.children| && FrontierEquivalent(a.children[cs[k]], b.children[cs[k]], d)
  }

  /** The comparison has looked into every child signed in depth. */
  lemma {:induction false} CandidatesCompared(a: Node, b: Node, d: nat)
    requires d > 0 && |a.children| == |b.children| && CandidatesEquivalent(a, b, d)
    ensures ComparedDeep(a, b, SigCandidates(a), d - 1)
  {
    var cs := SigCandidates(a);
    forall k | 0 <= k < |cs|
      ensures FrontierEquivalent(a.children[cs[k]], b.children[cs[k]], d - 1)
    {
      CandidatesCovered(a, cs[k]);
      assert CandidateEquivalent(a, b, cs[k], d);
    }
  }

  /** Children compared in depth are signed alike in depth. */
  lemma {:induction false} InDepthCongruence(mix: Mix, a: Node, b: Node, cs: seq<nat>, d: nat, s: nat)
    requires 0 < s <= d && ComparedDeep(a, b, cs, d - 1)
    ensures InDepth(mix, a, cs, s) == InDepth(mix, b, cs, s)
    decreases d, 0, |cs|
  {
    if cs != [] {
      FrontierCongruence(mix, a.children[cs[0]], b.children[cs[0]], d - 1, s - 1);
      InDepthCongruence(mix, a, b, cs[1..], d, s);
    }
  }

  lemma {:induction false} HeadAgrees(a: Node, b: Node)
    requires SameHeader(a, b)
    ensures Head(a) == Head(b)
  {
  }

  /** Base equivalence gives equal signatures at the depth the prefilter uses. */
  lemma BaseCongruence(mix: Mix, a: Ref, b: Ref)
    requires BaseEquivalent(a, b)
    ensures Signature(mix, a, GENERIC_DEPTH) == Signature(mix, b, GENERIC_DEPTH)
  {
    if a != b && !a.node.hasError {
      if NeedsDeep(a.node) || NeedsDeep(b.node) {
        FrontierCongruence(mix, a, b, GENERIC_DEPTH, GENERIC_DEPTH);
      } else {
        forall i | 0 <= i < |a.node.children|
          ensures ShallowChild(mix, a.node.children[i]) == ShallowChild(mix, b.node.children[i])
        {
          assert SameShallowChild(a.node.children[i], b.node.children[i]);
        }
        assert ShallowChildren(mix, a.node) == ShallowChildren(mix, b.node);
      }
    }
  }

  // ----- the stack prefilter ------------------------------------------------

  /** A stack entry with a full node, or with none. */
  datatype Entry = Entry(state: nat, node: Ref)

  /** One step of the frontier stack hash. */
  function EntryHash(mix: Mix, prev: int, e: Entry): int {
    mix([prev, e.state, if e.node.Nil? then NIL_SENTINEL else Signature(mix, e.node, GENERIC_DEPTH)])
  }

  function StackHash(mix: Mix, es: seq<Entry>): int {
    if es == [] then mix([]) else EntryHash(mix, StackHash(mix, es[..|es| - 1]), es[|es| - 1])
  }

  /** Entry by entry the same state and payloads equivalent under one of the comparisons
      in use: the base one, or the frontier one at `depth`. */
  predicate StacksEquivalent(a: seq<Entry>, b: seq<Entry>, depth: nat) {
    && |a| == |b|
    && forall i :: 0 <= i < |a| ==>
         a[i].state == b[i].state && (BaseEquivalent(a[i].node, b[i].node) || FrontierEquivalent(a[i].node, b[i].node, depth))
  }

  /** The hash prefilter hides no equivalent pair of stacks over full nodes, provided the
      frontier comparison goes at least as deep as the signature. */
  lemma {:induction false} PrefilterHidesNothing(mix: Mix, a: seq<Entry>, b: seq<Entry>, depth: nat)
    requires StacksEquivalent(a, b, depth) && depth >= GENERIC_DEPTH
    ensures StackHash(mix, a) == StackHash(mix, b)
    decreases |a|
  {
    if a != [] {
      var last := |a| - 1;
      PrefilterHidesNothing(mix, a[..last], b[..last], depth);
      if BaseEquivalent(a[last].node, b[last].node) {
        BaseCongruence(mix, a[last].node, b[last].node);
      } else {
        FrontierCongruence(mix, a[last].node, b[last].node, depth, GENERIC_DEPTH);
      }
    }
  }
}
