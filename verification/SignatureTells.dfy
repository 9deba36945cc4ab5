/** What equal signatures tell: with a fold that never collides, nodes of equal signature agree
    on everything the signature is meant to look at, down to its depth. */
module SignatureTells {
  import opened Numbers
  import opened Sig = Signature

  /** No two folds coincide, and none is the word that stands for a missing node. */
  ghost predicate Collisionless(mix: Mix) {
    && (forall s: seq<int>, t: seq<int> :: mix(s) == mix(t) ==> s == t)
    && (forall s: seq<int> :: mix(s) != NIL_SENTINEL)
  }

  /** Offsets are 32-bit words. */
  ghost predicate Addressed(r: Ref)
    decreases r
  {
    r.To? ==> r.node.start < WORD32 && r.node.end < WORD32 && forall i :: 0 <= i < |r.node.children| ==> Addressed(r.node.children[i])
  }

  // ----- what is looked at ------------------------------------------------------

  /** Symbol, span, child count, flags, parser state, production and precedence. */
  predicate HeadAlike(a: Node, b: Node) {
    && a.symbol == b.symbol && a.start == b.start && a.end == b.end && |a.children| == |b.children|
    && a.named == b.named && a.extra == b.extra && a.missing == b.missing && a.hasError == b.hasError
    && a.parseState == b.parseState && a.production == b.production && a.prec == b.prec
  }

  /** A child of a node that is not looked into. */
  predicate ShallowAlike(a: Ref, b: Ref) {
    && a.Nil? == b.Nil?
    && (a.To? && b.To? ==>
          && a.node.symbol == b.node.symbol && a.node.start == b.node.start && a.node.end == b.node.end
          && |a.node.children| == |b.node.children| && a.node.prec == b.node.prec
          && a.node.named == b.node.named && a.node.extra == b.node.extra && a.node.hasError == b.node.hasError)
  }

  /** A child of a node that is. */
  predicate ChildAlike(a: Ref, b: Ref) {
    && a.Nil? == b.Nil?
    && (a.To? && b.To? ==>
          HeadAlike(a.node, b.node) && a.node.preGoto == b.node.preGoto && a.node.fieldIds == b.node.fieldIds)
  }

  /** The whole of what the signature looks at, to depth `d`. */
  ghost predicate Alike(a: Ref, b: Ref, d: nat)
    decreases d
  {
    && a.Nil? == b.Nil?
    && (a.To? && b.To? ==> HeadAlike(a.node, b.node) && (a.node.hasError || BodyAlike(a.node, b.node, d)))
  }

  ghost predicate BodyAlike(a: Node, b: Node, d: nat)
    requires |a.children| == |b.children|
    decreases d, 0, 1
  {
    && NeedsDeep(a) == NeedsDeep(b)
    && (!NeedsDeep(a) ==> forall i :: 0 <= i < |a.children| ==> ShallowAlike(a.children[i], b.children[i]))
    && (NeedsDeep(a) ==>
          && a.preGoto == b.preGoto && SameFields(a, b)
          && (forall i :: 0 <= i < |a.children| ==> ChildAlike(a.children[i], b.children[i]))
          && (d > 0 ==>
                && SigCandidates(a) == SigCandidates(b)
                && forall k :: 0 <= k < |SigCandidates(a)| ==>
                     Alike(a.children[SigCandidates(a)[k]], b.children[SigCandidates(a)[k]], d - 1)))
  }

  // ----- which children are looked into --------------------------------------------

  predicate Fielded(n: Node, c: nat) {
    c < |n.fieldIds| && n.fieldIds[c] != 0
  }

  predicate SemanticAt(n: Node, c: nat) {
    c < |n.children| && Semantic(n.children[c])
  }

  /** The frontier: no semantic child comes after it. */
  ghost predicate LastSemantic(n: Node, c: nat) {
    SemanticAt(n, c) && forall k: nat :: c < k ==> !SemanticAt(n, k)
  }

  predicate WorthComparing(n: Node, c: nat) {
    && c < |n.children| && n.children[c].To? && !n.children[c].node.extra
    && (Fielded(n, c) || n.children[c].node.named || |n.children[c].node.children| > 0)
  }

  lemma {:induction false} FrontierIsLast(n: Node, i: nat)
    requires i <= |n.children|
    ensures forall k: nat :: FrontierBefore(n, i) <= k < i ==> !SemanticAt(n, k)
    decreases i
  {
    if i > 0 && !Semantic(n.children[i - 1]) {
      FrontierIsLast(n, i - 1);
    }
  }

  /** Adding the frontier adds just the last semantic child. */
  lemma {:induction false} AddsLast(n: Node, cs: seq<nat>, c: nat)
    requires |cs| < 8
    ensures c in AddFrontier(n, cs) <==> c in cs || LastSemantic(n, c)
  {
    FrontierIsLast(n, |n.children|);
    var f := FrontierBefore(n, |n.children|);
    if f > 0 {
      assert SemanticAt(n, f - 1);
    }
  }

  lemma {:induction false} AddHas(cs: seq<nat>, i: nat, c: nat)
    requires |cs| < 8
    ensures c in Add(cs, i) <==> c in cs || c == i
  {
  }

  lemma {:induction false} SigCandidatesFew(n: Node, i: nat)
    requires i <= |n.fieldIds|
    ensures |SigCandidatesTo(n, i)| <= Min(i, |n.children|)
    decreases i
  {
    if i > 0 {
      SigCandidatesFew(n, i - 1);
    }
  }

  lemma {:induction false} SigCandidatesToIff(n: Node, i: nat, c: nat)
    requires i <= |n.fieldIds| && |n.children| <= 3
    ensures c in SigCandidatesTo(n, i) <==> c < i && Fielded(n, c) && SemanticAt(n, c)
    decreases i
  {
    if i > 0 {
      SigCandidatesFew(n, i - 1);
      SigCandidatesToIff(n, i - 1, c);
      AddHas(SigCandidatesTo(n, i - 1), i - 1, c);
    }
  }

  /** The signature looks into the last semantic child and, in a node of at most three
      children, into the semantic ones that have a field. */
  lemma {:induction false} SigCandidatesIff(n: Node, c: nat)
    ensures c in SigCandidates(n) <==> LastSemantic(n, c) || (|n.children| <= 3 && Fielded(n, c) && SemanticAt(n, c))
  {
    if |n.children| <= 3 {
      SigCandidatesFew(n, |n.fieldIds|);
      SigCandidatesToIff(n, |n.fieldIds|, c);
      AddsLast(n, SigCandidatesTo(n, |n.fieldIds|), c);
    } else {
      AddsLast(n, [], c);
    }
  }

  lemma {:induction false} EquivCandidatesToIff(n: Node, i: nat, c: nat)
    requires i <= |n.children| <= 3
    ensures |EquivCandidatesTo(n, i)| <= i
    ensures c in EquivCandidatesTo(n, i) <==> c < i && WorthComparing(n, c)
    decreases i
  {
    if i > 0 {
      EquivCandidatesToIff(n, i - 1, c);
    }
  }

  /** The comparison looks into the last semantic child and, in a node of at most three
      children, into every one that is not an extra and is fielded, named or has children. */
  lemma {:induction false} EquivCandidatesIff(n: Node, c: nat)
    ensures c in EquivCandidates(n) <==> LastSemantic(n, c) || (|n.children| <= 3 && WorthComparing(n, c))
  {
    if |n.children| <= 3 {
      EquivCandidatesToIff(n, |n.children|, c);
      AddsLast(n, EquivCandidatesTo(n, |n.children|), c);
    } else {
      AddsLast(n, [], c);
    }
  }

  // ----- single values -----------------------------------------------------------

  lemma {:induction false} SpanTells(a: Node, b: Node)
    requires a.end < WORD32 && b.end < WORD32 && Span(a) == Span(b)
    ensures a.start == b.start && a.end == b.end
  {
  }

  lemma {:induction false} FlagsTell(a: Node, b: Node)
    ensures Flags(a) == Flags(b) ==> SameFlags(a, b)
    ensures FlagsNoMissing(a) == FlagsNoMissing(b) ==> a.named == b.named && a.extra == b.extra && a.hasError == b.hasError
  {
  }

  lemma {:induction false} HeadTells(a: Node, b: Node)
    requires a.end < WORD32 && b.end < WORD32 && Head(a) == Head(b)
    ensures HeadAlike(a, b)
  {
    var x, y := Head(a), Head(b);
    assert x[0] == y[0] && x[1] == y[1] && x[2] == y[2] && x[3] == y[3] && x[4] == y[4] && x[5] == y[5] && x[6] == y[6];
    SpanTells(a, b);
    FlagsTell(a, b);
  }

  /** What a child of a shallow node shows of itself. */
  function Skimmed(n: Node): (s: seq<int>)
    ensures |s| == 5
  {
    [n.symbol, Span(n), |n.children|, n.prec, FlagsNoMissing(n)]
  }

  /** What a child of a deep node shows of itself. */
  function ChildHead(n: Node): (s: seq<int>)
    ensures |s| == 9
  {
    [n.symbol, Span(n), |n.children|, |n.fieldIds|, Flags(n), n.parseState, n.preGoto, n.production, n.prec]
  }

  /** A missing child is never taken for one that is there. */
  lemma {:induction false} NilShows(mix: Mix, n: Node)
    requires Collisionless(mix)
    ensures ShallowChild(mix, Nil) != ShallowChild(mix, To(n))
    ensures FrontierChild(mix, Nil) != FrontierChild(mix, To(n))
  {
    var none, skimmed, head := [NIL_SENTINEL], Skimmed(n), ChildHead(n) + Widen(n.fieldIds);
    assert |none| == 1 && |skimmed| == 5 && |head| >= 9;
    assert mix(none) != mix(skimmed) && mix(none) != mix(head);
  }

  lemma {:induction false} ShallowTells(mix: Mix, a: Ref, b: Ref)
    requires Collisionless(mix) && Addressed(a) && Addressed(b) && ShallowChild(mix, a) == ShallowChild(mix, b)
    ensures ShallowAlike(a, b)
  {
    if a.To? && b.To? {
      var x, y := Skimmed(a.node), Skimmed(b.node);
      assert x == y;
      assert x[0] == y[0] && x[1] == y[1] && x[2] == y[2] && x[3] == y[3] && x[4] == y[4];
      SpanTells(a.node, b.node);
      FlagsTell(a.node, b.node);
    } else if a.To? || b.To? {
      NilShows(mix, if a.To? then a.node else b.node);
    }
  }

  lemma {:induction false} ChildHeadTells(a: Node, b: Node)
    requires a.end < WORD32 && b.end < WORD32 && ChildHead(a) == ChildHead(b)
    ensures HeadAlike(a, b) && a.preGoto == b.preGoto && |a.fieldIds| == |b.fieldIds|
  {
    var x, y := ChildHead(a), ChildHead(b);
    assert x[0] == y[0] && x[1] == y[1] && x[2] == y[2] && x[3] == y[3] && x[4] == y[4];
    assert x[5] == y[5] && x[6] == y[6] && x[7] == y[7] && x[8] == y[8];
    SpanTells(a, b);
    FlagsTell(a, b);
  }

  lemma {:induction false} ChildTells(mix: Mix, a: Ref, b: Ref)
    requires Collisionless(mix) && Addressed(a) && Addressed(b) && FrontierChild(mix, a) == FrontierChild(mix, b)
    ensures ChildAlike(a, b)
  {
    if a.To? && b.To? {
      var x, y := ChildHead(a.node) + Widen(a.node.fieldIds), ChildHead(b.node) + Widen(b.node.fieldIds);
      assert x == y;
      assert x[..9] == ChildHead(a.node) && y[..9] == ChildHead(b.node);
      ChildHeadTells(a.node, b.node);
      assert x[9..] == Widen(a.node.fieldIds) && y[9..] == Widen(b.node.fieldIds);
      forall i | 0 <= i < |a.node.fieldIds| ensures a.node.fieldIds[i] == b.node.fieldIds[i] {
        assert Widen(a.node.fieldIds)[i] == Widen(b.node.fieldIds)[i];
      }
    } else if a.To? || b.To? {
      NilShows(mix, if a.To? then a.node else b.node);
    }
  }

  lemma {:induction false} FieldsLength(n: Node, i: nat)
    requires i <= |n.fieldIds|
    ensures |FieldsTo(n, i)| == 2 * i
    decreases i
  {
    if i > 0 {
      FieldsLength(n, i - 1);
    }
  }

  lemma {:induction false} FieldsTell(a: Node, b: Node, i: nat)
    requires i <= |a.fieldIds| && i <= |b.fieldIds| && FieldsTo(a, i) == FieldsTo(b, i)
    ensures forall j: nat :: j < i ==> a.fieldIds[j] == b.fieldIds[j] && FieldSource(a, j) == FieldSource(b, j)
    decreases i
  {
    if i > 0 {
      FieldsLength(a, i - 1);
      FieldsLength(b, i - 1);
      var x, y := FieldsTo(a, i), FieldsTo(b, i);
      assert x[..2 * (i - 1)] == FieldsTo(a, i - 1) && y[..2 * (i - 1)] == FieldsTo(b, i - 1);
      FieldsTell(a, b, i - 1);
      assert x[2 * (i - 1)] == a.fieldIds[i - 1] && x[2 * (i - 1) + 1] == FieldSource(a, i - 1);
      assert y[2 * (i - 1)] == b.fieldIds[i - 1] && y[2 * (i - 1) + 1] == FieldSource(b, i - 1);
    }
  }

  // ----- in depth ------------------------------------------------------------------

  lemma {:induction false} InDepthLength(mix: Mix, n: Node, cs: seq<nat>, d: nat)
    requires d > 0 && forall k :: 0 <= k < |cs| ==> cs[k] < |n.children|
    ensures |InDepth(mix, n, cs, d)| == 2 * |cs|
    decreases |cs|
  {
    if cs != [] {
      InDepthLength(mix, n, cs[1..], d);
    }
  }

  /** The children chosen and their signatures can be read off. */
  lemma {:induction false} InDepthTells(mix: Mix, a: Node, cs: seq<nat>, b: Node, ds: seq<nat>, d: nat)
    requires d > 0 && (forall k :: 0 <= k < |cs| ==> cs[k] < |a.children|) && (forall k :: 0 <= k < |ds| ==> ds[k] < |b.children|)
    requires InDepth(mix, a, cs, d) == InDepth(mix, b, ds, d)
    ensures cs == ds && forall k :: 0 <= k < |cs| ==> Signature(mix, a.children[cs[k]], d - 1) == Signature(mix, b.children[ds[k]], d - 1)
    decreases |cs|
  {
    InDepthLength(mix, a, cs, d);
    InDepthLength(mix, b, ds, d);
    if cs != [] {
      var x, y := InDepth(mix, a, cs, d), InDepth(mix, b, ds, d);
      assert x[0] == cs[0] && y[0] == ds[0] && x[1] == Signature(mix, a.children[cs[0]], d - 1) && y[1] == Signature(mix, b.children[ds[0]], d - 1);
      assert x[2..] == InDepth(mix, a, cs[1..], d) && y[2..] == InDepth(mix, b, ds[1..], d);
      InDepthTells(mix, a, cs[1..], b, ds[1..], d);
      forall k | 0 <= k < |cs|
        ensures cs[k] == ds[k] && Signature(mix, a.children[cs[k]], d - 1) == Signature(mix, b.children[ds[k]], d - 1)
      {
        if k > 0 {
          assert cs[k] == cs[1..][k - 1] && ds[k] == ds[1..][k - 1];
        }
      }
    }
  }

  // ----- the whole signature ---------------------------------------------------------

  /** What is folded for a node. */
  ghost function Shown(mix: Mix, n: Node, d: nat): seq<int> {
    if n.hasError then Head(n)
    else if !NeedsDeep(n) then Head(n) + ShallowChildren(mix, n)
    else Head(n) + DeepPart(mix, n, d)
  }

  ghost function DeepPart(mix: Mix, n: Node, d: nat): seq<int> {
    [n.preGoto, |n.fieldIds|] + (FieldsTo(n, |n.fieldIds|) + (FrontierChildren(mix, n) + DepthPart(mix, n, d)))
  }

  ghost function DepthPart(mix: Mix, n: Node, d: nat): seq<int> {
    if d == 0 then [] else InDepth(mix, n, SigCandidates(n), d)
  }

  lemma {:induction false} SignatureShows(mix: Mix, n: Node, d: nat)
    ensures Signature(mix, To(n), d) == mix(Shown(mix, n, d))
  {
    assert Signature(mix, To(n), d) == NodeSignature(mix, n, d);
    if !n.hasError && NeedsDeep(n) {
      Reassociate(Head(n), [n.preGoto, |n.fieldIds|], FieldsTo(n, |n.fieldIds|), FrontierChildren(mix, n), DepthPart(mix, n, d));
    }
  }

  lemma {:induction false} Reassociate(a: seq<int>, b: seq<int>, c: seq<int>, d: seq<int>, e: seq<int>)
    ensures a + b + c + d + e == a + (b + (c + (d + e)))
  {
  }

  lemma {:induction false} Cut(a: seq<int>, b: seq<int>, c: seq<int>, d: seq<int>)
    requires a + b == c + d && |a| == |c|
    ensures a == c && b == d
  {
    assert (a + b)[..|a|] == a && (c + d)[..|a|] == c && (a + b)[|a|..] == b && (c + d)[|a|..] == d;
  }

  /** The head can be read off whatever is shown after it. */
  lemma {:induction false} ShownHead(mix: Mix, a: Node, b: Node, d: nat)
    requires Shown(mix, a, d) == Shown(mix, b, d)
    ensures Head(a) == Head(b)
  {
    var x, y := Shown(mix, a, d), Shown(mix, b, d);
    assert x[..7] == Head(a) && y[..7] == Head(b);
  }

  /** Whether a node was looked into shows in the length. */
  lemma {:induction false} ShownDepth(mix: Mix, a: Node, b: Node, d: nat)
    requires Shown(mix, a, d) == Shown(mix, b, d) && |a.children| == |b.children| && !a.hasError && !b.hasError
    ensures NeedsDeep(a) == NeedsDeep(b)
  {
    assert |ShallowChildren(mix, a)| == |FrontierChildren(mix, a)| == |a.children|;
    assert |ShallowChildren(mix, b)| == |FrontierChildren(mix, b)| == |b.children|;
  }

  lemma {:induction false} DeepPartTells(mix: Mix, a: Node, b: Node, d: nat)
    requires DeepPart(mix, a, d) == DeepPart(mix, b, d) && |a.children| == |b.children|
    ensures a.preGoto == b.preGoto && SameFields(a, b)
    ensures FrontierChildren(mix, a) == FrontierChildren(mix, b) && DepthPart(mix, a, d) == DepthPart(mix, b, d)
  {
    var x, y := FrontierChildren(mix, a) + DepthPart(mix, a, d), FrontierChildren(mix, b) + DepthPart(mix, b, d);
    var u, v := FieldsTo(a, |a.fieldIds|) + x, FieldsTo(b, |b.fieldIds|) + y;
    Cut([a.preGoto, |a.fieldIds|], u, [b.preGoto, |b.fieldIds|], v);
    assert [a.preGoto, |a.fieldIds|][0] == [b.preGoto, |b.fieldIds|][0] && [a.preGoto, |a.fieldIds|][1] == [b.preGoto, |b.fieldIds|][1];
    FieldsLength(a, |a.fieldIds|);
    FieldsLength(b, |b.fieldIds|);
    Cut(FieldsTo(a, |a.fieldIds|), x, FieldsTo(b, |b.fieldIds|), y);
    FieldsTell(a, b, |a.fieldIds|);
    Cut(FrontierChildren(mix, a), DepthPart(mix, a, d), FrontierChildren(mix, b), DepthPart(mix, b, d));
  }

  lemma {:induction false} ChildrenTell(mix: Mix, a: Node, b: Node)
    requires Collisionless(mix) && Addressed(To(a)) && Addressed(To(b)) && |a.children| == |b.children|
    ensures ShallowChildren(mix, a) == ShallowChildren(mix, b) ==>
      forall i :: 0 <= i < |a.children| ==> ShallowAlike(a.children[i], b.children[i])
    ensures FrontierChildren(mix, a) == FrontierChildren(mix, b) ==>
      forall i :: 0 <= i < |a.children| ==> ChildAlike(a.children[i], b.children[i])
  {
    if ShallowChildren(mix, a) == ShallowChildren(mix, b) {
      forall i | 0 <= i < |a.children| ensures ShallowAlike(a.children[i], b.children[i]) {
        assert ShallowChildren(mix, a)[i] == ShallowChildren(mix, b)[i];
        ShallowTells(mix, a.children[i], b.children[i]);
      }
    }
    if FrontierChildren(mix, a) == FrontierChildren(mix, b) {
      forall i | 0 <= i < |a.children| ensures ChildAlike(a.children[i], b.children[i]) {
        assert FrontierChildren(mix, a)[i] == FrontierChildren(mix, b)[i];
        ChildTells(mix, a.children[i], b.children[i]);
      }
    }
  }

  lemma {:induction false} NilSigned(mix: Mix, n: Node, d: nat)
    requires Collisionless(mix)
    ensures Signature(mix, Nil, d) != Signature(mix, To(n), d)
  {
    SignatureShows(mix, n, d);
    var none := [NIL_SENTINEL];
    assert |none| == 1 && |Shown(mix, n, d)| >= 7;
    assert mix(none) != mix(Shown(mix, n, d));
  }

  /** Equal signatures mean agreement on all the signature looks at. */
  lemma {:induction false} SignatureTells(mix: Mix, a: Ref, b: Ref, d: nat)
    requires Collisionless(mix) && Addressed(a) && Addressed(b) && Signature(mix, a, d) == Signature(mix, b, d)
    ensures Alike(a, b, d)
    decreases d, 1
  {
    if a.To? && b.To? {
      SignatureShows(mix, a.node, d);
      SignatureShows(mix, b.node, d);
      ShownHead(mix, a.node, b.node, d);
      HeadTells(a.node, b.node);
      if !a.node.hasError {
        BodyTells(mix, a.node, b.node, d);
      }
    } else if a.To? || b.To? {
      NilSigned(mix, if a.To? then a.node else b.node, d);
    }
  }

  lemma {:induction false} BodyTells(mix: Mix, a: Node, b: Node, d: nat)
    requires Collisionless(mix) && Addressed(To(a)) && Addressed(To(b)) && |a.children| == |b.children|
    requires !a.hasError && !b.hasError && Shown(mix, a, d) == Shown(mix, b, d)
    ensures BodyAlike(a, b, d)
    decreases d, 0, 1
  {
    ShownDepth(mix, a, b, d);
    ChildrenTell(mix, a, b);
    if !NeedsDeep(a) {
      Cut(Head(a), ShallowChildren(mix, a), Head(b), ShallowChildren(mix, b));
    } else {
      Cut(Head(a), DeepPart(mix, a, d), Head(b), DeepPart(mix, b, d));
      DeepPartTells(mix, a, b, d);
      if d > 0 {
        DepthTells(mix, a, b, d);
      }
    }
  }

  lemma {:induction false} DepthTells(mix: Mix, a: Node, b: Node, d: nat)
    requires Collisionless(mix) && Addressed(To(a)) && Addressed(To(b)) && |a.children| == |b.children|
    requires d > 0 && InDepth(mix, a, SigCandidates(a), d) == InDepth(mix, b, SigCandidates(b), d)
    ensures SigCandidates(a) == SigCandidates(b)
    ensures forall k :: 0 <= k < |SigCandidates(a)| ==>
      Alike(a.children[SigCandidates(a)[k]], b.children[SigCandidates(a)[k]], d - 1)
    decreases d, 0, 0
  {
    var cs := SigCandidates(a);
    InDepthTells(mix, a, cs, b, SigCandidates(b), d);
    forall k | 0 <= k < |cs| ensures Alike(a.children[cs[k]], b.children[cs[k]], d - 1) {
      SignatureTells(mix, a.children[cs[k]], b.children[cs[k]], d - 1);
    }
  }

  // ----- whole stacks -----------------------------------------------------------------

  ghost predicate EntriesAlike(a: Entry, b: Entry) {
    a.state == b.state && Alike(a.node, b.node, GENERIC_DEPTH)
  }

  lemma {:induction false} EntryHashTells(mix: Mix, p: int, a: Entry, q: int, b: Entry)
    requires Collisionless(mix) && Addressed(a.node) && Addressed(b.node) && EntryHash(mix, p, a) == EntryHash(mix, q, b)
    ensures p == q && EntriesAlike(a, b)
  {
    var x := [p, a.state, if a.node.Nil? then NIL_SENTINEL else Signature(mix, a.node, GENERIC_DEPTH)];
    var y := [q, b.state, if b.node.Nil? then NIL_SENTINEL else Signature(mix, b.node, GENERIC_DEPTH)];
    assert x == y;
    assert x[0] == y[0] && x[1] == y[1] && x[2] == y[2];
    if a.node.To? {
      SignatureShows(mix, a.node.node, GENERIC_DEPTH);
    }
    if b.node.To? {
      SignatureShows(mix, b.node.node, GENERIC_DEPTH);
    }
    if a.node.To? && b.node.To? {
      SignatureTells(mix, a.node, b.node, GENERIC_DEPTH);
    }
  }

  lemma {:induction false} NothingHashed(mix: Mix, p: int, e: Entry)
    requires Collisionless(mix)
    ensures mix([]) != EntryHash(mix, p, e)
  {
    var none: seq<int> := [];
    var x := [p, e.state, if e.node.Nil? then NIL_SENTINEL else Signature(mix, e.node, GENERIC_DEPTH)];
    assert |none| != |x|;
  }

  ghost predicate AllAddressed(es: seq<Entry>) {
    forall i :: 0 <= i < |es| ==> Addressed(es[i].node)
  }

  ghost predicate StacksAlike(a: seq<Entry>, b: seq<Entry>) {
    |a| == |b| && forall i :: 0 <= i < |a| ==> EntriesAlike(a[i], b[i])
  }

  lemma {:induction false} TopAddressed(es: seq<Entry>)
    requires es != [] && AllAddressed(es)
    ensures AllAddressed(es[..|es| - 1]) && Addressed(es[|es| - 1].node)
  {
  }

  lemma {:induction false} AlikeBelow(a: seq<Entry>, b: seq<Entry>)
    requires a != [] && b != [] && StacksAlike(a[..|a| - 1], b[..|b| - 1]) && EntriesAlike(a[|a| - 1], b[|b| - 1])
    ensures StacksAlike(a, b)
  {
    var u, v := a[..|a| - 1], b[..|b| - 1];
    forall i | 0 <= i < |a| ensures EntriesAlike(a[i], b[i]) {
      if i < |u| {
        assert a[i] == u[i] && b[i] == v[i];
      }
    }
  }

  /** Stacks of equal hash have the same height, and entry by entry the same state and
      payloads the signature cannot tell apart. */
  lemma {:induction false} StackHashTells(mix: Mix, a: seq<Entry>, b: seq<Entry>)
    requires Collisionless(mix) && AllAddressed(a) && AllAddressed(b) && StackHash(mix, a) == StackHash(mix, b)
    ensures StacksAlike(a, b)
    decreases |a|
  {
    if a != [] && b != [] {
      TopAddressed(a);
      TopAddressed(b);
      EntryHashTells(mix, StackHash(mix, a[..|a| - 1]), a[|a| - 1], StackHash(mix, b[..|b| - 1]), b[|b| - 1]);
      StackHashTells(mix, a[..|a| - 1], b[..|b| - 1]);
      AlikeBelow(a, b);
    } else if a != [] {
      NothingHashed(mix, StackHash(mix, a[..|a| - 1]), a[|a| - 1]);
    } else if b != [] {
      NothingHashed(mix, StackHash(mix, b[..|b| - 1]), b[|b| - 1]);
    }
  }

  // ----- where the signature is all there is to compare --------------------------------

  /** Neither an extra, nor reduced from a pre-goto state, nor with fields. */
  predicate Plain(n: Node) {
    !n.extra && n.preGoto == 0 && n.fieldIds == []
  }

  /** A node is not looked into exactly when it is plain and so are its children, all leaves. */
  lemma {:induction false} ShallowIff(n: Node)
    ensures !NeedsDeep(n) <==>
      Plain(n) && forall i :: 0 <= i < |n.children| && n.children[i].To? ==>
        Plain(n.children[i].node) && n.children[i].node.children == []
  {
    if !NeedsDeep(n) {
      forall i | 0 <= i < |n.children| && n.children[i].To?
        ensures Plain(n.children[i].node) && n.children[i].node.children == []
      {
        assert !DeepChild(n.children[i]);
      }
    }
  }

  /** A position has a source exactly when it has a field. */
  lemma {:induction false} SourceIffFielded(n: Node, i: nat)
    ensures FieldSource(n, i) != SOURCE_NONE <==> Fielded(n, i)
    ensures Fielded(n, i) && i < |n.fieldSources| && n.fieldSources[i] != SOURCE_NONE ==> FieldSource(n, i) == n.fieldSources[i]
  {
  }

  /** The payload holds an error or nothing below its children's headers counts. */
  predicate Skimmable(r: Ref) {
    r.To? ==> r.node.hasError || !NeedsDeep(r.node)
  }

  lemma {:induction false} ShallowAgree(a: Node, b: Node)
    requires |a.children| == |b.children|
    requires forall i :: 0 <= i < |a.children| ==> ShallowAlike(a.children[i], b.children[i])
    ensures forall i :: 0 <= i < |a.children| ==> SameShallowChild(a.children[i], b.children[i])
  {
    forall i | 0 <= i < |a.children|
      ensures SameShallowChild(a.children[i], b.children[i])
    {
      assert ShallowAlike(a.children[i], b.children[i]);
    }
  }

  /** For payloads with an error and for shallow ones the prefilter is exact: equal signatures
      and base equivalence are the same. */
  lemma {:induction false} SkimmedExactly(mix: Mix, a: Ref, b: Ref)
    requires Collisionless(mix) && Addressed(a) && Addressed(b) && Skimmable(a) && Skimmable(b)
    ensures Signature(mix, a, GENERIC_DEPTH) == Signature(mix, b, GENERIC_DEPTH) <==> BaseEquivalent(a, b)
  {
    if BaseEquivalent(a, b) {
      BaseCongruence(mix, a, b);
    }
    if Signature(mix, a, GENERIC_DEPTH) == Signature(mix, b, GENERIC_DEPTH) {
      SignatureTells(mix, a, b, GENERIC_DEPTH);
      if a.To? && b.To? && !a.node.hasError {
        ShallowAgree(a.node, b.node);
      }
    }
  }
}
