/** The whole main merge: the dry run, then the mutation.  It is all-or-nothing when
    depth falls along every link, and leaves a half-merged graph when it need not. */
module GssAtomic {
  import opened GssGraph
  import opened GssMerge
  import opened GssRise
  import opened GssUnion
  import opened GssPreflight

  ghost predicate Mergeable(g: Graph, a: Ref, b: Ref) {
    && Valid(g) && ValidRef(g, a) && ValidRef(g, b)
    && (a.At? && b.At? ==> State(g, a.id) == State(g, b.id))
  }

  /** Dry run and mutation over two stack heads. */
  ghost function MainMerge(g: Graph, trust: bool, a: Ref, b: Ref): (r: Outcome)
    requires Mergeable(g, a, b)
    ensures Keeps(g, {}, r)
  {
    if a.Nil? || b.Nil? then Outcome(g, {}, false)
    else if a == b then Outcome(g, {}, true)
    else if !CanMergeNodes(g, trust, g, true, {}, a, b).ok then Outcome(g, {}, false)
    else MergeNodes(g, trust, {}, a, b)
  }

  ghost predicate HeadsClean(g: Graph, a: Ref, b: Ref) {
    (a.At? ==> Clean(g, a.id)) && (b.At? ==> Clean(g, b.id))
  }

  lemma HeadsInside(g: Graph, a: nat, b: nat) returns (s: set<nat>)
    requires Valid(g) && a < |g| && b < |g| && Clean(g, a) && Clean(g, b)
    ensures CleanSet(g, s) && a in s && b in s
  {
    CleanReachSet(g, a);
    CleanReachSet(g, b);
    s := ReachSet(g, a) + ReachSet(g, b);
    CleanSetUnion(g, ReachSet(g, a), ReachSet(g, b));
  }

  /** Started on one graph with the shortcut on, dry run and mutation are in step over any
      closed set that holds the heads and has its depths in order. */
  lemma StartsInStep(g: Graph, trust: bool, a: Ref, b: Ref, ordered: set<nat>) returns (s: Scope)
    requires Mergeable(g, a, b) && a.At? && b.At? && (trust ==> HeadsClean(g, a, b))
    requires Closed(g, ordered) && a.id in ordered && b.id in ordered && OrderedOn(g, ordered)
    ensures s.ordered == ordered
    ensures OutcomesInStep(g, trust, s, CanMergeNodes(g, trust, g, true, {}, a, b), MergeNodes(g, trust, {}, a, b))
  {
    var clean: set<nat> := {};
    if trust {
      clean := HeadsInside(g, a.id, b.id);
    }
    s := Scope(ordered, clean);
    ExtendsRefl(g);
    assert InStep(g, trust, g, true, g, s);
    MergeNodesInStep(g, trust, g, true, g, s, {}, a, b);
  }

  /** All or nothing: where depth falls along every link below the two heads, the dry run
      accepts exactly the pairs whose mutation succeeds, so a refused merge has touched
      nothing.  A trusted no-error verdict must be true of the two heads. */
  lemma AllOrNothing(g: Graph, trust: bool, a: Ref, b: Ref)
    requires Mergeable(g, a, b) && a.At? && b.At? && OrderedOn(g, BelowHeads(g, a.id, b.id))
    requires trust ==> HeadsClean(g, a, b)
    ensures var r := MainMerge(g, trust, a, b);
            && (r.ok <==> MergeNodes(g, trust, {}, a, b).ok)
            && (!r.ok ==> r.g == g)
  {
    BelowHeadsClosed(g, a.id, b.id);
    var _ := StartsInStep(g, trust, a, b, BelowHeads(g, a.id, b.id));
  }

  /** The dry run as it would go with the shortcut used only where depths are in order: through
      the search otherwise. */
  ghost function HonestDryRun(g: Graph, trust: bool, a: Ref, b: Ref): Dry
    requires Mergeable(g, a, b) && a.At? && b.At?
  {
    ExtendsRefl(g);
    CanMergeNodes(g, trust, g, OrderedOn(g, BelowHeads(g, a.id, b.id)), {}, a, b)
  }

  /** On every graph, in depth order or not, such a dry run accepts exactly the pairs whose mutation
      succeeds.  So a merge the dry run accepts succeeds exactly when that one accepts it too, and
      a refused merge can have changed the graph only where the two disagree. */
  lemma PreflightHoldsIff(g: Graph, trust: bool, a: Ref, b: Ref)
    requires Mergeable(g, a, b) && a.At? && b.At? && a != b && (trust ==> HeadsClean(g, a, b))
    ensures HonestDryRun(g, trust, a, b).ok <==> MergeNodes(g, trust, {}, a, b).ok
    ensures var accepted := CanMergeNodes(g, trust, g, true, {}, a, b).ok;
            var r := MainMerge(g, trust, a, b);
            && (r.ok <==> accepted && HonestDryRun(g, trust, a, b).ok)
            && (!r.ok && (accepted ==> HonestDryRun(g, trust, a, b).ok) ==> r.g == g)
  {
    var below := BelowHeads(g, a.id, b.id);
    BelowHeadsClosed(g, a.id, b.id);
    var clean: set<nat> := {};
    if trust {
      clean := HeadsInside(g, a.id, b.id);
    }
    var s := Scope(below, clean);
    ExtendsRefl(g);
    assert InStep(g, trust, g, OrderedOn(g, below), g, s);
    MergeNodesInStep(g, trust, g, OrderedOn(g, below), g, s, {}, a, b);
  }

  /** A merge keeps the depth order below its heads exactly when the dry run's shortcut flag
      survives. */
  lemma DepthOrderSurvivesBelow(g: Graph, trust: bool, a: Ref, b: Ref)
    requires Mergeable(g, a, b) && a.At? && b.At? && OrderedOn(g, BelowHeads(g, a.id, b.id))
    requires trust ==> HeadsClean(g, a, b)
    requires MainMerge(g, trust, a, b).ok && a != b
    ensures OrderedOn(MainMerge(g, trust, a, b).g, BelowHeads(g, a.id, b.id))
            <==> CanMergeNodes(g, trust, g, true, {}, a, b).strict
  {
    BelowHeadsClosed(g, a.id, b.id);
    OrderSurvivesOn(g, trust, a, b, BelowHeads(g, a.id, b.id));
  }

  /** The same for the depth order of the whole graph, so the flag at the end of one merge
      says whether the next may rely on depth anywhere. */
  lemma DepthOrderSurvives(g: Graph, trust: bool, a: Ref, b: Ref)
    requires Mergeable(g, a, b) && a.At? && b.At? && DepthOrdered(g)
    requires trust ==> HeadsClean(g, a, b)
    requires MainMerge(g, trust, a, b).ok && a != b
    ensures DepthOrdered(MainMerge(g, trust, a, b).g) <==> CanMergeNodes(g, trust, g, true, {}, a, b).strict
  {
    IdsClosed(g);
    OrderSurvivesOn(g, trust, a, b, Ids(|g|));
    assert DepthOrdered(MainMerge(g, trust, a, b).g) <==> OrderedOn(MainMerge(g, trust, a, b).g, Ids(|g|));
  }

  lemma OrderSurvivesOn(g: Graph, trust: bool, a: Ref, b: Ref, ordered: set<nat>)
    requires Mergeable(g, a, b) && a.At? && b.At? && (trust ==> HeadsClean(g, a, b))
    requires Closed(g, ordered) && a.id in ordered && b.id in ordered && OrderedOn(g, ordered)
    requires MainMerge(g, trust, a, b).ok && a != b
    ensures OrderedOn(MainMerge(g, trust, a, b).g, ordered) <==> CanMergeNodes(g, trust, g, true, {}, a, b).strict
  {
    var _ := StartsInStep(g, trust, a, b, ordered);
    var d := CanMergeNodes(g, trust, g, true, {}, a, b);
    var r := MergeNodes(g, trust, {}, a, b);
    if OrderedOn(d.view, ordered) {
      SameShapeDepth(d.view, r.g, ordered);
    }
    if OrderedOn(r.g, ordered) {
      SameShapeDepth(r.g, d.view, ordered);
    }
  }

  lemma SameShapeDepth(g: Graph, h: Graph, s: set<nat>)
    requires SameShape(g, h) && OrderedOn(g, s)
    ensures OrderedOn(h, s)
  {
    forall n: nat, i: nat | n in s && HasLink(h, n, i)
      ensures LinkDeepens(h, n, i)
    {
      assert LinkKept(h, g, n, i);
      assert LinkDeepens(g, n, i);
    }
  }

  /** What an accepted main merge gives: the union of both heads' paths, nothing lost. */
  lemma MainMergeUnion(g: Graph, trust: bool, a: Ref, b: Ref, cs: seq<Entry>, whole: bool)
    requires Mergeable(g, a, b) && a.At? && b.At?
    requires MainMerge(g, trust, a, b).ok
    ensures var h := MainMerge(g, trust, a, b).g;
            && (Path(g, a, cs, whole) || Path(g, b, cs, whole) ==> Path(h, a, cs, whole))
            && (forall r: Ref :: Path(g, r, cs, whole) ==> Path(h, r, cs, whole))
  {
    PathUnion(g, trust, a.id, b.id, cs, whole);
  }

  // ----- merges of clean heads stay inside a clean set ------------------------

  /** `h` differs from `g` only on members of `s`, which is clean and closed in both. */
  ghost predicate Confined(g: Graph, h: Graph, s: set<nat>) {
    && CleanSet(h, s)
    && |h| == |g|
    && forall n: nat :: n < |g| && n !in s ==> h[n] == g[n]
  }

  lemma UpgradeConfined(g: Graph, h: Graph, k: Graph, s: set<nat>, n: nat, i: nat, incumbent: int, entry: Entry)
    requires Confined(g, h, s) && Valid(h) && HasLink(h, n, i) && SameClass(h[n].links[i].entry, entry)
    requires n in s && k == Upgrade(h, n, i, incumbent, entry)
    ensures Confined(g, k, s)
  {
    SameShapeCleanSet(h, k, s);
  }

  lemma SameShapeCleanSet(g: Graph, h: Graph, s: set<nat>)
    requires SameShape(g, h) && CleanSet(g, s)
    ensures CleanSet(h, s)
  {
    ClosedInSmaller(h, g, s);
    forall m: nat | m in s
      ensures CleanNode(h, m)
    {
      assert CleanNode(g, m);
      forall i: nat | HasLink(h, m, i)
        ensures !Dirty(h[m].links[i].entry)
      {
        assert LinkKept(h, g, m, i);
      }
    }
  }

  lemma {:induction false} AddLinkConfined(g: Graph, trust: bool, seen: set<Pair>, n: nat, prev: Ref, entry: Entry, s: set<nat>)
    requires Valid(g) && n < |g| && ValidRef(g, prev) && entry.state == State(g, n)
    requires CleanSet(g, s) && n in s && (prev.At? ==> prev.id in s) && !Dirty(entry)
    ensures Confined(g, AddLink(g, trust, seen, n, prev, entry).g, s)
    decreases Pairs(|g|) - seen, 4, 0
  {
    var i := Absorber(g, trust, n, 0, prev, entry);
    if prev.At? && Reaches(g, prev.id, n) {
    } else if i < |g[n].links| {
      var was := g[n].links[i];
      assert LinkInto(g, n, i, s);
      var m := if was.prev == prev then Outcome(g, seen, true) else MergeNodes(g, trust, seen, was.prev, prev);
      if was.prev != prev {
        MergeNodesConfined(g, trust, seen, was.prev, prev, s);
      }
      if m.ok {
        assert LinkKept(g, m.g, n, i);
        UpgradeConfined(g, m.g, Upgrade(m.g, n, i, was.entry.prec, entry), s, n, i, was.entry.prec, entry);
      }
    } else if |g[n].links| >= LINK_LIMIT {
      ReplaceWorstNeverFires(g, trust, seen, n, prev, entry);
    } else {
      AppendCleanSet(g, n, Link(prev, entry), s);
    }
  }

  /** A merge inside a clean closed set leaves that set clean and closed and changes no
      node outside it, whether or not it succeeds. */
  lemma {:induction false} MergeNodesConfined(g: Graph, trust: bool, seen: set<Pair>, a: Ref, b: Ref, s: set<nat>)
    requires Mergeable(g, a, b)
    requires CleanSet(g, s) && (a.At? ==> a.id in s) && (b.At? ==> b.id in s)
    ensures Confined(g, MergeNodes(g, trust, seen, a, b).g, s)
    decreases Pairs(|g|) - seen, 1, 0
  {
    if a.At? && b.At? && a != b && (a.id, b.id) !in seen && !Reaches(g, b.id, a.id) {
      assert (a.id, b.id) in Pairs(|g|);
      MergeLinksConfined(g, trust, seen + {(a.id, b.id)}, a.id, b.id, 0, |g[b.id].links|, true, s);
    }
  }

  lemma {:induction false} MergeLinksConfined(g: Graph, trust: bool, seen: set<Pair>, a: nat, b: nat, i: nat, count: nat, ok: bool, s: set<nat>)
    requires Valid(g) && a < |g| && b < |g| && i <= count <= |g[b].links|
    requires State(g, a) == State(g, b)
    requires CleanSet(g, s) && a in s && b in s
    ensures Confined(g, MergeLinks(g, trust, seen, a, b, i, count, ok).g, s)
    decreases Pairs(|g|) - seen, 5, count - i
  {
    if i < count {
      assert HasLink(g, b, i);
      assert LinkInto(g, b, i, s);
      assert CleanNode(g, b);
      var o := AddLink(g, trust, seen, a, g[b].links[i].prev, g[b].links[i].entry);
      AddLinkConfined(g, trust, seen, a, g[b].links[i].prev, g[b].links[i].entry, s);
      assert Pairs(|g|) - o.seen <= Pairs(|g|) - seen;
      LoopKept(g, o.g, a, b, count);
      MergeLinksConfined(o.g, trust, o.seen, a, b, i + 1, count, ok && o.ok, s);
    }
  }

  lemma ConfinedKeepsClean(g: Graph, h: Graph, s: set<nat>, n: nat)
    requires Valid(g) && Valid(h) && Extends(g, h) && Confined(g, h, s) && n < |g|
    ensures Clean(h, n) <==> Clean(g, n)
  {
    if Clean(h, n) {
      CleanShrinks(g, h, n);
    }
    if Clean(g, n) {
      CleanReachSet(g, n);
      var t := ReachSet(g, n) + s;
      forall m: nat, i: nat | m in t && HasLink(h, m, i)
        ensures LinkInto(h, m, i, t)
      {
        if m in s { assert LinkInto(h, m, i, s); } else { assert LinkInto(g, m, i, ReachSet(g, n)); }
      }
      forall m: nat | m in t
        ensures CleanNode(h, m)
      {
        if m !in s {
          assert CleanNode(g, m);
          forall i: nat | HasLink(h, m, i)
            ensures !Dirty(h[m].links[i].entry)
          {
            assert HasLink(g, m, i);
          }
        }
      }
      CleanSetIsClean(h, t, n);
    }
  }

  /** Merging clean heads changes no node's cleanliness verdict, so every verdict stored
      on any node before the merge is still right after it. */
  lemma MergeKeepsVerdicts(g: Graph, trust: bool, seen: set<Pair>, a: Ref, b: Ref, n: nat)
    requires Mergeable(g, a, b) && a.At? && b.At? && HeadsClean(g, a, b) && n < |g|
    ensures Clean(MergeNodes(g, trust, seen, a, b).g, n) <==> Clean(g, n)
  {
    var s := HeadsInside(g, a.id, b.id);
    MergeNodesConfined(g, trust, seen, a, b, s);
    ConfinedKeepsClean(g, MergeNodes(g, trust, seen, a, b).g, s, n);
  }
}
