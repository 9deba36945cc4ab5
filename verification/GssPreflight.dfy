/** The dry run that precedes a merge.  It works on a view of the real graph: the real
    links of every node followed by the virtual links the dry run has staged.  While
    `strict` holds it answers reachability by depth alone when the source is not deeper
    than the target. */
module GssPreflight {
  import opened Wrappers
  import opened GssGraph
  import opened GssMerge
  import opened GssUnion

  datatype Dry = Dry(view: Graph, strict: bool, seen: set<Pair>, ok: bool)

  ghost predicate Based(base: Graph, view: Graph) {
    Valid(base) && WellFormed(view) && Extends(base, view)
  }

  /** The dry run's reachability answer. */
  ghost predicate DryReaches(view: Graph, strict: bool, from: nat, to: nat)
    requires from < |view| && to < |view|
  {
    from == to || (!(strict && view[from].depth <= view[to].depth) && Reaches(view, from, to))
  }

  ghost predicate LinkDeepens(g: Graph, n: nat, i: nat)
    requires HasLink(g, n, i)
  {
    g[n].links[i].prev.At? ==> g[n].links[i].prev.id < |g| && g[g[n].links[i].prev.id].depth < g[n].depth
  }

  /** Depth falls along every link. */
  ghost predicate DepthOrdered(g: Graph) {
    forall n: nat, i: nat {:trigger LinkDeepens(g, n, i)} :: HasLink(g, n, i) ==> LinkDeepens(g, n, i)
  }

  ghost predicate DryNodesCanMerge(base: Graph, trust: bool, view: Graph, strict: bool, a: Ref, b: Ref)
    requires Based(base, view) && ValidRef(view, a) && ValidRef(view, b)
  {
    a == b ||
    (&& a.At? && b.At?
     && !DryReaches(view, strict, a.id, b.id) && !DryReaches(view, strict, b.id, a.id)
     && State(view, a.id) == State(view, b.id)
        // only while nothing is staged does the dry run consult the shared verdict
     && PassesClean(view, trust && view == base, a.id) && PassesClean(view, trust && view == base, b.id)
     && var ao := UniformOffset(base, view, a, {});
        var bo := UniformOffset(base, view, b, {});
        ao.ok && bo.ok && ao.offset == bo.offset)
  }

  ghost predicate DryAbsorbs(base: Graph, trust: bool, view: Graph, strict: bool, n: nat, i: nat, prev: Ref, entry: Entry)
    requires Based(base, view) && HasLink(view, n, i) && ValidRef(view, prev)
  {
    Equivalent(view[n].links[i].entry, entry) && DryNodesCanMerge(base, trust, view, strict, view[n].links[i].prev, prev)
  }

  ghost function DryAbsorber(base: Graph, trust: bool, view: Graph, strict: bool, n: nat, i: nat, prev: Ref, entry: Entry): (j: nat)
    requires Based(base, view) && n < |view| && i <= |view[n].links| && ValidRef(view, prev)
    ensures i <= j <= |view[n].links|
    ensures j < |view[n].links| ==> DryAbsorbs(base, trust, view, strict, n, j, prev, entry)
    ensures forall k: nat :: i <= k < j ==> !DryAbsorbs(base, trust, view, strict, n, k, prev, entry)
    decreases |view[n].links| - i
  {
    if i == |view[n].links| then i
    else
      assert HasLink(view, n, i);
      if DryAbsorbs(base, trust, view, strict, n, i, prev, entry) then i
      else DryAbsorber(base, trust, view, strict, n, i + 1, prev, entry)
  }

  /** Stages a virtual link; a link that does not deepen ends the depth shortcut. */
  ghost function Stage(base: Graph, view: Graph, strict: bool, n: nat, l: Link): (r: (Graph, bool))
    requires Based(base, view) && n < |view| && ValidRef(view, l.prev) && l.entry.state == State(view, n)
    ensures Based(base, r.0) && Extends(view, r.0) && r.0 != base
    ensures r.0 == view[n := view[n].(links := view[n].links + [l])]
  {
    var next := view[n := view[n].(links := view[n].links + [l])];
    assert Based(base, next) && Extends(view, next) && next != base by { StageBased(base, view, n, l, next); }
    (next, strict && (l.prev.At? ==> view[l.prev.id].depth < view[n].depth))
  }

  lemma StageBased(base: Graph, view: Graph, n: nat, l: Link, next: Graph)
    requires Based(base, view) && n < |view| && ValidRef(view, l.prev) && l.entry.state == State(view, n)
    requires next == view[n := view[n].(links := view[n].links + [l])]
    ensures Based(base, next) && Extends(view, next) && next != base
  {
    assert HasLink(view, n, 0);
    forall m: nat, i: nat | HasLink(view, m, i)
      ensures LinkKept(view, next, m, i)
    {
    }
    forall m: nat, i: nat | HasLink(next, m, i)
      ensures ValidRef(next, next[m].links[i].prev) && next[m].links[i].entry.state == next[m].links[0].entry.state
    {
      if HasLink(view, m, i) {
        assert ValidRef(view, view[m].links[i].prev);
      }
    }
    forall m: nat | m < |next|
      ensures HasLink(next, m, 0)
    {
      assert HasLink(view, m, 0);
    }
    ExtendsTransitive(base, view, next);
    assert HasLink(next, n, |view[n].links|);
    if |base[n].links| > 0 {
      assert HasLink(base, n, |base[n].links| - 1);
      assert LinkKept(base, view, n, |base[n].links| - 1);
    }
  }

  ghost predicate DryKeeps(base: Graph, view: Graph, seen: set<Pair>, r: Dry) {
    Based(base, r.view) && Extends(view, r.view) && seen <= r.seen
  }

  ghost function DryTakers(base: Graph, trust: bool, view: Graph, strict: bool, n: nat, prev: Ref, entry: Entry): seq<bool>
    requires Based(base, view) && n < |view| && ValidRef(view, prev)
  {
    seq(|view[n].links|, k requires 0 <= k < |view[n].links| => DryAbsorbs(base, trust, view, strict, n, k, prev, entry))
  }

  ghost function CanReplaceWorst(base: Graph, trust: bool, view: Graph, strict: bool, seen: set<Pair>, n: nat, prev: Ref, entry: Entry): (r: Dry)
    requires Based(base, view) && n < |view| && ValidRef(view, prev) && entry.state == State(view, n)
    ensures DryKeeps(base, view, seen, r)
    decreases Pairs(|view|) - seen, 2, 0
  {
    var w := Worst(view[n].links, DryTakers(base, trust, view, strict, n, prev, entry), 0, None);
    if w.None? || entry.prec <= view[n].links[w.value].entry.prec then Dry(view, strict, seen, false)
    else if view[n].links[w.value].prev == prev then Dry(view, strict, seen, true)
    else CanMergeNodes(base, trust, view, strict, seen, view[n].links[w.value].prev, prev)
  }

  ghost function CanAddLink(base: Graph, trust: bool, view: Graph, strict: bool, seen: set<Pair>, n: nat, prev: Ref, entry: Entry): (r: Dry)
    requires Based(base, view) && n < |view| && ValidRef(view, prev) && entry.state == State(view, n)
    ensures DryKeeps(base, view, seen, r)
    decreases Pairs(|view|) - seen, 3, 0
  {
    if prev.At? && DryReaches(view, strict, prev.id, n) then Dry(view, strict, seen, false)
    else
      var i := DryAbsorber(base, trust, view, strict, n, 0, prev, entry);
      if i < |view[n].links| then
        if view[n].links[i].prev == prev then Dry(view, strict, seen, true)
        else CanMergeNodes(base, trust, view, strict, seen, view[n].links[i].prev, prev)
      else if |view[n].links| >= LINK_LIMIT then
        CanReplaceWorst(base, trust, view, strict, seen, n, prev, entry)
      else
        var s := Stage(base, view, strict, n, Link(prev, entry));
        Dry(s.0, s.1, seen, true)
  }

  ghost function CanMergeNodes(base: Graph, trust: bool, view: Graph, strict: bool, seen: set<Pair>, a: Ref, b: Ref): (r: Dry)
    requires Based(base, view) && ValidRef(view, a) && ValidRef(view, b)
    requires a.At? && b.At? ==> State(view, a.id) == State(view, b.id)
    ensures DryKeeps(base, view, seen, r)
    decreases Pairs(|view|) - seen, 1, 0
  {
    if a.Nil? || b.Nil? || a == b then Dry(view, strict, seen, true)
    else if DryReaches(view, strict, b.id, a.id) then Dry(view, strict, seen, false)
    else if (a.id, b.id) in seen then Dry(view, strict, seen, true)
    else
      assert (a.id, b.id) in Pairs(|view|);
      CanMergeLinks(base, trust, view, strict, seen + {(a.id, b.id)}, a.id, b.id, 0, |view[b.id].links|)
  }

  /** The dry run's link loop; it stops at the first refusal. */
  ghost function CanMergeLinks(base: Graph, trust: bool, view: Graph, strict: bool, seen: set<Pair>, a: nat, b: nat, i: nat, count: nat): (r: Dry)
    requires Based(base, view) && a < |view| && b < |view| && i <= count <= |view[b].links|
    requires State(view, a) == State(view, b)
    ensures DryKeeps(base, view, seen, r)
    decreases Pairs(|view|) - seen, 4, count - i
  {
    if i == count then Dry(view, strict, seen, true)
    else
      assert HasLink(view, b, i);
      var o := CanAddLink(base, trust, view, strict, seen, a, view[b].links[i].prev, view[b].links[i].entry);
      if !o.ok then o
      else
        assert Pairs(|view|) - o.seen <= Pairs(|view|) - seen;
        assert State(o.view, a) == State(o.view, b) && count <= |o.view[b].links| by { LoopKept(view, o.view, a, b, count); }
        var r := CanMergeLinks(base, trust, o.view, o.strict, o.seen, a, b, i + 1, count);
        assert Extends(view, r.view) by { ExtendsTransitive(view, o.view, r.view); }
        r
  }

  // ----- the depth shortcut -------------------------------------------------

  /** Depth falls along every link of the nodes in `s`. */
  ghost predicate OrderedOn(g: Graph, s: set<nat>) {
    forall n: nat, i: nat {:trigger LinkDeepens(g, n, i)} :: n in s && HasLink(g, n, i) ==> LinkDeepens(g, n, i)
  }

  lemma DepthFalls(g: Graph, s: set<nat>, from: nat, to: nat)
    requires Closed(g, s) && OrderedOn(g, s) && from in s && from < |g| && Reaches(g, from, to) && from != to
    ensures to < |g| && g[to].depth < g[from].depth
  {
    var below := set n: nat | n in s && n < |g| && (n == from || g[n].depth < g[from].depth);
    forall n: nat, i: nat | n in below && HasLink(g, n, i)
      ensures LinkInto(g, n, i, below)
    {
      assert LinkDeepens(g, n, i) && LinkInto(g, n, i, s);
    }
    assert Closed(g, below);
  }

  /** The depth shortcut gives the right answer for every pair of nodes exactly when
      depth falls along every link. */
  lemma ShortcutExactIffDepthOrdered(g: Graph)
    requires Valid(g)
    ensures (forall a: nat, b: nat :: a < |g| && b < |g| ==> (DryReaches(g, true, a, b) <==> Reaches(g, a, b)))
            <==> DepthOrdered(g)
  {
    if DepthOrdered(g) {
      forall a: nat, b: nat | a < |g| && b < |g|
        ensures DryReaches(g, true, a, b) <==> Reaches(g, a, b)
      {
        if a != b && Reaches(g, a, b) {
          IdsClosed(g);
          DepthFalls(g, Ids(|g|), a, b);
        }
      }
    }
    if forall a: nat, b: nat :: a < |g| && b < |g| ==> (DryReaches(g, true, a, b) <==> Reaches(g, a, b)) {
      forall n: nat, i: nat | HasLink(g, n, i)
        ensures LinkDeepens(g, n, i)
      {
        if g[n].links[i].prev.At? {
          assert ValidRef(g, g[n].links[i].prev);
          assert LinkGoesDown(g, n, i);
          LinkReaches(g, n, i);
          assert DryReaches(g, true, n, g[n].links[i].prev.id);
        }
      }
    }
  }

  // ----- lock step ----------------------------------------------------------

  /** What a merge stays within: a closed set on which the depth order is watched and,
      where the shared verdict is trusted, a clean closed set. */
  datatype Scope = Scope(ordered: set<nat>, clean: set<nat>)

  /** The dry run's view and the graph under merge, in step: one shape, and a shortcut flag
      that tells whether depth falls along every link in scope. */
  ghost predicate InStep(base: Graph, trust: bool, view: Graph, strict: bool, g: Graph, s: Scope) {
    && Based(base, view) && Valid(view) && Valid(g)
    && SameShape(view, g)
    && Closed(view, s.ordered) && (strict <==> OrderedOn(view, s.ordered))
    && (trust ==> CleanSet(view, s.clean))
  }

  ghost predicate Inside(s: Scope, trust: bool, r: Ref) {
    r.At? ==> r.id in s.ordered && (trust ==> r.id in s.clean)
  }

  /** A link from a node in scope leads to a node in scope. */
  lemma LinkInside(base: Graph, trust: bool, view: Graph, strict: bool, g: Graph, s: Scope, n: nat, i: nat)
    requires InStep(base, trust, view, strict, g, s) && HasLink(view, n, i) && Inside(s, trust, At(n))
    ensures Inside(s, trust, view[n].links[i].prev)
  {
    assert LinkInto(view, n, i, s.ordered);
    if trust {
      assert LinkInto(view, n, i, s.clean);
    }
  }

  lemma DryReachesExact(view: Graph, strict: bool, s: set<nat>, a: nat, b: nat)
    requires Closed(view, s) && (strict ==> OrderedOn(view, s)) && a in s && a < |view| && b < |view|
    ensures DryReaches(view, strict, a, b) <==> Reaches(view, a, b)
  {
    if strict && a != b && Reaches(view, a, b) {
      DepthFalls(view, s, a, b);
    }
  }

  lemma SameShapeClean(g: Graph, h: Graph, n: nat)
    requires SameShape(g, h)
    ensures Clean(g, n) <==> Clean(h, n)
  {
    if Clean(g, n) { CleanShrinks(h, g, n); }
    if Clean(h, n) { CleanShrinks(g, h, n); }
  }

  lemma NodesCanMergeInStep(base: Graph, trust: bool, view: Graph, strict: bool, g: Graph, s: Scope, a: Ref, b: Ref)
    requires InStep(base, trust, view, strict, g, s) && ValidRef(view, a) && ValidRef(view, b)
    requires Inside(s, trust, a) && Inside(s, trust, b)
    ensures DryNodesCanMerge(base, trust, view, strict, a, b) <==> NodesCanMerge(g, trust, a, b)
  {
    if a != b && a.At? && b.At? {
      DryReachesExact(view, strict, s.ordered, a.id, b.id);
      DryReachesExact(view, strict, s.ordered, b.id, a.id);
      SameShapeReaches(view, g, a.id, b.id);
      SameShapeReaches(view, g, b.id, a.id);
      StateKept(view, g, a.id);
      StateKept(view, g, b.id);
      if trust {
        CleanSetIsClean(view, s.clean, a.id);
        CleanSetIsClean(view, s.clean, b.id);
      }
      SameShapeClean(view, g, a.id);
      SameShapeClean(view, g, b.id);
      ExtendsTransitive(base, view, g);
      UniformKept(base, view, g, g, a, {});
      UniformKept(base, view, g, g, b, {});
    }
  }

  lemma AbsorbsInStep(base: Graph, trust: bool, view: Graph, strict: bool, g: Graph, s: Scope,
                      n: nat, i: nat, prev: Ref, e: Entry, f: Entry)
    requires InStep(base, trust, view, strict, g, s) && HasLink(view, n, i) && HasLink(g, n, i) && ValidRef(view, prev)
    requires Inside(s, trust, At(n)) && Inside(s, trust, prev) && SameClass(e, f)
    ensures DryAbsorbs(base, trust, view, strict, n, i, prev, e) <==> Absorbs(g, trust, n, i, prev, f)
  {
    assert LinkKept(view, g, n, i);
    LinkInside(base, trust, view, strict, g, s, n, i);
    NodesCanMergeInStep(base, trust, view, strict, g, s, view[n].links[i].prev, prev);
  }

  lemma AbsorberInStep(base: Graph, trust: bool, view: Graph, strict: bool, g: Graph, s: Scope,
                       n: nat, prev: Ref, e: Entry, f: Entry)
    requires InStep(base, trust, view, strict, g, s) && n < |view| && ValidRef(view, prev)
    requires Inside(s, trust, At(n)) && Inside(s, trust, prev) && SameClass(e, f)
    requires |view[n].links| == |g[n].links|
    ensures DryAbsorber(base, trust, view, strict, n, 0, prev, e) == Absorber(g, trust, n, 0, prev, f)
  {
    var d := DryAbsorber(base, trust, view, strict, n, 0, prev, e);
    var j := Absorber(g, trust, n, 0, prev, f);
    if d < |view[n].links| {
      AbsorbsInStep(base, trust, view, strict, g, s, n, d, prev, e, f);
    }
    if j < |g[n].links| {
      AbsorbsInStep(base, trust, view, strict, g, s, n, j, prev, e, f);
    }
  }

  /** Staging a link and appending it keep the two runs in step. */
  lemma StageInStep(base: Graph, trust: bool, view: Graph, strict: bool, g: Graph, s: Scope, n: nat, prev: Ref, e: Entry, f: Entry)
    requires InStep(base, trust, view, strict, g, s) && n < |view| && ValidRef(view, prev)
    requires e.state == State(view, n) && SameClass(e, f) && (prev.At? ==> !Reaches(view, prev.id, n))
    requires Inside(s, trust, At(n)) && Inside(s, trust, prev) && (trust ==> !Dirty(e))
    requires f.state == State(g, n) && (prev.At? ==> !Reaches(g, prev.id, n))
    ensures var t := Stage(base, view, strict, n, Link(prev, e));
            InStep(base, trust, t.0, t.1, AppendLink(g, n, Link(prev, f)), s)
  {
    var t := Stage(base, view, strict, n, Link(prev, e));
    var h := AppendLink(g, n, Link(prev, f));
    assert t.0 == AppendLink(view, n, Link(prev, e));
    SameShapeLengths(view, g);
    AppendSameShape(view, g, n, prev, e, f, t.0, h);
    AppendSameShape(g, view, n, prev, f, e, h, t.0);
    StageDepth(base, view, strict, n, Link(prev, e), s.ordered);
    ClosedAfterAppend(view, n, Link(prev, e), t.0, s.ordered);
    if trust {
      AppendCleanSet(view, n, Link(prev, e), s.clean);
    }
  }

  /** The shortcut flag follows exactly whether depth still falls along every link in scope. */
  lemma StageDepth(base: Graph, view: Graph, strict: bool, n: nat, l: Link, s: set<nat>)
    requires Based(base, view) && n < |view| && ValidRef(view, l.prev) && l.entry.state == State(view, n)
    requires n in s && (strict <==> OrderedOn(view, s))
    ensures var t := Stage(base, view, strict, n, l); t.1 <==> OrderedOn(t.0, s)
  {
    var t := Stage(base, view, strict, n, l);
    if t.1 {
      forall m: nat, i: nat | m in s && HasLink(t.0, m, i)
        ensures LinkDeepens(t.0, m, i)
      {
        if HasLink(view, m, i) {
          assert LinkDeepens(view, m, i);
        }
      }
    } else if strict {
      assert HasLink(t.0, n, |view[n].links|);
      assert !LinkDeepens(t.0, n, |view[n].links|);
    } else {
      var m: nat, i: nat :| m in s && HasLink(view, m, i) && !LinkDeepens(view, m, i);
      assert LinkKept(view, t.0, m, i);
      assert !LinkDeepens(t.0, m, i);
    }
  }

  lemma AppendSameShape(g: Graph, h: Graph, n: nat, prev: Ref, e: Entry, f: Entry, g1: Graph, h1: Graph)
    requires Extends(g, h) && n < |g| && SameClass(e, f) && |g[n].links| == |h[n].links|
    requires g1 == g[n := g[n].(links := g[n].links + [Link(prev, e)])]
    requires h1 == h[n := h[n].(links := h[n].links + [Link(prev, f)])]
    ensures Extends(g1, h1)
  {
    forall m: nat, i: nat | HasLink(g1, m, i)
      ensures LinkKept(g1, h1, m, i)
    {
      if HasLink(g, m, i) {
        assert LinkKept(g, h, m, i);
      }
    }
  }

  /** A clean closed set stays so when a clean link between its members is appended. */
  lemma AppendCleanSet(g: Graph, n: nat, l: Link, s: set<nat>)
    requires CleanSet(g, s) && n < |g| && (n in s && l.prev.At? ==> l.prev.id in s) && !Dirty(l.entry)
    ensures CleanSet(g[n := g[n].(links := g[n].links + [l])], s)
  {
    var h := g[n := g[n].(links := g[n].links + [l])];
    ClosedAfterAppend(g, n, l, h, s);
    forall m: nat | m in s
      ensures CleanNode(h, m)
    {
      forall i: nat | HasLink(h, m, i)
        ensures !Dirty(h[m].links[i].entry)
      {
        if HasLink(g, m, i) {
          assert CleanNode(g, m);
        }
      }
    }
  }

  lemma InStepUpgrade(base: Graph, trust: bool, view: Graph, strict: bool, g: Graph, h: Graph, s: Scope)
    requires InStep(base, trust, view, strict, g, s) && SameShape(g, h) && Valid(h)
    ensures InStep(base, trust, view, strict, h, s)
  {
    ExtendsTransitive(view, g, h);
    ExtendsTransitive(h, g, view);
  }

  ghost predicate OutcomesInStep(base: Graph, trust: bool, s: Scope, d: Dry, r: Outcome) {
    && d.ok == r.ok
    && (r.ok ==> d.seen == r.seen && InStep(base, trust, d.view, d.strict, r.g, s))
  }

  lemma {:induction false} AddLinkInStep(base: Graph, trust: bool, view: Graph, strict: bool, g: Graph, s: Scope,
                                         seen: set<Pair>, n: nat, prev: Ref, e: Entry, f: Entry)
    requires InStep(base, trust, view, strict, g, s) && n < |view| && ValidRef(view, prev)
    requires e.state == State(view, n) && f.state == State(g, n) && SameClass(e, f)
    requires Inside(s, trust, At(n)) && Inside(s, trust, prev) && (trust ==> !Dirty(e))
    ensures OutcomesInStep(base, trust, s, CanAddLink(base, trust, view, strict, seen, n, prev, e),
                                           AddLink(g, trust, seen, n, prev, f))
    decreases Pairs(|view|) - seen, 2, 0
  {
    SameShapeLengths(view, g);
    if prev.At? {
      DryReachesExact(view, strict, s.ordered, prev.id, n);
      SameShapeReaches(view, g, prev.id, n);
    }
    AbsorberInStep(base, trust, view, strict, g, s, n, prev, e, f);
    var i := Absorber(g, trust, n, 0, prev, f);
    if prev.At? && Reaches(g, prev.id, n) {
    } else if i < |g[n].links| {
      assert LinkKept(view, g, n, i);
      AbsorbInStep(base, trust, view, strict, g, s, seen, n, i, prev, e, f);
    } else if |g[n].links| >= LINK_LIMIT {
      ReplaceWorstNeverFires(g, trust, seen, n, prev, f);
      NoWorst(view[n].links, DryTakers(base, trust, view, strict, n, prev, e), 0);
    } else {
      StageInStep(base, trust, view, strict, g, s, n, prev, e, f);
    }
  }

  lemma {:induction false} AbsorbInStep(base: Graph, trust: bool, view: Graph, strict: bool, g: Graph, s: Scope,
                                        seen: set<Pair>, n: nat, i: nat, prev: Ref, e: Entry, f: Entry)
    requires InStep(base, trust, view, strict, g, s) && HasLink(view, n, i) && HasLink(g, n, i) && ValidRef(view, prev)
    requires e.state == State(view, n) && f.state == State(g, n) && SameClass(e, f)
    requires Inside(s, trust, At(n)) && Inside(s, trust, prev)
    requires Absorbs(g, trust, n, i, prev, f)
    requires DryAbsorbs(base, trust, view, strict, n, i, prev, e)
    ensures var d := if view[n].links[i].prev == prev then Dry(view, strict, seen, true)
                     else CanMergeNodes(base, trust, view, strict, seen, view[n].links[i].prev, prev);
            OutcomesInStep(base, trust, s, d, AbsorbInto(g, trust, seen, n, i, prev, f))
    decreases Pairs(|view|) - seen, 1, 1
  {
    assert LinkKept(view, g, n, i);
    var was := g[n].links[i];
    if was.prev == prev {
      InStepUpgrade(base, trust, view, strict, g, Upgrade(g, n, i, was.entry.prec, f), s);
    } else {
      LinkInside(base, trust, view, strict, g, s, n, i);
      MergeNodesInStep(base, trust, view, strict, g, s, seen, was.prev, prev);
      var d := CanMergeNodes(base, trust, view, strict, seen, was.prev, prev);
      var m := MergeNodes(g, trust, seen, was.prev, prev);
      if m.ok {
        assert LinkKept(g, m.g, n, i);
        InStepUpgrade(base, trust, d.view, d.strict, m.g, Upgrade(m.g, n, i, was.entry.prec, f), s);
      }
    }
  }

  /** The dry run accepts a pair of nodes exactly when the mutating merge, run on the
      same graph with the same seen set, succeeds; and then the staged view and the
      merged graph have one shape. */
  lemma {:induction false} MergeNodesInStep(base: Graph, trust: bool, view: Graph, strict: bool, g: Graph, s: Scope,
                                            seen: set<Pair>, a: Ref, b: Ref)
    requires InStep(base, trust, view, strict, g, s) && ValidRef(view, a) && ValidRef(view, b)
    requires a.At? && b.At? ==> State(view, a.id) == State(view, b.id) && State(g, a.id) == State(g, b.id)
    requires Inside(s, trust, a) && Inside(s, trust, b)
    ensures OutcomesInStep(base, trust, s, CanMergeNodes(base, trust, view, strict, seen, a, b),
                                           MergeNodes(g, trust, seen, a, b))
    decreases Pairs(|view|) - seen, 1, 0
  {
    if a.At? && b.At? && a != b {
      DryReachesExact(view, strict, s.ordered, b.id, a.id);
      SameShapeReaches(view, g, b.id, a.id);
      if !Reaches(g, b.id, a.id) && (a.id, b.id) !in seen {
        assert (a.id, b.id) in Pairs(|view|);
        SameShapeLengths(view, g);
        MergeLinksInStep(base, trust, view, strict, g, s, seen + {(a.id, b.id)}, a.id, b.id, 0, |g[b.id].links|);
      }
    }
  }

  lemma {:induction false} MergeLinksRefuse(g: Graph, trust: bool, seen: set<Pair>, a: nat, b: nat, i: nat, count: nat)
    requires Valid(g) && a < |g| && b < |g| && i <= count <= |g[b].links|
    requires State(g, a) == State(g, b)
    ensures !MergeLinks(g, trust, seen, a, b, i, count, false).ok
    decreases count - i
  {
    if i < count {
      assert HasLink(g, b, i);
      var o := AddLink(g, trust, seen, a, g[b].links[i].prev, g[b].links[i].entry);
      LoopKept(g, o.g, a, b, count);
      MergeLinksRefuse(o.g, trust, o.seen, a, b, i + 1, count);
    }
  }

  lemma {:induction false} MergeLinksInStep(base: Graph, trust: bool, view: Graph, strict: bool, g: Graph, s: Scope,
                                            seen: set<Pair>, a: nat, b: nat, i: nat, count: nat)
    requires InStep(base, trust, view, strict, g, s) && a < |view| && b < |view|
    requires i <= count <= |view[b].links| && count <= |g[b].links|
    requires State(view, a) == State(view, b) && State(g, a) == State(g, b)
    requires Inside(s, trust, At(a)) && Inside(s, trust, At(b))
    ensures OutcomesInStep(base, trust, s, CanMergeLinks(base, trust, view, strict, seen, a, b, i, count),
                                           MergeLinks(g, trust, seen, a, b, i, count, true))
    decreases Pairs(|view|) - seen, 4, count - i
  {
    if i < count {
      LinkInStep(base, trust, view, strict, g, s, seen, a, b, i);
      var d := CanAddLink(base, trust, view, strict, seen, a, view[b].links[i].prev, view[b].links[i].entry);
      var o := AddLink(g, trust, seen, a, g[b].links[i].prev, g[b].links[i].entry);
      assert Pairs(|view|) - d.seen <= Pairs(|view|) - seen;
      LoopKept(g, o.g, a, b, count);
      LoopKept(view, d.view, a, b, count);
      if o.ok {
        MergeLinksInStep(base, trust, d.view, d.strict, o.g, s, d.seen, a, b, i + 1, count);
      }
      RoundsCompose(base, trust, view, strict, g, s, seen, a, b, i, count);
    }
  }

  /** The rounds from `i` on agree when round `i` agrees and, if it succeeds, the rest do. */
  lemma RoundsCompose(base: Graph, trust: bool, view: Graph, strict: bool, g: Graph, s: Scope,
                      seen: set<Pair>, a: nat, b: nat, i: nat, count: nat)
    requires Based(base, view) && Valid(g) && a < |view| && b < |view| && |g| == |view|
    requires i < count <= |view[b].links| && count <= |g[b].links|
    requires State(view, a) == State(view, b) && State(g, a) == State(g, b)
    requires HasLink(view, b, i) && HasLink(g, b, i)
    requires var d := CanAddLink(base, trust, view, strict, seen, a, view[b].links[i].prev, view[b].links[i].entry);
             var o := AddLink(g, trust, seen, a, g[b].links[i].prev, g[b].links[i].entry);
             && State(d.view, a) == State(d.view, b) && State(o.g, a) == State(o.g, b)
             && count <= |d.view[b].links| && count <= |o.g[b].links|
             && d.ok == o.ok
             && (o.ok ==> OutcomesInStep(base, trust, s,
                            CanMergeLinks(base, trust, d.view, d.strict, d.seen, a, b, i + 1, count),
                            MergeLinks(o.g, trust, o.seen, a, b, i + 1, count, true)))
    ensures OutcomesInStep(base, trust, s, CanMergeLinks(base, trust, view, strict, seen, a, b, i, count),
                                           MergeLinks(g, trust, seen, a, b, i, count, true))
  {
    var o := AddLink(g, trust, seen, a, g[b].links[i].prev, g[b].links[i].entry);
    if !o.ok {
      MergeLinksRefuse(o.g, trust, o.seen, a, b, i + 1, count);
    }
  }

  /** One round of the link loop keeps the two runs in step. */
  lemma {:induction false} LinkInStep(base: Graph, trust: bool, view: Graph, strict: bool, g: Graph, s: Scope,
                                      seen: set<Pair>, a: nat, b: nat, i: nat)
    requires InStep(base, trust, view, strict, g, s) && a < |view| && HasLink(view, b, i) && HasLink(g, b, i)
    requires State(view, a) == State(view, b) && State(g, a) == State(g, b)
    requires Inside(s, trust, At(a)) && Inside(s, trust, At(b))
    ensures view[b].links[i].prev == g[b].links[i].prev
    ensures OutcomesInStep(base, trust, s,
              CanAddLink(base, trust, view, strict, seen, a, view[b].links[i].prev, view[b].links[i].entry),
              AddLink(g, trust, seen, a, g[b].links[i].prev, g[b].links[i].entry))
    decreases Pairs(|view|) - seen, 3, 0
  {
    assert LinkKept(view, g, b, i);
    LinkInside(base, trust, view, strict, g, s, b, i);
    if trust {
      assert CleanNode(view, b);
    }
    AddLinkInStep(base, trust, view, strict, g, s, seen, a, view[b].links[i].prev, view[b].links[i].entry, g[b].links[i].entry);
  }
}
