/** Why the depth assumption of the all-or-nothing law is needed: two merges in a row.  The
    first, on a depth-ordered graph, leaves one link that does not deepen; in the second the
    dry run accepts two clean heads and the mutation fails after changing the graph. */
module GssHalfMerge {
  import opened Wrappers
  import opened GssGraph
  import opened GssMerge
  import opened GssUnion
  import opened GssPreflight
  import opened GssAtomic

  function Token(state: nat, symbol: nat): Entry {
    Entry(state, Payload(symbol, 3, false, false, 0), 0, 0)
  }

  /** Depth as a push gives it: one over nothing, else one more than the primary base. */
  ghost predicate DepthPushed(g: Graph, n: nat)
    requires n < |g|
  {
    HasLink(g, n, 0) &&
    var p := g[n].links[0].prev;
    if p.Nil? then g[n].depth == 1 else p.id < |g| && g[n].depth == g[p.id].depth + 1
  }

  ghost predicate DepthsPushed(g: Graph) {
    forall n: nat {:trigger DepthPushed(g, n)} :: n < |g| ==> DepthPushed(g, n)
  }

  /** Nodes 0 and 1 are at the bottom.  Head 2 has five links, the first over node 0; head 3
      has two over node 1; head 4 sits on node 1 in the state of node 0. */
  function Origin(): Graph {
    [Node([Link(Nil, Token(7, 1))], 1),
     Node([Link(Nil, Token(7, 1))], 1),
     Node([Link(At(0), Token(9, 10)), Link(Nil, Token(9, 11)), Link(Nil, Token(9, 12)),
           Link(Nil, Token(9, 13)), Link(Nil, Token(9, 14))], 2),
     Node([Link(At(1), Token(9, 15)), Link(At(1), Token(9, 10))], 2),
     Node([Link(At(1), Token(7, 2))], 2)]
  }

  /** The origin after node 0 has taken the link of head 4, to a node as deep as itself. */
  function Knot(): Graph {
    var g := Origin();
    g[0 := g[0].(links := g[0].links + [Link(At(1), Token(7, 2))])]
  }

  /** The knot after head 2 has taken the first link of head 3. */
  function Half(): Graph {
    var g := Knot();
    g[2 := g[2].(links := g[2].links + [Link(At(1), Token(9, 15))])]
  }

  lemma KnotClosedSets(g: Graph)
    requires g == Knot() || g == Half()
    ensures Closed(g, {1}) && Closed(g, {0, 1})
    ensures CleanSet(g, {0, 1}) && CleanSet(g, {0, 1, 2, 3, 4})
    ensures Reaches(g, 0, 1)
  {
    assert HasLink(g, 0, 1) && g[0].links[1].prev == At(1);
    LinkReaches(g, 0, 1);
  }

  lemma KnotWellFormed(g: Graph)
    requires g == Knot() || g == Half()
    ensures WellFormed(g)
  {
  }

  lemma KnotLink(g: Graph, n: nat, i: nat)
    requires (g == Knot() || g == Half()) && HasLink(g, n, i) && g[n].links[i].prev.At?
    ensures (g[n].links[i].prev == At(1) && n != 1) || (g[n].links[i].prev == At(0) && n == 2)
  {
  }

  lemma KnotValid(g: Graph)
    requires g == Knot() || g == Half()
    ensures Valid(g)
  {
    KnotWellFormed(g);
    KnotClosedSets(g);
    forall n: nat, i: nat | HasLink(g, n, i)
      ensures LinkGoesDown(g, n, i)
    {
      if g[n].links[i].prev.At? {
        KnotLink(g, n, i);
      }
    }
  }

  /** The first link of head 3 goes in: nothing on head 2 is equivalent to it. */
  lemma FirstLink()
    ensures Valid(Knot()) && Valid(Half())
    ensures AddLink(Knot(), true, {(2, 3)}, 2, At(1), Token(9, 15)) == Outcome(Half(), {(2, 3)}, true)
  {
    KnotValid(Knot());
    KnotValid(Half());
    var g := Knot();
    KnotClosedSets(g);
    assert HasLink(g, 2, 0);
    assert !Reaches(g, 1, 2);
    assert forall k: nat :: k < |g[2].links| ==> !Equivalent(g[2].links[k].entry, Token(9, 15));
    assert Absorber(g, true, 2, 0, At(1), Token(9, 15)) == |g[2].links|;
  }

  /** The second one does not: its only equivalent link leads to node 0, which reaches
      node 1, and the node is full. */
  lemma SecondLink()
    ensures Valid(Half())
    ensures AddLink(Half(), true, {(2, 3)}, 2, At(1), Token(9, 10)) == Outcome(Half(), {(2, 3)}, false)
  {
    KnotValid(Half());
    var g := Half();
    KnotClosedSets(g);
    assert HasLink(g, 2, 0);
    assert !Reaches(g, 1, 2);
    assert forall k: nat :: 1 <= k < |g[2].links| ==> !Equivalent(g[2].links[k].entry, Token(9, 10));
    assert g[2].links[0].prev == At(0);
    assert !NodesCanMerge(g, true, At(0), At(1));
    assert Absorber(g, true, 2, 0, At(1), Token(9, 10)) == |g[2].links|;
    ReplaceWorstNeverFires(g, true, {(2, 3)}, 2, At(1), Token(9, 10));
  }

  lemma HeadsApart(g: Graph)
    requires g == Knot() || g == Half()
    ensures WellFormed(g) && State(g, 2) == State(g, 3) == 9
    ensures !Reaches(g, 3, 2)
  {
    KnotWellFormed(g);
    assert HasLink(g, 2, 0) && HasLink(g, 3, 0);
    assert Closed(g, {0, 1, 3});
  }

  lemma LastStep()
    ensures Valid(Half()) && State(Half(), 2) == State(Half(), 3)
    ensures MergeLinks(Half(), true, {(2, 3)}, 2, 3, 1, 2, true) == Outcome(Half(), {(2, 3)}, false)
  {
    SecondLink();
    HeadsApart(Half());
    var h := Half();
    assert HasLink(h, 3, 1);
    assert h[3].links[1] == Link(At(1), Token(9, 10));
    assert MergeLinks(h, true, {(2, 3)}, 2, 3, 2, 2, false) == Outcome(h, {(2, 3)}, false);
  }

  lemma MutationFails()
    ensures Valid(Knot()) && State(Knot(), 2) == State(Knot(), 3)
    ensures MergeNodes(Knot(), true, {}, At(2), At(3)) == Outcome(Half(), {(2, 3)}, false)
  {
    FirstLink();
    LastStep();
    HeadsApart(Knot());
    var g := Knot();
    assert HasLink(g, 3, 0);
    assert g[3].links[0] == Link(At(1), Token(9, 15));
    assert {} + {(2, 3)} == {(2, 3)};
    assert MergeNodes(g, true, {}, At(2), At(3)) == MergeLinks(g, true, {(2, 3)}, 2, 3, 0, 2, true);
  }

  // ----- the dry run accepts ------------------------------------------------

  lemma HalfBased()
    ensures Based(Knot(), Knot()) && Based(Knot(), Half())
  {
    KnotValid(Knot());
    KnotWellFormed(Half());
    forall n: nat, i: nat | HasLink(Knot(), n, i)
      ensures LinkKept(Knot(), Half(), n, i)
    {
    }
  }

  lemma FirstStaged()
    ensures Based(Knot(), Knot()) && Based(Knot(), Half()) && State(Knot(), 2) == 9
    ensures CanAddLink(Knot(), true, Knot(), true, {(2, 3)}, 2, At(1), Token(9, 15)) == Dry(Half(), true, {(2, 3)}, true)
  {
    HalfBased();
    var g := Knot();
    HeadsApart(g);
    assert forall k: nat :: k < |g[2].links| ==> !Equivalent(g[2].links[k].entry, Token(9, 15));
    assert DryAbsorber(g, true, g, true, 2, 0, At(1), Token(9, 15)) == |g[2].links|;
  }

  lemma OffsetsAgree()
    ensures Based(Knot(), Half())
    ensures UniformOffset(Knot(), Half(), At(0), {}) == Offset(3, true, {0})
    ensures UniformOffset(Knot(), Half(), At(1), {}) == Offset(3, true, {1})
  {
    HalfBased();
    var g, h := Knot(), Half();
    assert {} + {0} == {0} && {} + {1} == {1};
    assert HasLink(h, 0, 0) && HasLink(h, 0, 1) && HasLink(h, 1, 0);
    assert UniformLinks(g, h, 0, 2, Some(3), {0}) == Offset(3, true, {0});
    assert UniformLinks(g, h, 0, 1, Some(3), {0}) == Offset(3, true, {0});
    assert UniformLinks(g, h, 1, 1, Some(3), {1}) == Offset(3, true, {1});
  }

  /** The depth shortcut hides that node 0 reaches node 1. */
  lemma LowerNodesAccepted()
    ensures Based(Knot(), Half()) && State(Half(), 0) == State(Half(), 1) == 7
    ensures DryNodesCanMerge(Knot(), true, Half(), true, At(0), At(1))
    ensures CanMergeNodes(Knot(), true, Half(), true, {(2, 3)}, At(0), At(1)).ok
  {
    OffsetsAgree();
    var g, h := Knot(), Half();
    KnotClosedSets(h);
    CleanSetIsClean(h, {0, 1}, 0);
    CleanSetIsClean(h, {0, 1}, 1);
    assert HasLink(h, 0, 0) && HasLink(h, 1, 0);
    var seen := {(2, 3)} + {(0, 1)};
    var e := Token(7, 1);
    assert h[1].links[0] == Link(Nil, e);
    assert DryAbsorbs(g, true, h, true, 0, 0, Nil, e);
    assert DryAbsorber(g, true, h, true, 0, 0, Nil, e) == 0;
    assert CanAddLink(g, true, h, true, seen, 0, Nil, e) == Dry(h, true, seen, true);
    assert CanMergeLinks(g, true, h, true, seen, 0, 1, 1, 1) == Dry(h, true, seen, true);
    assert CanMergeLinks(g, true, h, true, seen, 0, 1, 0, 1) == Dry(h, true, seen, true);
  }

  lemma SecondAbsorber()
    ensures Based(Knot(), Half()) && DryAbsorber(Knot(), true, Half(), true, 2, 0, At(1), Token(9, 10)) == 0
  {
    LowerNodesAccepted();
    assert Half()[2].links[0] == Link(At(0), Token(9, 10));
    assert DryAbsorbs(Knot(), true, Half(), true, 2, 0, At(1), Token(9, 10));
  }

  lemma SecondAccepted()
    ensures Based(Knot(), Half()) && State(Half(), 2) == 9
    ensures CanAddLink(Knot(), true, Half(), true, {(2, 3)}, 2, At(1), Token(9, 10)).ok
  {
    LowerNodesAccepted();
    SecondAbsorber();
    HeadsApart(Half());
    assert Half()[2].links[0] == Link(At(0), Token(9, 10));
  }

  lemma DryRunAccepts()
    ensures Based(Knot(), Knot()) && State(Knot(), 2) == State(Knot(), 3)
    ensures CanMergeNodes(Knot(), true, Knot(), true, {}, At(2), At(3)).ok
  {
    FirstStaged();
    SecondAccepted();
    HeadsApart(Knot());
    HeadsApart(Half());
    var g, h := Knot(), Half();
    assert HasLink(g, 3, 0) && HasLink(h, 3, 1);
    assert g[3].links[0] == Link(At(1), Token(9, 15)) && h[3].links[1] == Link(At(1), Token(9, 10));
    assert {} + {(2, 3)} == {(2, 3)};
    var o := CanAddLink(g, true, h, true, {(2, 3)}, 2, At(1), Token(9, 10));
    LoopKept(h, o.view, 2, 3, 2);
    assert CanMergeLinks(g, true, o.view, o.strict, o.seen, 2, 3, 2, 2).ok;
    assert CanMergeLinks(g, true, h, true, {(2, 3)}, 2, 3, 1, 2).ok;
    assert CanMergeLinks(g, true, g, true, {(2, 3)}, 2, 3, 0, 2).ok;
  }

  // ----- how the knot arises ------------------------------------------------

  lemma OriginWellFormed()
    ensures WellFormed(Origin()) && State(Origin(), 0) == State(Origin(), 4) == 7
  {
    var g := Origin();
    assert HasLink(g, 0, 0) && HasLink(g, 4, 0);
  }

  lemma OriginClosed()
    ensures Closed(Origin(), {0}) && Closed(Origin(), {1}) && Closed(Origin(), {1, 4})
    ensures CleanSet(Origin(), {0, 1, 4})
  {
  }

  lemma OriginLink(n: nat, i: nat)
    requires HasLink(Origin(), n, i) && Origin()[n].links[i].prev.At?
    ensures var p := Origin()[n].links[i].prev.id; (p == 1 && (n == 3 || n == 4)) || (p == 0 && n == 2)
  {
  }

  lemma OriginValid()
    ensures Valid(Origin()) && DepthOrdered(Origin())
    ensures !Reaches(Origin(), 4, 0) && !Reaches(Origin(), 1, 0)
  {
    var g := Origin();
    OriginWellFormed();
    OriginClosed();
    forall n: nat, i: nat | HasLink(g, n, i)
      ensures LinkGoesDown(g, n, i) && LinkDeepens(g, n, i)
    {
      if g[n].links[i].prev.At? {
        OriginLink(n, i);
      }
    }
  }

  lemma OriginPushed()
    ensures DepthsPushed(Origin()) && DepthsPushed(Knot())
  {
    OriginPushedAt(Origin());
    OriginPushedAt(Knot());
  }

  lemma OriginPushedAt(g: Graph)
    requires g == Origin() || g == Knot()
    ensures DepthsPushed(g)
  {
    assert DepthPushed(g, 0) && DepthPushed(g, 1) && DepthPushed(g, 2) && DepthPushed(g, 3) && DepthPushed(g, 4);
  }

  /** The first merge: head 4 into node 0. */
  lemma FirstMerge()
    ensures Mergeable(Origin(), At(0), At(4)) && HeadsClean(Origin(), At(0), At(4))
    ensures MainMerge(Origin(), true, At(0), At(4)) == Outcome(Knot(), {(0, 4)}, true)
    ensures !CanMergeNodes(Origin(), true, Origin(), true, {}, At(0), At(4)).strict
  {
    OriginClosed();
    FirstMergeMutates();
    FirstMergeStages();
    CleanSetIsClean(Origin(), {0, 1, 4}, 0);
    CleanSetIsClean(Origin(), {0, 1, 4}, 4);
  }

  lemma OriginGrows()
    ensures Mergeable(Origin(), At(0), At(4)) && Valid(Knot()) && State(Knot(), 0) == State(Knot(), 4)
    ensures Knot() == Origin()[0 := Origin()[0].(links := Origin()[0].links + [Link(At(1), Token(7, 2))])]
    ensures Origin()[4].links == [Link(At(1), Token(7, 2))] && Knot()[4] == Origin()[4]
    ensures |Origin()[0].links| == 1 && !Equivalent(Origin()[0].links[0].entry, Token(7, 2))
  {
    OriginValid();
    OriginWellFormed();
    KnotValid(Knot());
    assert HasLink(Knot(), 0, 0) && HasLink(Knot(), 4, 0);
  }

  lemma FirstMergeMutates()
    ensures Mergeable(Origin(), At(0), At(4))
    ensures MergeNodes(Origin(), true, {}, At(0), At(4)) == Outcome(Knot(), {(0, 4)}, true)
  {
    OriginGrows();
    OriginValid();
    Joins(Origin(), Knot(), 0, 4, Link(At(1), Token(7, 2)));
  }

  /** A single link over a third node is appended when nothing is equivalent to it. */
  lemma Joins(g: Graph, k: Graph, a: nat, b: nat, l: Link)
    requires Valid(g) && Valid(k) && a < |g| && b < |g| && a != b && State(g, a) == State(g, b)
    requires g[b].links == [l] && |g[a].links| == 1 && !Equivalent(g[a].links[0].entry, l.entry)
    requires k == g[a := g[a].(links := g[a].links + [l])] && State(k, a) == State(k, b)
    requires l.prev.At? && l.prev.id < |g| && !Reaches(g, b, a) && !Reaches(g, l.prev.id, a)
    ensures MergeNodes(g, true, {}, At(a), At(b)) == Outcome(k, {(a, b)}, true)
  {
    assert HasLink(g, b, 0) && HasLink(g, a, 0) && HasLink(k, b, 0);
    assert Absorber(g, true, a, 0, l.prev, l.entry) == 1;
    assert AddLink(g, true, {(a, b)}, a, l.prev, l.entry) == Outcome(k, {(a, b)}, true);
    assert MergeLinks(k, true, {(a, b)}, a, b, 1, 1, true) == Outcome(k, {(a, b)}, true);
    assert {} + {(a, b)} == {(a, b)};
  }

  /** The dry run stages it, and drops the shortcut when the link does not deepen. */
  lemma JoinsDry(g: Graph, k: Graph, a: nat, b: nat, l: Link)
    requires Valid(g) && Valid(k) && a < |g| && b < |g| && a != b && State(g, a) == State(g, b)
    requires g[b].links == [l] && |g[a].links| == 1 && !Equivalent(g[a].links[0].entry, l.entry)
    requires k == g[a := g[a].(links := g[a].links + [l])] && State(k, a) == State(k, b)
    requires l.prev.At? && l.prev.id < |g| && !Reaches(g, b, a) && !Reaches(g, l.prev.id, a)
    requires g[l.prev.id].depth >= g[a].depth && l.prev.id != a
    ensures Based(g, g)
    ensures var d := CanMergeNodes(g, true, g, true, {}, At(a), At(b)); d.ok && !d.strict
  {
    ExtendsRefl(g);
    assert HasLink(g, b, 0) && HasLink(g, a, 0) && HasLink(k, b, 0);
    assert DryAbsorber(g, true, g, true, a, 0, l.prev, l.entry) == 1;
    var o := CanAddLink(g, true, g, true, {(a, b)}, a, l.prev, l.entry);
    assert o == Dry(k, false, {(a, b)}, true);
    assert CanMergeLinks(g, true, k, false, {(a, b)}, a, b, 1, 1) == o;
    assert {} + {(a, b)} == {(a, b)};
  }

  lemma FirstMergeStages()
    ensures Mergeable(Origin(), At(0), At(4)) && Based(Origin(), Origin())
    ensures var d := CanMergeNodes(Origin(), true, Origin(), true, {}, At(0), At(4)); d.ok && !d.strict
  {
    OriginGrows();
    OriginValid();
    JoinsDry(Origin(), Knot(), 0, 4, Link(At(1), Token(7, 2)));
  }

  /** All-or-nothing fails once the depth order is gone.  From a depth-ordered graph with
      depths as pushed, an accepted merge leads to a graph whose depths are still those of
      pushes; there the next merge of clean heads reports failure, and head 2 has kept a
      link of head 3. */
  lemma HalfMerged()
    ensures Valid(Origin()) && DepthOrdered(Origin()) && DepthsPushed(Origin()) && DepthsPushed(Knot())
    ensures Mergeable(Origin(), At(0), At(4)) && HeadsClean(Origin(), At(0), At(4))
    ensures MainMerge(Origin(), true, At(0), At(4)) == Outcome(Knot(), {(0, 4)}, true)
    ensures Mergeable(Knot(), At(2), At(3)) && HeadsClean(Knot(), At(2), At(3)) && !DepthOrdered(Knot())
    ensures var r := MainMerge(Knot(), true, At(2), At(3));
            !r.ok && r.g == Half() && r.g != Knot()
  {
    OriginValid();
    OriginPushed();
    FirstMerge();
    SecondMerge();
  }

  lemma SecondMerge()
    ensures Mergeable(Knot(), At(2), At(3)) && HeadsClean(Knot(), At(2), At(3)) && !DepthOrdered(Knot())
    ensures var r := MainMerge(Knot(), true, At(2), At(3));
            !r.ok && r.g == Half() && r.g != Knot()
  {
    MutationFails();
    DryRunAccepts();
    var g := Knot();
    KnotClosedSets(g);
    CleanSetIsClean(g, {0, 1, 2, 3, 4}, 2);
    CleanSetIsClean(g, {0, 1, 2, 3, 4}, 3);
    assert HasLink(g, 0, 1) && !LinkDeepens(g, 0, 1);
    assert |Half()[2].links| != |g[2].links|;
  }
}
