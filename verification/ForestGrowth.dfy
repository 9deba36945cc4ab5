/** A whole forest growing by coalesced arrivals, as the reducer will meet it.  An arrival
    that takes a free link or replaces one lowers the node's recorded depth; one that takes
    over the slot of a resident derivation leaves it alone, whatever its extra flag. */
module ForestGrowth {
  import opened Numbers
  import opened Wrappers
  import C = ForestCoalesce
  import ForestCap
  import opened Forest
  import opened ForestDepth

  /** Whether a subtree was consumed as an extra. */
  type Extras = ForestCap.Entry -> bool

  function RefOf(prev: Option<nat>): Ref {
    match prev
    case None => Nil
    case Some(n) => At(n)
  }

  function PlainLink(extra: Extras, l: ForestCap.Link): Link {
    Link(RefOf(l.prev), Subtree(l.entry.id, extra(l.entry)), l.score)
  }

  function PlainNode(extra: Extras, s: C.State): (n: Node)
    ensures |n.links| == |s.links|
  {
    Node(seq(|s.links|, i requires 0 <= i < |s.links| => PlainLink(extra, s.links[i])), s.noExtraDepth)
  }

  /** The forest the reducer walks. */
  function Plain(extra: Extras, f: seq<C.State>): (g: Graph)
    ensures |g| == |f|
  {
    seq(|f|, n requires 0 <= n < |f| => PlainNode(extra, f[n]))
  }

  function Arrive(p: ForestCap.Policy, f: seq<C.State>, n: nat, a: C.Arrival): seq<C.State>
    requires n < |f|
  {
    f[n := C.Coalesced(p, f[n], a, MAX_LINKS)]
  }

  // ----- what a settled derivation does ---------------------------------------

  /** The first link from `i` on that settles the arrival; the link count if none does. */
  function Settling(p: ForestCap.Policy, links: seq<ForestCap.Link>, i: nat, a: C.Arrival): (r: nat)
    requires i <= |links|
    ensures i <= r <= |links|
    ensures r < |links| ==> C.SameSlot(a, links[r])
    decreases |links| - i
  {
    if i == |links| then i
    else if C.SameSlot(a, links[i])
         && (C.Comparable(p, a, links[i])
             || (ForestCap.Tied(C.LinkOf(a), links[i]) && p.wrapper(a.entry, links[i].entry) in {1, -1}))
    then i
    else Settling(p, links, i + 1, a)
  }

  /** The arrival's subtree takes the place of the resident's. */
  predicate TakesOver(p: ForestCap.Policy, links: seq<ForestCap.Link>, i: nat, a: C.Arrival)
    requires i < |links|
  {
    var l := links[i];
    if !C.Comparable(p, a, l) then p.wrapper(a.entry, l.entry) == 1
    else if ForestCap.Hidden(p, a.entry) then a.errorCost < l.errorCost || (a.errorCost == l.errorCost && a.score > l.score)
    else ForestCap.Compare(p, C.LinkOf(a), |links|, l, i) > 0 || (a.score == l.score && a.entry.height > l.entry.height)
  }

  /** A settled arrival rewrites one link, over the same predecessor, and nothing else that the
      reducer looks at. */
  lemma {:induction false} DedupRewrites(p: ForestCap.Policy, s: C.State, i: nat, a: C.Arrival)
    requires i <= |s.links|
    ensures var k, d := Settling(p, s.links, i, a), C.Dedup(p, s, i, a);
      if k == |s.links| then d.None?
      else
        && d.Some? && |d.value.links| == |s.links| && d.value.noExtraDepth == s.noExtraDepth
        && d.value.links == s.links[k := d.value.links[k]] && d.value.links[k].prev == s.links[k].prev
        && d.value.links[k].entry == if TakesOver(p, s.links, k, a) then a.entry else s.links[k].entry
    decreases |s.links| - i
  {
    if i < |s.links| && Settling(p, s.links, i, a) != i {
      DedupRewrites(p, s, i + 1, a);
    }
  }

  /** An arriving extra takes over a slot of a node that promises links free of extras. */
  ghost predicate ExtraTakesOver(extra: Extras, p: ForestCap.Policy, s: C.State, a: C.Arrival) {
    && a.entry.node && extra(a.entry) && s.noExtraDepth > 0
    && var k := Settling(p, s.links, 0, a); k < |s.links| && TakesOver(p, s.links, k, a)
  }

  /** A link rewritten in place, over the same predecessor. */
  function Rewrite(f: Graph, n: nat, i: nat, l: Link): Graph
    requires n < |f| && i < |f[n].links|
  {
    f[n := f[n].(links := f[n].links[i := l])]
  }

  lemma {:induction false} RewriteKeeps(f: Graph, n: nat, i: nat, l: Link)
    requires n < |f| && i < |f[n].links| && l.prev == f[n].links[i].prev && Consistent(f)
    ensures Consistent(Rewrite(f, n, i, l)) <==> !(l.subtree.extra && f[n].noExtraDepth > 0)
    ensures Acyclic(f) ==> Acyclic(Rewrite(f, n, i, l))
  {
    var g := Rewrite(f, n, i, l);
    assert LinkKeeps(f, n, i);
    if Consistent(g) {
      assert LinkKeeps(g, n, i);
    }
    if !(l.subtree.extra && f[n].noExtraDepth > 0) {
      forall m: nat, j: nat | m < |g| && j < |g[m].links| ensures LinkKeeps(g, m, j) {
        assert LinkKeeps(f, m, j);
      }
    }
    if Acyclic(f) {
      var rank :| Ranked(f, rank);
      assert Ranked(g, rank);
    }
  }

  /** One arrival, seen by the reducer: nothing, a link rewritten in place, or growth. */
  lemma {:induction false} ArrivalIs(extra: Extras, p: ForestCap.Policy, f: seq<C.State>, n: nat, a: C.Arrival) returns (i: nat)
    requires n < |f| && ValidRef(Plain(extra, f), RefOf(a.prev)) && |f[n].links| <= MAX_LINKS
    requires a.depth == LinkDepth(Plain(extra, f), PlainLink(extra, C.LinkOf(a)))
    ensures var g, h := Plain(extra, f), Plain(extra, Arrive(p, f, n, a));
      var k := Settling(p, f[n].links, 0, a);
      if a.entry.node && k < |f[n].links| then
        k < |h[n].links| && h == Rewrite(g, n, k, h[n].links[k]) && h[n].links[k].prev == g[n].links[k].prev
        && h[n].links[k].subtree.extra == if TakesOver(p, f[n].links, k, a) then extra(a.entry) else g[n].links[k].subtree.extra
      else
        h == g || (i <= |g[n].links| && h == Grow(g, n, i, PlainLink(extra, C.LinkOf(a))))
  {
    var s := f[n].(errorCost := Min(f[n].errorCost, a.errorCost));
    var k := Settling(p, f[n].links, 0, a);
    var g, h := Plain(extra, f), Plain(extra, Arrive(p, f, n, a));
    var now := Arrive(p, f, n, a)[n];
    DedupRewrites(p, s, 0, a);
    i := 0;
    if a.entry.node && k < |f[n].links| {
      assert h[n].links == g[n].links[k := h[n].links[k]];
      assert h == Rewrite(g, n, k, h[n].links[k]);
    } else {
      assert now == C.Placed(p, s, a, MAX_LINKS);
      i := PlacedIs(extra, p, s, a, g[n]);
      PlacedGrows(extra, f, n, a, now, i);
    }
  }

  /** Placing an arrival leaves the node, or puts its link at `i`. */
  ghost predicate PutAt(extra: Extras, was: Node, now: Node, a: C.Arrival, i: nat) {
    var l := PlainLink(extra, C.LinkOf(a));
    now == was ||
    (&& i <= |was.links|
     && now == Node(if i == |was.links| then was.links + [l] else was.links[i := l],
                    if was.links == [] then a.depth else Min(was.noExtraDepth, a.depth)))
  }

  lemma {:induction false} PlacedIs(extra: Extras, p: ForestCap.Policy, s: C.State, a: C.Arrival, was: Node) returns (i: nat)
    requires was == PlainNode(extra, s) && |s.links| <= MAX_LINKS
    ensures PutAt(extra, was, PlainNode(extra, C.Placed(p, s, a, MAX_LINKS)), a, i)
  {
    var t := C.Placed(p, s, a, MAX_LINKS);
    var now := PlainNode(extra, t);
    i := |s.links|;
    if |s.links| >= MAX_LINKS {
      var r := ForestCap.Replaced(p, s.links, C.LinkOf(a));
      if r.Some? {
        i := r.value;
        assert now.links == was.links[i := PlainLink(extra, C.LinkOf(a))];
      }
    } else {
      assert now.links == was.links + [PlainLink(extra, C.LinkOf(a))];
    }
  }

  lemma {:induction false} PlacedGrows(extra: Extras, f: seq<C.State>, n: nat, a: C.Arrival, now: C.State, i: nat)
    requires n < |f| && ValidRef(Plain(extra, f), RefOf(a.prev))
    requires a.depth == LinkDepth(Plain(extra, f), PlainLink(extra, C.LinkOf(a)))
    requires PutAt(extra, PlainNode(extra, f[n]), PlainNode(extra, now), a, i)
    ensures var g, h := Plain(extra, f), Plain(extra, f[n := now]);
      h == g || (i <= |g[n].links| && h == Grow(g, n, i, PlainLink(extra, C.LinkOf(a))))
  {
    var g, h := Plain(extra, f), Plain(extra, f[n := now]);
    if PlainNode(extra, now) == PlainNode(extra, f[n]) {
      assert h == g;
    } else {
      assert h == Grow(g, n, i, PlainLink(extra, C.LinkOf(a)));
    }
  }

  // ----- one arrival at an open node -------------------------------------------

  /** An arrival the program makes: over a known predecessor, with the depth its link offers,
      at a node nothing links to yet. */
  ghost predicate Arrives(extra: Extras, f: seq<C.State>, n: nat, a: C.Arrival) {
    var g := Plain(extra, f);
    && n < |f| && ValidRef(g, RefOf(a.prev)) && a.prev != Some(n) && Open(g, n)
    && a.depth == LinkDepth(g, PlainLink(extra, C.LinkOf(a)))
  }

  /** An arrival at an open node keeps the recorded depths consistent, and every promise true,
      exactly when it is not an extra that takes over a slot of a node with a promise to keep. */
  lemma {:induction false} ArrivalKeepsDepths(extra: Extras, p: ForestCap.Policy, f: seq<C.State>, n: nat, a: C.Arrival)
    requires Consistent(Plain(extra, f)) && WithinCap(Plain(extra, f)) && Arrives(extra, f, n, a)
    ensures Consistent(Plain(extra, Arrive(p, f, n, a))) <==> !ExtraTakesOver(extra, p, f[n], a)
    ensures DepthsSound(Plain(extra, Arrive(p, f, n, a))) <==> !ExtraTakesOver(extra, p, f[n], a)
    ensures WithinCap(Plain(extra, Arrive(p, f, n, a)))
    ensures Acyclic(Plain(extra, f)) ==> Acyclic(Plain(extra, Arrive(p, f, n, a)))
  {
    var g, h := Plain(extra, f), Plain(extra, Arrive(p, f, n, a));
    assert |g[n].links| <= MAX_LINKS;
    C.CoalescedSteps(p, f[n], a, MAX_LINKS);
    var i := ArrivalIs(extra, p, f, n, a);
    var k := Settling(p, f[n].links, 0, a);
    if a.entry.node && k < |f[n].links| {
      assert LinkKeeps(g, n, k);
      RewriteKeeps(g, n, k, h[n].links[k]);
    } else if h != g {
      var l := PlainLink(extra, C.LinkOf(a));
      GrowKeepsConsistent(g, n, i, l);
      if Acyclic(g) {
        GrowKeepsAcyclic(g, n, i, l);
      }
    }
    if ExtraTakesOver(extra, p, f[n], a) {
      assert !SolidLink(h, h[n].links[k], h[n].noExtraDepth);
      assert !Solid(h, At(n), h[n].noExtraDepth);
    } else {
      ConsistentIsSound(h);
    }
  }

  // ----- any run of arrivals -------------------------------------------------

  datatype Step = Step(node: nat, arrival: C.Arrival)

  /** Every arrival is onto an open node, and none is an extra taking over a promised slot. */
  ghost predicate Regular(extra: Extras, p: ForestCap.Policy, f: seq<C.State>, run: seq<Step>)
    decreases |run|
  {
    run == [] ||
    (&& Arrives(extra, f, run[0].node, run[0].arrival)
     && !ExtraTakesOver(extra, p, f[run[0].node], run[0].arrival)
     && Regular(extra, p, Arrive(p, f, run[0].node, run[0].arrival), run[1..]))
  }

  function Forested(p: ForestCap.Policy, f: seq<C.State>, run: seq<Step>): seq<C.State>
    requires forall k :: 0 <= k < |run| ==> run[k].node < |f|
    decreases |run|
  {
    if run == [] then f else Forested(p, Arrive(p, f, run[0].node, run[0].arrival), run[1..])
  }

  /** What the reducer asks of a forest. */
  ghost predicate Reducible(g: Graph) {
    Acyclic(g) && WithinCap(g) && DepthsSound(g)
  }

  /** A forest grown by coalesced arrivals onto open nodes is one the reducer may walk. */
  lemma {:induction false} GrownIsReducible(extra: Extras, p: ForestCap.Policy, f: seq<C.State>, run: seq<Step>)
    requires var g := Plain(extra, f); Consistent(g) && Acyclic(g) && WithinCap(g)
    requires Regular(extra, p, f, run) && forall k :: 0 <= k < |run| ==> run[k].node < |f|
    ensures Reducible(Plain(extra, Forested(p, f, run)))
    decreases |run|
  {
    if run == [] {
      ConsistentIsSound(Plain(extra, f));
    } else {
      ArrivalKeepsDepths(extra, p, f, run[0].node, run[0].arrival);
      GrownIsReducible(extra, p, Arrive(p, f, run[0].node, run[0].arrival), run[1..]);
    }
  }

  /** New nodes only: nothing has arrived yet. */
  ghost predicate AllNew(f: seq<C.State>) {
    forall n: nat :: n < |f| ==> f[n].links == [] && f[n].noExtraDepth == 0
  }

  lemma {:induction false} NewForest(extra: Extras, f: seq<C.State>)
    requires AllNew(f)
    ensures var g := Plain(extra, f); Consistent(g) && Acyclic(g) && WithinCap(g)
  {
    var g := Plain(extra, f);
    assert forall n: nat :: n < |g| ==> g[n].links == [];
    assert Ranked(g, seq(|g|, i => 0));
  }

  /** A forest grown from new nodes by a regular run is one the reducer may walk. */
  lemma {:induction false} GrownFromNew(extra: Extras, p: ForestCap.Policy, f: seq<C.State>, run: seq<Step>)
    requires AllNew(f) && Regular(extra, p, f, run) && forall k :: 0 <= k < |run| ==> run[k].node < |f|
    ensures Reducible(Plain(extra, Forested(p, f, run)))
  {
    NewForest(extra, f);
    GrownIsReducible(extra, p, f, run);
  }

  /** An extra of the same symbol and span, better scored, takes over the only slot of a node
      that promised one link free of extras. */
  lemma ExtraBreaksPromise()
    ensures var e := ForestCap.Entry(true, 1, 0, 5, Some(10), 1, 1);
      var late := e.(id := 2);
      var extra := (x: ForestCap.Entry) => x.id == 2;
      var p := ForestCap.Policy(true, true, _ => true, (_, _) => 0, (_, _) => 0);
      var f := [C.State([ForestCap.Link(None, 0, e, 0, 0)], 0, 1, 1)];
      var a := C.Arrival(None, 0, late, 1, 0, 0);
      && Consistent(Plain(extra, f)) && Arrives(extra, f, 0, a) && ExtraTakesOver(extra, p, f[0], a)
      && Arrive(p, f, 0, a)[0].noExtraDepth == 1 && !DepthsSound(Plain(extra, Arrive(p, f, 0, a)))
  {
    var e := ForestCap.Entry(true, 1, 0, 5, Some(10), 1, 1);
    var late := e.(id := 2);
    var extra := (x: ForestCap.Entry) => x.id == 2;
    var p := ForestCap.Policy(true, true, _ => true, (_, _) => 0, (_, _) => 0);
    var f := [C.State([ForestCap.Link(None, 0, e, 0, 0)], 0, 1, 1)];
    var a := C.Arrival(None, 0, late, 1, 0, 0);
    var h := Plain(extra, Arrive(p, f, 0, a));
    DedupRewrites(p, f[0], 0, a);
    assert TakesOver(p, f[0].links, 0, a);
    assert h[0].links[0].subtree.extra;
    assert !SolidLink(h, h[0].links[0], 1);
    assert !Solid(h, At(0), 1);
  }
}
