/** How the forest keeps its no-extras promise: a node records the smallest depth any of
    its links offered when it arrived, saturating at 255, and never looks again. */
module ForestDepth {
  import opened Numbers
  import opened Forest

  /** The largest recorded depth (8 bits). */
  const DEPTH_MAX: nat := 255

  /** The depth a link offers, from what its predecessor has recorded. */
  function LinkDepth(f: Graph, l: Link): nat
    requires ValidRef(f, l.prev)
  {
    if l.subtree.extra then 0
    else if l.prev.Nil? then 1
    else if f[l.prev.id].noExtraDepth == DEPTH_MAX then DEPTH_MAX
    else f[l.prev.id].noExtraDepth + 1
  }

  /** Link `l` is appended to node `n` (`i` is the link count) or replaces its link `i`; the
      recorded depth starts with the first link and afterwards only falls. */
  function Grow(f: Graph, n: nat, i: nat, l: Link): Graph
    requires n < |f| && i <= |f[n].links| && ValidRef(f, l.prev)
  {
    var links := if i == |f[n].links| then f[n].links + [l] else f[n].links[i := l];
    var depth := if f[n].links == [] then LinkDepth(f, l) else Min(f[n].noExtraDepth, LinkDepth(f, l));
    f[n := Node(links, depth)]
  }

  ghost predicate LinkKeeps(f: Graph, n: nat, i: nat)
    requires n < |f| && i < |f[n].links|
  {
    ValidRef(f, f[n].links[i].prev) && f[n].noExtraDepth <= LinkDepth(f, f[n].links[i])
  }

  /** Link by link, no node promises more than its predecessors support. */
  ghost predicate Consistent(f: Graph) {
    && (forall n: nat :: n < |f| ==> f[n].noExtraDepth <= DEPTH_MAX && (f[n].links == [] ==> f[n].noExtraDepth == 0))
    && (forall n: nat, i: nat {:trigger LinkKeeps(f, n, i)} :: n < |f| && i < |f[n].links| ==> LinkKeeps(f, n, i))
  }

  /** Local consistency makes every recorded depth a true promise about all ways down. */
  lemma ConsistentIsSound(f: Graph)
    requires Consistent(f)
    ensures DepthsSound(f)
  {
    forall n: nat | n < |f|
      ensures Solid(f, At(n), f[n].noExtraDepth)
    {
      PromiseHolds(f, n, f[n].noExtraDepth);
    }
  }

  lemma {:induction false} PromiseHolds(f: Graph, n: nat, k: nat)
    requires Consistent(f) && n < |f| && k <= f[n].noExtraDepth
    ensures Solid(f, At(n), k)
    decreases k
  {
    if k > 0 {
      forall i: nat | i < |f[n].links|
        ensures SolidLink(f, f[n].links[i], k)
      {
        assert LinkKeeps(f, n, i);
        var l := f[n].links[i];
        if l.prev.At? {
          PromiseHolds(f, l.prev.id, k - 1);
        }
      }
    }
  }

  /** A link of another node into `n` that promised more than `n` now records. */
  ghost predicate Outbids(f: Graph, n: nat, depth: nat, m: nat, j: nat) {
    && m < |f| && m != n && j < |f[m].links| && f[m].links[j].prev == At(n) && !f[m].links[j].subtree.extra
    && depth < DEPTH_MAX && f[m].noExtraDepth > depth + 1
  }

  /** Growing a node keeps the forest consistent exactly when no node above it has already
      been promised more than the new depth supports.  Consistency is enough for the promises
      to be true, and not necessary; `GrowKeepsSound` is the exact condition for those. */
  lemma GrowKeepsConsistent(f: Graph, n: nat, i: nat, l: Link)
    requires Consistent(f) && n < |f| && i <= |f[n].links| && ValidRef(f, l.prev) && l.prev != At(n)
    requires forall j: nat :: j < |f[n].links| ==> f[n].links[j].prev != At(n)
    ensures Consistent(Grow(f, n, i, l)) <==>
              !exists m: nat, j: nat :: Outbids(f, n, Grow(f, n, i, l)[n].noExtraDepth, m, j)
  {
    var g := Grow(f, n, i, l);
    var depth := g[n].noExtraDepth;
    if Consistent(g) {
      forall m: nat, j: nat | m < |f| && m != n && j < |f[m].links|
        ensures !Outbids(f, n, depth, m, j)
      {
        assert LinkKeeps(g, m, j);
      }
    }
    if !exists m: nat, j: nat :: Outbids(f, n, depth, m, j) {
      forall m: nat, j: nat | m < |g| && j < |g[m].links|
        ensures LinkKeeps(g, m, j)
      {
        if m != n {
          assert LinkKeeps(f, m, j);
          assert !Outbids(f, n, depth, m, j);
        } else if j < |f[n].links| {
          assert LinkKeeps(f, n, j);
        }
      }
    }
  }

  // ----- when the promises stay true ---------------------------------------------

  /** A promise of `k` links free of extras at `m` asks for `d` of them at `n`, some way down. */
  ghost predicate Demands(f: Graph, m: nat, k: nat, n: nat, d: nat)
    decreases k
  {
    m < |f| &&
    if m == n then k == d
    else k > 0 && exists i: nat :: i < |f[m].links| && DemandsVia(f, f[m].links[i], k, n, d)
  }

  ghost predicate DemandsVia(f: Graph, l: Link, k: nat, n: nat, d: nat)
    requires k > 0
    decreases k, 0
  {
    l.prev.At? && Demands(f, l.prev.id, k - 1, n, d)
  }

  /** A demand is met wherever the promise is. */
  lemma {:induction false} DemandMet(f: Graph, m: nat, k: nat, n: nat, d: nat)
    requires Demands(f, m, k, n, d) && Solid(f, At(m), k)
    ensures Solid(f, At(n), d)
    decreases k
  {
    if m != n {
      var i: nat :| i < |f[m].links| && DemandsVia(f, f[m].links[i], k, n, d);
      assert SolidLink(f, f[m].links[i], k);
      DemandMet(f, f[m].links[i].prev.id, k - 1, n, d);
    }
  }

  /** `g` is `f` but for node `n`. */
  ghost predicate OnlyNode(f: Graph, g: Graph, n: nat) {
    |g| == |f| && n < |f| && forall m: nat :: m < |f| && m != n ==> g[m] == f[m]
  }

  lemma {:induction false} DemandKept(f: Graph, g: Graph, m: nat, k: nat, n: nat, d: nat)
    requires OnlyNode(f, g, n) && Demands(f, m, k, n, d)
    ensures Demands(g, m, k, n, d)
    decreases k
  {
    if m != n {
      var i: nat :| i < |f[m].links| && DemandsVia(f, f[m].links[i], k, n, d);
      DemandKept(f, g, f[m].links[i].prev.id, k - 1, n, d);
      assert DemandsVia(g, g[m].links[i], k, n, d);
    }
  }

  /** Below `n` nothing has changed. */
  lemma {:induction false} SolidBelow(f: Graph, g: Graph, n: nat, rank: seq<nat>, r: Ref, k: nat)
    requires OnlyNode(f, g, n) && Ranked(f, rank) && ValidRef(f, r) && (r.At? ==> rank[r.id] < rank[n])
    ensures Solid(f, r, k) <==> Solid(g, r, k)
    decreases k
  {
    if k > 0 && r.At? {
      forall i: nat | i < |f[r.id].links|
        ensures SolidLink(f, f[r.id].links[i], k) <==> SolidLink(g, g[r.id].links[i], k)
      {
        SolidBelow(f, g, n, rank, f[r.id].links[i].prev, k - 1);
      }
    }
  }

  /** A promise made above stays true where the changed node meets what it asks of it. */
  lemma {:induction false} PromiseStays(f: Graph, g: Graph, n: nat, m: nat, k: nat)
    requires OnlyNode(f, g, n) && m < |f| && Solid(f, At(m), k)
    requires forall d: nat :: Demands(f, m, k, n, d) ==> Solid(g, At(n), d)
    ensures Solid(g, At(m), k)
    decreases k
  {
    if m == n {
      assert Demands(f, m, k, n, k);
    } else if k > 0 {
      forall i: nat | i < |f[m].links|
        ensures SolidLink(g, g[m].links[i], k)
      {
        var l := f[m].links[i];
        assert SolidLink(f, l, k);
        assert Solid(f, l.prev, k - 1);
        if k > 1 {
          forall d: nat | Demands(f, l.prev.id, k - 1, n, d)
            ensures Solid(g, At(n), d)
          {
            assert DemandsVia(f, l, k, n, d);
            assert Demands(f, m, k, n, d);
          }
          PromiseStays(f, g, n, l.prev.id, k - 1);
        }
      }
    }
  }

  /** The new link lies over a node that does not lead back to `n`. */
  ghost predicate GoesDown(f: Graph, n: nat, l: Link, rank: seq<nat>) {
    Ranked(f, rank) && n < |f| && ValidRef(f, l.prev) && (l.prev.At? ==> rank[l.prev.id] < rank[n])
  }

  /** After growth node `n` is solid to `d` exactly when it was and the new link is, if no link
      was replaced; replacing one can only help. */
  lemma {:induction false} GrownNodeSolid(f: Graph, n: nat, i: nat, l: Link, rank: seq<nat>, d: nat)
    requires GoesDown(f, n, l, rank) && i <= |f[n].links| && d > 0
    ensures Solid(f, At(n), d) && SolidLink(f, l, d) ==> Solid(Grow(f, n, i, l), At(n), d)
    ensures Solid(Grow(f, n, i, l), At(n), d) ==> SolidLink(f, l, d)
  {
    var g := Grow(f, n, i, l);
    SolidBelow(f, g, n, rank, l.prev, d - 1);
    assert g[n].links[i] == l;
    if Solid(g, At(n), d) {
      assert SolidLink(g, g[n].links[i], d);
    }
    if Solid(f, At(n), d) && SolidLink(f, l, d) {
      forall j: nat | j < |g[n].links|
        ensures SolidLink(g, g[n].links[j], d)
      {
        if j != i {
          assert SolidLink(f, f[n].links[j], d);
          SolidBelow(f, g, n, rank, f[n].links[j].prev, d - 1);
        }
      }
    }
  }

  /** The recorded depth of a grown node is a true promise. */
  lemma {:induction false} OwnPromise(f: Graph, n: nat, i: nat, l: Link, rank: seq<nat>)
    requires GoesDown(f, n, l, rank) && i <= |f[n].links| && DepthsSound(f)
    ensures var g := Grow(f, n, i, l); Solid(g, At(n), g[n].noExtraDepth)
  {
    var g := Grow(f, n, i, l);
    var d := g[n].noExtraDepth;
    if d > 0 {
      if l.prev.At? {
        SolidLess(f, l.prev, f[l.prev.id].noExtraDepth, d - 1);
      }
      assert SolidLink(f, l, d);
      if f[n].links != [] {
        SolidLess(f, At(n), f[n].noExtraDepth, d);
      }
      GrownNodeSolid(f, n, i, l, rank, d);
    }
  }

  /** The new link meets every demand that promises made at other nodes put on `n`. */
  ghost predicate MeetsDemands(f: Graph, n: nat, l: Link) {
    forall m: nat, d: nat :: m < |f| && m != n && d > 0 && Demands(f, m, f[m].noExtraDepth, n, d) ==> SolidLink(f, l, d)
  }

  /** An arrival, at an open node or not, keeps all promises true exactly when its link meets what
      nodes above have been promised through this one. */
  lemma {:induction false} GrowKeepsSound(f: Graph, n: nat, i: nat, l: Link, rank: seq<nat>)
    requires DepthsSound(f) && GoesDown(f, n, l, rank) && i <= |f[n].links|
    ensures DepthsSound(Grow(f, n, i, l)) <==> MeetsDemands(f, n, l)
  {
    var g := Grow(f, n, i, l);
    if DepthsSound(g) {
      forall m: nat, d: nat | m < |f| && m != n && d > 0 && Demands(f, m, f[m].noExtraDepth, n, d)
        ensures SolidLink(f, l, d)
      {
        DemandKept(f, g, m, f[m].noExtraDepth, n, d);
        DemandMet(g, m, g[m].noExtraDepth, n, d);
        GrownNodeSolid(f, n, i, l, rank, d);
      }
    }
    if MeetsDemands(f, n, l) {
      OwnPromise(f, n, i, l, rank);
      forall m: nat | m < |f| && m != n
        ensures Solid(g, At(m), g[m].noExtraDepth)
      {
        forall d: nat | Demands(f, m, f[m].noExtraDepth, n, d)
          ensures Solid(g, At(n), d)
        {
          if d > 0 {
            DemandMet(f, m, f[m].noExtraDepth, n, d);
            GrownNodeSolid(f, n, i, l, rank, d);
          }
        }
        PromiseStays(f, g, n, m, f[m].noExtraDepth);
      }
    }
  }

  // ----- runs onto open nodes ------------------------------------------------------

  /** Nothing links to `n` yet. */
  ghost predicate Open(f: Graph, n: nat) {
    forall m: nat, j: nat :: m < |f| && j < |f[m].links| ==> f[m].links[j].prev != At(n)
  }

  /** One arrival: link `l` goes to node `node` at position `at`. */
  datatype Arrival = Arrival(node: nat, at: nat, link: Link)

  /** A run grows only open nodes: once something links to a node, it is settled. */
  ghost predicate Settled(f: Graph, run: seq<Arrival>)
    decreases |run|
  {
    run == [] ||
    (var a := run[0];
     && a.node < |f| && a.at <= |f[a.node].links| && ValidRef(f, a.link.prev) && a.link.prev != At(a.node)
     && Open(f, a.node)
     && Settled(Grow(f, a.node, a.at, a.link), run[1..]))
  }

  ghost function Grown(f: Graph, run: seq<Arrival>): Graph
    requires Settled(f, run)
    decreases |run|
  {
    if run == [] then f else Grown(Grow(f, run[0].node, run[0].at, run[0].link), run[1..])
  }

  lemma {:induction false} RankAbove(rank: seq<nat>) returns (top: nat)
    ensures forall k :: 0 <= k < |rank| ==> rank[k] < top
  {
    if rank == [] {
      top := 0;
    } else {
      var rest := RankAbove(rank[1..]);
      top := if rank[0] < rest then rest else rank[0] + 1;
      forall k | 0 <= k < |rank|
        ensures rank[k] < top
      {
        if k > 0 { assert rank[k] == rank[1..][k - 1]; }
      }
    }
  }

  lemma GrowKeepsAcyclic(f: Graph, n: nat, i: nat, l: Link)
    requires Acyclic(f) && n < |f| && i <= |f[n].links| && ValidRef(f, l.prev) && l.prev != At(n) && Open(f, n)
    ensures Acyclic(Grow(f, n, i, l))
  {
    var rank :| Ranked(f, rank);
    var top := RankAbove(rank);
    assert Ranked(Grow(f, n, i, l), rank[n := top]);
  }

  /** Over any run onto settled predecessors every recorded depth stays a true promise, so
      the no-extras enumeration meets neither an extra nor the bottom too early. */
  lemma {:induction false} DepthsStaySound(f: Graph, run: seq<Arrival>)
    requires Consistent(f) && Acyclic(f) && Settled(f, run)
    ensures Consistent(Grown(f, run)) && DepthsSound(Grown(f, run)) && Acyclic(Grown(f, run))
    decreases |run|
  {
    if run == [] {
      ConsistentIsSound(f);
    } else {
      var a := run[0];
      GrowKeepsConsistent(f, a.node, a.at, a.link);
      GrowKeepsAcyclic(f, a.node, a.at, a.link);
      DepthsStaySound(Grow(f, a.node, a.at, a.link), run[1..]);
    }
  }

  // ----- how much is promised ----------------------------------------------------------

  /** Some link of `n` offers just what is recorded. */
  ghost predicate Attained(f: Graph, n: nat) {
    n < |f| && f[n].links != [] ==>
      exists i: nat :: i < |f[n].links| && ValidRef(f, f[n].links[i].prev) && LinkDepth(f, f[n].links[i]) == f[n].noExtraDepth
  }

  /** A reference to the bottom, or to a node some parse has reached. */
  predicate Reached(f: Graph, r: Ref) {
    r.At? ==> r.id < |f| && f[r.id].links != []
  }

  ghost predicate Tight(f: Graph) {
    && (forall n: nat :: n < |f| ==> Attained(f, n))
    && (forall n: nat, i: nat :: n < |f| && i < |f[n].links| ==> Reached(f, f[n].links[i].prev))
  }

  /** In a tight forest no node could promise more: what it records is, up to the cap, just the
      number of links free of extras that all ways down start with. */
  lemma {:induction false} DepthIsLargest(f: Graph, n: nat, k: nat)
    requires Consistent(f) && Tight(f) && n < |f| && f[n].links != [] && k <= DEPTH_MAX
    ensures Solid(f, At(n), k) <==> k <= f[n].noExtraDepth
    decreases k
  {
    if k <= f[n].noExtraDepth {
      PromiseHolds(f, n, k);
    }
    if k > 0 && Solid(f, At(n), k) {
      assert Attained(f, n);
      var i: nat :| i < |f[n].links| && ValidRef(f, f[n].links[i].prev) && LinkDepth(f, f[n].links[i]) == f[n].noExtraDepth;
      var l := f[n].links[i];
      assert SolidLink(f, l, k) && Solid(f, l.prev, k - 1) && Reached(f, l.prev);
      if l.prev.At? {
        DepthIsLargest(f, l.prev.id, k - 1);
      }
    }
  }

  /** A run that only appends, to open nodes and over nodes already reached. */
  ghost predicate Appends(f: Graph, run: seq<Arrival>)
    requires Settled(f, run)
    decreases |run|
  {
    run == [] ||
    (var a := run[0];
     a.at == |f[a.node].links| && Reached(f, a.link.prev) && Appends(Grow(f, a.node, a.at, a.link), run[1..]))
  }

  lemma {:induction false} AppendKeepsTight(f: Graph, n: nat, l: Link)
    requires Tight(f) && n < |f| && ValidRef(f, l.prev) && l.prev != At(n) && Open(f, n) && Reached(f, l.prev)
    ensures Tight(Grow(f, n, |f[n].links|, l))
  {
    var g := Grow(f, n, |f[n].links|, l);
    forall m: nat | m < |g|
      ensures Attained(g, m)
    {
      assert Attained(f, m);
      if m == n {
        assert g[n].links[|f[n].links|] == l;
        if f[n].links != [] && f[n].noExtraDepth < LinkDepth(f, l) {
          var i: nat :| i < |f[n].links| && ValidRef(f, f[n].links[i].prev) && LinkDepth(f, f[n].links[i]) == f[n].noExtraDepth;
          assert g[n].links[i] == f[n].links[i];
        }
      } else if f[m].links != [] {
        var i: nat :| i < |f[m].links| && ValidRef(f, f[m].links[i].prev) && LinkDepth(f, f[m].links[i]) == f[m].noExtraDepth;
        assert g[m].links[i] == f[m].links[i];
      }
    }
  }

  /** Over any appending run every recorded depth stays the largest true promise up to the cap. */
  lemma {:induction false} DepthsStayLargest(f: Graph, run: seq<Arrival>, n: nat, k: nat)
    requires Consistent(f) && Tight(f) && Acyclic(f) && Settled(f, run) && Appends(f, run)
    requires n < |Grown(f, run)| && Grown(f, run)[n].links != [] && k <= DEPTH_MAX
    ensures Solid(Grown(f, run), At(n), k) <==> k <= Grown(f, run)[n].noExtraDepth
    decreases |run|
  {
    if run == [] {
      DepthIsLargest(f, n, k);
    } else {
      var a := run[0];
      GrowKeepsConsistent(f, a.node, a.at, a.link);
      GrowKeepsAcyclic(f, a.node, a.at, a.link);
      AppendKeepsTight(f, a.node, a.link);
      DepthsStayLargest(Grow(f, a.node, a.at, a.link), run[1..], n, k);
    }
  }

  /** Two links over one open bottom node, then an extra arrives at that node after all:
      the upper node goes on promising two links free of extras. */
  lemma UnsettledBreaksPromise()
    ensures var plain := Subtree(1, false);
            var f := [Node([Link(Nil, plain, 0)], 1), Node([Link(At(0), plain, 0)], 2)];
            var g := Grow(f, 0, 1, Link(Nil, Subtree(2, true), 0));
            Consistent(f) && !Open(f, 0) && g[1].noExtraDepth == 2 && !DepthsSound(g)
  {
    var plain := Subtree(1, false);
    var f := [Node([Link(Nil, plain, 0)], 1), Node([Link(At(0), plain, 0)], 2)];
    var g := Grow(f, 0, 1, Link(Nil, Subtree(2, true), 0));
    assert f[1].links[0].prev == At(0);
    assert !SolidLink(g, g[0].links[1], 1);
    assert !Solid(g, At(0), 1);
    assert !SolidLink(g, g[1].links[0], 2);
    assert !Solid(g, At(1), 2);
  }
}
