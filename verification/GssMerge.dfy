/** The mutating node merge of the graph-structured stack, as functions from graph to
    graph.  Every outcome, successful or not, is a valid (acyclic, well-formed) graph
    that keeps every link of the old one; a successful merge adds to the surviving
    node every path of the absorbed node. */
module GssMerge {
  import opened Wrappers
  import opened GssGraph

  type Pair = (nat, nat)

  datatype Outcome = Outcome(g: Graph, seen: set<Pair>, ok: bool)

  /** What every step of a merge keeps. */
  ghost predicate Keeps(g: Graph, seen: set<Pair>, r: Outcome) {
    && Valid(r.g)
    && Extends(g, r.g)
    && seen <= r.seen
    && (WithinLimit(g) ==> WithinLimit(r.g))
  }

  function Pairs(k: nat): (s: set<Pair>)
    ensures forall a: nat, b: nat :: (a, b) in s <==> a < k && b < k
  {
    set a, b | a in Ids(k) && b in Ids(k) :: (a, b)
  }

  // ----- the two graph writes -----------------------------------------------

  /** Appends a link below which `n` cannot be found again. */
  function AppendLink(g: Graph, n: nat, l: Link): (h: Graph)
    requires Valid(g) && n < |g| && ValidRef(g, l.prev) && l.entry.state == State(g, n)
    requires l.prev.At? ==> !Reaches(g, l.prev.id, n)
    ensures Valid(h) && Extends(g, h)
    ensures |h[n].links| == |g[n].links| + 1 && h[n].links[|g[n].links|] == l
  {
    var h := g[n := g[n].(links := g[n].links + [l])];
    assert Valid(h) && Extends(g, h) by { AppendLinkValid(g, n, l, h); }
    h
  }

  lemma AppendLinkValid(g: Graph, n: nat, l: Link, h: Graph)
    requires Valid(g) && n < |g| && ValidRef(g, l.prev) && l.entry.state == State(g, n)
    requires l.prev.At? ==> !Reaches(g, l.prev.id, n)
    requires h == g[n := g[n].(links := g[n].links + [l])]
    ensures Valid(h) && Extends(g, h)
  {
    forall m: nat, i: nat | HasLink(h, m, i)
      ensures HasLink(g, m, i) || (m == n && i == |g[n].links|)
    {
    }
    assert HasLink(g, n, 0);
    forall m: nat, i: nat | HasLink(g, m, i)
      ensures LinkKept(g, h, m, i)
    {
    }
    forall m: nat, i: nat | HasLink(h, m, i)
      ensures ValidRef(h, h[m].links[i].prev) && h[m].links[i].entry.state == h[m].links[0].entry.state
    {
      if HasLink(g, m, i) {
        assert ValidRef(g, g[m].links[i].prev);
      }
    }
    forall m: nat | m < |h|
      ensures HasLink(h, m, 0)
    {
      assert HasLink(g, m, 0);
    }
    forall m: nat, i: nat | HasLink(h, m, i)
      ensures LinkGoesDown(h, m, i)
    {
      AppendLinkAcyclic(g, n, l, h, m, i);
    }
  }

  /** A set that is closed in `g`, and holds `l.prev` whenever it holds `n`, is closed in `h`. */
  lemma ClosedAfterAppend(g: Graph, n: nat, l: Link, h: Graph, s: set<nat>)
    requires n < |g| && h == g[n := g[n].(links := g[n].links + [l])]
    requires Closed(g, s) && (n in s && l.prev.At? ==> l.prev.id in s)
    ensures Closed(h, s)
  {
    forall m: nat, i: nat | m in s && HasLink(h, m, i)
      ensures LinkInto(h, m, i, s)
    {
      if HasLink(g, m, i) {
        assert LinkInto(g, m, i, s);
      }
    }
  }

  lemma AppendLinkAcyclic(g: Graph, n: nat, l: Link, h: Graph, m: nat, i: nat)
    requires Valid(g) && n < |g| && ValidRef(g, l.prev)
    requires l.prev.At? ==> !Reaches(g, l.prev.id, n)
    requires h == g[n := g[n].(links := g[n].links + [l])] && HasLink(h, m, i)
    ensures LinkGoesDown(h, m, i)
  {
    if h[m].links[i].prev.At? {
      var q := h[m].links[i].prev.id;
      if HasLink(g, m, i) {
        assert LinkGoesDown(g, m, i);
        assert ValidRef(g, g[m].links[i].prev);
      }
      ReachSetClosed(g, q);
      var s := ReachSet(g, q);
      assert m !in s;
      if n in s && l.prev.At? {
        var t := ReachSet(g, l.prev.id);
        ReachSetClosed(g, l.prev.id);
        assert m !in t by {
          LinkReaches(g, m, i);
          ReachesTransitive(g, m, q, n);
        }
        forall x: nat, j: nat | x in s + t && HasLink(g, x, j)
          ensures LinkInto(g, x, j, s + t)
        {
          if x in s { assert LinkInto(g, x, j, s); } else { assert LinkInto(g, x, j, t); }
        }
        ClosedAfterAppend(g, n, l, h, s + t);
      } else {
        ClosedAfterAppend(g, n, l, h, s);
      }
    }
  }

  /** Rewrites link `i` to `entry` when `entry` has the higher dynamic precedence.  Then the
      link has the higher precedence of the two, and nothing else changes. */
  function Upgrade(g: Graph, n: nat, i: nat, incumbent: int, entry: Entry): (h: Graph)
    requires Valid(g) && HasLink(g, n, i) && SameClass(g[n].links[i].entry, entry)
    ensures SameShape(g, h) && Valid(h) && HasLink(h, n, i)
    ensures incumbent <= g[n].links[i].entry.prec ==> h[n].links[i].entry.prec >= entry.prec
    ensures incumbent == g[n].links[i].entry.prec ==> Rises(g, h)
    ensures h == g || (entry.prec > incumbent && h[n].links[i].entry == entry)
  {
    if entry.prec > incumbent then
      var h := g[n := g[n].(links := g[n].links[i := g[n].links[i].(entry := entry)])];
      assert SameShape(g, h) && Valid(h) by { UpgradeValid(g, n, i, entry, h); }
      h
    else
      g
  }

  lemma UpgradeValid(g: Graph, n: nat, i: nat, entry: Entry, h: Graph)
    requires Valid(g) && HasLink(g, n, i) && SameClass(g[n].links[i].entry, entry)
    requires h == g[n := g[n].(links := g[n].links[i := g[n].links[i].(entry := entry)])]
    ensures SameShape(g, h) && Valid(h)
  {
    forall m: nat, j: nat | HasLink(g, m, j)
      ensures LinkKept(g, h, m, j)
    {
    }
    forall m: nat, j: nat | HasLink(h, m, j)
      ensures LinkKept(h, g, m, j)
    {
      assert HasLink(g, m, j);
    }
    SameShapeValid(g, h);
  }

  // ----- eligibility --------------------------------------------------------

  /** The all-links cleanliness test; `trust` is the scratch's standing proof that no
      subtree of this parse carries an error. */
  ghost predicate PassesClean(g: Graph, trust: bool, n: nat) {
    trust || Clean(g, n)
  }

  ghost predicate NodesCanMerge(g: Graph, trust: bool, a: Ref, b: Ref)
    requires Valid(g) && ValidRef(g, a) && ValidRef(g, b)
  {
    a == b ||
    (&& a.At? && b.At?
     && !Reaches(g, a.id, b.id) && !Reaches(g, b.id, a.id)
     && State(g, a.id) == State(g, b.id)
     && PassesClean(g, trust, a.id) && PassesClean(g, trust, b.id)
     && var ao := UniformOffset(g, g, a, {});
        var bo := UniformOffset(g, g, b, {});
        ao.ok && bo.ok && ao.offset == bo.offset)
  }

  /** Link `i` of `n` takes up a new link (prev, entry): equivalent payloads over the
      same predecessor or over predecessors that can merge. */
  ghost predicate Absorbs(g: Graph, trust: bool, n: nat, i: nat, prev: Ref, entry: Entry)
    requires Valid(g) && HasLink(g, n, i) && ValidRef(g, prev)
  {
    Equivalent(g[n].links[i].entry, entry) && NodesCanMerge(g, trust, g[n].links[i].prev, prev)
  }

  /** The first link at or after `i` that absorbs (prev, entry), or the link count. */
  ghost function Absorber(g: Graph, trust: bool, n: nat, i: nat, prev: Ref, entry: Entry): (j: nat)
    requires Valid(g) && n < |g| && i <= |g[n].links| && ValidRef(g, prev)
    ensures i <= j <= |g[n].links|
    ensures j < |g[n].links| ==> Absorbs(g, trust, n, j, prev, entry)
    ensures forall k: nat :: i <= k < j ==> !Absorbs(g, trust, n, k, prev, entry)
    decreases |g[n].links| - i
  {
    if i == |g[n].links| then i
    else
      assert HasLink(g, n, i);
      if Absorbs(g, trust, n, i, prev, entry) then i
      else Absorber(g, trust, n, i + 1, prev, entry)
  }

  /** The first lowest-precedence link among those marked in `takes`, as the full-node
      fallback scans for it; `WorstIsLowest` says so. */
  ghost function Worst(links: seq<Link>, takes: seq<bool>, i: nat, worst: Option<nat>): (r: Option<nat>)
    requires |takes| == |links| && i <= |links|
    requires worst.Some? ==> worst.value < |links| && takes[worst.value]
    ensures r.Some? ==> r.value < |links| && takes[r.value]
    decreases |links| - i
  {
    if i == |links| then worst
    else if takes[i] && (worst.None? || links[i].entry.prec < links[worst.value].entry.prec)
    then Worst(links, takes, i + 1, Some(i))
    else Worst(links, takes, i + 1, worst)
  }

  lemma {:induction false} WorstIsLowest(links: seq<Link>, takes: seq<bool>, i: nat, worst: Option<nat>)
    requires |takes| == |links| && i <= |links|
    requires worst.Some? ==> worst.value < i && takes[worst.value]
    requires forall k: nat :: k < i && takes[k] ==> worst.Some? && links[worst.value].entry.prec <= links[k].entry.prec
    requires worst.Some? ==> forall k: nat :: k < worst.value && takes[k] ==> links[worst.value].entry.prec < links[k].entry.prec
    ensures var r := Worst(links, takes, i, worst);
            && (forall k: nat :: k < |links| && takes[k] ==> r.Some? && links[r.value].entry.prec <= links[k].entry.prec)
            && (r.Some? ==> forall k: nat :: k < r.value && takes[k] ==> links[r.value].entry.prec < links[k].entry.prec)
    decreases |links| - i
  {
    if i < |links| {
      if takes[i] && (worst.None? || links[i].entry.prec < links[worst.value].entry.prec) {
        WorstIsLowest(links, takes, i + 1, Some(i));
      } else {
        WorstIsLowest(links, takes, i + 1, worst);
      }
    }
  }

  ghost function Takers(g: Graph, trust: bool, n: nat, prev: Ref, entry: Entry): seq<bool>
    requires Valid(g) && n < |g| && ValidRef(g, prev)
  {
    seq(|g[n].links|, k requires 0 <= k < |g[n].links| => Absorbs(g, trust, n, k, prev, entry))
  }

  // ----- the merge ----------------------------------------------------------

  lemma StateKept(g: Graph, h: Graph, n: nat)
    requires WellFormed(g) && WellFormed(h) && Extends(g, h) && n < |g|
    ensures State(h, n) == State(g, n)
  {
    assert HasLink(g, n, 0);
    assert LinkKept(g, h, n, 0);
  }

  lemma LoopKept(g: Graph, h: Graph, a: nat, b: nat, count: nat)
    requires WellFormed(g) && WellFormed(h) && Extends(g, h) && a < |g| && b < |g|
    requires State(g, a) == State(g, b) && count <= |g[b].links|
    ensures State(h, a) == State(h, b) && count <= |h[b].links|
  {
    StateKept(g, h, a);
    StateKept(g, h, b);
    if count > 0 {
      assert HasLink(g, b, count - 1);
      assert LinkKept(g, h, b, count - 1);
    }
  }

  lemma UpgradeKeeps(g: Graph, seen: set<Pair>, r: Outcome, h: Graph)
    requires Keeps(g, seen, r) && Valid(h) && SameShape(r.g, h)
    ensures Keeps(g, seen, r.(g := h))
  {
    ExtendsTransitive(g, r.g, h);
    SameShapeLengths(r.g, h);
  }

  lemma KeepsTransitive(g: Graph, seen: set<Pair>, r: Outcome, q: Outcome)
    requires Keeps(g, seen, r) && Keeps(r.g, r.seen, q)
    ensures Keeps(g, seen, q)
  {
    ExtendsTransitive(g, r.g, q.g);
  }

  /** Merges `prev` into the predecessor of link `i` and then upgrades the link. */
  ghost function AbsorbInto(g: Graph, trust: bool, seen: set<Pair>, n: nat, i: nat, prev: Ref, entry: Entry): (r: Outcome)
    requires Valid(g) && HasLink(g, n, i) && ValidRef(g, prev) && entry.state == State(g, n)
    requires Absorbs(g, trust, n, i, prev, entry)
    ensures Keeps(g, seen, r)
    decreases Pairs(|g|) - seen, 2, 0
  {
    var was := g[n].links[i];
    var m := if was.prev == prev then Outcome(g, seen, true) else MergeNodes(g, trust, seen, was.prev, prev);
    if m.ok then
      assert LinkKept(g, m.g, n, i);
      var h := Upgrade(m.g, n, i, was.entry.prec, entry);
      assert Keeps(g, seen, m.(g := h)) by { UpgradeKeeps(g, seen, m, h); }
      m.(g := h)
    else
      m
  }

  /** The full-node fallback: replace the worst equivalent link if the new one is better. */
  ghost function ReplaceWorst(g: Graph, trust: bool, seen: set<Pair>, n: nat, prev: Ref, entry: Entry): (r: Outcome)
    requires Valid(g) && n < |g| && ValidRef(g, prev) && entry.state == State(g, n)
    ensures Keeps(g, seen, r)
    decreases Pairs(|g|) - seen, 3, 0
  {
    var w := Worst(g[n].links, Takers(g, trust, n, prev, entry), 0, None);
    if w.None? || entry.prec <= g[n].links[w.value].entry.prec then Outcome(g, seen, false)
    else AbsorbInto(g, trust, seen, n, w.value, prev, entry)
  }

  ghost function AddLink(g: Graph, trust: bool, seen: set<Pair>, n: nat, prev: Ref, entry: Entry): (r: Outcome)
    requires Valid(g) && n < |g| && ValidRef(g, prev) && entry.state == State(g, n)
    ensures Keeps(g, seen, r)
    decreases Pairs(|g|) - seen, 4, 0
  {
    if prev.At? && Reaches(g, prev.id, n) then Outcome(g, seen, false)
    else
      var i := Absorber(g, trust, n, 0, prev, entry);
      if i < |g[n].links| then
        AbsorbInto(g, trust, seen, n, i, prev, entry)
      else if |g[n].links| >= LINK_LIMIT then
        ReplaceWorst(g, trust, seen, n, prev, entry)
      else
        Outcome(AppendLink(g, n, Link(prev, entry)), seen, true)
  }

  /** Merges `b` into `a`: every link of `b` is added to `a`. */
  ghost function MergeNodes(g: Graph, trust: bool, seen: set<Pair>, a: Ref, b: Ref): (r: Outcome)
    requires Valid(g) && ValidRef(g, a) && ValidRef(g, b)
    requires a.At? && b.At? ==> State(g, a.id) == State(g, b.id)
    ensures Keeps(g, seen, r)
    decreases Pairs(|g|) - seen, 1, 0
  {
    if a.Nil? || b.Nil? || a == b then Outcome(g, seen, true)
    else if Reaches(g, b.id, a.id) then Outcome(g, seen, false)
    else if (a.id, b.id) in seen then Outcome(g, seen, true)
    else
      assert (a.id, b.id) in Pairs(|g|);
      MergeLinks(g, trust, seen + {(a.id, b.id)}, a.id, b.id, 0, |g[b.id].links|, true)
  }

  /** The link loop of a node merge, from link `i` on; `ok` is what the loop knows so far. */
  ghost function MergeLinks(g: Graph, trust: bool, seen: set<Pair>, a: nat, b: nat, i: nat, count: nat, ok: bool): (r: Outcome)
    requires Valid(g) && a < |g| && b < |g| && i <= count <= |g[b].links|
    requires State(g, a) == State(g, b)
    ensures Keeps(g, seen, r)
    decreases Pairs(|g|) - seen, 5, count - i
  {
    if i == count then Outcome(g, seen, ok)
    else
      assert HasLink(g, b, i);
      var o := AddLink(g, trust, seen, a, g[b].links[i].prev, g[b].links[i].entry);
      assert Pairs(|g|) - o.seen <= Pairs(|g|) - seen;
      assert State(o.g, a) == State(o.g, b) && count <= |o.g[b].links| by { LoopKept(g, o.g, a, b, count); }
      var r := MergeLinks(o.g, trust, o.seen, a, b, i + 1, count, ok && o.ok);
      assert Keeps(g, seen, r) by { KeepsTransitive(g, seen, o, r); }
      r
  }
}
