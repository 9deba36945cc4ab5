/** What a merge does to dynamic precedences: a link that takes up an equivalent one has the
    higher precedence of the two afterwards, so no link's precedence ever falls.  This rests
    on a merge changing nothing outside a closed set that holds its two nodes. */
module GssRise {
  import opened Wrappers
  import opened GssGraph
  import opened GssMerge

  /** `h` differs from `g` only on members of `s`, which is closed in `h`. */
  ghost predicate Within(g: Graph, h: Graph, s: set<nat>) {
    Closed(h, s) && |h| == |g| && forall n: nat :: n < |g| && n !in s ==> h[n] == g[n]
  }

  /** The step stays inside `s`, and no precedence falls. */
  ghost predicate Tame(g: Graph, h: Graph, s: set<nat>) {
    Within(g, h, s) && Rises(g, h)
  }

  lemma TameTransitive(g: Graph, h: Graph, k: Graph, s: set<nat>)
    requires Tame(g, h, s) && Tame(h, k, s)
    ensures Tame(g, k, s)
  {
    RisesTransitive(g, h, k);
  }

  /** Everything the two heads reach. */
  ghost function BelowHeads(g: Graph, a: nat, b: nat): set<nat> {
    ReachSet(g, a) + ReachSet(g, b)
  }

  lemma BelowHeadsClosed(g: Graph, a: nat, b: nat)
    requires Valid(g) && a < |g| && b < |g|
    ensures Closed(g, BelowHeads(g, a, b)) && a in BelowHeads(g, a, b) && b in BelowHeads(g, a, b)
  {
    var s := BelowHeads(g, a, b);
    ReachSetClosed(g, a);
    ReachSetClosed(g, b);
    forall n: nat, i: nat | n in s && HasLink(g, n, i)
      ensures LinkInto(g, n, i, s)
    {
      if n in ReachSet(g, a) {
        assert LinkInto(g, n, i, ReachSet(g, a));
      } else {
        assert LinkInto(g, n, i, ReachSet(g, b));
      }
    }
  }

  lemma UpgradeTame(g: Graph, n: nat, i: nat, entry: Entry, s: set<nat>)
    requires Valid(g) && HasLink(g, n, i) && SameClass(g[n].links[i].entry, entry) && Closed(g, s) && n in s
    ensures Tame(g, Upgrade(g, n, i, g[n].links[i].entry.prec, entry), s)
  {
    var h := Upgrade(g, n, i, g[n].links[i].entry.prec, entry);
    ClosedInSmaller(h, g, s);
  }

  lemma {:induction false} AbsorbTame(g: Graph, trust: bool, seen: set<Pair>, n: nat, i: nat, prev: Ref, entry: Entry, s: set<nat>)
    requires Valid(g) && HasLink(g, n, i) && ValidRef(g, prev) && entry.state == State(g, n)
    requires Absorbs(g, trust, n, i, prev, entry) && (prev.At? ==> !Reaches(g, prev.id, n))
    requires Closed(g, s) && n in s && (prev.At? ==> prev.id in s)
    ensures Tame(g, AbsorbInto(g, trust, seen, n, i, prev, entry).g, s)
    decreases Pairs(|g|) - seen, 2, 0
  {
    var was := g[n].links[i];
    assert LinkInto(g, n, i, s);
    if was.prev == prev {
      UpgradeTame(g, n, i, entry, s);
    } else {
      var m := MergeNodes(g, trust, seen, was.prev, prev);
      MergeNodesTame(g, trust, seen, was.prev, prev, s);
      HeadStays(g, trust, seen, n, i, prev);
      if m.ok {
        UpgradeTame(m.g, n, i, entry, s);
        TameTransitive(g, m.g, Upgrade(m.g, n, i, was.entry.prec, entry), s);
      }
    }
  }

  /** Merging two nodes below `n` leaves `n` itself alone. */
  lemma {:induction false} HeadStays(g: Graph, trust: bool, seen: set<Pair>, n: nat, i: nat, prev: Ref)
    requires Valid(g) && HasLink(g, n, i) && ValidRef(g, prev) && g[n].links[i].prev.At? && prev.At?
    requires ValidRef(g, g[n].links[i].prev) && State(g, g[n].links[i].prev.id) == State(g, prev.id)
    requires !Reaches(g, prev.id, n)
    ensures MergeNodes(g, trust, seen, g[n].links[i].prev, prev).g[n] == g[n]
    decreases Pairs(|g|) - seen, 1, 1
  {
    var p := g[n].links[i].prev;
    BelowHeadsClosed(g, p.id, prev.id);
    MergeNodesTame(g, trust, seen, p, prev, BelowHeads(g, p.id, prev.id));
    assert LinkGoesDown(g, n, i);
    assert n !in BelowHeads(g, p.id, prev.id);
  }

  lemma {:induction false} AddLinkTame(g: Graph, trust: bool, seen: set<Pair>, n: nat, prev: Ref, entry: Entry, s: set<nat>)
    requires Valid(g) && n < |g| && ValidRef(g, prev) && entry.state == State(g, n)
    requires Closed(g, s) && n in s && (prev.At? ==> prev.id in s)
    ensures Tame(g, AddLink(g, trust, seen, n, prev, entry).g, s)
    decreases Pairs(|g|) - seen, 4, 0
  {
    var i := Absorber(g, trust, n, 0, prev, entry);
    if prev.At? && Reaches(g, prev.id, n) {
    } else if i < |g[n].links| {
      AbsorbTame(g, trust, seen, n, i, prev, entry, s);
    } else if |g[n].links| >= LINK_LIMIT {
      var w := Worst(g[n].links, Takers(g, trust, n, prev, entry), 0, None);
      assert w.None?;
    } else {
      AppendTame(g, n, Link(prev, entry), s);
    }
  }

  lemma AppendTame(g: Graph, n: nat, l: Link, s: set<nat>)
    requires Valid(g) && n < |g| && ValidRef(g, l.prev) && l.entry.state == State(g, n)
    requires l.prev.At? ==> !Reaches(g, l.prev.id, n)
    requires Closed(g, s) && n in s && (l.prev.At? ==> l.prev.id in s)
    ensures Tame(g, AppendLink(g, n, l), s)
  {
    ClosedAfterAppend(g, n, l, AppendLink(g, n, l), s);
  }

  lemma {:induction false} MergeNodesTame(g: Graph, trust: bool, seen: set<Pair>, a: Ref, b: Ref, s: set<nat>)
    requires Valid(g) && ValidRef(g, a) && ValidRef(g, b)
    requires a.At? && b.At? ==> State(g, a.id) == State(g, b.id)
    requires Closed(g, s) && (a.At? ==> a.id in s) && (b.At? ==> b.id in s)
    ensures Tame(g, MergeNodes(g, trust, seen, a, b).g, s)
    decreases Pairs(|g|) - seen, 1, 0
  {
    if a.At? && b.At? && a != b && (a.id, b.id) !in seen && !Reaches(g, b.id, a.id) {
      assert (a.id, b.id) in Pairs(|g|);
      MergeLinksTame(g, trust, seen + {(a.id, b.id)}, a.id, b.id, 0, |g[b.id].links|, true, s);
    }
  }

  lemma {:induction false} MergeLinksTame(g: Graph, trust: bool, seen: set<Pair>, a: nat, b: nat, i: nat, count: nat, ok: bool, s: set<nat>)
    requires Valid(g) && a < |g| && b < |g| && i <= count <= |g[b].links|
    requires State(g, a) == State(g, b)
    requires Closed(g, s) && a in s && b in s
    ensures Tame(g, MergeLinks(g, trust, seen, a, b, i, count, ok).g, s)
    decreases Pairs(|g|) - seen, 5, count - i
  {
    if i < count {
      assert HasLink(g, b, i);
      assert LinkInto(g, b, i, s);
      var o := AddLink(g, trust, seen, a, g[b].links[i].prev, g[b].links[i].entry);
      AddLinkTame(g, trust, seen, a, g[b].links[i].prev, g[b].links[i].entry, s);
      assert Pairs(|g|) - o.seen <= Pairs(|g|) - seen;
      LoopKept(g, o.g, a, b, count);
      MergeLinksTame(o.g, trust, o.seen, a, b, i + 1, count, ok && o.ok, s);
      TameTransitive(g, o.g, MergeLinks(g, trust, seen, a, b, i, count, ok).g, s);
    }
  }

  /** Adding a link, whether it succeeds or not, lowers no precedence anywhere. */
  lemma AddLinkRises(g: Graph, trust: bool, seen: set<Pair>, n: nat, prev: Ref, entry: Entry)
    requires Valid(g) && n < |g| && ValidRef(g, prev) && entry.state == State(g, n)
    ensures Rises(g, AddLink(g, trust, seen, n, prev, entry).g)
  {
    IdsClosed(g);
    AddLinkTame(g, trust, seen, n, prev, entry, Ids(|g|));
  }

  /** A merge, whether it succeeds or not, lowers no precedence anywhere. */
  lemma MergeNodesRises(g: Graph, trust: bool, seen: set<Pair>, a: Ref, b: Ref)
    requires Valid(g) && ValidRef(g, a) && ValidRef(g, b)
    requires a.At? && b.At? ==> State(g, a.id) == State(g, b.id)
    ensures Rises(g, MergeNodes(g, trust, seen, a, b).g)
  {
    IdsClosed(g);
    MergeNodesTame(g, trust, seen, a, b, Ids(|g|));
  }

  lemma MergeLinksRises(g: Graph, trust: bool, seen: set<Pair>, a: nat, b: nat, i: nat, count: nat, ok: bool)
    requires Valid(g) && a < |g| && b < |g| && i <= count <= |g[b].links|
    requires State(g, a) == State(g, b)
    ensures Rises(g, MergeLinks(g, trust, seen, a, b, i, count, ok).g)
  {
    IdsClosed(g);
    MergeLinksTame(g, trust, seen, a, b, i, count, ok, Ids(|g|));
  }
}
