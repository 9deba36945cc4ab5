/** The parse forest: one node per (state, byte), its links the parses that reach it.
    `Paths` is the plain enumeration a reduction stands for: all ways back over a given
    number of non-extra subtrees, extras in between included. */
module Forest {

  /** A consumed subtree; extras do not count toward a reduction's child count. */
  datatype Subtree = Subtree(id: nat, extra: bool)

  datatype Ref = Nil | At(id: nat)

  datatype Link = Link(prev: Ref, subtree: Subtree, score: int)

  /** `noExtraDepth` promises that many consecutive non-extra links on every way down. */
  datatype Node = Node(links: seq<Link>, noExtraDepth: nat)

  type Graph = seq<Node>

  /** The cap on a node's alternatives. */
  const MAX_LINKS: nat := 8

  ghost predicate Ranked(f: Graph, rank: seq<nat>) {
    && |rank| == |f|
    && forall n: nat, i: nat :: n < |f| && i < |f[n].links| && f[n].links[i].prev.At? ==>
         f[n].links[i].prev.id < |f| && rank[f[n].links[i].prev.id] < rank[n]
  }

  ghost predicate Acyclic(f: Graph) {
    exists rank :: Ranked(f, rank)
  }

  ghost predicate WithinCap(f: Graph) {
    forall n: nat :: n < |f| ==> |f[n].links| <= MAX_LINKS
  }

  predicate ValidRef(f: Graph, r: Ref) {
    r.At? ==> r.id < |f|
  }

  ghost function Height(f: Graph, r: Ref): nat
    requires Acyclic(f) && ValidRef(f, r)
  {
    var rank :| Ranked(f, rank);
    if r.Nil? then 0 else rank[r.id] + 1
  }

  /** The predecessor of a link lies lower. */
  lemma LinkDescends(f: Graph, n: nat, i: nat)
    requires Acyclic(f) && n < |f| && i < |f[n].links|
    ensures ValidRef(f, f[n].links[i].prev) && Height(f, f[n].links[i].prev) < Height(f, At(n))
  {
    var rank :| Ranked(f, rank);
    assert ValidRef(f, f[n].links[i].prev);
  }

  function Reversed<T>(s: seq<T>): (r: seq<T>)
    ensures |r| == |s| && forall i :: 0 <= i < |s| ==> r[i] == s[|s| - 1 - i]
  {
    seq(|s|, i requires 0 <= i < |s| => s[|s| - 1 - i])
  }

  /** What a visitor is handed: the children left to right, their score sum, and the node
      the reduction pops to. */
  datatype Visit = Visit(children: seq<Subtree>, score: int, popTo: Ref)

  /** All visits of a reduction that still has `remaining` children to collect at `r`;
      `path` holds the subtrees collected so far, last one first. */
  ghost function Paths(f: Graph, r: Ref, remaining: nat, path: seq<Subtree>, score: int): seq<Visit>
    requires Acyclic(f) && ValidRef(f, r)
    decreases Height(f, r), 1, 0
  {
    if remaining == 0 then [Visit(Reversed(path), score, r)]
    else if r.Nil? then []
    else PathsFrom(f, r.id, 0, remaining, path, score)
  }

  /** The visits through the links of `n` from link `i` on, in link order. */
  ghost function PathsFrom(f: Graph, n: nat, i: nat, remaining: nat, path: seq<Subtree>, score: int): seq<Visit>
    requires Acyclic(f) && n < |f| && i <= |f[n].links| && remaining > 0
    decreases Height(f, At(n)), 0, |f[n].links| - i
  {
    if i == |f[n].links| then []
    else
      LinkDescends(f, n, i);
      PathsVia(f, f[n].links[i], remaining, path, score) + PathsFrom(f, n, i + 1, remaining, path, score)
  }

  function After(l: Link, remaining: nat): nat
    requires remaining > 0
  {
    if l.subtree.extra then remaining else remaining - 1
  }

  /** The visits through one link. */
  ghost function PathsVia(f: Graph, l: Link, remaining: nat, path: seq<Subtree>, score: int): seq<Visit>
    requires Acyclic(f) && ValidRef(f, l.prev) && remaining > 0
    decreases Height(f, l.prev), 2, 0
  {
    Paths(f, l.prev, After(l, remaining), path + [l.subtree], score + l.score)
  }

  /** What reducing `n` over `childCount` children hands out, in order. */
  ghost function Reductions(f: Graph, n: nat, childCount: nat): seq<Visit>
    requires Acyclic(f) && n < |f|
  {
    Paths(f, At(n), childCount, [], 0)
  }

  /** A node with a single link continues along it. */
  lemma SingleLink(f: Graph, n: nat, remaining: nat, path: seq<Subtree>, score: int)
    requires Acyclic(f) && n < |f| && |f[n].links| == 1 && remaining > 0
    ensures ValidRef(f, f[n].links[0].prev)
    ensures Paths(f, At(n), remaining, path, score) == PathsVia(f, f[n].links[0], remaining, path, score)
  {
    LinkDescends(f, n, 0);
    assert PathsFrom(f, n, 1, remaining, path, score) == [];
  }

  /** Every way down from `r` starts with `k` links, none of them an extra. */
  ghost predicate Solid(f: Graph, r: Ref, k: nat)
    decreases k
  {
    k == 0 || (r.At? && r.id < |f| && forall i: nat :: i < |f[r.id].links| ==> SolidLink(f, f[r.id].links[i], k))
  }

  ghost predicate SolidLink(f: Graph, l: Link, k: nat)
    requires k > 0
    decreases k, 0
  {
    !l.subtree.extra && Solid(f, l.prev, k - 1)
  }

  /** Every node keeps its `noExtraDepth` promise. */
  ghost predicate DepthsSound(f: Graph) {
    forall n: nat :: n < |f| ==> Solid(f, At(n), f[n].noExtraDepth)
  }

  lemma {:induction false} SolidLess(f: Graph, r: Ref, k: nat, j: nat)
    requires Solid(f, r, k) && j <= k
    ensures Solid(f, r, j)
    decreases k
  {
    if j > 0 {
      forall i: nat | i < |f[r.id].links|
        ensures SolidLink(f, f[r.id].links[i], j)
      {
        assert SolidLink(f, f[r.id].links[i], k);
        SolidLess(f, f[r.id].links[i].prev, k - 1, j - 1);
      }
    }
  }

  /** The visits of a solid reduction carry exactly the counted children. */
  lemma {:induction false} SolidPaths(f: Graph, r: Ref, remaining: nat, path: seq<Subtree>, score: int)
    requires Acyclic(f) && ValidRef(f, r) && Solid(f, r, remaining)
    requires forall s :: s in path ==> !s.extra
    ensures forall v :: v in Paths(f, r, remaining, path, score) ==>
              |v.children| == |path| + remaining && forall s :: s in v.children ==> !s.extra
    decreases Height(f, r), 1, 0
  {
    if remaining > 0 {
      SolidPathsFrom(f, r.id, 0, remaining, path, score);
    } else {
      forall s | s in Reversed(path)
        ensures s in path
      {
      }
    }
  }

  lemma {:induction false} SolidPathsFrom(f: Graph, n: nat, i: nat, remaining: nat, path: seq<Subtree>, score: int)
    requires Acyclic(f) && n < |f| && i <= |f[n].links| && remaining > 0 && Solid(f, At(n), remaining)
    requires forall s :: s in path ==> !s.extra
    ensures forall v :: v in PathsFrom(f, n, i, remaining, path, score) ==>
              |v.children| == |path| + remaining && forall s :: s in v.children ==> !s.extra
    decreases Height(f, At(n)), 0, |f[n].links| - i
  {
    if i < |f[n].links| {
      LinkDescends(f, n, i);
      var l := f[n].links[i];
      assert SolidLink(f, l, remaining);
      SolidPaths(f, l.prev, remaining - 1, path + [l.subtree], score + l.score);
      SolidPathsFrom(f, n, i + 1, remaining, path, score);
    }
  }

  // ----- what the enumeration means -----------------------------------------

  /** `ls` leads from `r` down to `to`, one link at a time. */
  ghost predicate Chain(f: Graph, r: Ref, ls: seq<Link>, to: Ref)
    decreases |ls|
  {
    if ls == [] then r == to
    else r.At? && r.id < |f| && ls[0] in f[r.id].links && Chain(f, ls[0].prev, ls[1..], to)
  }

  /** `ls` stops exactly at its `k`-th non-extra subtree. */
  ghost predicate Collects(ls: seq<Link>, k: nat)
    decreases |ls|
  {
    if ls == [] then k == 0 else k > 0 && Collects(ls[1..], After(ls[0], k))
  }

  function Subtrees(ls: seq<Link>): (s: seq<Subtree>)
    ensures |s| == |ls|
  {
    if ls == [] then [] else [ls[0].subtree] + Subtrees(ls[1..])
  }

  function Total(ls: seq<Link>): int {
    if ls == [] then 0 else ls[0].score + Total(ls[1..])
  }

  ghost predicate VisitOf(f: Graph, r: Ref, ls: seq<Link>, k: nat, path: seq<Subtree>, score: int, v: Visit) {
    && Chain(f, r, ls, v.popTo) && Collects(ls, k)
    && v.children == Reversed(path + Subtrees(ls)) && v.score == score + Total(ls)
  }

  lemma {:induction false} VisitOfCons(f: Graph, r: Ref, l: Link, ls: seq<Link>, k: nat, path: seq<Subtree>, score: int, v: Visit)
    requires k > 0 && r.At? && r.id < |f| && l in f[r.id].links
    ensures VisitOf(f, r, [l] + ls, k, path, score, v)
            <==> VisitOf(f, l.prev, ls, After(l, k), path + [l.subtree], score + l.score, v)
  {
    var all := [l] + ls;
    assert all[0] == l && all[1..] == ls;
    assert path + Subtrees(all) == path + [l.subtree] + Subtrees(ls);
  }

  /** Every visit comes from a chain of links that stops at the last counted child. */
  lemma {:induction false} PathsSound(f: Graph, r: Ref, k: nat, path: seq<Subtree>, score: int, v: Visit) returns (ls: seq<Link>)
    requires Acyclic(f) && ValidRef(f, r) && v in Paths(f, r, k, path, score)
    ensures VisitOf(f, r, ls, k, path, score, v)
    decreases Height(f, r), 1, 0
  {
    if k == 0 {
      assert path + Subtrees([]) == path;
      ls := [];
    } else {
      ls := PathsFromSound(f, r.id, 0, k, path, score, v);
    }
  }

  lemma {:induction false} PathsFromSound(f: Graph, n: nat, i: nat, k: nat, path: seq<Subtree>, score: int, v: Visit) returns (ls: seq<Link>)
    requires Acyclic(f) && n < |f| && i <= |f[n].links| && k > 0 && v in PathsFrom(f, n, i, k, path, score)
    ensures VisitOf(f, At(n), ls, k, path, score, v)
    decreases Height(f, At(n)), 0, |f[n].links| - i
  {
    LinkDescends(f, n, i);
    var l := f[n].links[i];
    if v in PathsVia(f, l, k, path, score) {
      var rest := PathsSound(f, l.prev, After(l, k), path + [l.subtree], score + l.score, v);
      VisitOfCons(f, At(n), l, rest, k, path, score, v);
      ls := [l] + rest;
    } else {
      ls := PathsFromSound(f, n, i + 1, k, path, score, v);
    }
  }

  /** Every such chain gives a visit. */
  lemma {:induction false} PathsComplete(f: Graph, r: Ref, k: nat, path: seq<Subtree>, score: int, v: Visit, ls: seq<Link>)
    requires Acyclic(f) && ValidRef(f, r) && VisitOf(f, r, ls, k, path, score, v)
    ensures v in Paths(f, r, k, path, score)
    decreases |ls|
  {
    if ls == [] {
      assert path + Subtrees([]) == path;
    } else {
      var j: nat :| j < |f[r.id].links| && f[r.id].links[j] == ls[0];
      LinkDescends(f, r.id, j);
      assert ls == [ls[0]] + ls[1..];
      VisitOfCons(f, r, ls[0], ls[1..], k, path, score, v);
      PathsComplete(f, ls[0].prev, After(ls[0], k), path + [ls[0].subtree], score + ls[0].score, v, ls[1..]);
      PathsFromHas(f, r.id, 0, j, k, path, score, v);
    }
  }

  lemma {:induction false} PathsFromHas(f: Graph, n: nat, i: nat, j: nat, k: nat, path: seq<Subtree>, score: int, v: Visit)
    requires Acyclic(f) && n < |f| && i <= j < |f[n].links| && k > 0 && ValidRef(f, f[n].links[j].prev)
    requires v in PathsVia(f, f[n].links[j], k, path, score)
    ensures v in PathsFrom(f, n, i, k, path, score)
    decreases j - i
  {
    LinkDescends(f, n, i);
    if i < j {
      PathsFromHas(f, n, i + 1, j, k, path, score, v);
    }
  }

  /** A visit is handed out exactly for a chain of links down from the reduced node that
      carries its children, its score and its end. */
  lemma ReductionsExact(f: Graph, n: nat, childCount: nat, v: Visit)
    requires Acyclic(f) && n < |f|
    ensures v in Reductions(f, n, childCount) <==>
              exists ls :: VisitOf(f, At(n), ls, childCount, [], 0, v)
  {
    if v in Reductions(f, n, childCount) {
      var ls := PathsSound(f, At(n), childCount, [], 0, v);
    }
    forall ls | VisitOf(f, At(n), ls, childCount, [], 0, v)
      ensures v in Reductions(f, n, childCount)
    {
      PathsComplete(f, At(n), childCount, [], 0, v, ls);
    }
  }
}
