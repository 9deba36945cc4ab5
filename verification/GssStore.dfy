/** The graph-structured stack as the object the parser updates in place: nodes, the
    cleanliness verdict stored on each node, and the merge that rewrites links. */
module GssStore {
  import opened Wrappers
  import opened GssGraph
  import opened GssMerge
  import opened GssUnion
  import opened GssPreflight
  import opened GssAtomic
  import opened GssClean

  // ----- reachability -------------------------------------------------------

  ghost predicate Pending(g: Graph, n: nat, i: nat, visited: set<nat>, stack: seq<Ref>)
    requires HasLink(g, n, i)
  {
    g[n].links[i].prev.At? ==> g[n].links[i].prev.id in visited || g[n].links[i].prev in stack
  }

  /** Every link out of a visited node has been taken up. */
  ghost predicate Frontier(g: Graph, visited: set<nat>, stack: seq<Ref>) {
    forall n: nat, i: nat {:trigger Pending(g, n, i, visited, stack)} ::
      n in visited && HasLink(g, n, i) ==> Pending(g, n, i, visited, stack)
  }

  function Prevs(links: seq<Link>): (ps: seq<Ref>)
    ensures |ps| == |links| && forall i: nat :: i < |links| ==> ps[i] == links[i].prev
  {
    seq(|links|, i requires 0 <= i < |links| => links[i].prev)
  }

  /** Popping a visited node, or visiting a fresh one and stacking its predecessors,
      keeps the frontier. */
  lemma FrontierStep(g: Graph, visited: set<nat>, stack: seq<Ref>, cur: Ref)
    requires |stack| > 0 && cur == stack[|stack| - 1] && Frontier(g, visited, stack)
    requires cur.At? ==> cur.id < |g|
    ensures cur.Nil? || cur.id in visited ==> Frontier(g, visited, stack[..|stack| - 1])
    ensures cur.At? ==> Frontier(g, visited + {cur.id}, stack[..|stack| - 1] + Prevs(g[cur.id].links))
  {
    var rest := stack[..|stack| - 1];
    assert stack == rest + [cur];
    if cur.Nil? || cur.id in visited {
      forall n: nat, i: nat | n in visited && HasLink(g, n, i)
        ensures Pending(g, n, i, visited, rest)
      {
        assert Pending(g, n, i, visited, stack);
      }
    }
    if cur.At? {
      var ps := Prevs(g[cur.id].links);
      forall n: nat, i: nat | n in visited + {cur.id} && HasLink(g, n, i)
        ensures Pending(g, n, i, visited + {cur.id}, rest + ps)
      {
        if n == cur.id {
          assert ps[i] == g[n].links[i].prev;
        } else {
          assert Pending(g, n, i, visited, stack);
        }
      }
    }
  }

  ghost predicate AllReached(g: Graph, from: nat, stack: seq<Ref>) {
    forall k: nat :: k < |stack| && stack[k].At? ==> stack[k].id < |g| && Reaches(g, from, stack[k].id)
  }

  lemma AllReachedStep(g: Graph, from: nat, stack: seq<Ref>, cur: nat)
    requires WellFormed(g) && AllReached(g, from, stack) && cur < |g| && Reaches(g, from, cur)
    ensures AllReached(g, from, stack + Prevs(g[cur].links))
  {
    var ps := Prevs(g[cur].links);
    forall k: nat | k < |ps| && ps[k].At?
      ensures ps[k].id < |g| && Reaches(g, from, ps[k].id)
    {
      assert HasLink(g, cur, k);
      assert ValidRef(g, g[cur].links[k].prev);
      LinkReaches(g, cur, k);
      ReachesTransitive(g, from, cur, ps[k].id);
    }
  }

  lemma ClosedFrontier(g: Graph, visited: set<nat>)
    requires Frontier(g, visited, [])
    ensures Closed(g, visited)
  {
    forall n: nat, i: nat | n in visited && HasLink(g, n, i)
      ensures LinkInto(g, n, i, visited)
    {
      assert Pending(g, n, i, visited, []);
    }
  }

  /** Depth-first search for `target` along all links. */
  method CanReach(g: Graph, from: Ref, target: Ref) returns (r: bool)
    requires WellFormed(g) && ValidRef(g, from)
    ensures r <==> from.At? && target.At? && Reaches(g, from.id, target.id)
  {
    if from.Nil? || target.Nil? {
      return false;
    }
    if from == target {
      return true;
    }
    var stack := [from];
    var visited: set<nat> := {};
    while |stack| > 0
      invariant visited <= Ids(|g|) && target.id !in visited
      invariant from in stack || from.id in visited
      invariant Frontier(g, visited, stack)
      invariant AllReached(g, from.id, stack)
      decreases Ids(|g|) - visited, |stack|
    {
      var cur := stack[|stack| - 1];
      FrontierStep(g, visited, stack, cur);
      assert stack == stack[..|stack| - 1] + [cur];
      stack := stack[..|stack| - 1];
      if cur.Nil? || cur.id in visited {
        continue;
      }
      if cur == target {
        return true;
      }
      AllReachedStep(g, from.id, stack, cur.id);
      stack := stack + Prevs(g[cur.id].links);
      visited := visited + {cur.id};
    }
    assert stack == [];
    ClosedFrontier(g, visited);
    return false;
  }

  // ----- stored verdicts ----------------------------------------------------

  /** Setting one verdict keeps all others. */
  lemma {:induction false} MarkSet(g: Graph, marks: seq<Mark>, gen: nat, open: set<nat>, n: nat, v: Verdict, after: set<nat>)
    requires MarksTrue(g, marks, gen, open) && n < |g|
    requires (v == Proven ==> Clean(g, n)) && (v == Refuted ==> !Clean(g, n)) && (v == Visiting ==> n in after)
    requires open - {n} <= after
    ensures MarksTrue(g, marks[n := Mark(gen, v)], gen, after)
  {
    var next := marks[n := Mark(gen, v)];
    forall m: nat | m < |next|
      ensures m != n ==> VerdictOf(next, gen, m) == VerdictOf(marks, gen, m)
      ensures m == n ==> VerdictOf(next, gen, m) == v
    {
    }
  }

  /** Verdicts survive a change of graph that changes no node's cleanliness. */
  lemma {:induction false} MarksSurvive(g: Graph, h: Graph, marks: seq<Mark>, gen: nat)
    requires MarksTrue(g, marks, gen, {}) && |h| == |g|
    requires forall n: nat :: n < |g| ==> (Clean(h, n) <==> Clean(g, n))
    ensures MarksTrue(h, marks, gen, {})
  {
  }

  /** A new generation forgets every verdict. */
  lemma {:induction false} MarksForgotten(g: Graph, marks: seq<Mark>, gen: nat)
    requires MarksTrue(g, marks, gen, {})
    ensures MarksTrue(g, marks, gen + 1, {})
  {
  }

  ghost function Unmarked(marks: seq<Mark>, gen: nat): set<nat> {
    set n: nat | n in Ids(|marks|) && n < |marks| && VerdictOf(marks, gen, n) == Unknown
  }

  /** The taking link of least precedence, the first of equals. */
  method WorstOf(links: seq<Link>, takers: seq<bool>) returns (worst: Option<nat>)
    requires |takers| == |links|
    ensures worst == Worst(links, takers, 0, None)
  {
    worst := None;
    var i := 0;
    while i < |links|
      invariant i <= |links|
      invariant worst.Some? ==> worst.value < |links| && takers[worst.value]
      invariant Worst(links, takers, 0, None) == Worst(links, takers, i, worst)
    {
      if takers[i] && (worst.None? || links[i].entry.prec < links[worst.value].entry.prec) {
        worst := Some(i);
      }
      i := i + 1;
    }
  }

  class Gss {
    var nodes: Graph
    var marks: seq<Mark>
    var gen: nat
    /** The pairs the running merge has taken up. */
    var seen: set<Pair>
    /** A standing proof that no subtree of this parse carries an error. */
    const trust: bool

    ghost predicate Ok()
      reads this
    {
      Valid(nodes) && MarksTrue(nodes, marks, gen, {})
    }

    constructor (nodes: Graph, trust: bool)
      requires Valid(nodes)
      ensures Ok() && this.nodes == nodes && this.trust == trust && seen == {}
    {
      this.nodes := nodes;
      this.trust := trust;
      marks := seq(|nodes|, _ => Mark(0, Unknown));
      gen := 1;
      seen := {};
    }

    /** Stores the failure of a walk on every frame it has open. */
    method StoreFailure(frames: seq<Frame>)
      requires Valid(nodes) && FramesLinked(nodes, frames) && |frames| > 0
      requires MarksTrue(nodes, marks, gen, Opened(frames))
      requires !Clean(nodes, frames[|frames| - 1].node)
      modifies this`marks
      ensures Ok() && !Clean(nodes, frames[0].node)
      ensures forall k: nat :: k < |frames| ==> frames[k].node < |marks| && VerdictOf(marks, gen, frames[k].node) == Refuted
    {
      var k := 0;
      while k < |frames|
        invariant k <= |frames|
        invariant MarksTrue(nodes, marks, gen, Opened(frames[k..]))
        invariant forall j: nat :: j < k ==> frames[j].node < |marks| && VerdictOf(marks, gen, frames[j].node) == Refuted
      {
        assert FrameOk(nodes, frames[k]);
        FailureSpreads(nodes, frames, k);
        OpenedTail(frames, k);
        MarkSet(nodes, marks, gen, Opened(frames[k..]), frames[k].node, Refuted, Opened(frames[k + 1..]));
        marks := marks[frames[k].node := Mark(gen, Refuted)];
        k := k + 1;
      }
      assert Opened(frames[k..]) == {};
      FailureSpreads(nodes, frames, 0);
    }

    /** The memoised walk over all links below `n`. */
    method CleanAllLinks(n: Ref) returns (clean: bool)
      requires Ok() && ValidRef(nodes, n)
      modifies this`marks
      ensures Ok()
      ensures clean <==> n.Nil? || PassesClean(nodes, trust, n.id)
    {
      if n.Nil? || trust {
        return true;
      }
      var known := VerdictOf(marks, gen, n.id);
      if known == Proven || known == Refuted {
        return known == Proven;
      }
      var frames := [Frame(n.id, 0)];
      assert Opened(frames) == {};
      while |frames| > 0
        invariant FramesOk(nodes, frames)
        invariant MarksTrue(nodes, marks, gen, Opened(frames))
        invariant |frames| > 0 ==> frames[0].node == n.id
        invariant |frames| == 0 ==> Clean(nodes, n.id)
        decreases Unmarked(marks, gen), Work(nodes, frames)
      {
        var last := |frames| - 1;
        var f := frames[last];
        assert FrameOk(nodes, f);
        assert HasLink(nodes, f.node, 0);
        if f.next == 0 {
          var v := VerdictOf(marks, gen, f.node);
          if v == Refuted {
            StoreFailure(frames);
            return false;
          }
          if v == Proven || v == Visiting {
            NotVisitedTwice(nodes, marks, gen, frames);
            PopFrame(nodes, frames);
            frames := frames[..last];
            continue;
          }
          MarkSet(nodes, marks, gen, Opened(frames), f.node, Visiting, Opened(frames) + {f.node});
          MarkShrinks(marks, gen, f.node, Visiting);
          marks := marks[f.node := Mark(gen, Visiting)];
        }
        assert Opened(frames) + {f.node} == Opened(frames) || f.next == 0 by { OpenedTop(frames); }
        if f.next == |nodes[f.node].links| {
          TopDone(nodes, frames);
          PopFrame(nodes, frames);
          MarkSet(nodes, marks, gen, Opened(frames), f.node, Proven, Opened(frames[..last]));
          MarkKeeps(marks, gen, f.node, Proven);
          marks := marks[f.node := Mark(gen, Proven)];
          frames := frames[..last];
          continue;
        }
        var failed;
        frames, failed := PassLink(frames);
        if failed {
          return false;
        }
      }
      return true;
    }

    /** Moves the top frame past its next link, down into the link's predecessor. */
    method PassLink(frames: seq<Frame>) returns (moved: seq<Frame>, failed: bool)
      requires Valid(nodes) && FramesOk(nodes, frames) && |frames| > 0
      requires var f := frames[|frames| - 1];
               HasLink(nodes, f.node, f.next) && MarksTrue(nodes, marks, gen, Opened(frames) + {f.node})
      modifies this`marks
      ensures failed ==> Ok() && !Clean(nodes, frames[0].node)
      ensures !failed ==> FramesOk(nodes, moved) && MarksTrue(nodes, marks, gen, Opened(moved)) && marks == old(marks)
      ensures !failed ==> |moved| > 0 && moved[0].node == frames[0].node
      ensures !failed && frames[|frames| - 1].next > 0 ==> Work(nodes, moved) < Work(nodes, frames)
    {
      var last := |frames| - 1;
      var f := frames[last];
      var l := nodes[f.node].links[f.next];
      moved := frames[last := Frame(f.node, f.next + 1)];
      if Dirty(l.entry) {
        TopFails(nodes, frames, moved);
        StoreFailure(moved);
        return moved, true;
      }
      if l.prev.At? {
        moved := moved + [Frame(l.prev.id, 0)];
      }
      AdvanceFrame(nodes, frames, moved);
      return moved, false;
    }

    // ----- merging ----------------------------------------------------------

    method CanMergeNow(a: Ref, b: Ref) returns (r: bool)
      requires Ok() && ValidRef(nodes, a) && ValidRef(nodes, b)
      modifies this`marks
      ensures Ok()
      ensures r <==> NodesCanMerge(nodes, trust, a, b)
    {
      if a == b {
        return true;
      }
      if a.Nil? || b.Nil? {
        return false;
      }
      var down := CanReach(nodes, a, b);
      if !down {
        down := CanReach(nodes, b, a);
      }
      if down {
        return false;
      }
      if State(nodes, a.id) != State(nodes, b.id) {
        return false;
      }
      var clean := CleanAllLinks(a);
      if clean {
        clean := CleanAllLinks(b);
      }
      if !clean {
        return false;
      }
      var ao := UniformOffset(nodes, nodes, a, {});
      var bo := UniformOffset(nodes, nodes, b, {});
      return ao.ok && bo.ok && ao.offset == bo.offset;
    }

    /** Rewrites link `i` over its own predecessor when `entry` has the higher precedence.
        Rewriting the primary link to another Node starts a new verdict generation;
        rewriting another link drops the node's own verdict. */
    method UpgradeLink(n: nat, i: nat, incumbent: int, entry: Entry)
      requires Ok() && HasLink(nodes, n, i) && SameClass(nodes[n].links[i].entry, entry)
      modifies this`nodes, this`marks, this`gen
      ensures Ok()
      ensures nodes == Upgrade(old(nodes), n, i, incumbent, entry)
    {
      ghost var g := nodes;
      if entry.prec > incumbent {
        var was := nodes[n].links[i].entry.node;
        nodes := nodes[n := nodes[n].(links := nodes[n].links[i := nodes[n].links[i].(entry := entry)])];
        assert nodes == Upgrade(g, n, i, incumbent, entry);
        SameShapeMarks(g, nodes, marks, gen);
        if i == 0 {
          if was != entry.node {
            MarksForgotten(nodes, marks, gen);
            gen := gen + 1;
          }
        } else {
          DropVerdict(nodes, marks, gen, n);
          marks := marks[n := Mark(marks[n].gen, Unknown)];
        }
      }
    }

    /** The link loop of an addition, up to the link that absorbs (prev, entry). */
    method FindAbsorber(n: nat, prev: Ref, entry: Entry) returns (i: nat)
      requires Ok() && n < |nodes| && ValidRef(nodes, prev)
      modifies this`marks
      ensures Ok()
      ensures i == Absorber(nodes, trust, n, 0, prev, entry)
    {
      i := 0;
      while i < |nodes[n].links|
        invariant Ok() && i <= |nodes[n].links|
        invariant Absorber(nodes, trust, n, 0, prev, entry) == Absorber(nodes, trust, n, i, prev, entry)
      {
        assert HasLink(nodes, n, i);
        if Equivalent(nodes[n].links[i].entry, entry) {
          var can := CanMergeNow(nodes[n].links[i].prev, prev);
          if can {
            return;
          }
        }
        i := i + 1;
      }
    }

    /** The scan of the full-node fallback. */
    method FindWorst(n: nat, prev: Ref, entry: Entry) returns (worst: Option<nat>)
      requires Ok() && n < |nodes| && ValidRef(nodes, prev)
      modifies this`marks
      ensures Ok()
      ensures worst == Worst(nodes[n].links, Takers(nodes, trust, n, prev, entry), 0, None)
    {
      var takers := TakersNow(n, prev, entry);
      worst := WorstOf(nodes[n].links, takers);
    }

    /** Which links of the node could take the entry. */
    method TakersNow(n: nat, prev: Ref, entry: Entry) returns (takers: seq<bool>)
      requires Ok() && n < |nodes| && ValidRef(nodes, prev)
      modifies this`marks
      ensures Ok() && takers == Takers(nodes, trust, n, prev, entry)
    {
      takers := [];
      ghost var all := Takers(nodes, trust, n, prev, entry);
      while |takers| < |nodes[n].links|
        invariant Ok() && |takers| <= |nodes[n].links| && takers == all[..|takers|]
      {
        assert HasLink(nodes, n, |takers|);
        var l := nodes[n].links[|takers|];
        var takes := Equivalent(l.entry, entry);
        if takes {
          takes := CanMergeNow(l.prev, prev);
        }
        takers := takers + [takes];
      }
    }

    /** Adds a link to `n`.  `s` is a clean closed set that holds all nodes under merge. */
    method AddLinkNow(n: nat, prev: Ref, entry: Entry, ghost s: set<nat>) returns (ok: bool)
      requires Ok() && n < |nodes| && ValidRef(nodes, prev) && entry.state == State(nodes, n)
      requires CleanSet(nodes, s) && n in s && (prev.At? ==> prev.id in s) && !Dirty(entry)
      modifies this`nodes, this`marks, this`gen, this`seen
      ensures Ok() && CleanSet(nodes, s)
      ensures Outcome(nodes, seen, ok) == AddLink(old(nodes), trust, old(seen), n, prev, entry)
      decreases Pairs(|nodes|) - seen, 4
    {
      AddLinkConfined(nodes, trust, seen, n, prev, entry, s);
      var cycle := CanReach(nodes, prev, At(n));
      if cycle {
        return false;
      }
      var i := FindAbsorber(n, prev, entry);
      if i < |nodes[n].links| {
        assert HasLink(nodes, n, i);
        ok := AbsorbNow(n, i, prev, entry, s);
        return;
      }
      if |nodes[n].links| >= LINK_LIMIT {
        ReplaceWorstNeverFires(nodes, trust, seen, n, prev, entry);
        ok := ReplaceWorstNow(n, prev, entry, s);
        return;
      }
      ghost var g := nodes;
      nodes := nodes[n := nodes[n].(links := nodes[n].links + [Link(prev, entry)])];
      assert nodes == AppendLink(g, n, Link(prev, entry));
      ConfinedMarks(g, nodes, marks, gen, s);
      DropVerdict(nodes, marks, gen, n);
      marks := marks[n := Mark(marks[n].gen, Unknown)];
      return true;
    }

    /** The fallback at a full node; it refuses, as nothing there absorbs the new link. */
    method ReplaceWorstNow(n: nat, prev: Ref, entry: Entry, ghost s: set<nat>) returns (ok: bool)
      requires Ok() && n < |nodes| && ValidRef(nodes, prev) && entry.state == State(nodes, n)
      requires CleanSet(nodes, s) && n in s && (prev.At? ==> prev.id in s)
      modifies this`nodes, this`marks, this`gen, this`seen
      ensures Ok() && CleanSet(nodes, s)
      ensures Outcome(nodes, seen, ok) == ReplaceWorst(old(nodes), trust, old(seen), n, prev, entry)
      decreases Pairs(|nodes|) - seen, 3
    {
      var worst := FindWorst(n, prev, entry);
      if worst.None? || entry.prec <= nodes[n].links[worst.value].entry.prec {
        return false;
      }
      assert HasLink(nodes, n, worst.value);
      ok := AbsorbNow(n, worst.value, prev, entry, s);
    }

    /** Hands the new link over to link `i`. */
    method AbsorbNow(n: nat, i: nat, prev: Ref, entry: Entry, ghost s: set<nat>) returns (ok: bool)
      requires Ok() && HasLink(nodes, n, i) && ValidRef(nodes, prev) && entry.state == State(nodes, n)
      requires Absorbs(nodes, trust, n, i, prev, entry)
      requires CleanSet(nodes, s) && n in s && (prev.At? ==> prev.id in s)
      modifies this`nodes, this`marks, this`gen, this`seen
      ensures Ok() && CleanSet(nodes, s)
      ensures Outcome(nodes, seen, ok) == AbsorbInto(old(nodes), trust, old(seen), n, i, prev, entry)
      decreases Pairs(|nodes|) - seen, 2
    {
      var was := nodes[n].links[i];
      ghost var g := nodes;
      ok := true;
      if was.prev != prev {
        assert LinkInto(nodes, n, i, s);
        ok := MergeNodesNow(was.prev, prev, s);
      }
      assert LinkKept(g, nodes, n, i);
      if ok {
        ghost var h := nodes;
        UpgradeLink(n, i, was.entry.prec, entry);
        SameShapeCleanSet(h, nodes, s);
      }
    }

    /** Merges `b` into `a`, one link of `b` at a time. */
    method MergeNodesNow(a: Ref, b: Ref, ghost s: set<nat>) returns (ok: bool)
      requires Ok() && Mergeable(nodes, a, b)
      requires CleanSet(nodes, s) && (a.At? ==> a.id in s) && (b.At? ==> b.id in s)
      modifies this`nodes, this`marks, this`gen, this`seen
      ensures Ok() && CleanSet(nodes, s)
      ensures Outcome(nodes, seen, ok) == MergeNodes(old(nodes), trust, old(seen), a, b)
      decreases Pairs(|nodes|) - seen, 1
    {
      if a.Nil? || b.Nil? || a == b {
        return true;
      }
      var cycle := CanReach(nodes, b, a);
      if cycle {
        return false;
      }
      if (a.id, b.id) in seen {
        return true;
      }
      assert (a.id, b.id) in Pairs(|nodes|);
      seen := seen + {(a.id, b.id)};
      ok := MergeLinksNow(a.id, b.id, s);
    }

    /** The link loop of a node merge: the link count is read once, each link when its
        turn comes. */
    method MergeLinksNow(a: nat, b: nat, ghost s: set<nat>) returns (ok: bool)
      requires Ok() && a < |nodes| && b < |nodes| && State(nodes, a) == State(nodes, b)
      requires CleanSet(nodes, s) && a in s && b in s
      modifies this`nodes, this`marks, this`gen, this`seen
      ensures Ok() && CleanSet(nodes, s)
      ensures Outcome(nodes, seen, ok) == MergeLinks(old(nodes), trust, old(seen), a, b, 0, |old(nodes)[b].links|, true)
      decreases Pairs(|nodes|) - seen, 6
    {
      ok := true;
      var count := |nodes[b].links|;
      var i := 0;
      ghost var todo := MergeLinks(nodes, trust, seen, a, b, 0, count, true);
      ghost var left := Pairs(|nodes|) - seen;
      while i < count
        invariant Ok() && CleanSet(nodes, s) && a < |nodes| && b < |nodes| && Pairs(|nodes|) - seen <= left
        invariant i <= count <= |nodes[b].links|
        invariant State(nodes, a) == State(nodes, b)
        invariant todo == MergeLinks(nodes, trust, seen, a, b, i, count, ok)
      {
        ok := RoundNow(a, b, i, count, ok, s, left);
        i := i + 1;
      }
    }

    /** One round of the link loop: link `i` of `b`, as the graph now has it. */
    method RoundNow(a: nat, b: nat, i: nat, count: nat, ok: bool, ghost s: set<nat>, ghost left: set<Pair>) returns (still: bool)
      requires Ok() && a < |nodes| && b < |nodes| && State(nodes, a) == State(nodes, b)
      requires CleanSet(nodes, s) && a in s && b in s && i < count <= |nodes[b].links| && Pairs(|nodes|) - seen <= left
      modifies this`nodes, this`marks, this`gen, this`seen
      ensures Ok() && CleanSet(nodes, s) && |nodes| == old(|nodes|) && Pairs(|nodes|) - seen <= left
      ensures State(nodes, a) == State(nodes, b) && count <= |nodes[b].links|
      ensures MergeLinks(old(nodes), trust, old(seen), a, b, i, count, ok) == MergeLinks(nodes, trust, seen, a, b, i + 1, count, still)
      decreases left, 5
    {
      assert HasLink(nodes, b, i);
      assert LinkInto(nodes, b, i, s);
      assert CleanNode(nodes, b);
      var l := nodes[b].links[i];
      ghost var g, before := nodes, seen;
      var added := AddLinkNow(a, l.prev, l.entry, s);
      LoopKept(g, nodes, a, b, count);
      MergeLinksRound(g, trust, before, a, b, i, count, ok, Outcome(nodes, seen, added));
      still := ok && added;
    }
  }

  /** One round of the link loop, as the specification unfolds it. */
  lemma {:induction false} MergeLinksRound(g: Graph, trust: bool, seen: set<Pair>, a: nat, b: nat, i: nat, count: nat, ok: bool, o: Outcome)
    requires Valid(g) && a < |g| && b < |g| && i < count <= |g[b].links| && State(g, a) == State(g, b)
    requires HasLink(g, b, i) && o == AddLink(g, trust, seen, a, g[b].links[i].prev, g[b].links[i].entry)
    requires State(o.g, a) == State(o.g, b) && count <= |o.g[b].links|
    ensures MergeLinks(g, trust, seen, a, b, i, count, ok) == MergeLinks(o.g, trust, o.seen, a, b, i + 1, count, ok && o.ok)
  {
  }

  lemma {:induction false} SameShapeMarks(g: Graph, h: Graph, marks: seq<Mark>, gen: nat)
    requires MarksTrue(g, marks, gen, {}) && SameShape(g, h)
    ensures MarksTrue(h, marks, gen, {})
  {
    forall n: nat | n < |g|
      ensures Clean(h, n) <==> Clean(g, n)
    {
      SameShapeClean(g, h, n);
    }
    MarksSurvive(g, h, marks, gen);
  }

  lemma {:induction false} ConfinedMarks(g: Graph, h: Graph, marks: seq<Mark>, gen: nat, s: set<nat>)
    requires MarksTrue(g, marks, gen, {}) && Valid(g) && Valid(h) && Extends(g, h) && Confined(g, h, s)
    ensures MarksTrue(h, marks, gen, {})
  {
    forall n: nat | n < |g|
      ensures Clean(h, n) <==> Clean(g, n)
    {
      ConfinedKeepsClean(g, h, s, n);
    }
    MarksSurvive(g, h, marks, gen);
  }

  lemma {:induction false} DropVerdict(g: Graph, marks: seq<Mark>, gen: nat, n: nat)
    requires MarksTrue(g, marks, gen, {}) && n < |g|
    ensures MarksTrue(g, marks[n := Mark(marks[n].gen, Unknown)], gen, {})
  {
    var next := marks[n := Mark(marks[n].gen, Unknown)];
    forall m: nat | m < |next|
      ensures m != n ==> VerdictOf(next, gen, m) == VerdictOf(marks, gen, m)
      ensures m == n ==> VerdictOf(next, gen, m) == Unknown
    {
    }
  }

  lemma {:induction false} OpenedTop(frames: seq<Frame>)
    requires |frames| > 0
    ensures frames[|frames| - 1].next > 0 ==> frames[|frames| - 1].node in Opened(frames)
  {
  }

  /** On an acyclic graph the walk never comes back to a node it has open. */
  lemma {:induction false} NotVisitedTwice(g: Graph, marks: seq<Mark>, gen: nat, frames: seq<Frame>)
    requires Valid(g) && FramesOk(g, frames) && |frames| > 0 && frames[|frames| - 1].next == 0
    requires MarksTrue(g, marks, gen, Opened(frames)) && frames[|frames| - 1].node < |marks|
    ensures VerdictOf(marks, gen, frames[|frames| - 1].node) != Visiting
  {
    var last := |frames| - 1;
    if VerdictOf(marks, gen, frames[last].node) == Visiting {
      assert frames[last].node in Opened(frames);
      var k: nat :| k < |frames| && frames[k].next > 0 && frames[k].node == frames[last].node;
      FramesDescend(g, frames, k, last);
    }
  }

  /** A frame that has passed all its links proves its node clean. */
  lemma {:induction false} TopDone(g: Graph, frames: seq<Frame>)
    requires Valid(g) && FramesOk(g, frames) && |frames| > 0
    requires var f := frames[|frames| - 1]; f.node < |g| && f.next == |g[f.node].links|
    ensures Clean(g, frames[|frames| - 1].node)
  {
    var last := |frames| - 1;
    forall i: nat | HasLink(g, frames[last].node, i)
      ensures LinkClean(g, frames[last].node, i)
    {
      assert FrameDone(g, frames, last, i);
    }
    CleanByLinks(g, frames[last].node);
  }

  lemma {:induction false} TopFails(g: Graph, before: seq<Frame>, frames: seq<Frame>)
    requires Valid(g) && FramesOk(g, before) && |before| > 0
    requires var f := before[|before| - 1];
             HasLink(g, f.node, f.next) && Dirty(g[f.node].links[f.next].entry)
             && frames == before[|before| - 1 := Frame(f.node, f.next + 1)]
    ensures FramesLinked(g, frames) && !Clean(g, frames[|frames| - 1].node)
    ensures Opened(frames) == Opened(before) + {frames[|frames| - 1].node}
  {
    var last := |before| - 1;
    var f := before[last];
    forall k: nat | k < |frames|
      ensures FrameOk(g, frames[k])
    {
      assert FrameOk(g, before[k]);
    }
    forall k: nat | k + 1 < |frames|
      ensures Suspended(g, frames, k)
    {
      assert Suspended(g, before, k);
    }
    DirtyAbove(g, f.node, f.next);
    OpenedAdvance(before, frames, last);
  }

  lemma {:induction false} MarkKeeps(marks: seq<Mark>, gen: nat, n: nat, v: Verdict)
    requires n < |marks| && v != Unknown
    ensures Unmarked(marks[n := Mark(gen, v)], gen) <= Unmarked(marks, gen)
  {
  }

  lemma {:induction false} MarkShrinks(marks: seq<Mark>, gen: nat, n: nat, v: Verdict)
    requires n < |marks| && v != Unknown && VerdictOf(marks, gen, n) == Unknown
    ensures Unmarked(marks[n := Mark(gen, v)], gen) < Unmarked(marks, gen)
  {
    assert n in Unmarked(marks, gen);
    assert n !in Unmarked(marks[n := Mark(gen, v)], gen);
  }

  lemma {:induction false} OpenedTail(frames: seq<Frame>, k: nat)
    requires k < |frames|
    ensures Opened(frames[k..]) - {frames[k].node} <= Opened(frames[k + 1..])
  {
    forall x | x in Opened(frames[k..]) && x != frames[k].node
      ensures x in Opened(frames[k + 1..])
    {
      var j: nat :| j < |frames[k..]| && frames[k..][j].next > 0 && frames[k..][j].node == x;
      assert frames[k + 1..][j - 1] == frames[k..][j];
    }
  }
}
