/** The dry run as the pooled object the parser keeps: staged virtual links, the seen
    pairs, the depth shortcut, a two-way reachability cache that survives staging for
    positive answers only, and a verdict cache that survives it for negative ones. */
module GssDryRun {
  import opened Numbers
  import opened Wrappers
  import opened GssGraph
  import opened GssMerge
  import opened GssRise
  import opened GssUnion
  import opened GssPreflight
  import opened GssAtomic
  import opened GssStore

  datatype ReachEntry = ReachEntry(from: nat, target: nat, gen: nat, epoch: nat, reachable: bool)

  datatype CleanEntry = CleanEntry(epoch: nat, clean: bool)

  const REACH_SETS: nat := 16384

  type ReachSetIndex = i: nat | i < REACH_SETS witness 0

  /** Real links first, staged links after them. */
  function ViewOf(base: Graph, virtuals: map<nat, seq<Link>>): (view: Graph)
    ensures |view| == |base|
    ensures forall n: nat :: n < |base| ==> view[n].depth == base[n].depth
    ensures forall n: nat :: n < |base| ==> view[n].links == base[n].links + Staged(virtuals, n)
  {
    seq(|base|, n requires 0 <= n < |base| => base[n].(links := base[n].links + Staged(virtuals, n)))
  }

  function Staged(virtuals: map<nat, seq<Link>>, n: nat): seq<Link> {
    if n in virtuals then virtuals[n] else []
  }

  lemma {:induction false} NothingStaged(base: Graph)
    ensures ViewOf(base, map[]) == base
  {
    var view := ViewOf(base, map[]);
    forall n: nat | n < |base|
      ensures view[n] == base[n]
    {
      assert base[n].links + [] == base[n].links;
    }
  }

  /** A view with anything staged differs from the real graph. */
  lemma {:induction false} SomethingStaged(base: Graph, virtuals: map<nat, seq<Link>>, n: nat)
    requires n in virtuals && n < |base| && |virtuals[n]| > 0
    ensures ViewOf(base, virtuals) != base
  {
    assert |ViewOf(base, virtuals)[n].links| > |base[n].links|;
  }

  lemma {:induction false} StagedOne(base: Graph, virtuals: map<nat, seq<Link>>, n: nat, l: Link)
    requires n < |base|
    ensures var view := ViewOf(base, virtuals);
            ViewOf(base, virtuals[n := Staged(virtuals, n) + [l]]) == view[n := view[n].(links := view[n].links + [l])]
  {
    var view := ViewOf(base, virtuals);
    var next := ViewOf(base, virtuals[n := Staged(virtuals, n) + [l]]);
    assert next[n].links == view[n].links + [l];
    forall m: nat | m < |base|
      ensures next[m] == view[n := view[n].(links := view[n].links + [l])][m]
    {
      assert m != n ==> next[m].links == view[m].links;
    }
  }

  ghost predicate StagedWithin(virtuals: map<nat, seq<Link>>, size: nat) {
    forall n: nat {:trigger virtuals[n]} :: n in virtuals ==> n < size && |virtuals[n]| > 0
  }

  ghost predicate EntryTrue(view: Graph, strict: bool, epoch: nat, e: ReachEntry) {
    && e.from < |view| && e.target < |view| && e.epoch <= epoch
    && (strict ==> view[e.from].depth > view[e.target].depth)
    && (e.reachable ==> Reaches(view, e.from, e.target))
    && (!e.reachable && e.epoch == epoch ==> !Reaches(view, e.from, e.target))
  }

  /** Entries of the current generation are right: a positive one for good, a negative
      one in its own epoch. */
  ghost predicate CacheTrue(view: Graph, strict: bool, cache: seq<ReachEntry>, gen: nat, epoch: nat) {
    forall k: nat :: k < |cache| && cache[k].gen == gen ==> EntryTrue(view, strict, epoch, cache[k])
  }

  ghost predicate VerdictsTrue(view: Graph, verdicts: map<nat, CleanEntry>, epoch: nat) {
    forall n: nat :: n in verdicts ==>
      && verdicts[n].epoch <= epoch
      && (!verdicts[n].clean ==> !Clean(view, n))
      && (verdicts[n].clean && verdicts[n].epoch == epoch ==> Clean(view, n))
  }

  /** The nodes that do not reach `target` form a closed set. */
  ghost function Barren(g: Graph, target: nat): set<nat> {
    set n: nat | n in Ids(|g|) && !Reaches(g, n, target)
  }

  lemma {:induction false} BarrenFrontier(g: Graph, target: nat, stack: seq<Ref>)
    requires WellFormed(g)
    ensures Frontier(g, Barren(g, target), stack)
  {
    var s := Barren(g, target);
    forall n: nat, i: nat | n in s && HasLink(g, n, i)
      ensures Pending(g, n, i, s, stack)
    {
      if g[n].links[i].prev.At? {
        assert ValidRef(g, g[n].links[i].prev);
        LinkReaches(g, n, i);
        if Reaches(g, g[n].links[i].prev.id, target) {
          ReachesTransitive(g, n, g[n].links[i].prev.id, target);
        }
      }
    }
  }

  lemma {:induction false} CacheSurvives(view: Graph, next: Graph, strict: bool, after: bool, cache: seq<ReachEntry>, gen: nat, epoch: nat)
    requires CacheTrue(view, strict, cache, gen, epoch) && Extends(view, next) && (after ==> strict)
    ensures CacheTrue(next, after, cache, gen, epoch + 1)
  {
    forall k: nat | k < |cache| && cache[k].gen == gen
      ensures EntryTrue(next, after, epoch + 1, cache[k])
    {
      assert EntryTrue(view, strict, epoch, cache[k]);
      if cache[k].reachable {
        ReachesGrows(view, next, cache[k].from, cache[k].target);
      }
    }
  }

  lemma {:induction false} VerdictsSurvive(view: Graph, next: Graph, verdicts: map<nat, CleanEntry>, epoch: nat)
    requires VerdictsTrue(view, verdicts, epoch) && Extends(view, next)
    ensures VerdictsTrue(next, verdicts, epoch + 1)
  {
    forall n: nat | n in verdicts && !verdicts[n].clean
      ensures !Clean(next, n)
    {
      if Clean(next, n) {
        CleanShrinks(view, next, n);
      }
    }
  }

  /** The clean nodes form a closed set. */
  ghost function CleanIds(g: Graph): set<nat> {
    set n: nat | n in Ids(|g|) && Clean(g, n)
  }

  lemma {:induction false} CleanFrontier(g: Graph, stack: seq<Ref>)
    requires WellFormed(g)
    ensures Frontier(g, CleanIds(g), stack)
  {
    var s := CleanIds(g);
    forall n: nat, i: nat | n in s && HasLink(g, n, i)
      ensures Pending(g, n, i, s, stack)
    {
      if g[n].links[i].prev.At? {
        assert ValidRef(g, g[n].links[i].prev);
        LinkReaches(g, n, i);
        forall m: nat | Reaches(g, g[n].links[i].prev.id, m)
          ensures CleanNode(g, m)
        {
          ReachesTransitive(g, n, g[n].links[i].prev.id, m);
        }
      }
    }
  }

  lemma {:induction false} DirtyBelow(g: Graph, n: nat, m: nat)
    requires Reaches(g, n, m) && !Clean(g, m)
    ensures !Clean(g, n)
  {
    var k: nat :| Reaches(g, m, k) && !CleanNode(g, k);
    ReachesTransitive(g, n, m, k);
  }

  /** A finished walk proves every node it visited. */
  lemma {:induction false} WalkProves(g: Graph, visited: set<nat>)
    requires Frontier(g, visited + CleanIds(g), [])
    requires forall m: nat :: m in visited ==> CleanNode(g, m)
    ensures forall m: nat :: m in visited ==> Clean(g, m)
  {
    var s := visited + CleanIds(g);
    ClosedFrontier(g, s);
    forall m: nat | m in s
      ensures CleanNode(g, m)
    {
    }
    forall m: nat | m in visited
      ensures Clean(g, m)
    {
      CleanSetIsClean(g, s, m);
    }
  }

  /** What the dry run remembers: reachability answers with the generation that wrote them,
      the epoch of the view, and cleanliness verdicts. */
  datatype Caches = Caches(reach: seq<ReachEntry>, gen: nat, epoch: nat, verdicts: map<nat, CleanEntry>)

  /** What a pooled dry run keeps whatever becomes of the graph: a table of the right size
      with no entry from a later generation. */
  ghost predicate Reusable(c: Caches) {
    && 0 < c.gen <= MAX_WORD && (|c.reach| == 0 || |c.reach| == 2 * REACH_SETS)
    && forall k: nat {:trigger c.reach[k]} :: k < |c.reach| ==> c.reach[k].gen <= c.gen
  }

  ghost predicate CachesTrue(view: Graph, strict: bool, c: Caches) {
    && Reusable(c)
    && CacheTrue(view, strict, c.reach, c.gen, c.epoch)
    && VerdictsTrue(view, c.verdicts, c.epoch)
  }

  class DryRun {
    const gss: Gss
    /** The cache set a pair of nodes falls into. */
    const bucket: (nat, nat) -> ReachSetIndex
    var virtuals: map<nat, seq<Link>>
    var seen: set<Pair>
    var strict: bool
    var caches: Caches

    /** The graph the dry run sees. */
    ghost var view: Graph

    ghost predicate Ok()
      reads this, gss
    {
      && gss.Ok()
      && StagedWithin(virtuals, |gss.nodes|)
      && view == ViewOf(gss.nodes, virtuals) && Based(gss.nodes, view)
      && CachesTrue(view, strict, caches)
    }

    constructor (gss: Gss, bucket: (nat, nat) -> ReachSetIndex)
      requires gss.Ok()
      ensures Ok() && this.gss == gss && view == gss.nodes && strict && seen == {}
    {
      this.gss := gss;
      this.bucket := bucket;
      virtuals, seen, strict, caches := map[], {}, true, Caches([], 1, 1, map[]);
      view := gss.nodes;
      new;
      NothingStaged(gss.nodes);
      ExtendsRefl(gss.nodes);
    }

    /** Makes a pooled dry run as good as new, for whatever the graph is by now. */
    method Reset()
      requires gss.Ok() && Reusable(caches)
      modifies this
      ensures Ok() && view == gss.nodes && strict && seen == {}
    {
      virtuals, seen, strict := map[], {}, true;
      if caches.gen == MAX_WORD {
        caches := Caches(seq(|caches.reach|, _ => ReachEntry(0, 0, 0, 0, false)), 1, 1, map[]);
      } else {
        caches := caches.(gen := caches.gen + 1, epoch := 1, verdicts := map[]);
      }
      view := gss.nodes;
      NothingStaged(gss.nodes);
      ExtendsRefl(gss.nodes);
    }

    // ----- reachability -----------------------------------------------------

    method CachedReach(from: nat, target: nat) returns (known: bool, r: bool)
      requires Ok()
      ensures known ==> from < |view| && target < |view|
      ensures known ==> (r <==> Reaches(view, from, target))
      ensures known && strict ==> view[from].depth > view[target].depth
    {
      if |caches.reach| == 0 {
        return false, false;
      }
      var i := 0;
      while i < 2
        invariant 0 <= i <= 2
      {
        var e := caches.reach[2 * bucket(from, target) + i];
        if e.gen == caches.gen && e.from == from && e.target == target {
          if e.reachable {
            return true, true;
          }
          if e.epoch == caches.epoch {
            return true, false;
          }
        }
        i := i + 1;
      }
      return false, false;
    }

    method CacheReach(from: nat, target: nat, r: bool)
      requires Ok() && from < |view| && target < |view|
      requires r <==> Reaches(view, from, target)
      requires strict ==> view[from].depth > view[target].depth
      modifies this`caches
      ensures Ok()
    {
      if |caches.reach| == 0 {
        caches := caches.(reach := seq(2 * REACH_SETS, _ => ReachEntry(0, 0, 0, 0, false)));
      }
      var at := 2 * bucket(from, target);
      caches := caches.(reach := caches.reach[at + 1 := caches.reach[at]][at := ReachEntry(from, target, caches.gen, caches.epoch, r)]);
    }

    method CanReachView(from: Ref, target: Ref) returns (r: bool)
      requires Ok() && ValidRef(view, from) && ValidRef(view, target)
      modifies this`caches
      ensures Ok()
      ensures r <==> from.At? && target.At? && DryReaches(view, strict, from.id, target.id)
    {
      if from.Nil? || target.Nil? {
        return false;
      }
      if from == target {
        return true;
      }
      var known, answer := CachedReach(from.id, target.id);
      if known {
        return answer;
      }
      if strict && gss.nodes[from.id].depth <= gss.nodes[target.id].depth {
        return false;
      }
      r := Search(from.id, target.id);
      CacheReach(from.id, target.id, r);
    }

    /** Depth-first search that stops early at cached answers. */
    method Search(from: nat, target: nat) returns (r: bool)
      requires Ok() && from < |view| && target < |view|
      ensures r <==> Reaches(view, from, target)
    {
      ghost var barren := Barren(view, target);
      var stack := [At(from)];
      var visited: set<nat> := {};
      BarrenFrontier(view, target, stack);
      assert {} + barren == barren;
      while |stack| > 0
        invariant visited <= Ids(|view|) && target !in visited
        invariant At(from) in stack || from in visited + barren
        invariant Frontier(view, visited + barren, stack)
        invariant AllReached(view, from, stack)
        decreases Ids(|view|) - visited, |stack|
      {
        var cur := stack[|stack| - 1];
        FrontierStep(view, visited + barren, stack, cur);
        assert stack == stack[..|stack| - 1] + [cur];
        stack := stack[..|stack| - 1];
        if cur.Nil? || cur.id in visited {
          continue;
        }
        if cur.id == target {
          return true;
        }
        var known, answer := CachedReach(cur.id, target);
        if known && answer {
          ReachesTransitive(view, from, cur.id, target);
          return true;
        }
        if known {
          assert cur.id in barren;
          continue;
        }
        AllReachedStep(view, from, stack, cur.id);
        assert visited + barren + {cur.id} == (visited + {cur.id}) + barren;
        stack := stack + Prevs(gss.nodes[cur.id].links + Staged(virtuals, cur.id));
        visited := visited + {cur.id};
      }
      assert stack == [];
      ClosedFrontier(view, visited + barren);
      return false;
    }

    // ----- staging and cleanliness ------------------------------------------

    method AddVirtual(n: nat, l: Link)
      requires Ok() && n < |view| && ValidRef(view, l.prev) && l.entry.state == State(view, n)
      modifies this`virtuals, this`strict, this`caches, this`view
      ensures Ok()
      ensures (view, strict) == Stage(gss.nodes, old(view), old(strict), n, l)
    {
      ghost var was, now := strict, view;
      ghost var next := Stage(gss.nodes, view, strict, n, l);
      StagedOne(gss.nodes, virtuals, n, l);
      virtuals := virtuals[n := Staged(virtuals, n) + [l]];
      if l.prev.At? && gss.nodes[l.prev.id].depth >= gss.nodes[n].depth {
        strict := false;
      }
      view := next.0;
      CacheSurvives(now, view, was, strict, caches.reach, caches.gen, caches.epoch);
      VerdictsSurvive(now, view, caches.verdicts, caches.epoch);
      caches := caches.(epoch := caches.epoch + 1);
    }

    /** The cleanliness test over the view: the shared walk while nothing is staged, a
        private walk with its own verdict cache afterwards. */
    method CleanView(n: Ref) returns (clean: bool)
      requires Ok() && ValidRef(view, n)
      modifies this`caches, gss`marks
      ensures Ok()
      ensures clean <==> n.Nil? || PassesClean(view, gss.trust && view == gss.nodes, n.id)
    {
      if n.Nil? {
        return true;
      }
      if |virtuals| == 0 {
        assert virtuals == map[];
        NothingStaged(gss.nodes);
        clean := gss.CleanAllLinks(n);
        return;
      }
      assert virtuals.Keys != {};
      ghost var m: nat :| m in virtuals;
      SomethingStaged(gss.nodes, virtuals, m);
      if n.id in caches.verdicts {
        var v := caches.verdicts[n.id];
        if !v.clean {
          return false;
        }
        if v.epoch == caches.epoch {
          return true;
        }
      }
      clean := WalkClean(n.id);
    }

    /** Scans the links of one node for an error of its own. */
    method NodeIsClean(cur: nat) returns (clean: bool)
      requires Ok() && cur < |view|
      ensures clean <==> CleanNode(view, cur)
    {
      var links := gss.nodes[cur].links + Staged(virtuals, cur);
      assert links == view[cur].links;
      var i := 0;
      while i < |links|
        invariant 0 <= i <= |links|
        invariant forall j: nat :: j < i ==> !Dirty(links[j].entry)
      {
        if Dirty(links[i].entry) {
          assert HasLink(view, cur, i);
          return false;
        }
        i := i + 1;
      }
      return true;
    }

    method WalkClean(n: nat) returns (clean: bool)
      requires Ok() && n < |view|
      modifies this`caches
      ensures Ok()
      ensures clean <==> Clean(view, n)
    {
      var culprit, visited;
      clean, culprit, visited := WalkView(n);
      if clean {
        caches := caches.(verdicts := caches.verdicts + map m | m in visited :: CleanEntry(caches.epoch, true));
      } else {
        caches := caches.(verdicts := caches.verdicts[culprit := CleanEntry(0, false)][n := CleanEntry(0, false)]);
      }
    }

    /** The private walk: the nodes it passed, or the node that stopped it. */
    method WalkView(n: nat) returns (clean: bool, culprit: nat, visited: set<nat>)
      requires Ok() && n < |view|
      ensures clean <==> Clean(view, n)
      ensures clean ==> forall m: nat :: m in visited ==> Clean(view, m)
      ensures !clean ==> !Clean(view, culprit)
    {
      ghost var known := CleanIds(view);
      var stack := [At(n)];
      visited := {};
      CleanFrontier(view, stack);
      assert {} + known == known;
      while |stack| > 0
        invariant visited <= Ids(|view|)
        invariant At(n) in stack || n in visited + known
        invariant Frontier(view, visited + known, stack)
        invariant AllReached(view, n, stack)
        invariant forall m: nat :: m in visited ==> CleanNode(view, m)
        decreases Ids(|view|) - visited, |stack|
      {
        var cur := stack[|stack| - 1];
        FrontierStep(view, visited + known, stack, cur);
        assert stack == stack[..|stack| - 1] + [cur];
        stack := stack[..|stack| - 1];
        if cur.Nil? || cur.id in visited {
          continue;
        }
        if cur.id in caches.verdicts && !caches.verdicts[cur.id].clean {
          DirtyBelow(view, n, cur.id);
          return false, cur.id, {};
        }
        if cur.id in caches.verdicts && caches.verdicts[cur.id].epoch == caches.epoch {
          assert cur.id in known;
          continue;
        }
        var own := NodeIsClean(cur.id);
        if !own {
          DirtyBelow(view, n, cur.id);
          return false, cur.id, {};
        }
        AllReachedStep(view, n, stack, cur.id);
        assert visited + known + {cur.id} == (visited + {cur.id}) + known;
        stack := stack + Prevs(gss.nodes[cur.id].links + Staged(virtuals, cur.id));
        visited := visited + {cur.id};
      }
      assert stack == [];
      WalkProves(view, visited);
      return true, 0, visited;
    }

    // ----- the dry run ------------------------------------------------------

    function LinksAt(n: nat): (links: seq<Link>)
      requires n < |gss.nodes|
      reads this, gss
      requires view == ViewOf(gss.nodes, virtuals)
      ensures links == view[n].links
    {
      gss.nodes[n].links + Staged(virtuals, n)
    }

    /** Neither node lies below the other, and they are in the same state. */
    method SidewaysView(a: nat, b: nat) returns (r: bool)
      requires Ok() && a < |view| && b < |view|
      modifies this`caches
      ensures Ok()
      ensures r <==> !DryReaches(view, strict, a, b) && !DryReaches(view, strict, b, a) && State(view, a) == State(view, b)
    {
      var down := CanReachView(At(a), At(b));
      if !down {
        down := CanReachView(At(b), At(a));
      }
      StateKept(gss.nodes, view, a);
      StateKept(gss.nodes, view, b);
      return !down && State(gss.nodes, a) == State(gss.nodes, b);
    }

    /** Both nodes pass the clean walk. */
    method BothCleanView(a: nat, b: nat) returns (clean: bool)
      requires Ok() && a < |view| && b < |view|
      modifies this`caches, gss`marks
      ensures Ok()
      ensures clean <==> PassesClean(view, gss.trust && view == gss.nodes, a) && PassesClean(view, gss.trust && view == gss.nodes, b)
    {
      clean := CleanView(At(a));
      if clean {
        clean := CleanView(At(b));
      }
    }

    /** Both nodes stand at one offset, and it is the same. */
    method SameOffsetView(a: nat, b: nat) returns (same: bool)
      requires Ok() && a < |view| && b < |view|
      ensures same <==>
        var ao := UniformOffset(gss.nodes, view, At(a), {});
        var bo := UniformOffset(gss.nodes, view, At(b), {});
        ao.ok && bo.ok && ao.offset == bo.offset
    {
      var links := ViewOf(gss.nodes, virtuals);
      var ao := UniformOffset(gss.nodes, links, At(a), {});
      var bo := UniformOffset(gss.nodes, links, At(b), {});
      return ao.ok && bo.ok && ao.offset == bo.offset;
    }

    method CanMergeView(a: Ref, b: Ref) returns (r: bool)
      requires Ok() && ValidRef(view, a) && ValidRef(view, b)
      modifies this`caches, gss`marks
      ensures Ok()
      ensures r <==> DryNodesCanMerge(gss.nodes, gss.trust, view, strict, a, b)
    {
      if a == b {
        return true;
      }
      if a.Nil? || b.Nil? {
        return false;
      }
      r := SidewaysView(a.id, b.id);
      if r {
        r := BothCleanView(a.id, b.id);
      }
      if r {
        r := SameOffsetView(a.id, b.id);
      }
    }

    method TakesView(n: nat, i: nat, prev: Ref, entry: Entry) returns (takes: bool)
      requires Ok() && n < |view| && i < |view[n].links| && ValidRef(view, prev)
      modifies this`caches, gss`marks
      ensures Ok() && HasLink(view, n, i)
      ensures takes <==> DryAbsorbs(gss.nodes, gss.trust, view, strict, n, i, prev, entry)
    {
      assert HasLink(view, n, i);
      var l := LinksAt(n)[i];
      takes := Equivalent(l.entry, entry);
      if takes {
        takes := CanMergeView(l.prev, prev);
      }
    }

    method FindAbsorberView(n: nat, prev: Ref, entry: Entry) returns (i: nat)
      requires Ok() && n < |view| && ValidRef(view, prev)
      modifies this`caches, gss`marks
      ensures Ok()
      ensures i == DryAbsorber(gss.nodes, gss.trust, view, strict, n, 0, prev, entry)
    {
      var links := LinksAt(n);
      ghost var first := DryAbsorber(gss.nodes, gss.trust, view, strict, n, 0, prev, entry);
      i := 0;
      while i < |links|
        invariant Ok() && i <= first
      {
        var takes := TakesView(n, i, prev, entry);
        if takes {
          return;
        }
        i := i + 1;
      }
    }

    method FindWorstView(n: nat, prev: Ref, entry: Entry) returns (worst: Option<nat>)
      requires Ok() && n < |view| && ValidRef(view, prev)
      modifies this`caches, gss`marks
      ensures Ok()
      ensures worst == Worst(view[n].links, DryTakers(gss.nodes, gss.trust, view, strict, n, prev, entry), 0, None)
    {
      var takers := TakersView(n, prev, entry);
      worst := WorstOf(LinksAt(n), takers);
    }

    /** Which links of the node could take the entry. */
    method TakersView(n: nat, prev: Ref, entry: Entry) returns (takers: seq<bool>)
      requires Ok() && n < |view| && ValidRef(view, prev)
      modifies this`caches, gss`marks
      ensures Ok()
      ensures takers == DryTakers(gss.nodes, gss.trust, view, strict, n, prev, entry)
    {
      takers := [];
      ghost var all := DryTakers(gss.nodes, gss.trust, view, strict, n, prev, entry);
      while |takers| < |LinksAt(n)|
        invariant Ok() && |takers| <= |view[n].links| && takers == all[..|takers|]
      {
        var takes := TakesView(n, |takers|, prev, entry);
        takers := takers + [takes];
      }
    }

    method CanAddLinkView(n: nat, prev: Ref, entry: Entry) returns (ok: bool)
      requires Ok() && n < |view| && ValidRef(view, prev) && entry.state == State(view, n)
      modifies this, gss`marks
      ensures Ok()
      ensures Dry(view, strict, seen, ok)
              == CanAddLink(gss.nodes, gss.trust, old(view), old(strict), old(seen), n, prev, entry)
      decreases Pairs(|view|) - seen, 4
    {
      var cycle := CanReachView(prev, At(n));
      if cycle {
        return false;
      }
      var i := FindAbsorberView(n, prev, entry);
      if i < |LinksAt(n)| {
        ok := CanAbsorbView(n, i, prev, entry);
      } else {
        ok := CanPlaceView(n, prev, entry);
      }
    }

    /** An equivalent link exists: the bases must merge, unless they are the same. */
    method CanAbsorbView(n: nat, i: nat, prev: Ref, entry: Entry) returns (ok: bool)
      requires Ok() && n < |view| && ValidRef(view, prev) && i < |view[n].links| && HasLink(view, n, i)
      requires DryAbsorbs(gss.nodes, gss.trust, view, strict, n, i, prev, entry)
      modifies this, gss`marks
      ensures Ok()
      ensures Dry(view, strict, seen, ok)
              == if old(view)[n].links[i].prev == prev then Dry(old(view), old(strict), old(seen), true)
                 else CanMergeNodes(gss.nodes, gss.trust, old(view), old(strict), old(seen), old(view)[n].links[i].prev, prev)
      decreases Pairs(|view|) - seen, 2
    {
      var l := LinksAt(n)[i];
      if l.prev == prev {
        return true;
      }
      ok := CanMergeNodesView(l.prev, prev);
    }

    /** No equivalent link: contend with the worst one of a full node, or stage a new one. */
    method CanPlaceView(n: nat, prev: Ref, entry: Entry) returns (ok: bool)
      requires Ok() && n < |view| && ValidRef(view, prev) && entry.state == State(view, n)
      modifies this, gss`marks
      ensures Ok()
      ensures Dry(view, strict, seen, ok)
              == if |old(view)[n].links| >= LINK_LIMIT
                 then CanReplaceWorst(gss.nodes, gss.trust, old(view), old(strict), old(seen), n, prev, entry)
                 else var s := Stage(gss.nodes, old(view), old(strict), n, Link(prev, entry)); Dry(s.0, s.1, old(seen), true)
      decreases Pairs(|view|) - seen, 3
    {
      if |LinksAt(n)| >= LINK_LIMIT {
        ok := CanReplaceWorstView(n, prev, entry);
        return;
      }
      AddVirtual(n, Link(prev, entry));
      return true;
    }

    method CanReplaceWorstView(n: nat, prev: Ref, entry: Entry) returns (ok: bool)
      requires Ok() && n < |view| && ValidRef(view, prev) && entry.state == State(view, n)
      modifies this, gss`marks
      ensures Ok()
      ensures Dry(view, strict, seen, ok)
              == CanReplaceWorst(gss.nodes, gss.trust, old(view), old(strict), old(seen), n, prev, entry)
      decreases Pairs(|view|) - seen, 2
    {
      var worst := FindWorstView(n, prev, entry);
      var links := LinksAt(n);
      if worst.None? || entry.prec <= links[worst.value].entry.prec {
        return false;
      }
      if links[worst.value].prev == prev {
        return true;
      }
      assert HasLink(view, n, worst.value);
      ok := CanMergeNodesView(links[worst.value].prev, prev);
    }

    method CanMergeNodesView(a: Ref, b: Ref) returns (ok: bool)
      requires Ok() && ValidRef(view, a) && ValidRef(view, b)
      requires a.At? && b.At? ==> State(view, a.id) == State(view, b.id)
      modifies this, gss`marks
      ensures Ok()
      ensures Dry(view, strict, seen, ok)
              == CanMergeNodes(gss.nodes, gss.trust, old(view), old(strict), old(seen), a, b)
      decreases Pairs(|view|) - seen, 1
    {
      if a.Nil? || b.Nil? || a == b {
        return true;
      }
      var cycle := CanReachView(b, a);
      if cycle {
        return false;
      }
      if (a.id, b.id) in seen {
        return true;
      }
      assert (a.id, b.id) in Pairs(|view|);
      seen := seen + {(a.id, b.id)};
      ok := CanMergeLinksView(a.id, b.id);
    }

    method CanMergeLinksView(a: nat, b: nat) returns (ok: bool)
      requires Ok() && a < |view| && b < |view| && State(view, a) == State(view, b)
      modifies this, gss`marks
      ensures Ok()
      ensures Dry(view, strict, seen, ok)
              == CanMergeLinks(gss.nodes, gss.trust, old(view), old(strict), old(seen), a, b, 0, |old(view)[b].links|)
      decreases Pairs(|view|) - seen, 6
    {
      var count := |LinksAt(b)|;
      var i := 0;
      ghost var todo := CanMergeLinks(gss.nodes, gss.trust, view, strict, seen, a, b, 0, count);
      ghost var left := Pairs(|view|) - seen;
      while i < count
        invariant Ok() && a < |view| && b < |view| && Pairs(|view|) - seen <= left
        invariant i <= count <= |view[b].links|
        invariant State(view, a) == State(view, b)
        invariant todo == CanMergeLinks(gss.nodes, gss.trust, view, strict, seen, a, b, i, count)
      {
        ok := RoundView(a, b, i, count, left);
        if !ok {
          return;
        }
        i := i + 1;
      }
      return true;
    }

    /** One round of the link loop: link `i` of `b`, as the view now has it. */
    method RoundView(a: nat, b: nat, i: nat, count: nat, ghost left: set<Pair>) returns (ok: bool)
      requires Ok() && a < |view| && b < |view| && State(view, a) == State(view, b)
      requires i < count <= |view[b].links| && Pairs(|view|) - seen <= left
      modifies this, gss`marks
      ensures Ok() && |view| == old(|view|) && Pairs(|view|) - seen <= left
      ensures State(view, a) == State(view, b) && count <= |view[b].links|
      ensures CanMergeLinks(gss.nodes, gss.trust, old(view), old(strict), old(seen), a, b, i, count)
              == if ok then CanMergeLinks(gss.nodes, gss.trust, view, strict, seen, a, b, i + 1, count)
                 else Dry(view, strict, seen, false)
      decreases left, 5
    {
      ghost var now, was, before := view, strict, seen;
      assert HasLink(view, b, i);
      var l := LinksAt(b)[i];
      ok := CanAddLinkView(a, l.prev, l.entry);
      LoopKept(now, view, a, b, count);
      DryRound(gss.nodes, gss.trust, now, was, before, a, b, i, count, Dry(view, strict, seen, ok));
    }
  }

  /** One round of the dry run's link loop, as the specification unfolds it. */
  lemma {:induction false} DryRound(base: Graph, trust: bool, view: Graph, strict: bool, seen: set<Pair>, a: nat, b: nat, i: nat, count: nat, o: Dry)
    requires Based(base, view) && a < |view| && b < |view| && i < count <= |view[b].links| && State(view, a) == State(view, b)
    requires HasLink(view, b, i) && o == CanAddLink(base, trust, view, strict, seen, a, view[b].links[i].prev, view[b].links[i].entry)
    requires State(o.view, a) == State(o.view, b) && count <= |o.view[b].links|
    ensures CanMergeLinks(base, trust, view, strict, seen, a, b, i, count)
            == if o.ok then CanMergeLinks(base, trust, o.view, o.strict, o.seen, a, b, i + 1, count) else o
  {
  }

  /** The merge of two heads: nothing is written unless the dry run accepts. */
  method MergeHeads(dry: DryRun, a: Ref, b: Ref) returns (ok: bool)
    requires dry.gss.Ok() && Reusable(dry.caches)
    requires Mergeable(dry.gss.nodes, a, b) && HeadsClean(dry.gss.nodes, a, b)
    modifies dry, dry.gss
    ensures dry.gss.Ok() && Reusable(dry.caches)
    ensures var r := MainMerge(old(dry.gss.nodes), dry.gss.trust, a, b); dry.gss.nodes == r.g && ok == r.ok
  {
    ghost var g := dry.gss.nodes;
    if a.Nil? || b.Nil? {
      return false;
    }
    if a == b {
      return true;
    }
    dry.Reset();
    ok := dry.CanMergeNodesView(a, b);
    if ok {
      ghost var s := HeadsInside(g, a.id, b.id);
      dry.gss.seen := {};
      ok := dry.gss.MergeNodesNow(a, b, s);
    }
  }

  /** The main merge of two stack heads that passed the merge gate: same state, both clean.
      The pooled dry run is made as new first and is ready for the next merge after. */
  method MainMergeNow(dry: DryRun, a: Ref, b: Ref) returns (ok: bool)
    requires dry.gss.Ok() && Reusable(dry.caches)
    requires Mergeable(dry.gss.nodes, a, b) && HeadsClean(dry.gss.nodes, a, b)
    modifies dry, dry.gss
    ensures dry.gss.Ok() && Reusable(dry.caches)
    ensures dry.gss.nodes == MainMerge(old(dry.gss.nodes), dry.gss.trust, a, b).g
    ensures ok == MainMerge(old(dry.gss.nodes), dry.gss.trust, a, b).ok
    ensures a.At? && b.At? && OrderedOn(old(dry.gss.nodes), BelowHeads(old(dry.gss.nodes), a.id, b.id)) && !ok ==>
      dry.gss.nodes == old(dry.gss.nodes)
  {
    ghost var g := dry.gss.nodes;
    ok := MergeHeads(dry, a, b);
    if a.At? && b.At? && OrderedOn(g, BelowHeads(g, a.id, b.id)) {
      AllOrNothing(g, dry.gss.trust, a, b);
    }
  }

  /** Two merges in a row through one pooled dry run, the second of whatever heads pass the
      gate by then. */
  method MergeTwice(dry: DryRun, a: Ref, b: Ref, c: Ref, d: Ref) returns (first: bool, second: bool)
    requires dry.gss.Ok() && Reusable(dry.caches)
    requires Mergeable(dry.gss.nodes, a, b) && HeadsClean(dry.gss.nodes, a, b)
    requires var g := MainMerge(dry.gss.nodes, dry.gss.trust, a, b).g; Mergeable(g, c, d) && HeadsClean(g, c, d)
    modifies dry, dry.gss
    ensures dry.gss.Ok() && Reusable(dry.caches)
    ensures var r := MainMerge(old(dry.gss.nodes), dry.gss.trust, a, b);
            var q := MainMerge(r.g, dry.gss.trust, c, d);
            first == r.ok && second == q.ok && dry.gss.nodes == q.g
  {
    first := MainMergeNow(dry, a, b);
    second := MainMergeNow(dry, c, d);
  }
}
