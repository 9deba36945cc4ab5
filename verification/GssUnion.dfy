/** What a node merge means for paths: a successful merge of `b` into `a` makes every
    path of `b` a path of `a`, no node loses a path, and no link is invented. */
module GssUnion {
  import opened Wrappers
  import opened GssGraph
  import opened GssMerge
  import opened GssRise

  // ----- the fallback at a full node ----------------------------------------

  lemma {:induction false} NoWorst(links: seq<Link>, takes: seq<bool>, i: nat)
    requires |takes| == |links| && i <= |links|
    requires forall k: nat :: k < |links| ==> !takes[k]
    ensures Worst(links, takes, i, None).None?
    decreases |links| - i
  {
    if i < |links| {
      NoWorst(links, takes, i + 1);
    }
  }

  /** At a full node the replace-worst fallback never fires: whatever it would accept,
      the link loop before it has absorbed. */
  lemma ReplaceWorstNeverFires(g: Graph, trust: bool, seen: set<Pair>, n: nat, prev: Ref, entry: Entry)
    requires Valid(g) && n < |g| && ValidRef(g, prev) && entry.state == State(g, n)
    requires Absorber(g, trust, n, 0, prev, entry) == |g[n].links|
    ensures ReplaceWorst(g, trust, seen, n, prev, entry) == Outcome(g, seen, false)
  {
    NoWorst(g[n].links, Takers(g, trust, n, prev, entry), 0);
  }

  /** An addition fails exactly when it would close a cycle, when the node is full and no
      link absorbs the new one, or when the merge it hands over to fails. */
  lemma AddLinkFailure(g: Graph, trust: bool, seen: set<Pair>, n: nat, prev: Ref, entry: Entry)
    requires Valid(g) && n < |g| && ValidRef(g, prev) && entry.state == State(g, n)
    ensures !AddLink(g, trust, seen, n, prev, entry).ok <==>
              (prev.At? && Reaches(g, prev.id, n))
              || var i := Absorber(g, trust, n, 0, prev, entry);
                 if i == |g[n].links| then |g[n].links| >= LINK_LIMIT
                 else g[n].links[i].prev != prev && !MergeNodes(g, trust, seen, g[n].links[i].prev, prev).ok
  {
    if Absorber(g, trust, n, 0, prev, entry) == |g[n].links| {
      ReplaceWorstNeverFires(g, trust, seen, n, prev, entry);
    }
  }

  // ----- absorbed links -----------------------------------------------------

  ghost predicate TakenAt(h: Graph, seen: set<Pair>, x: nat, j: nat, prev: Ref, entry: Entry) {
    && HasLink(h, x, j)
    && AtLeast(h[x].links[j].entry, entry)
    && (h[x].links[j].prev == prev
        || (h[x].links[j].prev.At? && prev.At? && (h[x].links[j].prev.id, prev.id) in seen))
  }

  /** Node `x` of `h` has a link in the class of `entry` and of no lower precedence, to `prev`
      itself or to a node that `prev` was merged into. */
  ghost predicate Taken(h: Graph, seen: set<Pair>, x: nat, prev: Ref, entry: Entry) {
    exists j: nat :: TakenAt(h, seen, x, j, prev, entry)
  }

  /** Every link `y` had in `g` is taken by `x` in `h`. */
  ghost predicate Absorbed(g: Graph, h: Graph, seen: set<Pair>, x: nat, y: nat) {
    forall i: nat :: HasLink(g, y, i) ==> Taken(h, seen, x, g[y].links[i].prev, g[y].links[i].entry)
  }

  /** Every pair the step added to the seen set is absorbed. */
  ghost predicate NewPairsAbsorbed(g: Graph, seen: set<Pair>, r: Outcome) {
    forall x: nat, y: nat :: (x, y) in r.seen && (x, y) !in seen ==> Absorbed(g, r.g, r.seen, x, y)
  }

  lemma TakenGrows(h: Graph, seen: set<Pair>, k: Graph, more: set<Pair>, x: nat, prev: Ref, entry: Entry)
    requires Taken(h, seen, x, prev, entry) && Extends(h, k) && Rises(h, k) && seen <= more
    ensures Taken(k, more, x, prev, entry)
  {
    var j: nat :| TakenAt(h, seen, x, j, prev, entry);
    assert LinkKept(h, k, x, j) && LinkRises(h, k, x, j);
    assert TakenAt(k, more, x, j, prev, entry);
  }

  lemma AbsorbedGrows(g0: Graph, g: Graph, h: Graph, seen: set<Pair>, k: Graph, more: set<Pair>, x: nat, y: nat)
    requires Absorbed(g, h, seen, x, y) && Extends(g0, g) && Extends(h, k) && seen <= more
    requires Rises(g0, g) && Rises(h, k)
    ensures Absorbed(g0, k, more, x, y)
  {
    forall i: nat | HasLink(g0, y, i)
      ensures Taken(k, more, x, g0[y].links[i].prev, g0[y].links[i].entry)
    {
      assert LinkKept(g0, g, y, i) && LinkRises(g0, g, y, i);
      TakenGrows(h, seen, k, more, x, g[y].links[i].prev, g[y].links[i].entry);
      var j: nat :| TakenAt(k, more, x, j, g[y].links[i].prev, g[y].links[i].entry);
      assert TakenAt(k, more, x, j, g0[y].links[i].prev, g0[y].links[i].entry);
    }
  }

  lemma ExtendsRefl(g: Graph)
    ensures Extends(g, g)
  {
  }

  lemma NewPairsCompose(g: Graph, seen: set<Pair>, o: Outcome, r: Outcome)
    requires Keeps(g, seen, o) && Keeps(o.g, o.seen, r) && Rises(g, o.g) && Rises(o.g, r.g)
    requires NewPairsAbsorbed(g, seen, o) && NewPairsAbsorbed(o.g, o.seen, r)
    ensures NewPairsAbsorbed(g, seen, r)
  {
    forall x: nat, y: nat | (x, y) in r.seen && (x, y) !in seen
      ensures Absorbed(g, r.g, r.seen, x, y)
    {
      if (x, y) in o.seen {
        ExtendsRefl(g);
        AbsorbedGrows(g, g, o.g, o.seen, r.g, r.seen, x, y);
      } else {
        ExtendsRefl(r.g);
        AbsorbedGrows(g, o.g, r.g, r.seen, r.g, r.seen, x, y);
      }
    }
  }

  // ----- the induction over the merge ---------------------------------------

  lemma {:induction false} AddLinkTakes(g: Graph, trust: bool, seen: set<Pair>, n: nat, prev: Ref, entry: Entry)
    requires Valid(g) && n < |g| && ValidRef(g, prev) && entry.state == State(g, n)
    requires AddLink(g, trust, seen, n, prev, entry).ok
    ensures var r := AddLink(g, trust, seen, n, prev, entry);
            Taken(r.g, r.seen, n, prev, entry) && NewPairsAbsorbed(g, seen, r)
    decreases Pairs(|g|) - seen, 4, 0
  {
    var r := AddLink(g, trust, seen, n, prev, entry);
    var i := Absorber(g, trust, n, 0, prev, entry);
    if i < |g[n].links| {
      AbsorbTakes(g, trust, seen, n, i, prev, entry);
    } else if |g[n].links| >= LINK_LIMIT {
      ReplaceWorstNeverFires(g, trust, seen, n, prev, entry);
      assert false;
    } else {
      assert TakenAt(r.g, r.seen, n, |g[n].links|, prev, entry);
    }
  }

  lemma {:induction false} AbsorbTakes(g: Graph, trust: bool, seen: set<Pair>, n: nat, i: nat, prev: Ref, entry: Entry)
    requires Valid(g) && HasLink(g, n, i) && ValidRef(g, prev) && entry.state == State(g, n)
    requires Absorbs(g, trust, n, i, prev, entry) && (prev.At? ==> !Reaches(g, prev.id, n))
    requires AbsorbInto(g, trust, seen, n, i, prev, entry).ok
    ensures var r := AbsorbInto(g, trust, seen, n, i, prev, entry);
            Taken(r.g, r.seen, n, prev, entry) && NewPairsAbsorbed(g, seen, r)
    decreases Pairs(|g|) - seen, 2, 0
  {
    var r := AbsorbInto(g, trust, seen, n, i, prev, entry);
    var was := g[n].links[i];
    var m := if was.prev == prev then Outcome(g, seen, true) else MergeNodes(g, trust, seen, was.prev, prev);
    if was.prev != prev {
      MergeNodesAbsorbs(g, trust, seen, was.prev, prev);
      MergeNodesRises(g, trust, seen, was.prev, prev);
      HeadStays(g, trust, seen, n, i, prev);
    }
    assert LinkKept(g, m.g, n, i);
    UpgradeTakes(g, seen, m, r.g, n, i, was.entry.prec, prev, entry);
  }

  lemma UpgradeTakes(g: Graph, seen: set<Pair>, m: Outcome, h: Graph, n: nat, i: nat, incumbent: int, prev: Ref, entry: Entry)
    requires Keeps(g, seen, m) && HasLink(g, n, i) && HasLink(m.g, n, i) && SameClass(g[n].links[i].entry, entry)
    requires SameClass(m.g[n].links[i].entry, entry) && h == Upgrade(m.g, n, i, incumbent, entry)
    requires incumbent == g[n].links[i].entry.prec == m.g[n].links[i].entry.prec && Rises(g, m.g)
    requires NewPairsAbsorbed(g, seen, m)
    requires g[n].links[i].prev == prev || (g[n].links[i].prev.At? && prev.At? && (g[n].links[i].prev.id, prev.id) in m.seen)
    ensures Taken(h, m.seen, n, prev, entry) && NewPairsAbsorbed(g, seen, m.(g := h))
  {
    assert LinkKept(g, m.g, n, i);
    assert LinkKept(m.g, h, n, i);
    assert TakenAt(h, m.seen, n, i, prev, entry);
    forall x: nat, y: nat | (x, y) in m.seen && (x, y) !in seen
      ensures Absorbed(g, h, m.seen, x, y)
    {
      ExtendsRefl(g);
      AbsorbedGrows(g, g, m.g, m.seen, h, m.seen, x, y);
    }
  }

  lemma {:induction false} MergeNodesAbsorbs(g: Graph, trust: bool, seen: set<Pair>, a: Ref, b: Ref)
    requires Valid(g) && ValidRef(g, a) && ValidRef(g, b)
    requires a.At? && b.At? ==> State(g, a.id) == State(g, b.id)
    requires MergeNodes(g, trust, seen, a, b).ok
    ensures var r := MergeNodes(g, trust, seen, a, b);
            && NewPairsAbsorbed(g, seen, r)
            && (a.At? && b.At? && a != b ==> (a.id, b.id) in r.seen)
    decreases Pairs(|g|) - seen, 1, 0
  {
    if a.At? && b.At? && a != b && (a.id, b.id) !in seen {
      assert (a.id, b.id) in Pairs(|g|);
      MergeLinksAbsorb(g, trust, seen + {(a.id, b.id)}, a.id, b.id, 0, |g[b.id].links|, true);
    }
  }

  lemma {:induction false} MergeLinksAbsorb(g: Graph, trust: bool, seen: set<Pair>, a: nat, b: nat, i: nat, count: nat, ok: bool)
    requires Valid(g) && a < |g| && b < |g| && i <= count <= |g[b].links|
    requires State(g, a) == State(g, b)
    requires MergeLinks(g, trust, seen, a, b, i, count, ok).ok
    ensures var r := MergeLinks(g, trust, seen, a, b, i, count, ok);
            && ok
            && NewPairsAbsorbed(g, seen, r)
            && LinksTaken(g, r, a, b, i, count)
    decreases Pairs(|g|) - seen, 5, count - i
  {
    if i < count {
      var r := MergeLinks(g, trust, seen, a, b, i, count, ok);
      assert HasLink(g, b, i);
      var o := AddLink(g, trust, seen, a, g[b].links[i].prev, g[b].links[i].entry);
      assert Pairs(|g|) - o.seen <= Pairs(|g|) - seen;
      LoopKept(g, o.g, a, b, count);
      MergeLinksAbsorb(o.g, trust, o.seen, a, b, i + 1, count, ok && o.ok);
      AddLinkRises(g, trust, seen, a, g[b].links[i].prev, g[b].links[i].entry);
      MergeLinksRises(o.g, trust, o.seen, a, b, i + 1, count, ok && o.ok);
      AddLinkTakes(g, trust, seen, a, g[b].links[i].prev, g[b].links[i].entry);
      RoundTakes(g, seen, o, r, a, b, i, count);
    }
  }

  /** Links `i` up to `count` of `b`, as `g` has them, are taken by `a`. */
  ghost predicate LinksTaken(g: Graph, r: Outcome, a: nat, b: nat, i: nat, count: nat)
    requires b < |g| && count <= |g[b].links|
  {
    forall k: nat :: i <= k < count ==> Taken(r.g, r.seen, a, g[b].links[k].prev, g[b].links[k].entry)
  }

  /** One round of the link loop and the rest of it, put together. */
  lemma {:induction false} RoundTakes(g: Graph, seen: set<Pair>, o: Outcome, r: Outcome, a: nat, b: nat, i: nat, count: nat)
    requires Keeps(g, seen, o) && Keeps(o.g, o.seen, r) && Rises(g, o.g) && Rises(o.g, r.g)
    requires b < |g| && b < |o.g| && i < count <= |g[b].links| && count <= |o.g[b].links|
    requires Taken(o.g, o.seen, a, g[b].links[i].prev, g[b].links[i].entry) && NewPairsAbsorbed(g, seen, o)
    requires NewPairsAbsorbed(o.g, o.seen, r) && LinksTaken(o.g, r, a, b, i + 1, count)
    ensures NewPairsAbsorbed(g, seen, r) && LinksTaken(g, r, a, b, i, count)
  {
    NewPairsCompose(g, seen, o, r);
    TakenGrows(o.g, o.seen, r.g, r.seen, a, g[b].links[i].prev, g[b].links[i].entry);
    forall k: nat | i <= k < count
      ensures Taken(r.g, r.seen, a, g[b].links[k].prev, g[b].links[k].entry)
    {
      if i < k {
        assert HasLink(g, b, k) && HasLink(o.g, b, k);
        TakenBefore(g, o.g, r, a, b, k);
      }
    }
  }

  /** Taking a link of the grown graph takes the link it grew from. */
  lemma TakenBefore(g: Graph, h: Graph, r: Outcome, a: nat, b: nat, k: nat)
    requires Extends(g, h) && Rises(g, h) && HasLink(g, b, k) && HasLink(h, b, k)
    requires Taken(r.g, r.seen, a, h[b].links[k].prev, h[b].links[k].entry)
    ensures Taken(r.g, r.seen, a, g[b].links[k].prev, g[b].links[k].entry)
  {
    assert LinkKept(g, h, b, k) && LinkRises(g, h, b, k);
    var j: nat :| TakenAt(r.g, r.seen, a, j, h[b].links[k].prev, h[b].links[k].entry);
    assert TakenAt(r.g, r.seen, a, j, g[b].links[k].prev, g[b].links[k].entry);
  }

  // ----- path union ---------------------------------------------------------

  lemma {:induction false} AbsorbedPath(g: Graph, h: Graph, seen: set<Pair>, x: nat, y: nat, cs: seq<Entry>, whole: bool)
    requires Extends(g, h) && Rises(g, h) && (x, y) in seen
    requires forall u: nat, v: nat :: (u, v) in seen ==> Absorbed(g, h, seen, u, v)
    requires Path(g, At(y), cs, whole)
    ensures Path(h, At(x), cs, whole)
    decreases |cs|
  {
    if cs != [] {
      var i: nat :| HasLink(g, y, i) && PathVia(g, y, i, cs, whole);
      var l := g[y].links[i];
      assert Taken(h, seen, x, l.prev, l.entry);
      var j: nat :| TakenAt(h, seen, x, j, l.prev, l.entry);
      if h[x].links[j].prev == l.prev {
        PathGrows(g, h, l.prev, cs[1..], whole);
      } else {
        AbsorbedPath(g, h, seen, h[x].links[j].prev.id, l.prev.id, cs[1..], whole);
      }
      assert PathVia(h, x, j, cs, whole);
    }
  }

  /** Path union: after a successful merge of `b` into `a`, started with nothing seen,
      every path of `b` is a path of `a`, and every path of any node is still there, link by
      link with no lower precedence. */
  lemma PathUnion(g: Graph, trust: bool, a: nat, b: nat, cs: seq<Entry>, whole: bool)
    requires Valid(g) && a < |g| && b < |g| && State(g, a) == State(g, b)
    requires MergeNodes(g, trust, {}, At(a), At(b)).ok
    ensures var h := MergeNodes(g, trust, {}, At(a), At(b)).g;
            && (Path(g, At(b), cs, whole) ==> Path(h, At(a), cs, whole))
            && (forall r: Ref :: Path(g, r, cs, whole) ==> Path(h, r, cs, whole))
  {
    var r := MergeNodes(g, trust, {}, At(a), At(b));
    MergeNodesAbsorbs(g, trust, {}, At(a), At(b));
    MergeNodesRises(g, trust, {}, At(a), At(b));
    forall q: Ref | Path(g, q, cs, whole)
      ensures Path(r.g, q, cs, whole)
    {
      PathGrows(g, r.g, q, cs, whole);
    }
    if a != b && Path(g, At(b), cs, whole) {
      AbsorbedPath(g, r.g, r.seen, a, b, cs, whole);
    }
  }

  /** No merge, whether it succeeds or fails, loses a path anywhere. */
  lemma NoPathLost(g: Graph, trust: bool, seen: set<Pair>, a: Ref, b: Ref, q: Ref, cs: seq<Entry>, whole: bool)
    requires Valid(g) && ValidRef(g, a) && ValidRef(g, b)
    requires a.At? && b.At? ==> State(g, a.id) == State(g, b.id)
    requires Path(g, q, cs, whole)
    ensures Path(MergeNodes(g, trust, seen, a, b).g, q, cs, whole)
  {
    MergeNodesRises(g, trust, seen, a, b);
    PathGrows(g, MergeNodes(g, trust, seen, a, b).g, q, cs, whole);
  }

  // ----- no invention -------------------------------------------------------

  ghost predicate FromLink(g: Graph, m: nat, i: nat, l: Link) {
    HasLink(g, m, i) && g[m].links[i].prev == l.prev && SameClass(g[m].links[i].entry, l.entry)
  }

  ghost predicate Known(g: Graph, l: Link) {
    exists m: nat, i: nat :: FromLink(g, m, i, l)
  }

  ghost predicate HasEntry(g: Graph, m: nat, i: nat, e: Entry) {
    HasLink(g, m, i) && g[m].links[i].entry == e
  }

  /** Some link of `g` carries this very entry, precedence and node included. */
  ghost predicate EntryKnown(g: Graph, e: Entry) {
    exists m: nat, i: nat :: HasEntry(g, m, i, e)
  }

  ghost predicate LinkKnown(g: Graph, h: Graph, n: nat, j: nat) {
    HasLink(h, n, j) ==> Known(g, h[n].links[j]) && EntryKnown(g, h[n].links[j].entry)
  }

  /** Every link of `h` goes where some link of `g` went, in the same class, with an entry that
      some link of `g` carried. */
  ghost predicate Sourced(g: Graph, h: Graph) {
    forall n: nat, j: nat :: LinkKnown(g, h, n, j)
  }

  lemma SourcedSelf(g: Graph)
    ensures Sourced(g, g)
  {
    forall n: nat, j: nat
      ensures LinkKnown(g, g, n, j)
    {
      if HasLink(g, n, j) {
        assert FromLink(g, n, j, g[n].links[j]);
        assert HasEntry(g, n, j, g[n].links[j].entry);
      }
    }
  }

  lemma SourcedUpgrade(g: Graph, k: Graph, n: nat, i: nat, incumbent: int, entry: Entry)
    requires Sourced(g, k) && Valid(k) && HasLink(k, n, i) && SameClass(k[n].links[i].entry, entry) && EntryKnown(g, entry)
    ensures Sourced(g, Upgrade(k, n, i, incumbent, entry))
  {
    var h := Upgrade(k, n, i, incumbent, entry);
    forall x: nat, j: nat
      ensures LinkKnown(g, h, x, j)
    {
      if HasLink(h, x, j) {
        assert LinkKept(h, k, x, j);
        assert LinkKnown(g, k, x, j);
        var p: nat, q: nat :| FromLink(g, p, q, k[x].links[j]);
        assert FromLink(g, p, q, h[x].links[j]);
        assert h[x].links[j].entry == k[x].links[j].entry || h[x].links[j].entry == entry;
      }
    }
  }

  lemma SourcedTransitive(g: Graph, h: Graph, k: Graph)
    requires Sourced(g, h) && Sourced(h, k)
    ensures Sourced(g, k)
  {
    forall n: nat, j: nat
      ensures LinkKnown(g, k, n, j)
    {
      if HasLink(k, n, j) {
        assert LinkKnown(h, k, n, j);
        var m: nat, i: nat :| FromLink(h, m, i, k[n].links[j]);
        assert LinkKnown(g, h, m, i);
        var p: nat, q: nat :| FromLink(g, p, q, h[m].links[i]);
        assert FromLink(g, p, q, k[n].links[j]);
        var x: nat, y: nat :| HasEntry(h, x, y, k[n].links[j].entry);
        assert LinkKnown(g, h, x, y);
      }
    }
  }

  lemma AppendSourced(g: Graph, n: nat, l: Link)
    requires Valid(g) && n < |g| && ValidRef(g, l.prev) && l.entry.state == State(g, n)
    requires l.prev.At? ==> !Reaches(g, l.prev.id, n)
    requires Known(g, l) && EntryKnown(g, l.entry)
    ensures Sourced(g, AppendLink(g, n, l))
  {
    var h := AppendLink(g, n, l);
    SourcedSelf(g);
    forall x: nat, j: nat
      ensures LinkKnown(g, h, x, j)
    {
      if HasLink(g, x, j) {
        assert LinkKnown(g, g, x, j);
      }
    }
  }

  lemma {:induction false} AddLinkSourced(g: Graph, trust: bool, seen: set<Pair>, n: nat, prev: Ref, entry: Entry)
    requires Valid(g) && n < |g| && ValidRef(g, prev) && entry.state == State(g, n)
    requires Known(g, Link(prev, entry)) && EntryKnown(g, entry)
    ensures Sourced(g, AddLink(g, trust, seen, n, prev, entry).g)
    decreases Pairs(|g|) - seen, 4, 0
  {
    var i := Absorber(g, trust, n, 0, prev, entry);
    SourcedSelf(g);
    if prev.At? && Reaches(g, prev.id, n) {
    } else if i < |g[n].links| {
      var was := g[n].links[i];
      if was.prev == prev {
        SourcedUpgrade(g, g, n, i, was.entry.prec, entry);
      } else {
        var m := MergeNodes(g, trust, seen, was.prev, prev);
        MergeNodesSourced(g, trust, seen, was.prev, prev);
        if m.ok {
          assert LinkKept(g, m.g, n, i);
          SourcedUpgrade(g, m.g, n, i, was.entry.prec, entry);
        }
      }
    } else if |g[n].links| >= LINK_LIMIT {
      ReplaceWorstNeverFires(g, trust, seen, n, prev, entry);
    } else {
      AppendSourced(g, n, Link(prev, entry));
    }
  }

  /** A merge invents nothing: each link of the outcome leads where some link led before with an
      entry of the same state and payload class, and carries an entry that some link carried. */
  lemma {:induction false} MergeNodesSourced(g: Graph, trust: bool, seen: set<Pair>, a: Ref, b: Ref)
    requires Valid(g) && ValidRef(g, a) && ValidRef(g, b)
    requires a.At? && b.At? ==> State(g, a.id) == State(g, b.id)
    ensures Sourced(g, MergeNodes(g, trust, seen, a, b).g)
    decreases Pairs(|g|) - seen, 1, 0
  {
    SourcedSelf(g);
    if a.At? && b.At? && a != b && (a.id, b.id) !in seen && !Reaches(g, b.id, a.id) {
      assert (a.id, b.id) in Pairs(|g|);
      MergeLinksSourced(g, trust, seen + {(a.id, b.id)}, a.id, b.id, 0, |g[b.id].links|, true);
    }
  }

  lemma {:induction false} MergeLinksSourced(g: Graph, trust: bool, seen: set<Pair>, a: nat, b: nat, i: nat, count: nat, ok: bool)
    requires Valid(g) && a < |g| && b < |g| && i <= count <= |g[b].links|
    requires State(g, a) == State(g, b)
    ensures Sourced(g, MergeLinks(g, trust, seen, a, b, i, count, ok).g)
    decreases Pairs(|g|) - seen, 5, count - i
  {
    if i == count {
      SourcedSelf(g);
    } else {
      assert HasLink(g, b, i);
      assert FromLink(g, b, i, Link(g[b].links[i].prev, g[b].links[i].entry));
      assert HasEntry(g, b, i, g[b].links[i].entry);
      var o := AddLink(g, trust, seen, a, g[b].links[i].prev, g[b].links[i].entry);
      AddLinkSourced(g, trust, seen, a, g[b].links[i].prev, g[b].links[i].entry);
      assert Pairs(|g|) - o.seen <= Pairs(|g|) - seen;
      LoopKept(g, o.g, a, b, count);
      MergeLinksSourced(o.g, trust, o.seen, a, b, i + 1, count, ok && o.ok);
      SourcedTransitive(g, o.g, MergeLinks(g, trust, seen, a, b, i, count, ok).g);
    }
  }
}
