/** What the offset test of a merge means: all ways down from a node end at one byte.  A way
    down ends at the first payload it meets, or at byte 0 at the bottom of the stack. */
module GssOffsets {
  import opened Wrappers
  import opened GssGraph
  import opened GssMerge
  import opened GssUnion
  import opened GssPreflight

  /** Some way down from `r` ends at byte `e`. */
  ghost predicate EndsAt(g: Graph, r: Ref, e: nat)
    requires Valid(g) && ValidRef(g, r)
    decreases if r.Nil? then {} else ReachSet(g, r.id), r.At?, 1
  {
    if r.Nil? then e == 0
    else exists i: nat :: HasLink(g, r.id, i) && LinkEndsAt(g, r.id, i, e)
  }

  ghost predicate LinkEndsAt(g: Graph, n: nat, i: nat, e: nat)
    requires Valid(g) && HasLink(g, n, i)
    decreases ReachSet(g, n), true, 0
  {
    var l := g[n].links[i];
    if l.entry.payload.Payload? then l.entry.payload.endByte == e
    else
      assert ValidRef(g, l.prev);
      assert l.prev.Nil? ==> {} < ReachSet(g, n) by { ReachSetClosed(g, n); }
      assert l.prev.At? ==> ReachSet(g, l.prev.id) < ReachSet(g, n) by {
        if l.prev.At? { LinkShrinksReach(g, n, i); }
      }
      EndsAt(g, l.prev, e)
  }

  /** The chain of primary links is one way down. */
  lemma {:induction false} PrimaryEnds(g: Graph, r: Ref)
    requires Valid(g) && ValidRef(g, r)
    ensures EndsAt(g, r, ByteOffset(g, r))
    decreases if r.Nil? then {} else ReachSet(g, r.id), r.At?
  {
    if r.At? {
      assert HasLink(g, r.id, 0);
      var l := g[r.id].links[0];
      if l.entry.payload.NoPayload? {
        ReachSetClosed(g, r.id);
        if l.prev.At? {
          LinkShrinksReach(g, r.id, 0);
        }
        assert ValidRef(g, l.prev);
        PrimaryEnds(g, l.prev);
      }
      assert LinkEndsAt(g, r.id, 0, ByteOffset(g, r));
    }
  }

  /** All ways down from `r` end at one byte. */
  ghost predicate OneEnd(g: Graph, r: Ref)
    requires Valid(g) && ValidRef(g, r)
  {
    forall e: nat, f: nat :: EndsAt(g, r, e) && EndsAt(g, r, f) ==> e == f
  }

  lemma OneEndIsPrimary(g: Graph, r: Ref, e: nat)
    requires Valid(g) && ValidRef(g, r) && OneEnd(g, r) && EndsAt(g, r, e)
    ensures e == ByteOffset(g, r)
  {
    PrimaryEnds(g, r);
  }

  /** The nodes a walk has finished with have one end each; those still open lie above `r`. */
  ghost predicate Settled(g: Graph, seen: set<nat>, open: set<nat>)
    requires Valid(g)
  {
    forall n: nat {:trigger n in seen} :: n in seen && n !in open && n < |g| ==> OneEnd(g, At(n))
  }

  ghost predicate Above(g: Graph, open: set<nat>, r: Ref) {
    forall n: nat {:trigger n in open} :: n in open && r.At? ==> !Reaches(g, r.id, n)
  }

  /** What an offset walk from `r` should find. */
  ghost predicate Tells(g: Graph, r: Ref, o: Offset, open: set<nat>)
    requires Valid(g) && ValidRef(g, r)
  {
    && (o.ok <==> OneEnd(g, r))
    && (o.ok ==> o.offset == ByteOffset(g, r) && Settled(g, o.seen, open))
  }

  lemma {:induction false} WalkTells(base: Graph, g: Graph, r: Ref, seen: set<nat>, open: set<nat>)
    requires Valid(base) && Valid(g) && Extends(base, g) && ValidRef(g, r)
    requires Settled(g, seen, open) && Above(g, open, r)
    ensures Tells(g, r, UniformOffset(base, g, r, seen), open)
    decreases Ids(|g|) - seen, 0, 0
  {
    if r.At? {
      ByteOffsetKept(base, g, r);
      if r.id !in seen {
        assert r.id in Ids(|g|);
        OpenAbove(g, r.id, open);
        LinksTell(base, g, r.id, 0, None, seen + {r.id}, open + {r.id});
        Closing(g, r.id, UniformOffset(base, g, r, seen), open);
      }
    }
  }

  /** What is open above `n` is above its predecessors, and so is `n`. */
  lemma {:induction false} OpenAbove(g: Graph, n: nat, open: set<nat>)
    requires Valid(g) && n < |g| && Above(g, open, At(n))
    ensures forall k: nat :: HasLink(g, n, k) ==> Above(g, open + {n}, g[n].links[k].prev)
  {
    forall k: nat, x: nat | HasLink(g, n, k) && x in open + {n} && g[n].links[k].prev.At?
      ensures !Reaches(g, g[n].links[k].prev.id, x)
    {
      var p := g[n].links[k].prev.id;
      assert LinkGoesDown(g, n, k);
      LinkReaches(g, n, k);
      if x != n && Reaches(g, p, x) {
        ReachesTransitive(g, n, p, x);
      }
    }
  }

  /** A node found to have one end may be closed. */
  lemma {:induction false} Closing(g: Graph, n: nat, o: Offset, open: set<nat>)
    requires Valid(g) && n < |g| && (o.ok ==> OneEnd(g, At(n)) && Settled(g, o.seen, open + {n}))
    ensures o.ok ==> Settled(g, o.seen, open)
  {
  }

  /** The first `i` links of `n` all end at `acc`. */
  ghost predicate EndSoFar(g: Graph, n: nat, i: nat, acc: Option<nat>)
    requires Valid(g) && n < |g|
  {
    && (acc.Some? <==> i > 0)
    && forall k: nat, e: nat :: k < i && HasLink(g, n, k) && LinkEndsAt(g, n, k, e) ==> acc == Some(e)
  }

  /** What the walk finds for one link. */
  ghost predicate LinkTold(g: Graph, n: nat, i: nat, o: Offset)
    requires Valid(g) && HasLink(g, n, i)
  {
    if o.ok then LinkEndsAt(g, n, i, o.offset) && forall e: nat :: LinkEndsAt(g, n, i, e) ==> e == o.offset
    else exists e: nat, f: nat :: e != f && LinkEndsAt(g, n, i, e) && LinkEndsAt(g, n, i, f)
  }

  lemma {:induction false} LinkFound(g: Graph, n: nat, i: nat, o: Offset, open: set<nat>)
    requires Valid(g) && HasLink(g, n, i) && ValidRef(g, g[n].links[i].prev)
    requires var l := g[n].links[i];
      if l.entry.payload.Payload? then o.ok && o.offset == l.entry.payload.endByte else Tells(g, l.prev, o, open)
    ensures LinkTold(g, n, i, o)
  {
    var l := g[n].links[i];
    if l.entry.payload.NoPayload? {
      PrimaryEnds(g, l.prev);
      if o.ok {
        forall e: nat | LinkEndsAt(g, n, i, e)
          ensures e == o.offset
        {
          OneEndIsPrimary(g, l.prev, e);
        }
      } else {
        var e: nat, f: nat :| EndsAt(g, l.prev, e) && EndsAt(g, l.prev, f) && e != f;
        assert LinkEndsAt(g, n, i, e) && LinkEndsAt(g, n, i, f);
      }
    }
  }

  /** Every link has an end. */
  lemma {:induction false} LinkHasEnd(g: Graph, n: nat, i: nat) returns (e: nat)
    requires Valid(g) && HasLink(g, n, i)
    ensures LinkEndsAt(g, n, i, e)
  {
    var l := g[n].links[i];
    assert ValidRef(g, l.prev);
    if l.entry.payload.Payload? {
      e := l.entry.payload.endByte;
    } else {
      e := ByteOffset(g, l.prev);
      PrimaryEnds(g, l.prev);
    }
  }

  lemma {:induction false} TwoEnds(g: Graph, n: nat, i: nat, acc: Option<nat>, o: Offset)
    requires Valid(g) && HasLink(g, n, i) && EndSoFar(g, n, i, acc) && LinkTold(g, n, i, o)
    requires !o.ok || (acc.Some? && acc.value != o.offset)
    ensures !OneEnd(g, At(n))
  {
    if !o.ok {
      var e: nat, f: nat :| e != f && LinkEndsAt(g, n, i, e) && LinkEndsAt(g, n, i, f);
      assert EndsAt(g, At(n), e) && EndsAt(g, At(n), f);
    } else {
      assert HasLink(g, n, 0);
      var e := LinkHasEnd(g, n, 0);
      assert EndsAt(g, At(n), e) && EndsAt(g, At(n), o.offset);
    }
  }

  lemma {:induction false} AllLinksEnd(g: Graph, n: nat, acc: Option<nat>)
    requires Valid(g) && n < |g| && EndSoFar(g, n, |g[n].links|, acc) && |g[n].links| > 0
    ensures OneEnd(g, At(n)) && acc == Some(ByteOffset(g, At(n)))
  {
    forall e: nat | EndsAt(g, At(n), e)
      ensures acc == Some(e)
    {
      var i: nat :| HasLink(g, n, i) && LinkEndsAt(g, n, i, e);
    }
    PrimaryEnds(g, At(n));
  }

  lemma {:induction false} LinksTell(base: Graph, g: Graph, n: nat, i: nat, acc: Option<nat>, seen: set<nat>, open: set<nat>)
    requires Valid(base) && Valid(g) && Extends(base, g) && n < |g| && i <= |g[n].links|
    requires Settled(g, seen, open) && n in open && EndSoFar(g, n, i, acc)
    requires forall k: nat :: HasLink(g, n, k) ==> Above(g, open, g[n].links[k].prev)
    ensures Tells(g, At(n), UniformLinks(base, g, n, i, acc, seen), open)
    decreases Ids(|g|) - seen, 1, |g[n].links| - i
  {
    if i == |g[n].links| {
      assert HasLink(g, n, 0);
      AllLinksEnd(g, n, acc);
    } else {
      assert HasLink(g, n, i);
      var l := g[n].links[i];
      assert ValidRef(g, l.prev);
      if l.entry.payload.NoPayload? {
        WalkTells(base, g, l.prev, seen, open);
      }
      var o := if l.entry.payload.Payload? then Offset(l.entry.payload.endByte, true, seen)
               else UniformOffset(base, g, l.prev, seen);
      LinkFound(g, n, i, o, open);
      if !o.ok || (acc.Some? && acc.value != o.offset) {
        TwoEnds(g, n, i, acc, o);
      } else {
        assert Ids(|g|) - o.seen <= Ids(|g|) - seen;
        LinksTell(base, g, n, i + 1, if acc.Some? then acc else Some(o.offset), o.seen, open);
      }
    }
  }

  /** The offset test: the walk accepts exactly the nodes all of whose ways down end at one
      byte, and reports that byte.  Staged links are read from `g`, the rest from `base`. */
  lemma {:induction false} UniformIffOneEnd(base: Graph, g: Graph, r: Ref)
    requires Valid(base) && Valid(g) && Extends(base, g) && ValidRef(g, r)
    ensures var o := UniformOffset(base, g, r, {});
      && (o.ok <==> OneEnd(g, r))
      && (o.ok ==> forall e: nat :: EndsAt(g, r, e) <==> e == o.offset)
  {
    WalkTells(base, g, r, {}, {});
    PrimaryEnds(g, r);
  }

  /** Both ends of a merge agree: whatever way down is taken from either node, it ends at the
      same byte. */
  ghost predicate EndTogether(g: Graph, a: Ref, b: Ref)
    requires Valid(g) && ValidRef(g, a) && ValidRef(g, b)
  {
    forall e: nat, f: nat :: EndsAt(g, a, e) && EndsAt(g, b, f) ==> e == f
  }

  lemma {:induction false} OffsetsAgreeIff(base: Graph, g: Graph, a: Ref, b: Ref)
    requires Valid(base) && Valid(g) && Extends(base, g) && ValidRef(g, a) && ValidRef(g, b)
    ensures var ao, bo := UniformOffset(base, g, a, {}), UniformOffset(base, g, b, {});
      (ao.ok && bo.ok && ao.offset == bo.offset) <==> EndTogether(g, a, b)
  {
    UniformIffOneEnd(base, g, a);
    UniformIffOneEnd(base, g, b);
    PrimaryEnds(g, a);
    PrimaryEnds(g, b);
  }

  /** Nothing on any walk down from `n` is an error, a missing token or the error symbol. */
  ghost predicate NoErrorBelow(g: Graph, n: nat) {
    forall m: nat, i: nat, w: seq<nat> {:trigger WalkBetween(g, n, m, w), HasLink(g, m, i)} ::
      WalkBetween(g, n, m, w) && HasLink(g, m, i) && g[m].links[i].entry.payload.Payload? ==>
        var p := g[m].links[i].entry.payload; !p.hasError && !p.missing && p.symbol != 65535
  }

  lemma {:induction false} CleanIffNoError(g: Graph, n: nat)
    requires WellFormed(g) && n < |g|
    ensures Clean(g, n) <==> NoErrorBelow(g, n)
  {
    if Clean(g, n) {
      forall m: nat, i: nat, w: seq<nat> | WalkBetween(g, n, m, w) && HasLink(g, m, i) && g[m].links[i].entry.payload.Payload?
        ensures var p := g[m].links[i].entry.payload; !p.hasError && !p.missing && p.symbol != 65535
      {
        ReachesIffWalk(g, n, m);
        assert CleanNode(g, m);
      }
    }
    if NoErrorBelow(g, n) {
      forall m: nat | Reaches(g, n, m)
        ensures CleanNode(g, m)
      {
        ReachesIffWalk(g, n, m);
        var w :| WalkBetween(g, n, m, w);
      }
    }
  }

  /** When two different nodes may merge: no walk leads from either to the other, they are in
      one state, nothing below them is an error unless that is known of the whole parse, and
      all their ways down end at one byte. */
  lemma {:induction false} CanMergeIff(g: Graph, trust: bool, a: nat, b: nat)
    requires Valid(g) && a < |g| && b < |g| && a != b
    ensures NodesCanMerge(g, trust, At(a), At(b)) <==>
      && (forall w :: !WalkBetween(g, a, b, w) && !WalkBetween(g, b, a, w))
      && State(g, a) == State(g, b)
      && (trust || (NoErrorBelow(g, a) && NoErrorBelow(g, b)))
      && EndTogether(g, At(a), At(b))
  {
    ReachesIffWalk(g, a, b);
    ReachesIffWalk(g, b, a);
    CleanIffNoError(g, a);
    CleanIffNoError(g, b);
    ExtendsRefl(g);
    OffsetsAgreeIff(g, g, At(a), At(b));
  }

  /** The dry run's test asks the same of the staged view. */
  lemma {:induction false} DryCanMergeEnds(base: Graph, trust: bool, view: Graph, strict: bool, a: nat, b: nat)
    requires Based(base, view) && Valid(view) && a < |view| && b < |view| && a != b
    ensures DryNodesCanMerge(base, trust, view, strict, At(a), At(b)) <==>
      && !DryReaches(view, strict, a, b) && !DryReaches(view, strict, b, a)
      && State(view, a) == State(view, b)
      && ((trust && view == base) || (NoErrorBelow(view, a) && NoErrorBelow(view, b)))
      && EndTogether(view, At(a), At(b))
  {
    CleanIffNoError(view, a);
    CleanIffNoError(view, b);
    OffsetsAgreeIff(base, view, At(a), At(b));
  }
}
