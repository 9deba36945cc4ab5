/** The graph-structured stack (GSS): nodes addressed by id, each holding an ordered
    list of predecessor links.  Link 0 is the node's own (prev, entry) pair.

    Reachability is stated through link-closed sets: one node reaches another exactly
    when every closed set holding the first holds the second. */
module GssGraph {
  import opened Wrappers

  const ERROR_SYMBOL: nat := 65535

  /** The ordinary per-node link limit (maxMainLinkCount == maxStacksPerMergeKey). */
  const LINK_LIMIT: nat := 6

  /** A payload equivalence class.  `rest` stands for every other compared field. */
  datatype Payload =
    | NoPayload
    | Payload(symbol: nat, endByte: nat, hasError: bool, missing: bool, rest: nat)

  /** `prec` is the dynamic precedence and `node` the identity of the full Node the
      entry carries (0 for a compact entry); payload equivalence ignores both. */
  datatype Entry = Entry(state: nat, payload: Payload, prec: int, node: nat)

  datatype Ref = Nil | At(id: nat)

  datatype Link = Link(prev: Ref, entry: Entry)

  datatype Node = Node(links: seq<Link>, depth: nat)

  type Graph = seq<Node>

  predicate Dirty(e: Entry) {
    e.payload.Payload? && (e.payload.hasError || e.payload.missing || e.payload.symbol == ERROR_SYMBOL)
  }

  predicate Equivalent(a: Entry, b: Entry) {
    a.payload == b.payload
  }

  /** Equal in everything a path shows: state and payload class. */
  predicate SameClass(a: Entry, b: Entry) {
    a.state == b.state && a.payload == b.payload
  }

  /** Of one class and of no lower precedence. */
  predicate AtLeast(a: Entry, b: Entry) {
    SameClass(a, b) && a.prec >= b.prec
  }

  predicate ValidRef(g: Graph, r: Ref) {
    r.At? ==> r.id < |g|
  }

  ghost predicate HasLink(g: Graph, n: nat, i: nat) {
    n < |g| && i < |g[n].links|
  }

  /** Every node has its primary link, links stay inside the graph, and the entries
      on one node agree on the parser state. */
  ghost predicate WellFormed(g: Graph) {
    && (forall n: nat :: n < |g| ==> HasLink(g, n, 0))
    && (forall n: nat, i: nat :: HasLink(g, n, i) ==> ValidRef(g, g[n].links[i].prev))
    && (forall n: nat, i: nat :: HasLink(g, n, i) ==> g[n].links[i].entry.state == g[n].links[0].entry.state)
  }

  ghost predicate WithinLimit(g: Graph) {
    forall n: nat :: n < |g| ==> |g[n].links| <= LINK_LIMIT
  }

  function State(g: Graph, n: nat): nat
    requires WellFormed(g) && n < |g|
  {
    assert HasLink(g, n, 0);
    g[n].links[0].entry.state
  }

  function Ids(k: nat): (s: set<nat>)
    ensures forall n: nat :: n in s <==> n < k
  {
    if k == 0 then {} else Ids(k - 1) + {k - 1}
  }

  // ----- reachability -------------------------------------------------------

  ghost predicate LinkInto(g: Graph, n: nat, i: nat, s: set<nat>)
    requires HasLink(g, n, i)
  {
    g[n].links[i].prev.At? ==> g[n].links[i].prev.id in s
  }

  ghost predicate Closed(g: Graph, s: set<nat>) {
    forall n: nat, i: nat {:trigger LinkInto(g, n, i, s)} :: n in s && HasLink(g, n, i) ==> LinkInto(g, n, i, s)
  }

  ghost predicate Reaches(g: Graph, from: nat, to: nat) {
    forall s: set<nat> :: Closed(g, s) && from in s ==> to in s
  }

  ghost function ReachSet(g: Graph, from: nat): set<nat> {
    set n: nat | n in Ids(|g|) && Reaches(g, from, n)
  }

  lemma ReachesTransitive(g: Graph, a: nat, b: nat, c: nat)
    requires Reaches(g, a, b) && Reaches(g, b, c)
    ensures Reaches(g, a, c)
  {
  }

  lemma LinkReaches(g: Graph, n: nat, i: nat)
    requires HasLink(g, n, i) && g[n].links[i].prev.At?
    ensures Reaches(g, n, g[n].links[i].prev.id)
  {
    forall s: set<nat> | Closed(g, s) && n in s
      ensures g[n].links[i].prev.id in s
    {
      assert LinkInto(g, n, i, s);
    }
  }

  lemma IdsClosed(g: Graph)
    requires WellFormed(g)
    ensures Closed(g, Ids(|g|))
  {
  }

  lemma ReachSetClosed(g: Graph, from: nat)
    requires WellFormed(g) && from < |g|
    ensures Closed(g, ReachSet(g, from)) && from in ReachSet(g, from)
  {
    var s := ReachSet(g, from);
    forall n: nat, i: nat | n in s && HasLink(g, n, i)
      ensures LinkInto(g, n, i, s)
    {
      if g[n].links[i].prev.At? {
        LinkReaches(g, n, i);
        ReachesTransitive(g, from, n, g[n].links[i].prev.id);
      }
    }
  }

  /** Walks spell out reachability step by step. */
  ghost predicate Step(g: Graph, n: nat, m: nat) {
    exists i: nat :: HasLink(g, n, i) && g[n].links[i].prev == At(m)
  }

  ghost predicate Walk(g: Graph, w: seq<nat>) {
    |w| > 0 && forall k: nat :: k + 1 < |w| ==> Step(g, w[k], w[k + 1])
  }

  ghost predicate WalkBetween(g: Graph, from: nat, to: nat, w: seq<nat>) {
    Walk(g, w) && w[0] == from && w[|w| - 1] == to
  }

  lemma {:induction false} WalkStaysInClosed(g: Graph, w: seq<nat>, s: set<nat>, k: nat)
    requires Walk(g, w) && Closed(g, s) && w[0] in s && k < |w|
    ensures w[k] in s
  {
    if k > 0 {
      WalkStaysInClosed(g, w, s, k - 1);
      assert Step(g, w[k - 1], w[k - 1 + 1]);
      var i: nat :| HasLink(g, w[k - 1], i) && g[w[k - 1]].links[i].prev == At(w[k]);
      assert LinkInto(g, w[k - 1], i, s);
    }
  }

  /** Reachability is exactly the existence of a walk along links. */
  lemma ReachesIffWalk(g: Graph, from: nat, to: nat)
    requires WellFormed(g) && from < |g|
    ensures Reaches(g, from, to) <==> exists w :: WalkBetween(g, from, to, w)
  {
    if w :| WalkBetween(g, from, to, w) {
      forall s: set<nat> | Closed(g, s) && from in s
        ensures to in s
      {
        WalkStaysInClosed(g, w, s, |w| - 1);
      }
    }
    var s := set n: nat | n in Ids(|g|) && exists w :: WalkBetween(g, from, n, w);
    assert WalkBetween(g, from, from, [from]);
    forall n: nat, i: nat | n in s && HasLink(g, n, i)
      ensures LinkInto(g, n, i, s)
    {
      if g[n].links[i].prev.At? {
        var m := g[n].links[i].prev.id;
        assert ValidRef(g, g[n].links[i].prev);
        var w :| WalkBetween(g, from, n, w);
        var v := w + [m];
        assert Step(g, n, m);
        assert WalkBetween(g, from, m, v);
      }
    }
    assert Closed(g, s) && from in s;
  }

  // ----- acyclicity ---------------------------------------------------------

  ghost predicate LinkGoesDown(g: Graph, n: nat, i: nat)
    requires HasLink(g, n, i)
  {
    g[n].links[i].prev.At? ==> !Reaches(g, g[n].links[i].prev.id, n)
  }

  /** No link leads back to the node it leaves. */
  ghost predicate Acyclic(g: Graph) {
    forall n: nat, i: nat {:trigger LinkGoesDown(g, n, i)} :: HasLink(g, n, i) ==> LinkGoesDown(g, n, i)
  }

  ghost predicate Valid(g: Graph) {
    WellFormed(g) && Acyclic(g)
  }

  lemma LinkShrinksReach(g: Graph, n: nat, i: nat)
    requires Valid(g) && HasLink(g, n, i) && g[n].links[i].prev.At?
    ensures g[n].links[i].prev.id < |g|
    ensures ReachSet(g, g[n].links[i].prev.id) < ReachSet(g, n)
  {
    var m := g[n].links[i].prev.id;
    assert ValidRef(g, g[n].links[i].prev);
    LinkReaches(g, n, i);
    forall x | x in ReachSet(g, m)
      ensures x in ReachSet(g, n)
    {
      ReachesTransitive(g, n, m, x);
    }
    ReachSetClosed(g, n);
    assert LinkGoesDown(g, n, i);
    assert n !in ReachSet(g, m);
  }

  // ----- growth -------------------------------------------------------------

  ghost predicate LinkKept(g: Graph, h: Graph, n: nat, i: nat)
    requires HasLink(g, n, i)
  {
    && HasLink(h, n, i)
    && h[n].links[i].prev == g[n].links[i].prev
    && SameClass(h[n].links[i].entry, g[n].links[i].entry)
  }

  /** `h` keeps every link of `g`, in place and in its class, and may add links. */
  ghost predicate Extends(g: Graph, h: Graph) {
    && |h| == |g|
    && (forall n: nat :: n < |g| ==> h[n].depth == g[n].depth)
    && (forall n: nat, i: nat {:trigger LinkKept(g, h, n, i)} :: HasLink(g, n, i) ==> LinkKept(g, h, n, i))
  }

  /** The two graphs differ at most in precedences and node identities. */
  ghost predicate SameShape(g: Graph, h: Graph) {
    Extends(g, h) && Extends(h, g)
  }

  lemma ExtendsTransitive(g: Graph, h: Graph, k: Graph)
    requires Extends(g, h) && Extends(h, k)
    ensures Extends(g, k)
  {
    forall n: nat, i: nat | HasLink(g, n, i)
      ensures LinkKept(g, k, n, i)
    {
      assert LinkKept(g, h, n, i);
      assert LinkKept(h, k, n, i);
    }
  }

  ghost predicate LinkRises(g: Graph, h: Graph, n: nat, i: nat)
    requires HasLink(g, n, i)
  {
    HasLink(h, n, i) && h[n].links[i].entry.prec >= g[n].links[i].entry.prec
  }

  /** No link of `g` has a lower precedence in `h`. */
  ghost predicate Rises(g: Graph, h: Graph) {
    forall n: nat, i: nat {:trigger LinkRises(g, h, n, i)} :: HasLink(g, n, i) ==> LinkRises(g, h, n, i)
  }

  lemma RisesTransitive(g: Graph, h: Graph, k: Graph)
    requires Rises(g, h) && Rises(h, k)
    ensures Rises(g, k)
  {
    forall n: nat, i: nat | HasLink(g, n, i)
      ensures LinkRises(g, k, n, i)
    {
      assert LinkRises(g, h, n, i);
      assert LinkRises(h, k, n, i);
    }
  }

  lemma ClosedInSmaller(g: Graph, h: Graph, s: set<nat>)
    requires Extends(g, h) && Closed(h, s)
    ensures Closed(g, s)
  {
    forall n: nat, i: nat | n in s && HasLink(g, n, i)
      ensures LinkInto(g, n, i, s)
    {
      assert LinkKept(g, h, n, i);
      assert LinkInto(h, n, i, s);
    }
  }

  lemma ReachesGrows(g: Graph, h: Graph, a: nat, b: nat)
    requires Extends(g, h) && Reaches(g, a, b)
    ensures Reaches(h, a, b)
  {
    forall s: set<nat> | Closed(h, s) && a in s
      ensures b in s
    {
      ClosedInSmaller(g, h, s);
    }
  }

  lemma SameShapeLengths(g: Graph, h: Graph)
    requires SameShape(g, h)
    ensures |g| == |h| && forall n: nat :: n < |g| ==> |g[n].links| == |h[n].links|
  {
    forall n: nat | n < |g|
      ensures |g[n].links| == |h[n].links|
    {
      if |g[n].links| > 0 {
        assert LinkKept(g, h, n, |g[n].links| - 1);
      }
      if |h[n].links| > 0 {
        assert LinkKept(h, g, n, |h[n].links| - 1);
      }
    }
  }

  lemma SameShapeReaches(g: Graph, h: Graph, a: nat, b: nat)
    requires SameShape(g, h)
    ensures Reaches(g, a, b) <==> Reaches(h, a, b)
  {
    if Reaches(g, a, b) {
      ReachesGrows(g, h, a, b);
    }
    if Reaches(h, a, b) {
      ReachesGrows(h, g, a, b);
    }
  }

  lemma SameShapeValid(g: Graph, h: Graph)
    requires SameShape(g, h) && Valid(g)
    ensures Valid(h)
  {
    SameShapeLengths(g, h);
    forall n: nat, i: nat | HasLink(h, n, i)
      ensures ValidRef(h, h[n].links[i].prev) && h[n].links[i].entry.state == h[n].links[0].entry.state
      ensures LinkGoesDown(h, n, i)
    {
      assert LinkKept(h, g, n, i);
      assert HasLink(g, n, 0);
      assert LinkKept(g, h, n, 0);
      assert LinkGoesDown(g, n, i);
      if h[n].links[i].prev.At? {
        SameShapeReaches(g, h, h[n].links[i].prev.id, n);
      }
    }
    forall n: nat | n < |h|
      ensures HasLink(h, n, 0)
    {
      assert HasLink(g, n, 0);
    }
  }

  // ----- paths --------------------------------------------------------------

  /** `cs` spells the classes along some walk of links that starts at `r`, none of them of lower
      precedence than `cs` has it; a whole path runs down to the bottom of the stack, a partial
      one may stop anywhere. */
  ghost predicate Path(g: Graph, r: Ref, cs: seq<Entry>, whole: bool)
    decreases |cs|
  {
    if cs == [] then !whole || r.Nil?
    else r.At? && exists i: nat :: HasLink(g, r.id, i) && PathVia(g, r.id, i, cs, whole)
  }

  ghost predicate PathVia(g: Graph, n: nat, i: nat, cs: seq<Entry>, whole: bool)
    requires HasLink(g, n, i) && cs != []
    decreases |cs|, 0
  {
    AtLeast(g[n].links[i].entry, cs[0]) && Path(g, g[n].links[i].prev, cs[1..], whole)
  }

  /** Growth under which no precedence falls loses no path. */
  lemma {:induction false} PathGrows(g: Graph, h: Graph, r: Ref, cs: seq<Entry>, whole: bool)
    requires Extends(g, h) && Rises(g, h) && Path(g, r, cs, whole)
    ensures Path(h, r, cs, whole)
    decreases |cs|
  {
    if cs != [] {
      var i: nat :| HasLink(g, r.id, i) && PathVia(g, r.id, i, cs, whole);
      assert LinkKept(g, h, r.id, i) && LinkRises(g, h, r.id, i);
      PathGrows(g, h, g[r.id].links[i].prev, cs[1..], whole);
      assert PathVia(h, r.id, i, cs, whole);
    }
  }

  // ----- cleanliness --------------------------------------------------------

  ghost predicate CleanNode(g: Graph, n: nat) {
    forall i: nat :: HasLink(g, n, i) ==> !Dirty(g[n].links[i].entry)
  }

  /** No link reachable from `n` carries an error, a missing token or ERROR. */
  ghost predicate Clean(g: Graph, n: nat) {
    forall m: nat :: Reaches(g, n, m) ==> CleanNode(g, m)
  }

  ghost predicate CleanSet(g: Graph, s: set<nat>) {
    Closed(g, s) && forall m: nat :: m in s ==> CleanNode(g, m)
  }

  lemma CleanSetIsClean(g: Graph, s: set<nat>, n: nat)
    requires CleanSet(g, s) && n in s
    ensures Clean(g, n)
  {
  }

  lemma CleanReachSet(g: Graph, n: nat)
    requires WellFormed(g) && n < |g| && Clean(g, n)
    ensures CleanSet(g, ReachSet(g, n)) && n in ReachSet(g, n)
  {
    ReachSetClosed(g, n);
  }

  lemma CleanSetUnion(g: Graph, s: set<nat>, t: set<nat>)
    requires CleanSet(g, s) && CleanSet(g, t)
    ensures CleanSet(g, s + t)
  {
    forall n: nat, i: nat | n in s + t && HasLink(g, n, i)
      ensures LinkInto(g, n, i, s + t)
    {
      if n in s { assert LinkInto(g, n, i, s); } else { assert LinkInto(g, n, i, t); }
    }
  }

  lemma CleanShrinks(g: Graph, h: Graph, n: nat)
    requires Extends(g, h) && Clean(h, n)
    ensures Clean(g, n)
  {
    forall m: nat | Reaches(g, n, m)
      ensures CleanNode(g, m)
    {
      ReachesGrows(g, h, n, m);
      assert CleanNode(h, m);
      forall i: nat | HasLink(g, m, i)
        ensures !Dirty(g[m].links[i].entry)
      {
        assert LinkKept(g, h, m, i);
      }
    }
  }

  // ----- byte offsets -------------------------------------------------------

  /** The end byte of the first payload along the primary-link chain. */
  function ByteOffset(g: Graph, r: Ref): nat
    requires Valid(g) && ValidRef(g, r)
    decreases if r.Nil? then {} else ReachSet(g, r.id), r.At?
  {
    if r.Nil? then 0
    else
      assert HasLink(g, r.id, 0);
      var l := g[r.id].links[0];
      if l.entry.payload.Payload? then l.entry.payload.endByte
      else
        assert ValidRef(g, l.prev);
        assert l.prev.Nil? ==> {} < ReachSet(g, r.id) by { ReachSetClosed(g, r.id); }
        assert l.prev.At? ==> ReachSet(g, l.prev.id) < ReachSet(g, r.id) by {
          if l.prev.At? { LinkShrinksReach(g, r.id, 0); }
        }
        ByteOffset(g, l.prev)
  }

  /** Result of an offset walk; `seen` is the walk's cycle guard. */
  datatype Offset = Offset(offset: nat, ok: bool, seen: set<nat>)

  /** The end byte shared by all link paths out of `r` in `g`; a node already seen
      answers with its primary-chain offset, read from the real graph `base`. */
  function UniformOffset(base: Graph, g: Graph, r: Ref, seen: set<nat>): (o: Offset)
    requires Valid(base) && WellFormed(g) && |g| == |base| && ValidRef(g, r)
    ensures seen <= o.seen
    decreases Ids(|g|) - seen, 0, 0
  {
    if r.Nil? then Offset(0, true, seen)
    else if r.id in seen then Offset(ByteOffset(base, r), true, seen)
    else
      assert r.id in Ids(|g|);
      UniformLinks(base, g, r.id, 0, None, seen + {r.id})
  }

  function UniformLinks(base: Graph, g: Graph, n: nat, i: nat, acc: Option<nat>, seen: set<nat>): (o: Offset)
    requires Valid(base) && WellFormed(g) && |g| == |base| && n < |g| && i <= |g[n].links|
    ensures seen <= o.seen
    decreases Ids(|g|) - seen, 1, |g[n].links| - i
  {
    if i == |g[n].links| then Offset(if acc.Some? then acc.value else 0, true, seen)
    else
      assert HasLink(g, n, i);
      var l := g[n].links[i];
      var o := if l.entry.payload.Payload? then Offset(l.entry.payload.endByte, true, seen)
               else UniformOffset(base, g, l.prev, seen);
      if !o.ok || (acc.Some? && acc.value != o.offset) then Offset(0, false, o.seen)
      else
        assert Ids(|g|) - o.seen <= Ids(|g|) - seen;
        UniformLinks(base, g, n, i + 1, if acc.Some? then acc else Some(o.offset), o.seen)
  }

  /** Primary-chain offsets survive growth. */
  lemma {:induction false} ByteOffsetKept(g: Graph, h: Graph, r: Ref)
    requires Extends(g, h) && Valid(g) && Valid(h) && ValidRef(g, r)
    ensures ByteOffset(g, r) == ByteOffset(h, r)
    decreases if r.Nil? then {} else ReachSet(g, r.id), r.At?
  {
    if r.At? {
      assert HasLink(g, r.id, 0);
      assert LinkKept(g, h, r.id, 0);
      var l := g[r.id].links[0];
      if l.entry.payload.NoPayload? {
        ReachSetClosed(g, r.id);
        if l.prev.At? {
          LinkShrinksReach(g, r.id, 0);
        }
        ByteOffsetKept(g, h, l.prev);
      }
    }
  }

  /** Graphs of one shape, read over real graphs one of which extends the other, agree
      on uniform offsets. */
  lemma {:induction false} UniformKept(base: Graph, g: Graph, base2: Graph, h: Graph, r: Ref, seen: set<nat>)
    requires Valid(base) && Valid(base2) && Extends(base, base2)
    requires WellFormed(g) && WellFormed(h) && SameShape(g, h) && |g| == |base| && ValidRef(g, r)
    ensures UniformOffset(base, g, r, seen) == UniformOffset(base2, h, r, seen)
    decreases Ids(|g|) - seen, 0, 0
  {
    if r.At? {
      ByteOffsetKept(base, base2, r);
      if r.id !in seen {
        assert r.id in Ids(|g|);
        SameShapeLengths(g, h);
        UniformLinksKept(base, g, base2, h, r.id, 0, None, seen + {r.id});
      }
    }
  }

  lemma {:induction false} UniformLinksKept(base: Graph, g: Graph, base2: Graph, h: Graph, n: nat, i: nat, acc: Option<nat>, seen: set<nat>)
    requires Valid(base) && Valid(base2) && Extends(base, base2)
    requires WellFormed(g) && WellFormed(h) && SameShape(g, h) && |g| == |base|
    requires n < |g| && i <= |g[n].links| == |h[n].links|
    ensures UniformLinks(base, g, n, i, acc, seen) == UniformLinks(base2, h, n, i, acc, seen)
    decreases Ids(|g|) - seen, 1, |g[n].links| - i
  {
    if i < |g[n].links| {
      assert HasLink(g, n, i);
      assert LinkKept(g, h, n, i);
      var l := g[n].links[i];
      if l.entry.payload.NoPayload? {
        UniformKept(base, g, base2, h, l.prev, seen);
      }
      var o := if l.entry.payload.Payload? then Offset(l.entry.payload.endByte, true, seen)
               else UniformOffset(base, g, l.prev, seen);
      if o.ok && !(acc.Some? && acc.value != o.offset) {
        assert Ids(|g|) - o.seen <= Ids(|g|) - seen;
        UniformLinksKept(base, g, base2, h, n, i + 1, if acc.Some? then acc else Some(o.offset), o.seen);
      }
    }
  }
}
