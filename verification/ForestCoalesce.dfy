/** Coalescing an arriving parse into its forest node: competing derivations of one slot
    are decided on the spot, others take a free link or compete for a full node.  Two
    scans of the resident links are cached until the node's dirty count moves. */
module ForestCoalesce {
  import opened Numbers
  import opened Wrappers
  import opened ForestCap

  /** A parse that reaches the node: where from, with which subtree, and the no-extras
      depth its link offers. */
  datatype Arrival = Arrival(prev: Option<nat>, prevDirty: nat, entry: Entry, score: int, errorCost: int, depth: nat)

  datatype State = State(links: seq<Link>, errorCost: int, dirty: nat, noExtraDepth: nat)

  function LinkOf(a: Arrival): Link {
    Link(a.prev, a.prevDirty, a.entry, a.score, a.errorCost)
  }

  function Fresh(a: Arrival): State {
    State([], a.errorCost, 0, 0)
  }

  function SetLink(s: State, i: nat, l: Link): State
    requires i < |s.links|
  {
    s.(links := s.links[i := l], dirty := s.dirty + 1)
  }

  /** Same predecessor, symbol and span: another derivation of the same slot. */
  predicate SameSlot(a: Arrival, l: Link) {
    && l.prev == a.prev && l.entry.node
    && l.entry.symbol == a.entry.symbol && l.entry.start == a.entry.start && l.entry.end == a.entry.end
  }

  /** Hidden symbols never surface, so their raw shapes need not agree. */
  predicate Comparable(p: Policy, a: Arrival, l: Link) {
    Hidden(p, a.entry) || !p.raw || RawEqual(a.entry, l.entry)
  }

  /** Link `i` after a comparable derivation of its slot has arrived. */
  function Contest(p: Policy, s: State, i: nat, a: Arrival): State
    requires i < |s.links|
  {
    var l := s.links[i];
    var won :=
      if Hidden(p, a.entry) then
        if a.errorCost < l.errorCost || (a.errorCost == l.errorCost && a.score > l.score)
        then SetLink(s, i, LinkOf(a)) else s
      else if Compare(p, LinkOf(a), |s.links|, l, i) > 0 then SetLink(s, i, LinkOf(a))
      else if a.score == l.score && a.entry.height > l.entry.height then SetLink(s, i, l.(entry := a.entry))
      else s;
    if won.links[i].prevDirty != a.prevDirty
    then SetLink(won, i, won.links[i].(prevDirty := a.prevDirty)) else won
  }

  /** The first link from `i` on that settles the arrival, and how. */
  function Dedup(p: Policy, s: State, i: nat, a: Arrival): Option<State>
    requires i <= |s.links|
    decreases |s.links| - i
  {
    if i == |s.links| then None
    else
      var l := s.links[i];
      if !SameSlot(a, l) then Dedup(p, s, i + 1, a)
      else if Comparable(p, a, l) then Some(Contest(p, s, i, a))
      else if Tied(LinkOf(a), l) && p.wrapper(a.entry, l.entry) == 1 then Some(SetLink(s, i, LinkOf(a)))
      else if Tied(LinkOf(a), l) && p.wrapper(a.entry, l.entry) == -1 then Some(s)
      else Dedup(p, s, i + 1, a)
  }

  /** An arrival no resident settles takes a free link, or competes at a full node. */
  function Placed(p: Policy, s: State, a: Arrival, cap: nat): State {
    if |s.links| >= cap then
      match Replaced(p, s.links, LinkOf(a))
      case Some(i) => SetLink(s, i, LinkOf(a)).(noExtraDepth := Min(s.noExtraDepth, a.depth))
      case None => s
    else
      State(s.links + [LinkOf(a)], s.errorCost, s.dirty + 1,
            if s.links == [] then a.depth else Min(s.noExtraDepth, a.depth))
  }

  /** The node after one arrival. */
  function Coalesced(p: Policy, s: State, a: Arrival, cap: nat): State {
    var t := s.(errorCost := Min(s.errorCost, a.errorCost));
    var d := if a.entry.node then Dedup(p, t, 0, a) else None;
    if d.Some? then d.value else Placed(p, t, a, cap)
  }

  // ----- any run of arrivals ------------------------------------------------

  function Run(p: Policy, s: State, run: seq<Arrival>, cap: nat): State
    decreases |run|
  {
    if run == [] then s else Run(p, Coalesced(p, s, run[0], cap), run[1..], cap)
  }

  /** What one arrival does to a node, whatever the policy says. */
  ghost predicate Steps(s: State, t: State, cost: int, cap: nat) {
    && (|s.links| <= cap ==> |t.links| <= cap) && |s.links| <= |t.links|
    && t.errorCost == Min(s.errorCost, cost)
    && s.dirty <= t.dirty && (t.dirty == s.dirty ==> t.links == s.links)
    && (s.links != [] ==> t.noExtraDepth <= s.noExtraDepth)
  }

  lemma {:induction false} DedupSteps(p: Policy, s: State, i: nat, a: Arrival)
    requires i <= |s.links|
    ensures var d := Dedup(p, s, i, a);
            d.Some? ==> && |d.value.links| == |s.links| && d.value.errorCost == s.errorCost
                        && s.dirty <= d.value.dirty && (d.value.dirty == s.dirty ==> d.value.links == s.links)
                        && d.value.noExtraDepth == s.noExtraDepth
    decreases |s.links| - i
  {
    if i < |s.links| {
      DedupSteps(p, s, i + 1, a);
    }
  }

  lemma CoalescedSteps(p: Policy, s: State, a: Arrival, cap: nat)
    ensures Steps(s, Coalesced(p, s, a, cap), a.errorCost, cap)
  {
    DedupSteps(p, s.(errorCost := Min(s.errorCost, a.errorCost)), 0, a);
  }

  function LeastCost(run: seq<Arrival>): int
    requires run != []
  {
    if |run| == 1 then run[0].errorCost else Min(run[0].errorCost, LeastCost(run[1..]))
  }

  /** Over any run of arrivals from a new node: the links stay within the cap, the node's
      error cost is the least of all arrivals, and the dirty count has moved whenever the
      links have. */
  lemma {:induction false} RunKeeps(p: Policy, s: State, run: seq<Arrival>, cap: nat)
    requires |s.links| <= cap
    ensures var t := Run(p, s, run, cap);
            && |t.links| <= cap
            && t.errorCost == (if run == [] then s.errorCost else Min(s.errorCost, LeastCost(run)))
            && s.dirty <= t.dirty && (t.dirty == s.dirty ==> t.links == s.links)
    decreases |run|
  {
    if run != [] {
      CoalescedSteps(p, s, run[0], cap);
      RunKeeps(p, Coalesced(p, s, run[0], cap), run[1..], cap);
    }
  }

  lemma NewNodeKeeps(p: Policy, run: seq<Arrival>, cap: nat)
    requires run != []
    ensures var t := Run(p, Fresh(run[0]), run, cap); |t.links| <= cap && t.errorCost == LeastCost(run)
  {
    RunKeeps(p, Fresh(run[0]), run, cap);
  }

  // ----- the best derivation stays --------------------------------------------

  /** A contest for a slot leaves there a link of the same predecessor, symbol and span that is as
      good as both, stamped with the predecessor's present dirty count; other links stay. */
  lemma {:induction false} ContestKeepsBest(p: Policy, s: State, i: nat, a: Arrival)
    requires i < |s.links| && a.entry.node && SameSlot(a, s.links[i])
    ensures var t := Contest(p, s, i, a);
      && |t.links| == |s.links| && t.links == s.links[i := t.links[i]]
      && AsGood(t.links[i], s.links[i]) && AsGood(t.links[i], LinkOf(a))
      && SameSlot(a, t.links[i]) && t.links[i].prevDirty == a.prevDirty
  {
    CompareFollowsRank(p, LinkOf(a), |s.links|, s.links[i], i);
  }

  lemma {:induction false} DedupKeepsBest(p: Policy, s: State, i: nat, a: Arrival, l: Link)
    requires i <= |s.links| && a.entry.node && (Matched(s.links, l) || l == LinkOf(a))
    ensures var d := Dedup(p, s, i, a); d.Some? ==> Matched(d.value.links, l)
    decreases |s.links| - i
  {
    if i < |s.links| {
      DedupKeepsBest(p, s, i + 1, a, l);
      var d := Dedup(p, s, i, a);
      if SameSlot(a, s.links[i]) && d.Some? && Comparable(p, a, s.links[i]) {
        ContestKeepsBest(p, s, i, a);
        PutKeepsBest(s.links, i, d.value.links[i], LinkOf(a), l);
      } else if SameSlot(a, s.links[i]) && d.Some? && Tied(LinkOf(a), s.links[i]) && p.wrapper(a.entry, s.links[i].entry) == 1 {
        PutKeepsBest(s.links, i, LinkOf(a), LinkOf(a), l);
      } else if SameSlot(a, s.links[i]) && d.Some? && Tied(LinkOf(a), s.links[i]) && p.wrapper(a.entry, s.links[i].entry) == -1 {
        PutKeepsBest(s.links, i, s.links[i], LinkOf(a), l);
      }
    }
  }

  /** A link that is as good as the one it replaces and as the newcomer keeps what was matched. */
  lemma {:induction false} PutKeepsBest(links: seq<Link>, i: nat, put: Link, c: Link, l: Link)
    requires i < |links| && AsGood(put, links[i]) && AsGood(put, c) && (Matched(links, l) || l == c)
    ensures Matched(links[i := put], l)
  {
    var after := links[i := put];
    if l == c {
      assert AsGood(after[i], l);
    } else {
      var k: nat :| k < |links| && AsGood(links[k], l);
      assert AsGood(after[k], l);
    }
  }

  lemma {:induction false} CoalescedKeepsBest(p: Policy, s: State, a: Arrival, cap: nat, l: Link)
    requires cap > 0 && (Matched(s.links, l) || l == LinkOf(a))
    ensures Matched(Coalesced(p, s, a, cap).links, l)
  {
    var t := s.(errorCost := Min(s.errorCost, a.errorCost));
    var d := if a.entry.node then Dedup(p, t, 0, a) else None;
    if a.entry.node {
      DedupKeepsBest(p, t, 0, a, l);
    }
    if d.None? {
      if |t.links| >= cap {
        FullNodeKeepsBest(p, t.links, LinkOf(a), l);
      } else {
        var after := t.links + [LinkOf(a)];
        if l == LinkOf(a) {
          assert after[|t.links|] == l;
        } else {
          var k: nat :| k < |t.links| && AsGood(t.links[k], l);
          assert after[k] == t.links[k];
        }
      }
    }
  }

  /** Over any run, at a full node or not, every arrival and every earlier resident is matched by a
      link of no greater cost and, at equal cost, no lower score. */
  lemma {:induction false} RunKeepsBest(p: Policy, s: State, run: seq<Arrival>, cap: nat, l: Link)
    requires cap > 0 && (Matched(s.links, l) || exists k: nat :: k < |run| && LinkOf(run[k]) == l)
    ensures Matched(Run(p, s, run, cap).links, l)
    decreases |run|
  {
    if run != [] {
      if Matched(s.links, l) || l == LinkOf(run[0]) {
        CoalescedKeepsBest(p, s, run[0], cap, l);
      } else {
        var k: nat :| k < |run| && LinkOf(run[k]) == l;
        assert LinkOf(run[1..][k - 1]) == l;
      }
      RunKeepsBest(p, Coalesced(p, s, run[0], cap), run[1..], cap, l);
    }
  }

  /** A link has the cost and score some arrival or some earlier resident had. */
  ghost predicate RankKnown(links: seq<Link>, run: seq<Arrival>, l: Link) {
    || (exists k: nat :: k < |links| && Tied(links[k], l))
    || (exists k: nat :: k < |run| && Tied(LinkOf(run[k]), l))
  }

  lemma {:induction false} DedupInventsNoRank(p: Policy, s: State, i: nat, a: Arrival, j: nat)
    requires i <= |s.links| && j < |s.links|
    ensures var d := Dedup(p, s, i, a);
      d.Some? ==> |d.value.links| == |s.links| && (Tied(s.links[j], d.value.links[j]) || Tied(LinkOf(a), d.value.links[j]))
    decreases |s.links| - i
  {
    if i < |s.links| {
      DedupInventsNoRank(p, s, i + 1, a, j);
    }
  }

  lemma {:induction false} CoalescedInventsNoRank(p: Policy, s: State, a: Arrival, cap: nat, j: nat)
    requires j < |Coalesced(p, s, a, cap).links|
    ensures var t := Coalesced(p, s, a, cap);
      (j < |s.links| && Tied(s.links[j], t.links[j])) || Tied(LinkOf(a), t.links[j])
  {
    var t := s.(errorCost := Min(s.errorCost, a.errorCost));
    DedupSteps(p, t, 0, a);
    if j < |s.links| {
      DedupInventsNoRank(p, t, 0, a, j);
    }
  }

  /** No rank is made up, so the best rank at a node is exactly the best of its arrivals. */
  lemma {:induction false} RunInventsNoRank(p: Policy, s: State, run: seq<Arrival>, cap: nat, j: nat)
    requires j < |Run(p, s, run, cap).links|
    ensures RankKnown(s.links, run, Run(p, s, run, cap).links[j])
    decreases |run|
  {
    var l := Run(p, s, run, cap).links[j];
    if run == [] {
      assert Tied(s.links[j], l);
    } else {
      var t := Coalesced(p, s, run[0], cap);
      RunInventsNoRank(p, t, run[1..], cap, j);
      if k: nat :| k < |t.links| && Tied(t.links[k], l) {
        CoalescedInventsNoRank(p, s, run[0], cap, k);
        if Tied(LinkOf(run[0]), t.links[k]) {
          assert Tied(LinkOf(run[0]), l);
        } else {
          assert Tied(s.links[k], l);
        }
      } else {
        var k: nat :| k < |run[1..]| && Tied(LinkOf(run[1..][k]), l);
        assert run[1..][k] == run[k + 1];
      }
    }
  }

  // ----- one link for one slot --------------------------------------------------

  /** Of one predecessor, one symbol and one span. */
  predicate SameSpot(l: Link, m: Link) {
    && l.prev == m.prev && l.entry.node == m.entry.node
    && l.entry.symbol == m.entry.symbol && l.entry.start == m.entry.start && l.entry.end == m.entry.end
  }

  ghost predicate Represented(links: seq<Link>, l: Link) {
    exists j: nat :: j < |links| && SameSpot(links[j], l)
  }

  /** An arrival settled in place leaves every link at its spot, and it has one of its own there. */
  lemma {:induction false} DedupKeepsSpots(p: Policy, s: State, i: nat, a: Arrival)
    requires i <= |s.links| && a.entry.node
    ensures var d := Dedup(p, s, i, a);
      d.Some? ==>
        && |d.value.links| == |s.links| && Represented(d.value.links, LinkOf(a))
        && forall j: nat :: j < |s.links| ==> SameSpot(d.value.links[j], s.links[j])
    decreases |s.links| - i
  {
    if i < |s.links| {
      DedupKeepsSpots(p, s, i + 1, a);
      var d := Dedup(p, s, i, a);
      if d.Some? && SameSlot(a, s.links[i]) && SameSpot(d.value.links[i], s.links[i]) {
        assert SameSpot(d.value.links[i], LinkOf(a));
      }
    }
  }

  /** Below the cap no spot is lost and the arrival has one. */
  lemma {:induction false} CoalescedKeepsSpots(p: Policy, s: State, a: Arrival, cap: nat, l: Link)
    requires |s.links| < cap && (Represented(s.links, l) || l == LinkOf(a))
    ensures Represented(Coalesced(p, s, a, cap).links, l)
  {
    var t, u := s.(errorCost := Min(s.errorCost, a.errorCost)), Coalesced(p, s, a, cap);
    var d := if a.entry.node then Dedup(p, t, 0, a) else None;
    if a.entry.node {
      DedupKeepsSpots(p, t, 0, a);
    }
    if d.None? {
      assert u.links[|s.links|] == LinkOf(a);
    }
    if Represented(s.links, l) {
      var j: nat :| j < |s.links| && SameSpot(s.links[j], l);
      assert SameSpot(u.links[j], s.links[j]);
    }
  }

  lemma {:induction false} RunGrows(p: Policy, s: State, run: seq<Arrival>, cap: nat)
    ensures |s.links| <= |Run(p, s, run, cap).links|
    decreases |run|
  {
    if run != [] {
      CoalescedSteps(p, s, run[0], cap);
      RunGrows(p, Coalesced(p, s, run[0], cap), run[1..], cap);
    }
  }

  /** Over any run that does not fill the node, every predecessor, symbol and span that arrived or
      was there has a link. */
  lemma {:induction false} RunKeepsSpots(p: Policy, s: State, run: seq<Arrival>, cap: nat, l: Link)
    requires |Run(p, s, run, cap).links| < cap
    requires Represented(s.links, l) || exists k: nat :: k < |run| && LinkOf(run[k]) == l
    ensures Represented(Run(p, s, run, cap).links, l)
    decreases |run|
  {
    if run != [] {
      RunGrows(p, s, run, cap);
      if Represented(s.links, l) || l == LinkOf(run[0]) {
        CoalescedKeepsSpots(p, s, run[0], cap, l);
      } else {
        var k: nat :| k < |run| && LinkOf(run[k]) == l;
        assert LinkOf(run[1..][k - 1]) == l;
      }
      RunKeepsSpots(p, Coalesced(p, s, run[0], cap), run[1..], cap, l);
    }
  }

  /** Raw shapes are not asked about: there are none at hand, or the symbol is hidden. */
  predicate ShapeFree(p: Policy, e: Entry) {
    e.node && (!p.raw || (p.language && p.hidden(e.symbol)))
  }

  /** No two links share a spot, those of visible symbols with raw shapes excepted. */
  ghost predicate OnePerSpot(p: Policy, links: seq<Link>) {
    forall i: nat, j: nat :: i < j < |links| && SameSpot(links[i], links[j]) ==> !ShapeFree(p, links[i].entry)
  }

  lemma {:induction false} NoneSettles(p: Policy, s: State, i: nat, a: Arrival, j: nat)
    requires i <= j < |s.links| && a.entry.node && Dedup(p, s, i, a).None?
    ensures ShapeFree(p, a.entry) ==> !SameSpot(s.links[j], LinkOf(a))
    decreases |s.links| - i
  {
    if i < j {
      NoneSettles(p, s, i + 1, a, j);
    }
  }

  lemma {:induction false} CoalescedKeepsOne(p: Policy, s: State, a: Arrival, cap: nat)
    requires OnePerSpot(p, s.links)
    ensures OnePerSpot(p, Coalesced(p, s, a, cap).links)
  {
    var t, u := s.(errorCost := Min(s.errorCost, a.errorCost)), Coalesced(p, s, a, cap);
    var d := if a.entry.node then Dedup(p, t, 0, a) else None;
    if a.entry.node {
      DedupKeepsSpots(p, t, 0, a);
    }
    forall i: nat, j: nat | i < j < |u.links| && SameSpot(u.links[i], u.links[j])
      ensures !ShapeFree(p, u.links[i].entry)
    {
      if d.Some? {
        assert SameSpot(u.links[i], s.links[i]) && SameSpot(u.links[j], s.links[j]);
        assert SameSpot(s.links[i], s.links[j]);
      } else if a.entry.node {
        if i < |s.links| {
          NoneSettles(p, t, 0, a, i);
        }
        if j < |s.links| {
          NoneSettles(p, t, 0, a, j);
        }
      }
    }
  }

  /** Over any run, full or not, the derivations of one spot share one link: always where raw shapes
      are not at hand, and for hidden symbols in any case. */
  lemma {:induction false} RunKeepsOne(p: Policy, s: State, run: seq<Arrival>, cap: nat)
    requires OnePerSpot(p, s.links)
    ensures OnePerSpot(p, Run(p, s, run, cap).links)
    decreases |run|
  {
    if run != [] {
      CoalescedKeepsOne(p, s, run[0], cap);
      RunKeepsOne(p, Coalesced(p, s, run[0], cap), run[1..], cap);
    }
  }

  /** Another derivation of a hidden spot takes the resident's place only if it is strictly better;
      otherwise nothing moves but the stamp of the predecessor's dirty count, so that
      re-deriving a settled spot changes nothing. */
  lemma {:induction false} HiddenSpotSettles(p: Policy, s: State, a: Arrival, cap: nat, i: nat)
    requires i < |s.links| && a.entry.node && p.language && p.hidden(a.entry.symbol)
    requires SameSpot(s.links[i], LinkOf(a)) && forall j: nat :: j < i ==> !SameSpot(s.links[j], LinkOf(a))
    ensures var t, l := Coalesced(p, s, a, cap), s.links[i];
      && t.links == s.links[i := if AsGood(l, LinkOf(a)) then l.(prevDirty := a.prevDirty) else LinkOf(a)]
      && (t.dirty == s.dirty <==> AsGood(l, LinkOf(a)) && l.prevDirty == a.prevDirty)
      && t.noExtraDepth == s.noExtraDepth
  {
    HiddenFirst(p, s.(errorCost := Min(s.errorCost, a.errorCost)), 0, a, i);
  }

  lemma {:induction false} HiddenFirst(p: Policy, s: State, k: nat, a: Arrival, i: nat)
    requires k <= i < |s.links| && a.entry.node && p.language && p.hidden(a.entry.symbol)
    requires SameSpot(s.links[i], LinkOf(a)) && forall j: nat :: j < i ==> !SameSpot(s.links[j], LinkOf(a))
    ensures Dedup(p, s, k, a) == Some(Contest(p, s, i, a))
    decreases i - k
  {
    if k < i {
      assert !SameSpot(s.links[k], LinkOf(a));
      HiddenFirst(p, s, k + 1, a, i);
    }
  }

  /** A hidden slot that improves in place can cost a raw-shape class, unlike a
      replacement at a full node: the newcomer's shape was already resident elsewhere. */
  lemma DedupMayLoseClass()
    ensures var p := Policy(true, true, _ => true, (_, _) => 0, (_, _) => 0);
            var e := Entry(true, 1, 0, 5, Some(10), 1, 1);
            var s := State([Link(Some(0), 0, e, 0, 0), Link(Some(1), 0, e.(raw := Some(20)), 0, 0)], 0, 2, 1);
            var a := Arrival(Some(0), 0, e.(raw := Some(20)), 1, 0, 1);
            |Classes(Coalesced(p, s, a, 8).links)| < |Classes(s.links)|
  {
    var p := Policy(true, true, _ => true, (_, _) => 0, (_, _) => 0);
    var e := Entry(true, 1, 0, 5, Some(10), 1, 1);
    var s := State([Link(Some(0), 0, e, 0, 0), Link(Some(1), 0, e.(raw := Some(20)), 0, 0)], 0, 2, 1);
    var a := Arrival(Some(0), 0, e.(raw := Some(20)), 1, 0, 1);
    var t := Coalesced(p, s, a, 8);
    assert t.links == s.links[0 := LinkOf(a)];
    assert ClassOf(s.links[1], 1) == Shape(20) && ClassOf(s.links[0], 0) == Shape(10);
    assert !HasPeer(s.links, 0);
    ReplacementClasses(s.links, 0, LinkOf(a));
  }

  // ----- the node with its cached scans -------------------------------------

  /** The scan for the worst link in the candidate's own shape bucket. */
  method ScanSameShape(p: Policy, links: seq<Link>, c: Link) returns (worst: Option<nat>)
    ensures worst == WorstSameShape(p, links, c)
  {
    worst := None;
    var i := 0;
    ghost var marked := SameShape(links, c);
    while i < |links|
      invariant 0 <= i <= |links|
      invariant worst.Some? ==> worst.value < |links| && marked[worst.value]
      invariant WorstMarked(p, links, marked, 0, None) == WorstMarked(p, links, marked, i, worst)
    {
      if RawEqual(c.entry, links[i].entry) {
        if worst.None? || Compare(p, links[i], i, links[worst.value], worst.value) < 0 {
          worst := Some(i);
        }
      }
      i := i + 1;
    }
  }

  method ScanPeer(links: seq<Link>, at: nat) returns (peer: bool)
    requires at < |links|
    ensures peer == HasPeer(links, at)
  {
    var i := 0;
    while i < |links|
      invariant 0 <= i <= |links|
      invariant forall k :: 0 <= k < i && k != at ==> !RawEqual(links[at].entry, links[k].entry)
    {
      if i != at && RawEqual(links[at].entry, links[i].entry) {
        return true;
      }
      i := i + 1;
    }
    return false;
  }

  /** The scan for the worst link that shares its raw shape with another. */
  method ScanDuplicate(p: Policy, links: seq<Link>) returns (worst: Option<nat>)
    ensures worst == WorstDuplicate(p, links)
  {
    worst := None;
    var i := 0;
    ghost var marked := Duplicates(links);
    while i < |links|
      invariant 0 <= i <= |links|
      invariant worst.Some? ==> worst.value < |links| && marked[worst.value]
      invariant WorstMarked(p, links, marked, 0, None) == WorstMarked(p, links, marked, i, worst)
    {
      var peer := ScanPeer(links, i);
      if peer && (worst.None? || Compare(p, links[i], i, links[worst.value], worst.value) < 0) {
        worst := Some(i);
      }
      i := i + 1;
    }
  }

  /** The scan for the worst resident. */
  method ScanWorst(p: Policy, links: seq<Link>) returns (worst: nat)
    requires |links| > 0
    ensures worst == WorstResident(p, links)
  {
    worst := 0;
    ghost var marked := seq(|links|, i requires 0 <= i < |links| => true);
    assert marked[0];
    assert WorstMarked(p, links, marked, 0, None) == WorstMarked(p, links, marked, 1, Some(0));
    var i := 1;
    while i < |links|
      invariant 1 <= i <= |links| && worst < |links|
      invariant WorstMarked(p, links, marked, 0, None) == WorstMarked(p, links, marked, i, Some(worst))
    {
      if Compare(p, links[i], i, links[worst], worst) < 0 {
        worst := i;
      }
      i := i + 1;
    }
  }

  class ForestNode {
    const p: Policy
    const cap: nat
    var links: seq<Link>
    var errorCost: int
    var dirty: nat
    var noExtraDepth: nat
    var dupValid: bool
    var dupDirty: nat
    var dupIdx: int
    var worstValid: bool
    var worstDirty: nat
    var worstIdx: int

    /** A cached scan stamped with the current dirty count is a fresh scan. */
    ghost predicate Ok()
      reads this
    {
      && |links| <= cap
      && (dupValid ==> dupDirty <= dirty)
      && (dupValid && dupDirty == dirty ==>
            WorstDuplicate(p, links) == if dupIdx < 0 then None else Some(dupIdx))
      && (worstValid ==> worstDirty <= dirty)
      && (worstValid && worstDirty == dirty ==> |links| > 0 && worstIdx == WorstResident(p, links))
    }

    ghost function Now(): State
      reads this
    {
      State(links, errorCost, dirty, noExtraDepth)
    }

    constructor (p: Policy, cap: nat, a: Arrival)
      ensures Ok() && Now() == Fresh(a) && this.p == p && this.cap == cap
    {
      this.p, this.cap := p, cap;
      links, errorCost, dirty, noExtraDepth := [], a.errorCost, 0, 0;
      dupValid, dupDirty, dupIdx, worstValid, worstDirty, worstIdx := false, 0, 0, false, 0, 0;
    }

    method CachedDuplicate() returns (r: Option<nat>)
      requires Ok()
      modifies this`dupValid, this`dupDirty, this`dupIdx
      ensures Ok() && r == WorstDuplicate(p, links)
    {
      if dupValid && dupDirty == dirty {
        return if dupIdx < 0 then None else Some(dupIdx);
      }
      r := ScanDuplicate(p, links);
      dupDirty, dupValid := dirty, true;
      dupIdx := if r.Some? then r.value else -1;
    }

    method CachedWorst() returns (r: nat)
      requires Ok() && |links| > 0
      modifies this`worstValid, this`worstDirty, this`worstIdx
      ensures Ok() && r == WorstResident(p, links)
    {
      if worstValid && worstDirty == dirty {
        return worstIdx;
      }
      r := ScanWorst(p, links);
      worstDirty, worstValid, worstIdx := dirty, true, r;
    }

    /** The resident that gives way, found through the cached scans. */
    method ReplacementIndex(c: Link) returns (r: Option<nat>)
      requires Ok()
      modifies this`dupValid, this`dupDirty, this`dupIdx, this`worstValid, this`worstDirty, this`worstIdx
      ensures Ok() && r == Replaced(p, links, c)
    {
      if |links| == 0 {
        return None;
      }
      var hidden := Hidden(p, c.entry);
      if p.raw {
        var same := ScanSameShape(p, links, c);
        if same.Some? {
          if hidden && Tied(c, links[same.value]) {
            return None;
          }
          return if Compare(p, c, |links|, links[same.value], same.value) > 0 then same else None;
        }
        var dup := CachedDuplicate();
        if dup.Some? {
          return dup;
        }
      }
      var worst := CachedWorst();
      if hidden && Tied(c, links[worst]) {
        return if Pins(c, links[worst]) then Some(worst) else None;
      }
      return if Compare(p, c, |links|, links[worst], worst) > 0 then Some(worst) else None;
    }

    /** The slot contest at link `i`. */
    method ContestLink(i: nat, a: Arrival)
      requires Ok() && i < |links|
      modifies this`links, this`dirty
      ensures Ok() && Now() == Contest(p, old(Now()), i, a)
    {
      var l := links[i];
      if Hidden(p, a.entry) {
        if a.errorCost < l.errorCost || (a.errorCost == l.errorCost && a.score > l.score) {
          links, dirty := links[i := LinkOf(a)], dirty + 1;
        }
      } else if Compare(p, LinkOf(a), |links|, l, i) > 0 {
        links, dirty := links[i := LinkOf(a)], dirty + 1;
      } else if a.score == l.score && a.entry.height > l.entry.height {
        links, dirty := links[i := l.(entry := a.entry)], dirty + 1;
      }
      if links[i].prevDirty != a.prevDirty {
        links, dirty := links[i := links[i].(prevDirty := a.prevDirty)], dirty + 1;
      }
    }

    /** Looks for a derivation of the same slot and settles the arrival there. */
    method DedupArrival(a: Arrival) returns (settled: bool)
      requires Ok()
      modifies this`links, this`dirty
      ensures Ok()
      ensures var d := Dedup(p, old(Now()), 0, a);
              settled == d.Some? && Now() == if settled then d.value else old(Now())
    {
      var i := 0;
      while i < |links|
        invariant 0 <= i <= |links| && Ok() && Now() == old(Now())
        invariant Dedup(p, Now(), 0, a) == Dedup(p, Now(), i, a)
      {
        if SameSlot(a, links[i]) {
          if Comparable(p, a, links[i]) {
            ContestLink(i, a);
            return true;
          }
          if Tied(LinkOf(a), links[i]) {
            var w := p.wrapper(a.entry, links[i].entry);
            if w == 1 {
              links, dirty := links[i := LinkOf(a)], dirty + 1;
              return true;
            }
            if w == -1 {
              return true;
            }
          }
        }
        i := i + 1;
      }
      return false;
    }

    method Place(a: Arrival)
      requires Ok()
      modifies this
      ensures Ok() && Now() == Placed(p, old(Now()), a, cap)
    {
      if |links| >= cap {
        var r := ReplacementIndex(LinkOf(a));
        if r.Some? {
          links, dirty := links[r.value := LinkOf(a)], dirty + 1;
          noExtraDepth := Min(noExtraDepth, a.depth);
        }
        return;
      }
      noExtraDepth := if |links| == 0 then a.depth else Min(noExtraDepth, a.depth);
      links, dirty := links + [LinkOf(a)], dirty + 1;
    }

    /** Takes up one arrival; the cached scans never show in the outcome. */
    method Coalesce(a: Arrival)
      requires Ok()
      modifies this
      ensures Ok() && Now() == Coalesced(p, old(Now()), a, cap)
    {
      if a.errorCost < errorCost {
        errorCost := a.errorCost;
      }
      if a.entry.node {
        var settled := DedupArrival(a);
        if settled {
          return;
        }
      }
      Place(a);
    }
  }
}
