/** Which link gives way at a full forest node.  The choice keeps raw-shape diversity
    first and is written so that equal-ranked hidden alternatives cannot push each other
    out for ever. */
module ForestCap {
  import opened Wrappers

  /** A link's subtree as the policy sees it: `raw` is its raw-shape class, unknown for a
      shape that cannot be compared; `node` is false for entries without a Node. */
  datatype Entry = Entry(node: bool, symbol: nat, start: nat, end: nat, raw: Option<nat>, height: nat, id: nat)

  datatype Link = Link(prev: Option<nat>, prevDirty: nat, entry: Entry, score: int, errorCost: int)

  /** What the parser contributes: whether raw shapes are at hand, whether symbol
      visibility is known and which symbols are hidden, the tie-breaking comparison of
      result selection, and the preference for visible named wrappers. */
  datatype Policy = Policy(raw: bool, language: bool, hidden: nat -> bool, tie: (Entry, Entry) -> int, wrapper: (Entry, Entry) -> int)

  predicate RawEqual(a: Entry, b: Entry) {
    a.raw.Some? && b.raw.Some? && a.raw == b.raw
  }

  predicate Hidden(p: Policy, e: Entry) {
    p.language && e.node && p.hidden(e.symbol)
  }

  /** Result preference: positive if `a` beats `b`; positions decide exact ties. */
  function Compare(p: Policy, a: Link, aOrder: nat, b: Link, bOrder: nat): int {
    if a.errorCost != b.errorCost then (if a.errorCost < b.errorCost then 1 else -1)
    else if a.score != b.score then (if a.score > b.score then 1 else -1)
    else if p.raw && p.tie(a.entry, b.entry) != 0 then p.tie(a.entry, b.entry)
    else if aOrder < bOrder then 1
    else if aOrder > bOrder then -1
    else 0
  }

  /** The last of the worst-ranked links among those marked, scanning from `i`. */
  function WorstMarked(p: Policy, links: seq<Link>, marked: seq<bool>, i: nat, worst: Option<nat>): (r: Option<nat>)
    requires |marked| == |links| && i <= |links|
    requires worst.Some? ==> worst.value < |links| && marked[worst.value]
    ensures r.Some? ==> r.value < |links| && marked[r.value]
    ensures r.None? <==> worst.None? && forall k :: i <= k < |links| ==> !marked[k]
    decreases |links| - i
  {
    if i == |links| then worst
    else if marked[i] && (worst.None? || Compare(p, links[i], i, links[worst.value], worst.value) < 0)
    then WorstMarked(p, links, marked, i + 1, Some(i))
    else WorstMarked(p, links, marked, i + 1, worst)
  }

  predicate HasPeer(links: seq<Link>, i: nat)
    requires i < |links|
  {
    exists j :: 0 <= j < |links| && j != i && RawEqual(links[i].entry, links[j].entry)
  }

  function SameShape(links: seq<Link>, c: Link): seq<bool> {
    seq(|links|, i requires 0 <= i < |links| => RawEqual(c.entry, links[i].entry))
  }

  function Duplicates(links: seq<Link>): seq<bool> {
    seq(|links|, i requires 0 <= i < |links| => HasPeer(links, i))
  }

  function WorstSameShape(p: Policy, links: seq<Link>, c: Link): Option<nat> {
    WorstMarked(p, links, SameShape(links, c), 0, None)
  }

  function WorstDuplicate(p: Policy, links: seq<Link>): Option<nat> {
    WorstMarked(p, links, Duplicates(links), 0, None)
  }

  function WorstResident(p: Policy, links: seq<Link>): (r: nat)
    requires |links| > 0
    ensures r < |links|
  {
    var all := seq(|links|, i requires 0 <= i < |links| => true);
    var w := WorstMarked(p, links, all, 0, None);
    assert all[0];
    w.value
  }

  /** A wider candidate of the same symbol and end survives a tie. */
  predicate Pins(c: Link, incumbent: Link) {
    && c.entry.node && incumbent.entry.node
    && c.entry.symbol == incumbent.entry.symbol
    && c.entry.end == incumbent.entry.end
    && c.entry.start < incumbent.entry.start
  }

  predicate Tied(a: Link, b: Link) {
    a.errorCost == b.errorCost && a.score == b.score
  }

  /** The resident that gives way to the candidate at a full node, if any. */
  function Replaced(p: Policy, links: seq<Link>, c: Link): (r: Option<nat>)
    ensures r.Some? ==> r.value < |links|
  {
    if links == [] then None
    else
      var hidden := Hidden(p, c.entry);
      var same := if p.raw then WorstSameShape(p, links, c) else None;
      if same.Some? then
        if hidden && Tied(c, links[same.value]) then None
        else if Compare(p, c, |links|, links[same.value], same.value) > 0 then same
        else None
      else
        var dup := if p.raw then WorstDuplicate(p, links) else None;
        if dup.Some? then dup
        else
          var worst := WorstResident(p, links);
          if hidden && Tied(c, links[worst]) then
            if Pins(c, links[worst]) then Some(worst) else None
          else if Compare(p, c, |links|, links[worst], worst) > 0 then Some(worst)
          else None
  }

  // ----- what the choice does to cost and score -------------------------------

  /** Of lower error cost, or of the same cost and no lower score. */
  predicate AsGood(a: Link, b: Link) {
    a.errorCost < b.errorCost || (a.errorCost == b.errorCost && a.score >= b.score)
  }

  /** The comparison follows cost, then score; only exact ties are left to the tie-breaker and,
      where that is silent or there is none, to position, the earlier being preferred. */
  lemma {:induction false} CompareFollowsRank(p: Policy, a: Link, i: nat, b: Link, j: nat)
    ensures Compare(p, a, i, b, j) > 0 ==> AsGood(a, b)
    ensures Compare(p, a, i, b, j) <= 0 ==> AsGood(b, a)
    ensures a.errorCost < b.errorCost ==> Compare(p, a, i, b, j) > 0
    ensures a.errorCost == b.errorCost && a.score > b.score ==> Compare(p, a, i, b, j) > 0
    ensures Tied(a, b) && p.raw && p.tie(a.entry, b.entry) != 0 ==> Compare(p, a, i, b, j) == p.tie(a.entry, b.entry)
    ensures Tied(a, b) && (p.raw ==> p.tie(a.entry, b.entry) == 0) ==> (Compare(p, a, i, b, j) > 0 <==> i < j)
    ensures Tied(a, b) && (p.raw ==> p.tie(a.entry, b.entry) == 0) ==> (Compare(p, a, i, b, j) < 0 <==> i > j)
  {
  }

  /** No marked link before `i` ranks below link `w`. */
  ghost predicate LowestSoFar(p: Policy, links: seq<Link>, marked: seq<bool>, i: nat, w: nat)
    requires |marked| == |links| && i <= |links| && w < |links|
  {
    forall k: nat :: k < i && marked[k] ==> AsGood(links[k], links[w]) && (!p.raw && Tied(links[k], links[w]) ==> k <= w)
  }

  /** The worst marked link has the greatest error cost of the marked ones and, of those, the least
      score; without raw shapes it is the last such. */
  lemma {:induction false} WorstRanksLowest(p: Policy, links: seq<Link>, marked: seq<bool>, i: nat, worst: Option<nat>)
    requires |marked| == |links| && i <= |links|
    requires worst.Some? ==> worst.value < i && marked[worst.value] && LowestSoFar(p, links, marked, i, worst.value)
    requires worst.None? ==> forall k: nat :: k < i ==> !marked[k]
    ensures var r := WorstMarked(p, links, marked, i, worst);
      r.Some? ==> LowestSoFar(p, links, marked, |links|, r.value)
    decreases |links| - i
  {
    if i < |links| {
      if worst.Some? {
        CompareFollowsRank(p, links[i], i, links[worst.value], worst.value);
      }
      if marked[i] && (worst.None? || Compare(p, links[i], i, links[worst.value], worst.value) < 0) {
        WorstRanksLowest(p, links, marked, i + 1, Some(i));
      } else {
        WorstRanksLowest(p, links, marked, i + 1, worst);
      }
    }
  }

  /** The links after the candidate has been taken or turned away at a full node. */
  function Settle(p: Policy, links: seq<Link>, c: Link): (after: seq<Link>)
    ensures |after| == |links|
  {
    var r := Replaced(p, links, c);
    if r.Some? then links[r.value := c] else links
  }

  /** Some link of `links` is as good as `l`. */
  ghost predicate Matched(links: seq<Link>, l: Link) {
    exists j: nat :: j < |links| && AsGood(links[j], l)
  }

  /** A candidate replaces by rank only what it is as good as; the one exception takes the place
      of a duplicate shape whose twin is as good as the one that goes. */
  lemma {:induction false} ReplacedRanks(p: Policy, links: seq<Link>, c: Link)
    requires links != []
    ensures var r := Replaced(p, links, c);
      if r.None? then Matched(links, c)
      else
        || AsGood(c, links[r.value])
        || (p.raw && exists j: nat :: j < |links| && j != r.value && RawEqual(links[r.value].entry, links[j].entry)
                                      && AsGood(links[j], links[r.value]))
  {
    var r := Replaced(p, links, c);
    var same := if p.raw then WorstSameShape(p, links, c) else None;
    var dup := if p.raw then WorstDuplicate(p, links) else None;
    if same.Some? {
      CompareFollowsRank(p, c, |links|, links[same.value], same.value);
    } else if dup.Some? {
      var marked := Duplicates(links);
      WorstRanksLowest(p, links, marked, 0, None);
      var w := dup.value;
      var j: nat :| j < |links| && j != w && RawEqual(links[w].entry, links[j].entry);
      assert HasPeer(links, j) by { assert RawEqual(links[j].entry, links[w].entry); }
      assert marked[j];
    } else {
      var w := WorstResident(p, links);
      CompareFollowsRank(p, c, |links|, links[w], w);
    }
  }

  /** So at a full node nothing gets worse: whatever was resident, and the candidate itself, is
      matched by a resident as good. */
  lemma {:induction false} FullNodeKeepsBest(p: Policy, links: seq<Link>, c: Link, l: Link)
    requires links != [] && (Matched(links, l) || l == c)
    ensures Matched(Settle(p, links, c), l)
  {
    ReplacedRanks(p, links, c);
    var after, r := Settle(p, links, c), Replaced(p, links, c);
    if r.Some? && l == c {
      assert after[r.value] == c;
    } else if r.Some? {
      var k: nat :| k < |links| && AsGood(links[k], l);
      if k != r.value {
        assert after[k] == links[k];
      } else if AsGood(c, links[k]) {
        assert AsGood(after[k], l);
      } else {
        var j: nat :| j < |links| && j != r.value && AsGood(links[j], links[r.value]);
        assert after[j] == links[j] && AsGood(links[j], links[k]);
      }
    }
  }

  // ----- ties at a full node ---------------------------------------------------

  /** `c` ends where `l` does under the same symbol and starts no later. */
  predicate Covers(c: Link, l: Link) {
    && c.entry.node && l.entry.node && c.entry.symbol == l.entry.symbol
    && c.entry.start <= l.entry.start && c.entry.end == l.entry.end
  }

  ghost predicate AllTied(links: seq<Link>, c: Link) {
    forall k: nat :: k < |links| ==> Tied(c, links[k])
  }

  lemma {:induction false} WorstOfTied(p: Policy, links: seq<Link>, c: Link)
    requires links != [] && AllTied(links, c) && !p.raw
    ensures WorstResident(p, links) == |links| - 1
  {
    var all := seq(|links|, i requires 0 <= i < |links| => true);
    WorstRanksLowest(p, links, all, 0, None);
    assert all[0] && all[|links| - 1];
  }

  /** Without raw shapes a candidate tied with all residents is taken if and only if its symbol is
      known to be hidden and it is strictly wider than the last resident, whose place it takes. */
  lemma {:induction false} TiedCandidateIff(p: Policy, links: seq<Link>, c: Link)
    requires links != [] && AllTied(links, c) && !p.raw
    ensures var last := |links| - 1;
      Replaced(p, links, c) ==
        if p.language && p.hidden(c.entry.symbol) && Covers(c, links[last]) && !Covers(links[last], c) then Some(last) else None
  {
    WorstOfTied(p, links, c);
    CompareFollowsRank(p, c, |links|, links[|links| - 1], |links| - 1);
  }

  /** With raw shapes and no two alike, a tied candidate not known to be a hidden node is taken if
      and only if the shape tie-breaker prefers it to the worst resident. */
  lemma {:induction false} VisibleTieByShape(p: Policy, links: seq<Link>, c: Link)
    requires links != [] && AllTied(links, c) && p.raw && !(p.language && c.entry.node && p.hidden(c.entry.symbol))
    requires forall i: nat :: i < |links| ==> !HasPeer(links, i) && !RawEqual(c.entry, links[i].entry)
    ensures var w := WorstResident(p, links);
      Replaced(p, links, c) == if p.tie(c.entry, links[w].entry) > 0 then Some(w) else None
  {
    var w := WorstResident(p, links);
    CompareFollowsRank(p, c, |links|, links[w], w);
  }

  /** Among tied residents of different shapes a hidden candidate drops no span: every resident
      is covered afterwards by one of its symbol that ends where it does. */
  lemma {:induction false} TieKeepsWidest(p: Policy, links: seq<Link>, c: Link, k: nat)
    requires k < |links| && AllTied(links, c) && links[k].entry.node
    requires p.language && p.hidden(c.entry.symbol) && c.entry.node
    requires p.raw ==> forall i: nat :: i < |links| ==> !HasPeer(links, i)
    ensures exists j: nat :: j < |links| && Covers(Settle(p, links, c)[j], links[k])
  {
    var after := Settle(p, links, c);
    assert Covers(after[k], links[k]);
  }

  // ----- raw-shape classes --------------------------------------------------

  /** A link's class: its raw shape, or a class of its own when that is unknown. */
  datatype Class = Shape(raw: nat) | Lone(at: nat)

  function ClassOf(l: Link, at: nat): Class {
    if l.entry.raw.Some? then Shape(l.entry.raw.value) else Lone(at)
  }

  function Classes(links: seq<Link>): set<Class> {
    set i: nat | i < |links| :: ClassOf(links[i], i)
  }

  lemma {:induction false} ClassesWithout(links: seq<Link>, i: nat, c: Link)
    requires i < |links|
    ensures Classes(links[i := c])
            == (if HasPeer(links, i) then Classes(links) else Classes(links) - {ClassOf(links[i], i)}) + {ClassOf(c, i)}
  {
    var next := links[i := c];
    var left := if HasPeer(links, i) then Classes(links) else Classes(links) - {ClassOf(links[i], i)};
    forall x | x in Classes(next)
      ensures x in left + {ClassOf(c, i)}
    {
      var k: nat :| k < |next| && ClassOf(next[k], k) == x;
      if k != i {
        assert ClassOf(links[k], k) == x;
        if x == ClassOf(links[i], i) { assert RawEqual(links[i].entry, links[k].entry); }
      }
    }
    forall x | x in left
      ensures x in Classes(next)
    {
      var k: nat :| k < |links| && ClassOf(links[k], k) == x;
      if k == i {
        var j: nat :| j < |links| && j != i && RawEqual(links[i].entry, links[j].entry);
        assert ClassOf(next[j], j) == x;
      } else {
        assert ClassOf(next[k], k) == x;
      }
    }
    assert ClassOf(next[i], i) in Classes(next);
  }

  lemma {:induction false} ClassesBounded(links: seq<Link>)
    ensures |Classes(links)| <= |links|
    decreases |links|
  {
    if links != [] {
      var last := |links| - 1;
      ClassesBounded(links[..last]);
      assert Classes(links) == Classes(links[..last]) + {ClassOf(links[last], last)} by {
        forall x | x in Classes(links)
          ensures x in Classes(links[..last]) + {ClassOf(links[last], last)}
        {
          var k: nat :| k < |links| && ClassOf(links[k], k) == x;
          if k < last { assert links[..last][k] == links[k]; }
        }
        forall x | x in Classes(links[..last])
          ensures x in Classes(links)
        {
          var k: nat :| k < |links[..last]| && ClassOf(links[..last][k], k) == x;
          assert links[..last][k] == links[k];
        }
      }
    } else {
      assert Classes(links) == {};
    }
  }

  /** Any replacement keeps the number of classes unless it trades the last member of one
      class for another member of a class already there. */
  lemma ReplacementClasses(links: seq<Link>, i: nat, c: Link)
    requires i < |links|
    ensures |Classes(links[i := c])| < |Classes(links)|
            <==> !HasPeer(links, i) && ClassOf(c, i) in Classes(links) && ClassOf(c, i) != ClassOf(links[i], i)
  {
    ClassesWithout(links, i, c);
    assert ClassOf(links[i], i) in Classes(links);
  }

  lemma {:induction false} NotAmong(p: Policy, links: seq<Link>, i: nat, c: Link)
    requires i < |links| && WorstSameShape(p, links, c).None? && c.entry.raw.Some?
    ensures ClassOf(c, i) !in Classes(links)
  {
    forall k: nat | k < |links|
      ensures ClassOf(links[k], k) != ClassOf(c, i)
    {
      assert !SameShape(links, c)[k];
    }
  }

  /** At a full node the number of raw-shape classes never falls. */
  lemma ClassesNeverFall(p: Policy, links: seq<Link>, c: Link)
    requires p.raw && Replaced(p, links, c).Some?
    ensures |Classes(links[Replaced(p, links, c).value := c])| >= |Classes(links)|
  {
    var i := Replaced(p, links, c).value;
    ReplacementClasses(links, i, c);
    var same := WorstSameShape(p, links, c);
    if same.Some? {
      assert SameShape(links, c)[i];
    } else if c.entry.raw.Some? {
      NotAmong(p, links, i, c);
    } else {
      LoneIsOwn(links, i, c);
    }
  }

  lemma {:induction false} LoneIsOwn(links: seq<Link>, i: nat, c: Link)
    requires i < |links| && c.entry.raw.None?
    ensures ClassOf(c, i) in Classes(links) ==> ClassOf(c, i) == ClassOf(links[i], i)
  {
  }

  // ----- hidden ties --------------------------------------------------------

  function Starts(links: seq<Link>): nat {
    if links == [] then 0 else Starts(links[..|links| - 1]) + links[|links| - 1].entry.start
  }

  lemma {:induction false} StartsUpdate(links: seq<Link>, i: nat, c: Link)
    requires i < |links|
    ensures Starts(links[i := c]) + links[i].entry.start == Starts(links) + c.entry.start
    decreases |links|
  {
    var last := |links| - 1;
    if i < last {
      assert links[i := c][..last] == links[..last][i := c];
      StartsUpdate(links[..last], i, c);
    } else {
      assert links[i := c][..last] == links[..last];
    }
  }

  const BYTE_LIMIT: nat := 0x1_0000_0000

  lemma {:induction false} StartsBounded(links: seq<Link>)
    requires forall k :: 0 <= k < |links| ==> links[k].entry.start < BYTE_LIMIT
    ensures Starts(links) <= |links| * BYTE_LIMIT
    decreases |links|
  {
    if links != [] {
      StartsBounded(links[..|links| - 1]);
    }
  }

  /** All links hidden, tied with each other, and within 32-bit offsets. */
  ghost predicate HiddenTie(p: Policy, links: seq<Link>) {
    && (forall k :: 0 <= k < |links| ==> Hidden(p, links[k].entry) && links[k].entry.start < BYTE_LIMIT)
    && (forall j, k :: 0 <= j < |links| && 0 <= k < |links| ==> Tied(links[j], links[k]))
  }

  /** Missing classes first, then the sum of start bytes, folded into one number. */
  function Unrest(links: seq<Link>): int {
    (|links| - |Classes(links)|) * (|links| * BYTE_LIMIT + 1) + Starts(links)
  }

  /** Among tied hidden links every replacement gains a class, or keeps all classes and
      moves to a wider span. */
  lemma {:induction false} TieReplacementSettles(p: Policy, links: seq<Link>, c: Link)
    requires p.raw && HiddenTie(p, links + [c]) && Replaced(p, links, c).Some?
    ensures var next := links[Replaced(p, links, c).value := c];
            || |Classes(next)| > |Classes(links)|
            || (|Classes(next)| == |Classes(links)| && Starts(next) < Starts(links))
  {
    var i := Replaced(p, links, c).value;
    assert (links + [c])[i] == links[i] && (links + [c])[|links|] == c;
    assert Tied((links + [c])[|links|], (links + [c])[i]) && Hidden(p, c.entry);
    ClassesWithout(links, i, c);
    assert WorstSameShape(p, links, c).None?;
    if c.entry.raw.Some? {
      NotAmong(p, links, i, c);
    } else {
      LoneIsOwn(links, i, c);
    }
    assert ClassOf(links[i], i) in Classes(links);
    if WorstDuplicate(p, links).Some? {
      assert Duplicates(links)[i];
    } else {
      assert !Duplicates(links)[i];
      StartsUpdate(links, i, c);
    }
  }

  lemma {:induction false} TieReplacementLowersUnrest(p: Policy, links: seq<Link>, c: Link)
    requires p.raw && HiddenTie(p, links + [c]) && Replaced(p, links, c).Some?
    ensures var next := links[Replaced(p, links, c).value := c];
            0 <= Unrest(next) < Unrest(links) && HiddenTie(p, next)
  {
    var i := Replaced(p, links, c).value;
    TieWithout(p, links, i, c);
    TieReplacementSettles(p, links, c);
    UnrestFalls(links, links[i := c]);
  }

  lemma {:induction false} TieWithout(p: Policy, links: seq<Link>, i: nat, c: Link)
    requires i < |links| && HiddenTie(p, links + [c])
    ensures HiddenTie(p, links[i := c])
  {
    var next, all := links[i := c], links + [c];
    forall k | 0 <= k < |next| ensures next[k] in all {
      assert next[k] == if k == i then all[|links|] else all[k];
    }
    TieOfPart(p, all, next);
  }

  lemma {:induction false} UnrestFalls(links: seq<Link>, next: seq<Link>)
    requires |next| == |links| && forall k :: 0 <= k < |next| ==> next[k].entry.start < BYTE_LIMIT
    requires |Classes(next)| > |Classes(links)| || (|Classes(next)| == |Classes(links)| && Starts(next) < Starts(links))
    ensures 0 <= Unrest(next) < Unrest(links)
  {
    ClassesBounded(links);
    ClassesBounded(next);
    StartsBounded(next);
    UnrestArithmetic(|links| - |Classes(links)|, |next| - |Classes(next)|, Starts(links), Starts(next), |links| * BYTE_LIMIT + 1);
  }

  lemma {:induction false} UnrestArithmetic(d: nat, e: nat, s: nat, t: nat, w: nat)
    requires t < w && (e < d || (e == d && t < s))
    ensures 0 <= e * w + t < d * w + s
  {
    if e < d {
      assert (e + 1) * w <= d * w;
    }
  }

  lemma {:induction false} UnrestNotNegative(links: seq<Link>)
    ensures Unrest(links) >= 0
  {
    ClassesBounded(links);
    Product(|links| - |Classes(links)|, |links| * BYTE_LIMIT + 1);
  }

  lemma {:induction false} Product(a: nat, b: nat)
    ensures a * b >= 0
  {
  }

  /** A stream of candidates at a full node: the links it leaves and the replacements it made. */
  function Stream(p: Policy, links: seq<Link>, cs: seq<Link>): (r: (seq<Link>, nat))
    ensures r.1 <= |cs| && (r.1 == 0 ==> r.0 == links)
    decreases |cs|
  {
    if cs == [] then (links, 0)
    else
      match Replaced(p, links, cs[0])
      case None => Stream(p, links, cs[1..])
      case Some(i) => var r := Stream(p, links[i := cs[0]], cs[1..]); (r.0, r.1 + 1)
  }

  /** No oscillation: however long a stream of tied hidden candidates is, it makes at most
      as many replacements as the node's unrest at the start. */
  lemma {:induction false} TiesCannotOscillate(p: Policy, links: seq<Link>, cs: seq<Link>)
    requires p.raw && links != [] && HiddenTie(p, links + cs)
    ensures Stream(p, links, cs).1 <= Unrest(links)
    decreases |cs|
  {
    UnrestNotNegative(links);
    if cs != [] {
      var c := cs[0];
      var all := links + cs;
      TieOfPart(p, all, links + [c]);
      match Replaced(p, links, c)
      case None =>
        TieOfPart(p, all, links + cs[1..]);
        TiesCannotOscillate(p, links, cs[1..]);
      case Some(i) =>
        TieReplacementLowersUnrest(p, links, c);
        TieOfPart(p, all, links[i := c] + cs[1..]);
        TiesCannotOscillate(p, links[i := c], cs[1..]);
    }
  }

  lemma {:induction false} TieOfPart(p: Policy, all: seq<Link>, part: seq<Link>)
    requires HiddenTie(p, all) && forall k :: 0 <= k < |part| ==> part[k] in all
    ensures HiddenTie(p, part)
  {
    forall j, k | 0 <= j < |part| && 0 <= k < |part|
      ensures Tied(part[j], part[k])
    {
      assert part[j] in all && part[k] in all;
    }
    forall k | 0 <= k < |part|
      ensures Hidden(p, part[k].entry) && part[k].entry.start < BYTE_LIMIT
    {
      assert part[k] in all;
    }
  }
}
