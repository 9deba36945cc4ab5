/** Bookkeeping of a reduction run: the visits buffered so far, the two counters, and the
    capped flag.  A run is capped exactly when a budget would be exceeded. */
module ForestProgress {
  import opened Forest

  const STEP_CAP: nat := 65536

  // ----- link by link -------------------------------------------------------

  /** The visits through the links of `n` before link `i`, in link order. */
  ghost function PathsTo(f: Graph, n: nat, i: nat, remaining: nat, path: seq<Subtree>, score: int): seq<Visit>
    requires Acyclic(f) && n < |f| && i <= |f[n].links| && remaining > 0
    decreases i
  {
    if i == 0 then []
    else
      LinkDescends(f, n, i - 1);
      PathsTo(f, n, i - 1, remaining, path, score) + PathsVia(f, f[n].links[i - 1], remaining, path, score)
  }

  lemma {:induction false} PathsSplit(f: Graph, n: nat, i: nat, remaining: nat, path: seq<Subtree>, score: int)
    requires Acyclic(f) && n < |f| && i <= |f[n].links| && remaining > 0
    ensures PathsTo(f, n, i, remaining, path, score) + PathsFrom(f, n, i, remaining, path, score)
            == PathsFrom(f, n, 0, remaining, path, score)
    decreases i
  {
    if i > 0 {
      PathsSplit(f, n, i - 1, remaining, path, score);
    }
  }

  /** The links a plain search enters below `r`. */
  ghost function SearchSteps(f: Graph, r: Ref, remaining: nat): nat
    requires Acyclic(f) && ValidRef(f, r)
    decreases Height(f, r), 1, 0
  {
    if remaining == 0 || r.Nil? then 0 else StepsTo(f, r.id, |f[r.id].links|, remaining)
  }

  ghost function StepsTo(f: Graph, n: nat, i: nat, remaining: nat): nat
    requires Acyclic(f) && n < |f| && i <= |f[n].links| && remaining > 0
    decreases Height(f, At(n)), 0, i
  {
    if i == 0 then 0
    else
      LinkDescends(f, n, i - 1);
      StepsTo(f, n, i - 1, remaining) + StepsVia(f, f[n].links[i - 1], remaining)
  }

  ghost function StepsVia(f: Graph, l: Link, remaining: nat): nat
    requires Acyclic(f) && ValidRef(f, l.prev) && remaining > 0
    decreases Height(f, l.prev), 2, 0
  {
    1 + SearchSteps(f, l.prev, After(l, remaining))
  }

  lemma {:induction false} StepsGrow(f: Graph, n: nat, i: nat, j: nat, remaining: nat)
    requires Acyclic(f) && n < |f| && i <= j <= |f[n].links| && remaining > 0
    ensures StepsTo(f, n, i, remaining) <= StepsTo(f, n, j, remaining)
    decreases j - i
  {
    if i < j {
      StepsGrow(f, n, i, j - 1, remaining);
    }
  }

  // ----- progress -----------------------------------------------------------

  datatype Progress = Progress(visits: seq<Visit>, count: nat, steps: nat, capped: bool)

  /** The budgets allow that many more visits and steps; `cap` 0 is no visit budget. */
  ghost predicate Affordable(p: Progress, cap: nat, visits: nat, steps: nat) {
    && (visits == 0 || cap == 0 || p.count + visits <= cap)
    && (steps == 0 || p.steps + steps <= STEP_CAP)
  }

  /** `q` is `p` with the visits `all` added at the cost of `steps`.  It is capped, with only
      a front of them added, exactly when `p` was or when that is not affordable. */
  ghost predicate Grew(p: Progress, q: Progress, cap: nat, all: seq<Visit>, steps: nat) {
    && p.visits <= q.visits <= p.visits + all
    && (q.capped <==> p.capped || !Affordable(p, cap, |all|, steps))
    && (!q.capped ==> q == Progress(p.visits + all, p.count + |all|, p.steps + steps, false))
  }

  lemma {:induction false} GrewNothing(p: Progress, cap: nat)
    ensures Grew(p, p, cap, [], 0)
  {
  }

  lemma {:induction false} GrewOn(p: Progress, q: Progress, r: Progress, cap: nat, a: seq<Visit>, s: nat, b: seq<Visit>, t: nat)
    requires Grew(p, q, cap, a, s) && !q.capped && Grew(q, r, cap, b, t)
    ensures Grew(p, r, cap, a + b, s + t)
  {
    assert p.visits + (a + b) == p.visits + a + b;
  }

  lemma {:induction false} GrewCapped(p: Progress, q: Progress, cap: nat, a: seq<Visit>, s: nat, b: seq<Visit>, t: nat)
    requires Grew(p, q, cap, a, s) && q.capped
    ensures Grew(p, q, cap, a + b, s + t)
  {
    assert p.visits + (a + b) == p.visits + a + b;
  }

  /** The links of `n` before `i` have been taken; `counted` says whether they cost steps. */
  ghost predicate GrewTo(f: Graph, n: nat, i: nat, remaining: nat, path: seq<Subtree>, score: int,
                         p: Progress, q: Progress, cap: nat, counted: bool)
    requires Acyclic(f) && n < |f| && i <= |f[n].links| && remaining > 0
  {
    Grew(p, q, cap, PathsTo(f, n, i, remaining, path, score), if counted then StepsTo(f, n, i, remaining) else 0)
  }

  lemma {:induction false} GrewNext(f: Graph, n: nat, i: nat, remaining: nat, path: seq<Subtree>, score: int,
                                    p: Progress, q: Progress, r: Progress, cap: nat, counted: bool)
    requires Acyclic(f) && n < |f| && i < |f[n].links| && remaining > 0 && ValidRef(f, f[n].links[i].prev)
    requires GrewTo(f, n, i, remaining, path, score, p, q, cap, counted) && !q.capped
    requires Grew(q, r, cap, PathsVia(f, f[n].links[i], remaining, path, score),
                  if counted then StepsVia(f, f[n].links[i], remaining) else 0)
    ensures GrewTo(f, n, i + 1, remaining, path, score, p, r, cap, counted)
  {
    GrewOn(p, q, r, cap, PathsTo(f, n, i, remaining, path, score), if counted then StepsTo(f, n, i, remaining) else 0,
           PathsVia(f, f[n].links[i], remaining, path, score), if counted then StepsVia(f, f[n].links[i], remaining) else 0);
  }

  /** At the last link, or once capped, all links of the node are accounted for. */
  lemma {:induction false} GrewAll(f: Graph, n: nat, i: nat, remaining: nat, path: seq<Subtree>, score: int,
                                   p: Progress, q: Progress, cap: nat, counted: bool)
    requires Acyclic(f) && n < |f| && i <= |f[n].links| && remaining > 0
    requires GrewTo(f, n, i, remaining, path, score, p, q, cap, counted) && (i == |f[n].links| || q.capped)
    ensures Grew(p, q, cap, Paths(f, At(n), remaining, path, score), if counted then SearchSteps(f, At(n), remaining) else 0)
  {
    var k := |f[n].links|;
    PathsSplit(f, n, i, remaining, path, score);
    if q.capped {
      StepsGrow(f, n, i, k, remaining);
      var s := if counted then StepsTo(f, n, i, remaining) else 0;
      var all := if counted then StepsTo(f, n, k, remaining) else 0;
      GrewCapped(p, q, cap, PathsTo(f, n, i, remaining, path, score), s,
                 PathsFrom(f, n, i, remaining, path, score), all - s);
    } else {
      assert PathsFrom(f, n, k, remaining, path, score) == [];
    }
  }
}
