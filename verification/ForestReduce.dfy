/** The forest reducer: a plain depth-first enumeration and the faster routes taken when
    the graph below a node is linear, forked once, or free of extras.  Every route hands
    out the same visits in the same order; visits are buffered during the walk and
    handed out afterwards. */
module ForestReduce {
  import opened Forest
  import opened ForestProgress

  // ----- the visit buffer ---------------------------------------------------

  /** A buffered visit: a window of the shared child buffer. */
  datatype Emit = Emit(start: nat, count: nat, score: int, popTo: Ref, noExtras: bool)

  ghost predicate Window(buffer: seq<Subtree>, e: Emit) {
    e.start + e.count <= |buffer|
  }

  ghost function Unpack(buffer: seq<Subtree>, e: Emit): Visit
    requires Window(buffer, e)
  {
    Visit(buffer[e.start..e.start + e.count], e.score, e.popTo)
  }

  predicate NoExtras(s: seq<Subtree>) {
    forall i :: 0 <= i < |s| ==> !s[i].extra
  }

  /** The window lies inside the buffer and keeps its no-extras claim. */
  ghost predicate Sound(buffer: seq<Subtree>, e: Emit) {
    Window(buffer, e) && (e.noExtras ==> NoExtras(Unpack(buffer, e).children))
  }

  ghost predicate AllSound(buffer: seq<Subtree>, emits: seq<Emit>) {
    forall k: nat :: k < |emits| ==> Sound(buffer, emits[k])
  }

  ghost function Visits(buffer: seq<Subtree>, emits: seq<Emit>): (vs: seq<Visit>)
    requires AllSound(buffer, emits)
    ensures |vs| == |emits| && forall k: nat :: k < |emits| ==> vs[k] == Unpack(buffer, emits[k])
  {
    seq(|emits|, k requires 0 <= k < |emits| => Unpack(buffer, emits[k]))
  }

  lemma {:induction false} AppendVisit(buffer: seq<Subtree>, emits: seq<Emit>, children: seq<Subtree>, e: Emit)
    requires AllSound(buffer, emits) && e.start == |buffer| && e.count == |children| && (e.noExtras ==> NoExtras(children))
    ensures AllSound(buffer + children, emits + [e])
    ensures Visits(buffer + children, emits + [e]) == Visits(buffer, emits) + [Visit(children, e.score, e.popTo)]
  {
    var more := buffer + children;
    assert more[|buffer|..|buffer| + |children|] == children;
    forall k: nat | k < |emits|
      ensures Sound(more, emits[k]) && Unpack(more, emits[k]) == Unpack(buffer, emits[k])
    {
      assert Sound(buffer, emits[k]);
      assert more[emits[k].start..emits[k].start + emits[k].count] == buffer[emits[k].start..emits[k].start + emits[k].count];
    }
  }

  // ----- straight ways down -------------------------------------------------

  /** A way on along single links until `remaining` non-extra subtrees are collected: its
      length, or 0 if there is none. */
  ghost function LinearLength(f: Graph, l: Link, remaining: nat): nat
    requires Acyclic(f) && ValidRef(f, l.prev) && remaining > 0
    decreases Height(f, l.prev)
  {
    if After(l, remaining) == 0 then 1
    else if l.prev.Nil? || |f[l.prev.id].links| != 1 then 0
    else
      LinkDescends(f, l.prev.id, 0);
      var rest := LinearLength(f, f[l.prev.id].links[0], After(l, remaining));
      if rest == 0 then 0 else rest + 1
  }

  /** Exactly one link, not an extra, at each of the next `k` nodes. */
  ghost predicate Straight(f: Graph, r: Ref, k: nat)
    decreases k
  {
    k == 0 || (r.At? && r.id < |f| && |f[r.id].links| == 1 && !f[r.id].links[0].subtree.extra
               && Straight(f, f[r.id].links[0].prev, k - 1))
  }

  lemma {:induction false} ReversedCons<T>(x: T, s: seq<T>)
    ensures Reversed([x] + s) == Reversed(s) + [x]
  {
  }

  lemma {:induction false} ReversedTwice<T>(s: seq<T>)
    ensures Reversed(Reversed(s)) == s
  {
  }

  /** Laying one more subtree to the left of a path laid from the right. */
  lemma {:induction false} LaidLonger(rev: seq<Subtree>, out: nat, s: Subtree, laid: seq<Subtree>)
    requires 0 < out <= |rev| && rev[out..] == Reversed(laid)
    ensures rev[out - 1 := s][out - 1..] == Reversed(laid + [s])
  {
    assert rev[out - 1 := s][out - 1..] == [s] + rev[out..];
  }

  /** Completing a path with its last link. */
  lemma {:induction false} LastLink(f: Graph, l: Link, tail: seq<Subtree>, rev: seq<Subtree>, score: int)
    requires Acyclic(f) && ValidRef(f, l.prev) && !l.subtree.extra && rev == [l.subtree] + tail
    ensures PathsVia(f, l, 1, Reversed(tail), score) == [Visit(rev, score + l.score, l.prev)]
  {
    ReversedCons(l.subtree, tail);
    ReversedTwice(rev);
  }

  /** The shared child buffer and the visits cut from it. */
  datatype Buffer = Buffer(children: seq<Subtree>, emits: seq<Emit>)

  datatype Meter = Meter(count: nat, steps: nat, capped: bool)

  class Reducer {
    var path: seq<Subtree>
    var rev: seq<Subtree>
    var buffer: Buffer
    var meter: Meter
    /** The visit budget of a parse, 0 for none. */
    var visitCap: nat

    constructor (visitCap: nat)
      ensures Ok() && Now() == Progress([], 0, 0, false) && this.visitCap == visitCap
    {
      path, rev, buffer, meter := [], [], Buffer([], []), Meter(0, 0, false);
      this.visitCap := visitCap;
    }

    ghost predicate Ok()
      reads this
    {
      AllSound(buffer.children, buffer.emits)
    }

    ghost function Now(): Progress
      requires Ok()
      reads this
    {
      Progress(Visits(buffer.children, buffer.emits), meter.count, meter.steps, meter.capped)
    }

    /** Buffers one visit, unless the run is capped or this visit caps it. */
    method Record(children: seq<Subtree>, score: int, popTo: Ref, noExtras: bool)
      requires Ok() && (noExtras ==> NoExtras(children))
      modifies this`buffer, this`meter
      ensures Ok() && Grew(old(Now()), Now(), visitCap, [Visit(children, score, popTo)], 0)
    {
      if meter.capped {
        return;
      }
      meter := meter.(count := meter.count + 1);
      if visitCap > 0 && meter.count > visitCap {
        meter := meter.(capped := true);
        return;
      }
      var e := Emit(|buffer.children|, |children|, score, popTo, noExtras);
      AppendVisit(buffer.children, buffer.emits, children, e);
      buffer := Buffer(buffer.children + children, buffer.emits + [e]);
    }

    /** One step against the step budget. */
    method CountStep()
      requires Ok() && !meter.capped
      modifies this`meter
      ensures Ok() && Grew(old(Now()), Now(), visitCap, [], 1)
    {
      meter := meter.(steps := meter.steps + 1);
      if meter.steps > STEP_CAP {
        meter := meter.(capped := true);
      }
    }

    // ----- routes without extras --------------------------------------------

    method OneNoExtras(f: Graph, n: nat) returns (handled: bool)
      requires Ok() && Acyclic(f) && n < |f|
      modifies this`path, this`rev, this`buffer, this`meter
      ensures Ok()
      ensures if handled then Grew(old(Now()), Now(), visitCap, Reductions(f, n, 1), 0) else Now() == old(Now())
    {
      var links := f[n].links;
      var i := 0;
      while i < |links|
        invariant 0 <= i <= |links|
        invariant forall k :: 0 <= k < i ==> !links[k].subtree.extra
      {
        if links[i].subtree.extra {
          return false;
        }
        i := i + 1;
      }
      i := 0;
      ghost var before := Now();
      GrewNothing(before, visitCap);
      while i < |links|
        invariant 0 <= i <= |links| && Ok()
        invariant GrewTo(f, n, i, 1, [], 0, before, Now(), visitCap, false)
      {
        if meter.capped {
          GrewAll(f, n, i, 1, [], 0, before, Now(), visitCap, false);
          return true;
        }
        LinkDescends(f, n, i);
        ghost var mid := Now();
        rev := [links[i].subtree];
        assert !links[i].subtree.extra;
        assert [] + [links[i].subtree] == rev && Reversed(rev) == rev;
        assert PathsVia(f, links[i], 1, [], 0) == Paths(f, links[i].prev, 0, rev, links[i].score);
        Record(rev, links[i].score, links[i].prev, true);
        GrewNext(f, n, i, 1, [], 0, before, mid, Now(), visitCap, false);
        i := i + 1;
      }
      GrewAll(f, n, i, 1, [], 0, before, Now(), visitCap, false);
      return true;
    }

    method LinearNoExtras(f: Graph, n: nat, childCount: nat) returns (handled: bool)
      requires Ok() && Acyclic(f) && n < |f|
      modifies this`path, this`rev, this`buffer, this`meter
      ensures Ok()
      ensures if handled then Grew(old(Now()), Now(), visitCap, Reductions(f, n, childCount), 0) else Now() == old(Now())
    {
      if childCount == 0 {
        return false;
      }
      rev := seq(childCount, _ => Subtree(0, false));
      var cur := At(n);
      var score := 0;
      var i := childCount;
      assert rev[i..] == [] && Reversed(rev[i..]) == [];
      while i > 0
        invariant 0 <= i <= childCount == |rev| && ValidRef(f, cur)
        invariant buffer == old(buffer) && meter == old(meter)
        invariant NoExtras(rev[i..])
        invariant Reductions(f, n, childCount) == Paths(f, cur, i, Reversed(rev[i..]), score)
      {
        if cur.Nil? || |f[cur.id].links| != 1 {
          return false;
        }
        var link := f[cur.id].links[0];
        if link.subtree.extra {
          return false;
        }
        SingleLink(f, cur.id, i, Reversed(rev[i..]), score);
        ReversedCons(link.subtree, rev[i..]);
        assert rev[i - 1 := link.subtree][i - 1..] == [link.subtree] + rev[i..];
        i := i - 1;
        rev := rev[i := link.subtree];
        score := score + link.score;
        cur := link.prev;
      }
      assert rev[0..] == rev;
      ReversedTwice(rev);
      Record(rev, score, cur, true);
      return true;
    }

    /** Whether each link of `n` starts a straight way down of `childCount` non-extra links. */
    method ForkIsStraight(f: Graph, n: nat, childCount: nat) returns (straight: bool)
      requires Acyclic(f) && n < |f| && childCount > 0
      ensures straight ==> forall k: nat :: k < |f[n].links| ==>
                !f[n].links[k].subtree.extra && Straight(f, f[n].links[k].prev, childCount - 1)
    {
      var links := f[n].links;
      var i := 0;
      while i < |links|
        invariant 0 <= i <= |links|
        invariant forall k: nat :: k < i ==> !links[k].subtree.extra && Straight(f, links[k].prev, childCount - 1)
      {
        if links[i].subtree.extra {
          return false;
        }
        LinkDescends(f, n, i);
        var cur := links[i].prev;
        var left := childCount - 1;
        while left > 0
          invariant 0 <= left <= childCount - 1 && ValidRef(f, cur)
          invariant Straight(f, links[i].prev, childCount - 1) <==> Straight(f, cur, left)
        {
          if cur.Nil? || |f[cur.id].links| != 1 || f[cur.id].links[0].subtree.extra {
            return false;
          }
          LinkDescends(f, cur.id, 0);
          cur := f[cur.id].links[0].prev;
          left := left - 1;
        }
        i := i + 1;
      }
      return true;
    }

    method ForkedLinearNoExtras(f: Graph, n: nat, childCount: nat) returns (handled: bool)
      requires Ok() && Acyclic(f) && n < |f|
      modifies this`path, this`rev, this`buffer, this`meter
      ensures Ok()
      ensures if handled then Grew(old(Now()), Now(), visitCap, Reductions(f, n, childCount), 0) else Now() == old(Now())
    {
      if childCount <= 1 || |f[n].links| <= 1 {
        return false;
      }
      var straight := ForkIsStraight(f, n, childCount);
      if !straight {
        return false;
      }
      var links := f[n].links;
      rev := seq(childCount, _ => Subtree(0, false));
      var i := 0;
      ghost var before := Now();
      GrewNothing(before, visitCap);
      while i < |links|
        invariant 0 <= i <= |links| && Ok() && |rev| == childCount
        invariant GrewTo(f, n, i, childCount, [], 0, before, Now(), visitCap, false)
      {
        if meter.capped {
          GrewAll(f, n, i, childCount, [], 0, before, Now(), visitCap, false);
          return true;
        }
        LinkDescends(f, n, i);
        ghost var mid := Now();
        EmitStraight(f, links[i], childCount);
        GrewNext(f, n, i, childCount, [], 0, before, mid, Now(), visitCap, false);
        i := i + 1;
      }
      GrewAll(f, n, i, childCount, [], 0, before, Now(), visitCap, false);
      return true;
    }

    /** Fills `rev` from the right along a straight way and buffers the one visit. */
    method EmitStraight(f: Graph, link: Link, childCount: nat)
      requires Ok() && Acyclic(f) && ValidRef(f, link.prev) && childCount > 0 && |rev| == childCount
      requires !link.subtree.extra && Straight(f, link.prev, childCount - 1)
      modifies this`path, this`rev, this`buffer, this`meter
      ensures Ok() && |rev| == childCount
      ensures Grew(old(Now()), Now(), visitCap, PathsVia(f, link, childCount, [], 0), 0)
    {
      var score := link.score;
      rev := rev[childCount - 1 := link.subtree];
      var cur := link.prev;
      var child := childCount - 1;
      assert rev[child..] == [link.subtree] && Reversed(rev[child..]) == [] + [link.subtree];
      while child > 0
        invariant 0 <= child < childCount == |rev| && ValidRef(f, cur) && Straight(f, cur, child)
        invariant buffer == old(buffer) && meter == old(meter)
        invariant NoExtras(rev[child..])
        invariant PathsVia(f, link, childCount, [], 0) == Paths(f, cur, child, Reversed(rev[child..]), score)
      {
        var next := f[cur.id].links[0];
        SingleLink(f, cur.id, child, Reversed(rev[child..]), score);
        ReversedCons(next.subtree, rev[child..]);
        assert rev[child - 1 := next.subtree][child - 1..] == [next.subtree] + rev[child..];
        child := child - 1;
        rev := rev[child := next.subtree];
        score := score + next.score;
        cur := next.prev;
      }
      assert rev[0..] == rev;
      ReversedTwice(rev);
      Record(rev, score, cur, true);
    }

    // ----- routes with extras -----------------------------------------------

    method CheckLinear(f: Graph, l: Link, childCount: nat) returns (pathLen: nat)
      requires Acyclic(f) && ValidRef(f, l.prev) && childCount > 0
      ensures pathLen == LinearLength(f, l, childCount)
    {
      var link := l;
      var remaining := childCount;
      pathLen := 0;
      while true
        invariant ValidRef(f, link.prev) && remaining > 0
        invariant LinearLength(f, l, childCount)
                  == if LinearLength(f, link, remaining) == 0 then 0 else pathLen + LinearLength(f, link, remaining)
        decreases Height(f, link.prev)
      {
        pathLen := pathLen + 1;
        if !link.subtree.extra {
          remaining := remaining - 1;
          if remaining == 0 {
            return;
          }
        }
        if link.prev.Nil? || |f[link.prev.id].links| != 1 {
          return 0;
        }
        LinkDescends(f, link.prev.id, 0);
        link := f[link.prev.id].links[0];
      }
    }

    method ForkIsLinear(f: Graph, n: nat, childCount: nat) returns (linear: bool)
      requires Acyclic(f) && n < |f| && childCount > 0
      ensures linear ==> forall k: nat :: k < |f[n].links| ==>
                ValidRef(f, f[n].links[k].prev) && LinearLength(f, f[n].links[k], childCount) > 0
    {
      var links := f[n].links;
      var i := 0;
      while i < |links|
        invariant 0 <= i <= |links|
        invariant forall k: nat :: k < i ==> ValidRef(f, links[k].prev) && LinearLength(f, links[k], childCount) > 0
      {
        LinkDescends(f, n, i);
        var pathLen := CheckLinear(f, links[i], childCount);
        if pathLen == 0 {
          return false;
        }
        i := i + 1;
      }
      return true;
    }

    method ReversePath()
      modifies this`rev
      ensures rev == Reversed(path)
    {
      rev := seq(|path|, _ => Subtree(0, false));
      var i := 0;
      while i < |path|
        invariant 0 <= i <= |path| == |rev|
        invariant forall k :: 0 <= k < i ==> rev[|path| - 1 - k] == path[k]
      {
        rev := rev[|path| - 1 - i := path[i]];
        i := i + 1;
      }
    }

    /** Collects a linear way into `path` and buffers its one visit. */
    method EmitFromLink(f: Graph, l: Link, childCount: nat)
      requires Ok() && Acyclic(f) && ValidRef(f, l.prev) && childCount > 0 && LinearLength(f, l, childCount) > 0
      modifies this`path, this`rev, this`buffer, this`meter
      ensures Ok()
      ensures Grew(old(Now()), Now(), visitCap, PathsVia(f, l, childCount, [], 0), 0)
    {
      path := [];
      var link := l;
      var remaining := childCount;
      var score := 0;
      while true
        invariant buffer == old(buffer) && meter == old(meter)
        invariant ValidRef(f, link.prev) && remaining > 0 && LinearLength(f, link, remaining) > 0
        invariant PathsVia(f, l, childCount, [], 0) == PathsVia(f, link, remaining, path, score)
        decreases Height(f, link.prev)
      {
        path := path + [link.subtree];
        score := score + link.score;
        if !link.subtree.extra {
          remaining := remaining - 1;
          if remaining == 0 {
            ReversePath();
            Record(rev, score, link.prev, false);
            return;
          }
        }
        SingleLink(f, link.prev.id, remaining, path, score);
        LinkDescends(f, link.prev.id, 0);
        link := f[link.prev.id].links[0];
      }
    }

    method ForkedLinearSinglePath(f: Graph, n: nat, childCount: nat) returns (handled: bool)
      requires Ok() && Acyclic(f) && n < |f|
      modifies this`path, this`rev, this`buffer, this`meter
      ensures Ok()
      ensures if handled then Grew(old(Now()), Now(), visitCap, Reductions(f, n, childCount), 0) else Now() == old(Now())
    {
      if childCount == 0 || |f[n].links| <= 1 {
        return false;
      }
      var linear := ForkIsLinear(f, n, childCount);
      if !linear {
        return false;
      }
      var links := f[n].links;
      var i := 0;
      ghost var before := Now();
      GrewNothing(before, visitCap);
      while i < |links|
        invariant 0 <= i <= |links| && Ok()
        invariant GrewTo(f, n, i, childCount, [], 0, before, Now(), visitCap, false)
      {
        if meter.capped {
          GrewAll(f, n, i, childCount, [], 0, before, Now(), visitCap, false);
          return true;
        }
        ghost var mid := Now();
        EmitFromLink(f, links[i], childCount);
        GrewNext(f, n, i, childCount, [], 0, before, mid, Now(), visitCap, false);
        i := i + 1;
      }
      GrewAll(f, n, i, childCount, [], 0, before, Now(), visitCap, false);
      return true;
    }

    method LinearSinglePath(f: Graph, n: nat, childCount: nat) returns (handled: bool)
      requires Ok() && Acyclic(f) && n < |f|
      modifies this`path, this`rev, this`buffer, this`meter
      ensures Ok()
      ensures if handled then Grew(old(Now()), Now(), visitCap, Reductions(f, n, childCount), 0) else Now() == old(Now())
    {
      if childCount == 0 {
        return false;
      }
      path := [];
      var cur := At(n);
      var remaining := childCount;
      var score := 0;
      while cur.At?
        invariant buffer == old(buffer) && meter == old(meter)
        invariant ValidRef(f, cur) && remaining > 0
        invariant Reductions(f, n, childCount) == Paths(f, cur, remaining, path, score)
        decreases Height(f, cur)
      {
        if |f[cur.id].links| != 1 {
          return false;
        }
        var link := f[cur.id].links[0];
        SingleLink(f, cur.id, remaining, path, score);
        LinkDescends(f, cur.id, 0);
        path := path + [link.subtree];
        score := score + link.score;
        if !link.subtree.extra {
          remaining := remaining - 1;
          if remaining == 0 {
            ReversePath();
            Record(rev, score, link.prev, false);
            return true;
          }
        }
        cur := link.prev;
      }
      return false;
    }

    // ----- plain depth-first enumeration ------------------------------------

    method Dfs(f: Graph, cur: Ref, remaining: nat, score: int)
      requires Ok() && Acyclic(f) && ValidRef(f, cur) && remaining > 0
      modifies this`path, this`rev, this`buffer, this`meter
      ensures Ok() && path == old(path)
      ensures Grew(old(Now()), Now(), visitCap, Paths(f, cur, remaining, path, score), SearchSteps(f, cur, remaining))
      decreases Height(f, cur), 0
    {
      ghost var before, base := Now(), path;
      GrewNothing(before, visitCap);
      if cur.Nil? {
        return;
      }
      var mark := |path|;
      var links := f[cur.id].links;
      var i := 0;
      while i < |links| && !meter.capped
        invariant 0 <= i <= |links| && Ok()
        invariant |path| >= mark && path[..mark] == base
        invariant GrewTo(f, cur.id, i, remaining, base, score, before, Now(), visitCap, true)
      {
        LinkDescends(f, cur.id, i);
        ghost var mid := Now();
        DfsStep(f, links[i], remaining, score, mark);
        GrewNext(f, cur.id, i, remaining, base, score, before, mid, Now(), visitCap, true);
        i := i + 1;
      }
      GrewAll(f, cur.id, i, remaining, base, score, before, Now(), visitCap, true);
      path := path[..mark];
    }

    /** One link of the enumeration: a step against the budget, then what lies below it. */
    method DfsStep(f: Graph, link: Link, remaining: nat, score: int, mark: nat)
      requires Ok() && Acyclic(f) && ValidRef(f, link.prev) && remaining > 0 && mark <= |path| && !meter.capped
      modifies this`path, this`rev, this`buffer, this`meter
      ensures Ok() && mark <= |path| && path[..mark] == old(path)[..mark]
      ensures Grew(old(Now()), Now(), visitCap, PathsVia(f, link, remaining, old(path)[..mark], score),
                   StepsVia(f, link, remaining))
      decreases Height(f, link.prev), 2
    {
      ghost var start, base := Now(), path[..mark];
      ghost var via, below := PathsVia(f, link, remaining, base, score), SearchSteps(f, link.prev, After(link, remaining));
      CountStep();
      ghost var counted := Now();
      assert [] + via == via;
      if meter.capped {
        GrewCapped(start, counted, visitCap, [], 1, via, below);
        return;
      }
      DfsLink(f, link, remaining, score, mark);
      GrewOn(start, counted, Now(), visitCap, [], 1, via, below);
    }

    /** What lies below one link, over the path kept up to `mark`. */
    method DfsLink(f: Graph, link: Link, remaining: nat, score: int, mark: nat)
      requires Ok() && Acyclic(f) && ValidRef(f, link.prev) && remaining > 0 && mark <= |path|
      modifies this`path, this`rev, this`buffer, this`meter
      ensures Ok() && mark <= |path| && path[..mark] == old(path)[..mark]
      ensures Grew(old(Now()), Now(), visitCap, PathsVia(f, link, remaining, old(path)[..mark], score),
                   SearchSteps(f, link.prev, After(link, remaining)))
      decreases Height(f, link.prev), 1
    {
      path := path[..mark] + [link.subtree];
      var rem := if link.subtree.extra then remaining else remaining - 1;
      if rem == 0 {
        ReversePath();
        Record(rev, score + link.score, link.prev, false);
      } else {
        Dfs(f, link.prev, rem, score + link.score);
      }
    }

    /** The lengths of the linear ways that fork at `n`, in a fixed table of MAX_LINKS. */
    method MeasureFork(f: Graph, n: nat, childCount: nat, lens: array<nat>) returns (linear: bool)
      requires Acyclic(f) && n < |f| && childCount > 0 && |f[n].links| <= lens.Length
      modifies lens
      ensures linear ==> forall k: nat :: k < |f[n].links| ==>
                && ValidRef(f, f[n].links[k].prev)
                && lens[k] == LinearLength(f, f[n].links[k], childCount) > 0
    {
      var links := f[n].links;
      var i := 0;
      while i < |links|
        invariant 0 <= i <= |links|
        invariant forall k: nat :: k < i ==> ValidRef(f, links[k].prev) && lens[k] == LinearLength(f, links[k], childCount) > 0
      {
        LinkDescends(f, n, i);
        var pathLen := CheckLinear(f, links[i], childCount);
        if pathLen == 0 {
          return false;
        }
        lens[i] := pathLen;
        i := i + 1;
      }
      return true;
    }

    /** Lays the shared prefix into `rev` from the right, then one branch below it, and
        buffers the visit. */
    method EmitWithPrefix(f: Graph, l: Link, childCount: nat, branchLen: nat, prefixScore: int)
      requires Ok() && Acyclic(f) && ValidRef(f, l.prev) && childCount > 0
      requires branchLen == LinearLength(f, l, childCount) > 0
      modifies this`rev, this`buffer, this`meter
      ensures Ok()
      ensures Grew(old(Now()), Now(), visitCap, PathsVia(f, l, childCount, path, prefixScore), 0)
    {
      LayPrefix(branchLen);
      ghost var laid := path;
      var link, remaining, score := l, childCount, prefixScore;
      var out := branchLen;
      while true
        invariant buffer == old(buffer) && meter == old(meter)
        invariant ValidRef(f, link.prev) && remaining > 0 && out == LinearLength(f, link, remaining) > 0
        invariant |rev| == |path| + branchLen && out <= |rev| && rev[out..] == Reversed(laid)
        invariant PathsVia(f, l, childCount, path, prefixScore) == PathsVia(f, link, remaining, laid, score)
        decreases out
      {
        LaidLonger(rev, out, link.subtree, laid);
        out := out - 1;
        rev := rev[out := link.subtree];
        laid := laid + [link.subtree];
        score := score + link.score;
        if !link.subtree.extra {
          remaining := remaining - 1;
          if remaining == 0 {
            assert rev[0..] == rev;
            Record(rev, score, link.prev, false);
            return;
          }
        }
        SingleLink(f, link.prev.id, remaining, laid, score);
        LinkDescends(f, link.prev.id, 0);
        link := f[link.prev.id].links[0];
      }
    }

    method LayPrefix(branchLen: nat)
      modifies this`rev
      ensures |rev| == |path| + branchLen && rev[branchLen..] == Reversed(path)
    {
      var total := |path| + branchLen;
      rev := seq(total, _ => Subtree(0, false));
      var i := 0;
      while i < |path|
        invariant 0 <= i <= |path| && |rev| == total
        invariant forall k :: 0 <= k < i ==> rev[total - 1 - k] == path[k]
      {
        rev := rev[total - 1 - i := path[i]];
        i := i + 1;
      }
    }

    method LinearForkedSinglePath(f: Graph, n: nat, childCount: nat) returns (handled: bool)
      requires Ok() && Acyclic(f) && WithinCap(f) && n < |f|
      modifies this`path, this`rev, this`buffer, this`meter
      ensures Ok()
      ensures if handled then Grew(old(Now()), Now(), visitCap, Reductions(f, n, childCount), 0) else Now() == old(Now())
    {
      if childCount == 0 || |f[n].links| != 1 {
        return false;
      }
      path := [];
      var cur := At(n);
      var remaining := childCount;
      var prefixScore := 0;
      while cur.At? && |f[cur.id].links| == 1
        invariant buffer == old(buffer) && meter == old(meter)
        invariant ValidRef(f, cur) && remaining > 0
        invariant Reductions(f, n, childCount) == Paths(f, cur, remaining, path, prefixScore)
        decreases Height(f, cur)
      {
        var link := f[cur.id].links[0];
        SingleLink(f, cur.id, remaining, path, prefixScore);
        LinkDescends(f, cur.id, 0);
        path := path + [link.subtree];
        prefixScore := prefixScore + link.score;
        if !link.subtree.extra {
          remaining := remaining - 1;
          if remaining == 0 {
            return false;
          }
        }
        cur := link.prev;
      }
      if cur.Nil? || |f[cur.id].links| <= 1 {
        return false;
      }
      var branchLens := new nat[MAX_LINKS];
      var linear := MeasureFork(f, cur.id, remaining, branchLens);
      if !linear {
        return false;
      }
      EmitFork(f, cur.id, remaining, branchLens, prefixScore);
      return true;
    }

    /** All branches of a fork below a shared prefix. */
    method EmitFork(f: Graph, n: nat, remaining: nat, lens: array<nat>, prefixScore: int)
      requires Ok() && Acyclic(f) && n < |f| && remaining > 0 && |f[n].links| <= lens.Length
      requires forall k: nat :: k < |f[n].links| ==>
                 && ValidRef(f, f[n].links[k].prev)
                 && lens[k] == LinearLength(f, f[n].links[k], remaining) > 0
      modifies this`rev, this`buffer, this`meter
      ensures Ok()
      ensures Grew(old(Now()), Now(), visitCap, PathsFrom(f, n, 0, remaining, path, prefixScore), 0)
    {
      var links := f[n].links;
      var i := 0;
      ghost var before := Now();
      GrewNothing(before, visitCap);
      while i < |links|
        invariant 0 <= i <= |links| && Ok()
        invariant GrewTo(f, n, i, remaining, path, prefixScore, before, Now(), visitCap, false)
      {
        if meter.capped {
          GrewAll(f, n, i, remaining, path, prefixScore, before, Now(), visitCap, false);
          return;
        }
        ghost var mid := Now();
        EmitWithPrefix(f, links[i], remaining, lens[i], prefixScore);
        GrewNext(f, n, i, remaining, path, prefixScore, before, mid, Now(), visitCap, false);
        i := i + 1;
      }
      GrewAll(f, n, i, remaining, path, prefixScore, before, Now(), visitCap, false);
    }

    // ----- depth-first enumeration without extras ---------------------------

    /** Level 1 of the unrolled forms: each link of `cur` completes a visit. */
    method DfsNoExtras1(f: Graph, cur: nat, score: int)
      requires Ok() && Acyclic(f) && cur < |f| && |rev| >= 1 && NoExtras(rev[1..]) && Solid(f, At(cur), 1)
      modifies this`rev, this`buffer, this`meter
      ensures Ok() && |rev| == old(|rev|) && rev[1..] == old(rev[1..])
      ensures Grew(old(Now()), Now(), visitCap, Paths(f, At(cur), 1, Reversed(rev[1..]), score), 0)
    {
      var links := f[cur].links;
      var i := 0;
      ghost var tail := rev[1..];
      ghost var before := Now();
      GrewNothing(before, visitCap);
      while i < |links|
        invariant 0 <= i <= |links| && Ok()
        invariant |rev| == old(|rev|) && rev[1..] == tail
        invariant GrewTo(f, cur, i, 1, Reversed(tail), score, before, Now(), visitCap, false)
      {
        if meter.capped {
          GrewAll(f, cur, i, 1, Reversed(tail), score, before, Now(), visitCap, false);
          return;
        }
        LinkDescends(f, cur, i);
        assert SolidLink(f, links[i], 1);
        ghost var mid := Now();
        rev := rev[0 := links[i].subtree];
        assert rev == [links[i].subtree] + tail;
        LastLink(f, links[i], tail, rev, score);
        Record(rev, score + links[i].score, links[i].prev, true);
        GrewNext(f, cur, i, 1, Reversed(tail), score, before, mid, Now(), visitCap, false);
        i := i + 1;
      }
      GrewAll(f, cur, i, 1, Reversed(tail), score, before, Now(), visitCap, false);
    }

    method DfsNoExtras2(f: Graph, cur: nat, score: int)
      requires Ok() && Acyclic(f) && cur < |f| && |rev| >= 2 && NoExtras(rev[2..]) && Solid(f, At(cur), 2)
      modifies this`rev, this`buffer, this`meter
      ensures Ok() && |rev| == old(|rev|) && rev[2..] == old(rev[2..])
      ensures Grew(old(Now()), Now(), visitCap, Paths(f, At(cur), 2, Reversed(rev[2..]), score), 0)
    {
      var links := f[cur].links;
      var i := 0;
      ghost var tail := rev[2..];
      ghost var before := Now();
      GrewNothing(before, visitCap);
      while i < |links|
        invariant 0 <= i <= |links| && Ok()
        invariant |rev| == old(|rev|) && rev[2..] == tail
        invariant GrewTo(f, cur, i, 2, Reversed(tail), score, before, Now(), visitCap, false)
      {
        if meter.capped {
          GrewAll(f, cur, i, 2, Reversed(tail), score, before, Now(), visitCap, false);
          return;
        }
        LinkDescends(f, cur, i);
        assert SolidLink(f, links[i], 2);
        ghost var mid := Now();
        rev := rev[1 := links[i].subtree];
        assert rev[1..] == [links[i].subtree] + tail;
        ReversedCons(links[i].subtree, tail);
        DfsNoExtras1(f, links[i].prev.id, score + links[i].score);
        assert rev[2..] == rev[1..][1..];
        GrewNext(f, cur, i, 2, Reversed(tail), score, before, mid, Now(), visitCap, false);
        i := i + 1;
      }
      GrewAll(f, cur, i, 2, Reversed(tail), score, before, Now(), visitCap, false);
    }

    method DfsNoExtras3(f: Graph, cur: nat, score: int)
      requires Ok() && Acyclic(f) && cur < |f| && |rev| >= 3 && NoExtras(rev[3..]) && Solid(f, At(cur), 3)
      modifies this`rev, this`buffer, this`meter
      ensures Ok() && |rev| == old(|rev|) && rev[3..] == old(rev[3..])
      ensures Grew(old(Now()), Now(), visitCap, Paths(f, At(cur), 3, Reversed(rev[3..]), score), 0)
    {
      var links := f[cur].links;
      var i := 0;
      ghost var tail := rev[3..];
      ghost var before := Now();
      GrewNothing(before, visitCap);
      while i < |links|
        invariant 0 <= i <= |links| && Ok()
        invariant |rev| == old(|rev|) && rev[3..] == tail
        invariant GrewTo(f, cur, i, 3, Reversed(tail), score, before, Now(), visitCap, false)
      {
        if meter.capped {
          GrewAll(f, cur, i, 3, Reversed(tail), score, before, Now(), visitCap, false);
          return;
        }
        LinkDescends(f, cur, i);
        assert SolidLink(f, links[i], 3);
        ghost var mid := Now();
        rev := rev[2 := links[i].subtree];
        assert rev[2..] == [links[i].subtree] + tail;
        ReversedCons(links[i].subtree, tail);
        DfsNoExtras2(f, links[i].prev.id, score + links[i].score);
        assert rev[3..] == rev[2..][1..];
        GrewNext(f, cur, i, 3, Reversed(tail), score, before, mid, Now(), visitCap, false);
        i := i + 1;
      }
      GrewAll(f, cur, i, 3, Reversed(tail), score, before, Now(), visitCap, false);
    }

    method DfsNoExtras4(f: Graph, cur: nat, score: int)
      requires Ok() && Acyclic(f) && cur < |f| && |rev| >= 4 && NoExtras(rev[4..]) && Solid(f, At(cur), 4)
      modifies this`rev, this`buffer, this`meter
      ensures Ok() && |rev| == old(|rev|) && rev[4..] == old(rev[4..])
      ensures Grew(old(Now()), Now(), visitCap, Paths(f, At(cur), 4, Reversed(rev[4..]), score), 0)
    {
      var links := f[cur].links;
      var i := 0;
      ghost var tail := rev[4..];
      ghost var before := Now();
      GrewNothing(before, visitCap);
      while i < |links|
        invariant 0 <= i <= |links| && Ok()
        invariant |rev| == old(|rev|) && rev[4..] == tail
        invariant GrewTo(f, cur, i, 4, Reversed(tail), score, before, Now(), visitCap, false)
      {
        if meter.capped {
          GrewAll(f, cur, i, 4, Reversed(tail), score, before, Now(), visitCap, false);
          return;
        }
        LinkDescends(f, cur, i);
        assert SolidLink(f, links[i], 4);
        ghost var mid := Now();
        rev := rev[3 := links[i].subtree];
        assert rev[3..] == [links[i].subtree] + tail;
        ReversedCons(links[i].subtree, tail);
        DfsNoExtras3(f, links[i].prev.id, score + links[i].score);
        assert rev[4..] == rev[3..][1..];
        GrewNext(f, cur, i, 4, Reversed(tail), score, before, mid, Now(), visitCap, false);
        i := i + 1;
      }
      GrewAll(f, cur, i, 4, Reversed(tail), score, before, Now(), visitCap, false);
    }

    /** The general form, with `remaining` levels to go; each link is a step against the
        step cap. */
    method DfsNoExtras(f: Graph, cur: nat, remaining: nat, score: int)
      requires Ok() && Acyclic(f) && cur < |f| && 0 < remaining <= |rev|
      requires NoExtras(rev[remaining..]) && Solid(f, At(cur), remaining)
      modifies this`rev, this`buffer, this`meter
      ensures Ok() && |rev| == old(|rev|) && rev[remaining..] == old(rev[remaining..])
      ensures Grew(old(Now()), Now(), visitCap, Paths(f, At(cur), remaining, Reversed(rev[remaining..]), score),
                   SearchSteps(f, At(cur), remaining))
      decreases remaining, 0
    {
      var links := f[cur].links;
      var i := 0;
      ghost var tail, before := rev[remaining..], Now();
      GrewNothing(before, visitCap);
      while i < |links| && !meter.capped
        invariant 0 <= i <= |links| && Ok()
        invariant |rev| == old(|rev|) && rev[remaining..] == tail
        invariant GrewTo(f, cur, i, remaining, Reversed(tail), score, before, Now(), visitCap, true)
      {
        LinkDescends(f, cur, i);
        assert SolidLink(f, links[i], remaining);
        ghost var mid := Now();
        DfsNoExtrasStep(f, links[i], remaining, score);
        GrewNext(f, cur, i, remaining, Reversed(tail), score, before, mid, Now(), visitCap, true);
        i := i + 1;
      }
      GrewAll(f, cur, i, remaining, Reversed(tail), score, before, Now(), visitCap, true);
    }

    method DfsNoExtrasStep(f: Graph, link: Link, remaining: nat, score: int)
      requires Ok() && Acyclic(f) && ValidRef(f, link.prev) && 0 < remaining <= |rev| && !meter.capped
      requires NoExtras(rev[remaining..]) && SolidLink(f, link, remaining)
      modifies this`rev, this`buffer, this`meter
      ensures Ok() && |rev| == old(|rev|) && rev[remaining..] == old(rev[remaining..])
      ensures Grew(old(Now()), Now(), visitCap, PathsVia(f, link, remaining, Reversed(old(rev[remaining..])), score),
                   StepsVia(f, link, remaining))
      decreases remaining - 1, 2
    {
      ghost var start, base := Now(), Reversed(rev[remaining..]);
      ghost var via, below := PathsVia(f, link, remaining, base, score), SearchSteps(f, link.prev, remaining - 1);
      CountStep();
      ghost var counted := Now();
      assert [] + via == via;
      if meter.capped {
        GrewCapped(start, counted, visitCap, [], 1, via, below);
        return;
      }
      DfsNoExtrasLink(f, link, remaining, score);
      GrewOn(start, counted, Now(), visitCap, [], 1, via, below);
    }

    method DfsNoExtrasLink(f: Graph, link: Link, remaining: nat, score: int)
      requires Ok() && Acyclic(f) && ValidRef(f, link.prev) && 0 < remaining <= |rev|
      requires NoExtras(rev[remaining..]) && SolidLink(f, link, remaining)
      modifies this`rev, this`buffer, this`meter
      ensures Ok() && |rev| == old(|rev|) && rev[remaining..] == old(rev[remaining..])
      ensures Grew(old(Now()), Now(), visitCap, PathsVia(f, link, remaining, Reversed(old(rev[remaining..])), score),
                   SearchSteps(f, link.prev, remaining - 1))
      decreases remaining - 1, 1
    {
      var out := remaining - 1;
      ghost var tail := rev[remaining..];
      rev := rev[out := link.subtree];
      assert rev[out..] == [link.subtree] + tail;
      ReversedCons(link.subtree, tail);
      if remaining == 1 {
        assert rev[0..] == rev;
        ReversedTwice(rev);
        Record(rev, score + link.score, link.prev, true);
      } else {
        DfsNoExtras(f, link.prev.id, remaining - 1, score + link.score);
      }
      assert rev[remaining..] == rev[out..][1..];
    }

    method NoExtrasDfs(f: Graph, n: nat, childCount: nat) returns (handled: bool)
      requires Ok() && Acyclic(f) && DepthsSound(f) && n < |f|
      modifies this`path, this`rev, this`buffer, this`meter
      ensures Ok()
      ensures if handled then
                || Grew(old(Now()), Now(), visitCap, Reductions(f, n, childCount), 0)
                || Grew(old(Now()), Now(), visitCap, Reductions(f, n, childCount), SearchSteps(f, At(n), childCount))
              else Now() == old(Now())
    {
      if childCount == 0 || f[n].noExtraDepth < childCount {
        return false;
      }
      SolidLess(f, At(n), f[n].noExtraDepth, childCount);
      rev := seq(childCount, _ => Subtree(0, false));
      assert rev[childCount..] == [] && Reversed(rev[childCount..]) == [];
      match childCount {
        case 2 => DfsNoExtras2(f, n, 0);
        case 3 => DfsNoExtras3(f, n, 0);
        case 4 => DfsNoExtras4(f, n, 0);
        case _ => DfsNoExtras(f, n, childCount, 0);
      }
      return true;
    }

    // ----- the reduction ----------------------------------------------------

    /** Buffers all visits of the reduction by the first route that applies.  Only the two
        general searches spend steps. */
    method Collect(f: Graph, n: nat, childCount: nat)
      requires Acyclic(f) && WithinCap(f) && DepthsSound(f) && n < |f|
      modifies this`path, this`rev, this`buffer, this`meter
      ensures Ok() && Collected(f, n, childCount, old(meter), Now(), visitCap)
      ensures !old(meter.capped) && WithinBudget(f, n, childCount, old(meter.count), visitCap) ==> !meter.capped
    {
      meter, buffer := meter.(steps := 0), Buffer([], []);
      ghost var start := Progress([], meter.count, 0, meter.capped);
      assert Now() == start;
      if childCount == 0 {
        Record([], 0, At(n), true);
        assert Reversed<Subtree>([]) == [];
        return;
      }
      var handled := false;
      if childCount == 1 {
        handled := OneNoExtras(f, n);
      }
      if !handled {
        handled := LinearNoExtras(f, n, childCount);
      }
      if !handled {
        handled := ForkedLinearNoExtras(f, n, childCount);
      }
      if !handled {
        handled := ForkedLinearSinglePath(f, n, childCount);
      }
      if !handled {
        handled := LinearForkedSinglePath(f, n, childCount);
      }
      if !handled {
        handled := LinearSinglePath(f, n, childCount);
      }
      if !handled {
        handled := NoExtrasDfs(f, n, childCount);
      }
      if !handled {
        path := [];
        Dfs(f, At(n), childCount, 0);
      }
    }

    /** The whole reduction: collect, then hand out.  `visit` may change the forest at
        will; what it is handed is fixed by the forest as it was at the start.  A capped
        run hands out nothing, and a run is capped only when it was before or when a budget
        would be exceeded. */
    method Reduce(f: Graph, n: nat, childCount: nat, visit: (Graph, Visit) -> Graph) returns (g: Graph, handed: seq<Visit>)
      requires Acyclic(f) && WithinCap(f) && DepthsSound(f) && n < |f|
      modifies this`path, this`rev, this`buffer, this`meter
      ensures handed == if meter.capped then [] else Reductions(f, n, childCount)
      ensures g == Applied(f, visit, handed)
      ensures old(meter.capped) ==> meter.capped
      ensures !old(meter.capped) && WithinBudget(f, n, childCount, old(meter.count), visitCap) ==> !meter.capped
      ensures !meter.capped ==>
        && meter.count == old(meter.count) + |Reductions(f, n, childCount)|
        && (visitCap == 0 || meter.count <= visitCap || Reductions(f, n, childCount) == [])
    {
      Collect(f, n, childCount);
      assert [] + Reductions(f, n, childCount) == Reductions(f, n, childCount);
      g, handed := Flush(f, visit);
    }

    /** Hands out the buffered visits in order. */
    method Flush(f: Graph, visit: (Graph, Visit) -> Graph) returns (g: Graph, handed: seq<Visit>)
      requires Ok()
      ensures handed == if meter.capped then [] else Now().visits
      ensures g == Applied(f, visit, handed)
    {
      g := f;
      handed := [];
      ghost var all := Now().visits;
      var i := 0;
      while i < |buffer.emits| && !meter.capped
        invariant 0 <= i <= |buffer.emits|
        invariant handed == if meter.capped then [] else all[..i]
        invariant g == Applied(f, visit, handed)
      {
        var e := buffer.emits[i];
        assert Sound(buffer.children, e);
        var v := Visit(buffer.children[e.start..e.start + e.count], e.score, e.popTo);
        assert v == all[i];
        AppliedSnoc(f, visit, handed, v);
        g := visit(g, v);
        handed := handed + [v];
        i := i + 1;
      }
    }
  }

  /** The visits fit the visit budget, and the plain search the step budget. */
  ghost predicate WithinBudget(f: Graph, n: nat, childCount: nat, count: nat, cap: nat)
    requires Acyclic(f) && n < |f|
  {
    && (cap == 0 || count + |Reductions(f, n, childCount)| <= cap)
    && SearchSteps(f, At(n), childCount) <= STEP_CAP
  }

  /** The outcome of collecting a reduction, from a meter with its step count reset. */
  ghost predicate Collected(f: Graph, n: nat, childCount: nat, m: Meter, q: Progress, cap: nat)
    requires Acyclic(f) && n < |f|
  {
    var p := Progress([], m.count, 0, m.capped);
    || Grew(p, q, cap, Reductions(f, n, childCount), 0)
    || Grew(p, q, cap, Reductions(f, n, childCount), SearchSteps(f, At(n), childCount))
  }

  /** The forest after a visitor has been handed `vs` one by one. */
  ghost function Applied(f: Graph, visit: (Graph, Visit) -> Graph, vs: seq<Visit>): Graph {
    if vs == [] then f else visit(Applied(f, visit, vs[..|vs| - 1]), vs[|vs| - 1])
  }

  lemma {:induction false} AppliedSnoc(f: Graph, visit: (Graph, Visit) -> Graph, vs: seq<Visit>, v: Visit)
    ensures Applied(f, visit, vs + [v]) == visit(Applied(f, visit, vs), v)
  {
    assert (vs + [v])[..|vs|] == vs;
  }
}
