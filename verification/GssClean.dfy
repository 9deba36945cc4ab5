/** The memoised cleanliness walk over all links: a depth-first walk on explicit frames
    that stores a verdict on every node it finishes. */
module GssClean {
  import opened GssGraph

  datatype Verdict = Unknown | Visiting | Proven | Refuted

  /** A verdict counts only while its generation is the current one. */
  datatype Mark = Mark(gen: nat, verdict: Verdict)

  datatype Frame = Frame(node: nat, next: nat)

  function VerdictOf(marks: seq<Mark>, gen: nat, n: nat): Verdict
    requires n < |marks|
  {
    if marks[n].gen == gen then marks[n].verdict else Unknown
  }

  /** Every stored verdict is true; nodes under visit are exactly those in `open`. */
  ghost predicate MarksTrue(g: Graph, marks: seq<Mark>, gen: nat, open: set<nat>) {
    && |marks| == |g|
    && (forall n: nat :: n < |marks| ==> marks[n].gen <= gen)
    && (forall n: nat :: n < |marks| && VerdictOf(marks, gen, n) == Proven ==> Clean(g, n))
    && (forall n: nat :: n < |marks| && VerdictOf(marks, gen, n) == Refuted ==> !Clean(g, n))
    && (forall n: nat :: n < |marks| && VerdictOf(marks, gen, n) == Visiting ==> n in open)
  }

  // ----- cleanliness by links -----------------------------------------------

  ghost predicate LinkClean(g: Graph, n: nat, i: nat)
    requires HasLink(g, n, i)
  {
    !Dirty(g[n].links[i].entry) && (g[n].links[i].prev.At? ==> Clean(g, g[n].links[i].prev.id))
  }

  /** A node is clean exactly when all its links are. */
  lemma CleanByLinks(g: Graph, n: nat)
    requires WellFormed(g) && n < |g|
    ensures Clean(g, n) <==> forall i: nat :: HasLink(g, n, i) ==> LinkClean(g, n, i)
  {
    if Clean(g, n) {
      forall i: nat | HasLink(g, n, i)
        ensures LinkClean(g, n, i)
      {
        assert CleanNode(g, n);
        if g[n].links[i].prev.At? {
          LinkReaches(g, n, i);
          forall m: nat | Reaches(g, g[n].links[i].prev.id, m)
            ensures CleanNode(g, m)
          {
            ReachesTransitive(g, n, g[n].links[i].prev.id, m);
          }
        }
      }
    }
    if forall i: nat :: HasLink(g, n, i) ==> LinkClean(g, n, i) {
      var s := {n} + set m: nat | m in Ids(|g|) && Clean(g, m);
      forall m: nat, i: nat | m in s && HasLink(g, m, i)
        ensures LinkInto(g, m, i, s)
      {
        if g[m].links[i].prev.At? {
          assert ValidRef(g, g[m].links[i].prev);
          if m == n {
            assert LinkClean(g, n, i);
          } else {
            LinkReaches(g, m, i);
            forall k: nat | Reaches(g, g[m].links[i].prev.id, k)
              ensures CleanNode(g, k)
            {
              ReachesTransitive(g, m, g[m].links[i].prev.id, k);
            }
          }
        }
      }
      forall m: nat | m in s
        ensures CleanNode(g, m)
      {
        if m == n {
          forall i: nat | HasLink(g, n, i)
            ensures !Dirty(g[n].links[i].entry)
          {
            assert LinkClean(g, n, i);
          }
        }
      }
      assert CleanSet(g, s);
      CleanSetIsClean(g, s, n);
    }
  }

  lemma DirtyAbove(g: Graph, n: nat, i: nat)
    requires WellFormed(g) && HasLink(g, n, i) && !LinkClean(g, n, i)
    ensures !Clean(g, n)
  {
    CleanByLinks(g, n);
  }

  // ----- frames -------------------------------------------------------------

  /** Frame `k` is suspended in the link that leads to frame `k + 1`. */
  ghost predicate Suspended(g: Graph, frames: seq<Frame>, k: nat)
    requires k + 1 < |frames|
  {
    var f := frames[k];
    f.next > 0 && HasLink(g, f.node, f.next - 1) && g[f.node].links[f.next - 1].prev == At(frames[k + 1].node)
  }

  ghost predicate FrameOk(g: Graph, f: Frame) {
    f.node < |g| && f.next <= |g[f.node].links|
  }

  /** Links of frame `k` before its current one are clean; the current one at least
      carries no error itself. */
  ghost predicate FrameDone(g: Graph, frames: seq<Frame>, k: nat, i: nat)
    requires k < |frames| && HasLink(g, frames[k].node, i)
  {
    if i + 1 == frames[k].next && k + 1 < |frames| then !Dirty(g[frames[k].node].links[i].entry)
    else LinkClean(g, frames[k].node, i)
  }

  /** The frames lie along one walk down the graph. */
  ghost predicate FramesLinked(g: Graph, frames: seq<Frame>) {
    && (forall k: nat :: k < |frames| ==> FrameOk(g, frames[k]))
    && (forall k: nat :: k + 1 < |frames| ==> Suspended(g, frames, k))
  }

  ghost predicate FramesOk(g: Graph, frames: seq<Frame>) {
    && FramesLinked(g, frames)
    && (forall k: nat, i: nat {:trigger FrameDone(g, frames, k, i)} ::
          k < |frames| && i < frames[k].next && HasLink(g, frames[k].node, i) ==> FrameDone(g, frames, k, i))
  }

  /** The nodes a walk has opened: those whose frame has moved. */
  ghost function Opened(frames: seq<Frame>): set<nat> {
    set k: nat | k < |frames| && frames[k].next > 0 :: frames[k].node
  }

  /** A frame reaches every frame above it, and never the other way round. */
  lemma {:induction false} FramesDescend(g: Graph, frames: seq<Frame>, j: nat, k: nat)
    requires Valid(g) && FramesLinked(g, frames) && j < k < |frames|
    ensures frames[j].node < |g| && frames[k].node < |g|
    ensures Reaches(g, frames[j].node, frames[k].node) && !Reaches(g, frames[k].node, frames[j].node)
    decreases k
  {
    assert FrameOk(g, frames[j]) && FrameOk(g, frames[k]) && FrameOk(g, frames[k - 1]);
    assert Suspended(g, frames, k - 1);
    var p := frames[k - 1];
    LinkReaches(g, p.node, p.next - 1);
    assert LinkGoesDown(g, p.node, p.next - 1);
    if j < k - 1 {
      FramesDescend(g, frames, j, k - 1);
      ReachesTransitive(g, frames[j].node, p.node, frames[k].node);
      if Reaches(g, frames[k].node, frames[j].node) {
        ReachesTransitive(g, p.node, frames[k].node, frames[j].node);
      }
    }
  }

  /** A frame's failure is the failure of every frame below it. */
  lemma {:induction false} FailureSpreads(g: Graph, frames: seq<Frame>, k: nat)
    requires WellFormed(g) && FramesLinked(g, frames) && k < |frames|
    requires !Clean(g, frames[|frames| - 1].node)
    ensures !Clean(g, frames[k].node)
    decreases |frames| - k
  {
    if k + 1 < |frames| {
      FailureSpreads(g, frames, k + 1);
      assert Suspended(g, frames, k) && FrameOk(g, frames[k]);
      DirtyAbove(g, frames[k].node, frames[k].next - 1);
    }
  }

  /** Termination measure of the walk. */
  ghost function Work(g: Graph, frames: seq<Frame>): nat {
    if frames == [] then 0
    else
      var f := frames[|frames| - 1];
      Work(g, frames[..|frames| - 1]) + 1
      + if f.next > 0 && FrameOk(g, f) then 2 * (|g[f.node].links| - f.next) else 0
  }

  // ----- the three moves of the walk ------------------------------------------

  /** Dropping the top frame once its node is known to be clean. */
  lemma {:induction false} PopFrame(g: Graph, frames: seq<Frame>)
    requires Valid(g) && FramesOk(g, frames) && |frames| > 0 && Clean(g, frames[|frames| - 1].node)
    ensures FramesOk(g, frames[..|frames| - 1])
    ensures frames[|frames| - 1].next > 0 ==> Opened(frames) == Opened(frames[..|frames| - 1]) + {frames[|frames| - 1].node}
    ensures frames[|frames| - 1].next == 0 ==> Opened(frames) == Opened(frames[..|frames| - 1])
  {
    var last := |frames| - 1;
    var rest := frames[..last];
    forall k: nat | k + 1 < |rest|
      ensures Suspended(g, rest, k)
    {
      assert Suspended(g, frames, k);
    }
    forall k: nat, i: nat | k < |rest| && i < rest[k].next && HasLink(g, rest[k].node, i)
      ensures FrameDone(g, rest, k, i)
    {
      assert FrameDone(g, frames, k, i);
      if k + 1 == last {
        assert Suspended(g, frames, k);
      }
    }
    assert frames == rest + [frames[last]];
  }

  /** Moving the top frame past its next link, which carries no error itself, and opening
      a frame for the link's predecessor if there is one. */
  lemma {:induction false} AdvanceFrame(g: Graph, frames: seq<Frame>, moved: seq<Frame>)
    requires Valid(g) && FramesOk(g, frames) && |frames| > 0
    requires var f := frames[|frames| - 1];
             && HasLink(g, f.node, f.next) && !Dirty(g[f.node].links[f.next].entry)
             && var rest := frames[..|frames| - 1];
                var l := g[f.node].links[f.next];
                moved == rest + [Frame(f.node, f.next + 1)] + if l.prev.At? then [Frame(l.prev.id, 0)] else []
    ensures FramesOk(g, moved)
    ensures Opened(moved) == Opened(frames) + {frames[|frames| - 1].node}
    ensures frames[|frames| - 1].next > 0 ==> Work(g, moved) < Work(g, frames)
  {
    var last := |frames| - 1;
    var f := frames[last];
    var l := g[f.node].links[f.next];
    assert FrameOk(g, f) && ValidRef(g, l.prev);
    forall k: nat | k < |moved|
      ensures FrameOk(g, moved[k])
    {
      if k < last { assert FrameOk(g, frames[k]); }
    }
    forall k: nat | k + 1 < |moved|
      ensures Suspended(g, moved, k)
    {
      if k < last { assert Suspended(g, frames, k); }
    }
    forall k: nat, i: nat | k < |moved| && i < moved[k].next && HasLink(g, moved[k].node, i)
      ensures FrameDone(g, moved, k, i)
    {
      if k < last || i < f.next {
        assert FrameDone(g, frames, k, i);
      }
    }
    OpenedAdvance(frames, moved, last);
    if f.next > 0 {
      AdvanceWork(g, frames, moved);
    }
  }

  lemma OpenedAdvance(frames: seq<Frame>, moved: seq<Frame>, last: nat)
    requires last + 1 == |frames| && last < |moved| <= last + 2
    requires moved[..last] == frames[..last] && moved[last].node == frames[last].node && moved[last].next > 0
    requires last + 1 < |moved| ==> moved[last + 1].next == 0
    ensures Opened(moved) == Opened(frames) + {frames[last].node}
  {
    forall x | x in Opened(moved)
      ensures x in Opened(frames) + {frames[last].node}
    {
      var k: nat :| k < |moved| && moved[k].next > 0 && moved[k].node == x;
      if k < last { assert moved[..last][k] == frames[..last][k]; assert frames[k].next > 0; }
    }
    forall x | x in Opened(frames)
      ensures x in Opened(moved)
    {
      var k: nat :| k < |frames| && frames[k].next > 0 && frames[k].node == x;
      if k < last { assert moved[..last][k] == frames[..last][k]; }
      assert moved[k].next > 0 && moved[k].node == x;
    }
    assert moved[last].node in Opened(moved);
  }

  lemma {:induction false} AdvanceWork(g: Graph, frames: seq<Frame>, moved: seq<Frame>)
    requires |frames| > 0 && frames[|frames| - 1].next > 0
    requires var f := frames[|frames| - 1];
             && FrameOk(g, f) && HasLink(g, f.node, f.next)
             && (moved == frames[..|frames| - 1] + [Frame(f.node, f.next + 1)]
                 || exists m :: moved == frames[..|frames| - 1] + [Frame(f.node, f.next + 1)] + [Frame(m, 0)])
    ensures Work(g, moved) < Work(g, frames)
  {
    var last := |frames| - 1;
    var f := frames[last];
    var one := frames[..last] + [Frame(f.node, f.next + 1)];
    assert one[..last] == frames[..last];
    assert Work(g, one) + 2 == Work(g, frames);
    if moved != one {
      assert moved[..last + 1] == one;
    }
  }
}
