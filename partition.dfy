/**
 * The frame-index partition shared by the per-node renderer and the
 * coordinator: N = int(duration / time_delta) frames in total, and node m
 * of n renders the half-open span [k*(m-1), k*(m-1) + k) with
 * k = int((duration / n) / time_delta).
 */
module Partition {

  /** Python's `int(x)` on a float: truncation toward zero. */
  function Trunc(x: real): (r: int)
    ensures x >= 0.0 ==> 0 <= r && r as real <= x < r as real + 1.0
    ensures x < 0.0 ==> r <= 0 && r as real - 1.0 < x <= r as real
  {
    if x >= 0.0 then x.Floor else -((-x).Floor)
  }

  /** N, the number of frames and of trajectory samples. */
  function TotalFrames(duration: int, timeDelta: real): int
    requires timeDelta != 0.0
  {
    Trunc(duration as real / timeDelta)
  }

  /** k, the number of frames each node renders. */
  function StepCount(duration: int, numNodes: int, timeDelta: real): int
    requires numNodes != 0 && timeDelta != 0.0
  {
    Trunc((duration as real / numNodes as real) / timeDelta)
  }

  /** A half-open interval [start, end) of global frame indices. */
  datatype Span = Span(start: int, end: int)
  {
    predicate Contains(t: int) { start <= t < end }

    /** The indices of the span in increasing order, as `range(start, end)` yields them. */
    function Indices(): (ts: seq<int>)
      ensures |ts| == if start <= end then end - start else 0
      ensures forall p :: 0 <= p < |ts| ==> ts[p] == start + p
    {
      seq(if start <= end then end - start else 0, p => start + p)
    }
  }

  /** `t0 = k * (node_no - 1)`, `t1 = t0 + k`. */
  function NodeSpan(nodeNo: int, step: int): Span
  {
    var t0 := step * (nodeNo - 1);
    Span(t0, t0 + step)
  }

  /** The node that renders frame `t` when every node takes `step` frames. */
  function Owner(t: int, step: int): int
    requires step > 0
  {
    t / step + 1
  }

  /** Frame `t` lies in node m's span exactly when m is its owner. */
  lemma OwnerIff(t: int, step: int, m: int)
    requires step > 0
    ensures NodeSpan(m, step).Contains(t) <==> m == Owner(t, step)
  {
    var q, r := t / step, t % step;
    assert t == step * q + r && 0 <= r < step;
    if m - 1 < q {
      MulMono(step, m, q);
    } else if m - 1 > q {
      MulMono(step, q + 1, m - 1);
    }
  }

  lemma MulMono(k: int, a: int, b: int)
    requires k >= 0 && a <= b
    ensures k * a <= k * b
  {
    assert k * b - k * a == k * (b - a);
  }

  /** Each node's span holds exactly `step` frames, and node m ends where node m+1 starts. */
  lemma SpansAdjacent(m: int, step: int)
    ensures NodeSpan(m, step).end - NodeSpan(m, step).start == step
    ensures NodeSpan(m, step).end == NodeSpan(m + 1, step).start
  {
  }

  /** Two different nodes never share a frame. */
  lemma SpansDisjoint(m1: int, m2: int, step: int, t: int)
    requires step >= 0 && m1 != m2
    ensures !(NodeSpan(m1, step).Contains(t) && NodeSpan(m2, step).Contains(t))
  {
    if step > 0 {
      OwnerIff(t, step, m1);
      OwnerIff(t, step, m2);
    }
  }

  /** Nodes 1..n together render exactly the frames [0, n*k). */
  lemma SpansCoverPrefix(n: int, step: int, t: int)
    requires n >= 1 && step >= 0
    ensures (exists m :: 1 <= m <= n && NodeSpan(m, step).Contains(t)) <==> 0 <= t < n * step
  {
    if step > 0 {
      var o := Owner(t, step);
      OwnerIff(t, step, o);
      if 0 <= t < n * step {
        assert 1 <= o <= n by {
          if o > n { MulMono(step, n, o - 1); }
        }
      }
      if exists m :: 1 <= m <= n && NodeSpan(m, step).Contains(t) {
        var m :| 1 <= m <= n && NodeSpan(m, step).Contains(t);
        MulMono(step, 0, m - 1);
        MulMono(step, m, n);
      }
    }
  }

  /** The indices of nodes 1..n, concatenated in node order. */
  function AllIndices(n: nat, step: int): seq<int>
  {
    if n == 0 then [] else AllIndices(n - 1, step) + NodeSpan(n, step).Indices()
  }

  /** Concatenated in node order, the spans enumerate 0, 1, ..., n*k - 1 once each. */
  lemma {:induction false} AllIndicesArePrefix(n: nat, step: nat)
    ensures AllIndices(n, step) == seq(n * step, t => t)
  {
    if n > 0 {
      AllIndicesArePrefix(n - 1, step);
      var before := (n - 1) * step;
      assert n * step == before + step;
      var span := NodeSpan(n, step);
      assert span.start == before;
      var all := AllIndices(n, step);
      assert |all| == n * step;
      forall t | 0 <= t < n * step ensures all[t] == t {
        if t >= before {
          assert all[t] == span.Indices()[t - before];
        }
      }
    }
  }

  /** floor(x / n) * n <= floor(x) < floor(x / n) * n + n. */
  lemma FloorDivBound(x: real, n: int)
    requires x >= 0.0 && n >= 1
    ensures var q, f := Trunc(x / n as real), Trunc(x);
      0 <= q && 0 <= n * q <= f < n * q + n
  {
    var q := Trunc(x / n as real);
    ScaleBounds(x, n, q);
    FloorBetween(n * q, n * q + n, x);
    MulMono(n, 0, q);
  }

  /** q <= x / n < q + 1 scales to n*q <= x < n*q + n. */
  lemma ScaleBounds(x: real, n: int, q: int)
    requires n >= 1 && q as real <= x / n as real < (q + 1) as real
    ensures (n * q) as real <= x < (n * q + n) as real
  {
    var nr := n as real;
    var y := x / nr;
    assert nr * y == x;
    RealMulMono(nr, q as real, y);
    CastMul(n, q);
    var b := (q + 1) as real;
    RealMulStrict(nr, y, b);
    assert n * q + n == n * (q + 1);
    CastMul(n, q + 1);
  }

  /** An integer range around a non-negative real contains its floor. */
  lemma FloorBetween(lo: int, hi: int, x: real)
    requires x >= 0.0 && lo as real <= x < hi as real
    ensures lo <= Trunc(x) < hi
  {
  }

  lemma CastMul(a: int, b: int)
    ensures (a * b) as real == a as real * b as real
  {
  }

  lemma RealMulMono(c: real, a: real, b: real)
    requires c >= 0.0 && a <= b
    ensures c * a <= c * b
  {
    assert c * b - c * a == c * (b - a);
  }

  lemma RealMulStrict(c: real, a: real, b: real)
    requires c > 0.0 && a < b
    ensures c * a < c * b
  {
    assert c * b - c * a == c * (b - a);
  }

  /** (d / n) / td == (d / td) / n, so k is floor(x / n) with x = duration / time_delta. */
  lemma DivideInEitherOrder(d: real, n: real, td: real)
    requires n != 0.0 && td != 0.0
    ensures (d / n) / td == (d / td) / n
  {
    assert (d / n) / td == d / (n * td);
    assert (d / td) / n == d / (td * n);
  }

  /** The n spans never reach past the last frame, and fewer than n frames are left over. */
  lemma StepsFitFrames(duration: int, numNodes: int, timeDelta: real)
    requires duration >= 0 && numNodes >= 1 && timeDelta > 0.0
    ensures var k, total := StepCount(duration, numNodes, timeDelta), TotalFrames(duration, timeDelta);
      0 <= k && 0 <= numNodes * k <= total && total - numNodes * k < numNodes
  {
    var x := duration as real / timeDelta;
    DivideInEitherOrder(duration as real, numNodes as real, timeDelta);
    FloorDivBound(x, numNodes);
  }

  /** When duration / time_delta is a whole number divisible by n, the last span ends at N. */
  lemma ExactDivisionCovers(duration: int, numNodes: int, timeDelta: real)
    requires duration >= 0 && numNodes >= 1 && timeDelta > 0.0
    requires duration as real / timeDelta == TotalFrames(duration, timeDelta) as real
    requires TotalFrames(duration, timeDelta) % numNodes == 0
    ensures numNodes * StepCount(duration, numNodes, timeDelta) == TotalFrames(duration, timeDelta)
    ensures NodeSpan(numNodes, StepCount(duration, numNodes, timeDelta)).end == TotalFrames(duration, timeDelta)
  {
    var total := TotalFrames(duration, timeDelta);
    var q := total / numNodes;
    var x := duration as real / timeDelta;
    var n := numNodes as real;
    assert total == numNodes * q;
    DivideInEitherOrder(duration as real, n, timeDelta);
    assert x / n == q as real by {
      assert x == n * q as real;
    }
  }

  /** Frames from n*k up to N are in no node's span: the trailing gap. */
  lemma TrailingGap(duration: int, numNodes: int, timeDelta: real, t: int)
    requires duration >= 0 && numNodes >= 1 && timeDelta > 0.0
    requires numNodes * StepCount(duration, numNodes, timeDelta) <= t < TotalFrames(duration, timeDelta)
    ensures forall m :: 1 <= m <= numNodes ==> !NodeSpan(m, StepCount(duration, numNodes, timeDelta)).Contains(t)
  {
    StepsFitFrames(duration, numNodes, timeDelta);
    SpansCoverPrefix(numNodes, StepCount(duration, numNodes, timeDelta), t);
  }

  /** Four nodes, 20 s at 0.01 s: 2000 frames split 500 apiece. */
  lemma FourNodeExample()
    ensures TotalFrames(20, 0.01) == 2000 && StepCount(20, 4, 0.01) == 500
    ensures NodeSpan(1, 500) == Span(0, 500) && NodeSpan(2, 500) == Span(500, 1000)
    ensures NodeSpan(3, 500) == Span(1000, 1500) && NodeSpan(4, 500) == Span(1500, 2000)
  {
    assert 20 as real / 0.01 == 2000.0;
    assert (20 as real / 4 as real) / 0.01 == 500.0;
  }

  /** Three nodes, 20 s at 0.01 s: k = 666, so frames 1998 and 1999 are never rendered. */
  lemma ThreeNodeGapExample()
    ensures TotalFrames(20, 0.01) == 2000 && StepCount(20, 3, 0.01) == 666
    ensures forall m :: 1 <= m <= 3 ==> !NodeSpan(m, 666).Contains(1998) && !NodeSpan(m, 666).Contains(1999)
  {
    assert 20 as real / 0.01 == 2000.0;
    assert (20 as real / 3 as real) / 0.01 == 2000.0 / 3.0;
    TrailingGap(20, 3, 0.01, 1998);
    TrailingGap(20, 3, 0.01, 1999);
  }
}
