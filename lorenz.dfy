/**
 * The index logic of the per-node renderer `run` in lorenz.py: parse the
 * node string "<node_no>/<num_nodes>", compute the node's span of global
 * frame indices, and walk `frames[t0:t1]` writing one file per frame.
 */
module Lorenz {
  import opened Wrappers
  import opened Text
  import opened Partition

  /** The exceptions `run` raises before it renders anything. */
  datatype RunError =
    | MalformedNode   // ValueError from split-and-int on the node string
    | ZeroDivision    // num_nodes == 0 or time_delta == 0
    | NegativeSamples // np.linspace with a negative sample count

  /** What `run` has worked out before its render loop. */
  datatype Plan = Plan(nodeNo: int, numNodes: int, span: Span, totalFrames: nat)

  /**
   * One iteration of the render loop: the global index j, the frame value i
   * taken from the slice, and the history length it draws. The image is
   * saved as FramePath(output_dir, j).
   */
  datatype Rendered = Rendered(index: int, frame: int, history: int)

  /** `node_no, num_nodes = map(int, node.split("/"))`. */
  function ParseNode(node: string): (r: Result<(int, int), RunError>)
    ensures r.Success? ==> Count(node, '/') == 1
    ensures r.Failure? ==> r.error == MalformedNode
  {
    var parts := Split(node, '/');
    SplitCount(node, '/');
    if |parts| != 2 then Failure(MalformedNode)
    else match (ParseInt(parts[0]), ParseInt(parts[1]))
      case (Some(a), Some(b)) => Success((a, b))
      case _ => Failure(MalformedNode)
  }

  /**
   * A string with exactly one '/' parses when both sides are integers, to
   * the pair of their values; otherwise it is a ValueError.
   */
  lemma ParseNodeParts(a: string, b: string)
    requires '/' !in a && '/' !in b
    ensures ParseNode(a + "/" + b) ==
      if ParseInt(a).Some? && ParseInt(b).Some? then Success((ParseInt(a).value, ParseInt(b).value))
      else Failure(MalformedNode)
  {
    SplitConcat(a, '/', b);
    SplitNoSep(b, '/');
    assert a + "/" + b == a + ['/'] + b;
  }

  /**
   * Lines 28-39 of `run`: parse, divide by num_nodes, divide by time_delta,
   * and create the sample grid, in that order, each of which may raise.
   */
  function PlanRun(node: string, timeDelta: real, duration: int): (r: Result<Plan, RunError>)
    ensures r.Success? ==> ParseNode(node) == Success((r.value.nodeNo, r.value.numNodes))
    ensures r.Success? ==> r.value.numNodes != 0 && timeDelta != 0.0
    ensures r.Success? ==> r.value.totalFrames == TotalFrames(duration, timeDelta)
    ensures r.Success? ==> r.value.span == NodeSpan(r.value.nodeNo, StepCount(duration, r.value.numNodes, timeDelta))
    ensures ParseNode(node).Failure? ==> r == Failure(MalformedNode)
    ensures ParseNode(node).Success? && (ParseNode(node).value.1 == 0 || timeDelta == 0.0) ==>
      r == Failure(ZeroDivision)
    ensures ParseNode(node).Success? && ParseNode(node).value.1 != 0 && timeDelta != 0.0 ==>
      (r.Failure? <==> TotalFrames(duration, timeDelta) < 0) &&
      (r.Failure? ==> r.error == NegativeSamples)
  {
    match ParseNode(node)
    case Failure(e) => Failure(e)
    case Success((nodeNo, numNodes)) =>
      if numNodes == 0 || timeDelta == 0.0 then Failure(ZeroDivision)
      else
        var total := TotalFrames(duration, timeDelta);
        var k := StepCount(duration, numNodes, timeDelta);
        if total < 0 then Failure(NegativeSamples)
        else Success(Plan(nodeNo, numNodes, NodeSpan(nodeNo, k), total))
  }

  /** `np.arange(1, n + 1)`. */
  function Frames(n: int): (fs: seq<int>)
    ensures |fs| == if n > 0 then n else 0
    ensures forall p :: 0 <= p < |fs| ==> fs[p] == p + 1
  {
    seq(if n > 0 then n else 0, p => p + 1)
  }

  /** Where a Python slice bound lands in a sequence of length `len`. */
  function SliceBound(b: int, len: nat): (r: nat)
    ensures r <= len
  {
    if b < 0 then (if b + len < 0 then 0 else b + len) else if b > len then len else b
  }

  /** `s[lo:hi]` with Python's treatment of negative and out-of-range bounds. */
  function Slice<T>(s: seq<T>, lo: int, hi: int): (r: seq<T>)
    ensures |r| <= |s|
    ensures 0 <= lo <= hi <= |s| ==> r == s[lo..hi]
  {
    var a, b := SliceBound(lo, |s|), SliceBound(hi, |s|);
    if a < b then s[a..b] else []
  }

  /** `f"{output_dir}/frame_{j:04d}.png"`. */
  function FramePath(outputDir: string, j: int): string
  {
    outputDir + "/frame_" + Format04(j) + ".png"
  }

  /** Within one directory, distinct indices name distinct files. */
  lemma FramePathInjective(outputDir: string, a: int, b: int)
    requires FramePath(outputDir, a) == FramePath(outputDir, b)
    ensures a == b
  {
    AffixCancel(outputDir + "/frame_", Format04(a), Format04(b), ".png");
    Format04Injective(a, b);
  }

  /**
   * What the render loop does: for the p-th element i of frames[t0:t1],
   * index j = t0 + p and history length (2*i) mod L with L = N samples.
   */
  function RenderSchedule(plan: Plan): (out: seq<Rendered>)
  {
    var frames := Slice(Frames(plan.totalFrames), plan.span.start, plan.span.end);
    seq(|frames|, p requires 0 <= p < |frames| => RenderStep(plan, frames, p))
  }

  /** The p-th iteration of the render loop over `frames`. */
  function RenderStep(plan: Plan, frames: seq<int>, p: nat): Rendered
    requires p < |frames| <= plan.totalFrames
  {
    Rendered(plan.span.start + p, frames[p], (2 * frames[p]) % plan.totalFrames)
  }

  /** The loop at lorenz.py:69-84 (drawing and camera left out). */
  method RenderFrames(plan: Plan) returns (written: seq<Rendered>)
    ensures written == RenderSchedule(plan)
  {
    var frames := Slice(Frames(plan.totalFrames), plan.span.start, plan.span.end);
    var samples := plan.totalFrames;
    var j := plan.span.start;
    written := [];
    for p := 0 to |frames|
      invariant j == plan.span.start + p
      invariant |written| == p
      invariant forall q :: 0 <= q < p ==> written[q] == RenderStep(plan, frames, q)
    {
      var i := frames[p];
      var history := (2 * i) % samples;
      assert Rendered(j, i, history) == RenderStep(plan, frames, p);
      written := written + [Rendered(j, i, history)];
      j := j + 1;
    }
    ghost var out := RenderSchedule(plan);
    assert |out| == |written|;
    assert forall q :: 0 <= q < |out| ==> out[q] == written[q];
  }

  /**
   * `run(node, time_delta, duration, output_dir)`: the plan, then the loop.
   * output_dir only enters the names of the files, FramePath(output_dir, j).
   */
  method Run(node: string, timeDelta: real, duration: int)
    returns (r: Result<seq<Rendered>, RunError>)
    ensures PlanRun(node, timeDelta, duration).Failure? ==>
      r == Failure(PlanRun(node, timeDelta, duration).error)
    ensures PlanRun(node, timeDelta, duration).Success? ==>
      r == Success(RenderSchedule(PlanRun(node, timeDelta, duration).value))
  {
    var plan := PlanRun(node, timeDelta, duration);
    if plan.Failure? {
      return Failure(plan.error);
    }
    var written := RenderFrames(plan.value);
    r := Success(written);
  }

  /**
   * For a node 1..n with a positive step and a non-negative duration, `run`
   * gets past its checks, and the node's span lies inside [0, N).
   */
  lemma PlanRunSucceeds(node: string, nodeNo: int, numNodes: int, timeDelta: real, duration: int)
    requires ParseNode(node) == Success((nodeNo, numNodes))
    requires 1 <= nodeNo <= numNodes && timeDelta > 0.0 && duration >= 0
    ensures var k, total := StepCount(duration, numNodes, timeDelta), TotalFrames(duration, timeDelta);
      var span := NodeSpan(nodeNo, k);
      && PlanRun(node, timeDelta, duration) == Success(Plan(nodeNo, numNodes, span, total))
      && 0 <= span.start <= span.end <= total
  {
    var k := StepCount(duration, numNodes, timeDelta);
    StepsFitFrames(duration, numNodes, timeDelta);
    MulMono(k, 0, nodeNo - 1);
    MulMono(k, nodeNo, numNodes);
  }

  /**
   * When the span lies inside [0, N), the loop runs once per index of the
   * span, in order, with frame value j + 1 and a history length in [0, N).
   */
  lemma RenderScheduleOfSpan(plan: Plan)
    requires 0 <= plan.span.start <= plan.span.end <= plan.totalFrames
    ensures var out := RenderSchedule(plan);
      |out| == plan.span.end - plan.span.start &&
      forall p :: 0 <= p < |out| ==>
        && out[p].index == plan.span.start + p
        && out[p].frame == out[p].index + 1
        && out[p].history == (2 * out[p].frame) % plan.totalFrames
        && 0 <= out[p].history < plan.totalFrames
  {
    var frames := Slice(Frames(plan.totalFrames), plan.span.start, plan.span.end);
    assert frames == Frames(plan.totalFrames)[plan.span.start..plan.span.end];
  }

  /**
   * For a node 1..n with a positive step and duration, the loop writes
   * exactly k frames, for j = t0, ..., t1 - 1 in that order, with frame
   * value j + 1 and a history length in [0, N).
   */
  lemma RenderScheduleInRange(node: string, nodeNo: int, numNodes: int, timeDelta: real, duration: int)
    requires ParseNode(node) == Success((nodeNo, numNodes))
    requires 1 <= nodeNo <= numNodes && timeDelta > 0.0 && duration >= 0
    ensures var r := PlanRun(node, timeDelta, duration);
      r.Success? && r.value.nodeNo == nodeNo && r.value.numNodes == numNodes &&
      var out := RenderSchedule(r.value);
      var k := StepCount(duration, numNodes, timeDelta);
      |out| == k &&
      forall p :: 0 <= p < |out| ==>
        && out[p].index == k * (nodeNo - 1) + p
        && out[p].frame == out[p].index + 1
        && out[p].history == (2 * out[p].frame) % r.value.totalFrames
        && 0 <= out[p].history < r.value.totalFrames
  {
    PlanRunSucceeds(node, nodeNo, numNodes, timeDelta, duration);
    RenderScheduleOfSpan(PlanRun(node, timeDelta, duration).value);
  }

  /** Within one run, indices strictly increase and no file is written twice. */
  lemma RenderScheduleDistinct(plan: Plan, outputDir: string, p: int, q: int)
    requires 0 <= p < q < |RenderSchedule(plan)|
    ensures var out := RenderSchedule(plan);
      out[p].index < out[q].index &&
      FramePath(outputDir, out[p].index) != FramePath(outputDir, out[q].index)
  {
    var out := RenderSchedule(plan);
    if FramePath(outputDir, out[p].index) == FramePath(outputDir, out[q].index) {
      FramePathInjective(outputDir, out[p].index, out[q].index);
    }
  }
}
