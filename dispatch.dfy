/**
 * The coordinator in main.py: one task per node index, the command line
 * each task runs, the downloads its worker queues, and the engine timeout.
 * The remote engine itself is not modelled; a worker is reduced to the list
 * of steps it queues on its work context.
 */
module Dispatch {
  import opened Wrappers
  import opened Text
  import opened Partition
  import Lorenz

  /**
   * The coordinator's parameters. `timeDeltaText` is how Python prints the
   * float `timeDelta` into the command line.
   */
  datatype Job = Job(duration: int, timeDelta: real, timeDeltaText: string,
                     numTrajectories: int, numNodes: int)

  /** A command queued on a work context. */
  datatype Step =
    | SendFile(src: string, dst: string)
    | Exec(argv: seq<string>)
    | Download(remote: string, local: string)

  /** The ZeroDivisionError a worker raises before it commits anything. */
  datatype TaskError = DivisionByZero

  /** `[Task(data=i+1) for i in range(num_nodes)]`: the data of each task. */
  function TaskData(numNodes: int): (tasks: seq<int>)
    ensures |tasks| == if numNodes > 0 then numNodes else 0
  {
    seq(if numNodes > 0 then numNodes else 0, i => i + 1)
  }

  /** Every node index 1..num_nodes is the data of exactly one task. */
  lemma TaskDataExactlyOnce(numNodes: int)
    ensures forall m :: m in TaskData(numNodes) <==> 1 <= m <= numNodes
    ensures forall p, q :: 0 <= p < q < |TaskData(numNodes)| ==> TaskData(numNodes)[p] < TaskData(numNodes)[q]
  {
    var tasks := TaskData(numNodes);
    forall m | 1 <= m <= numNodes ensures m in tasks {
      assert tasks[m - 1] == m;
    }
  }

  const InitOverheadMinutes := 10

  /** `init_overhead + timedelta(minutes=num_nodes * 2)`, in minutes. */
  function EngineTimeoutMinutes(numNodes: int): (minutes: int)
    ensures numNodes >= 0 ==> minutes >= InitOverheadMinutes
  {
    InitOverheadMinutes + numNodes * 2
  }

  /** With no node the timeout is the bare overhead; every further node adds two minutes. */
  lemma TimeoutPerNode(numNodes: int)
    ensures EngineTimeoutMinutes(0) == InitOverheadMinutes
    ensures EngineTimeoutMinutes(numNodes + 1) == EngineTimeoutMinutes(numNodes) + 2
  {
  }

  /** The timeout allows the init overhead plus two minutes for each task the engine is given. */
  lemma TimeoutCoversTasks(numNodes: int)
    ensures numNodes >= 0 ==> EngineTimeoutMinutes(numNodes) == InitOverheadMinutes + 2 * |TaskData(numNodes)|
  {
  }

  /** `f"{node_no}/{num_nodes}"`, the value of -n on the command line. */
  function NodeString(nodeNo: int, numNodes: int): string
  {
    IntToString(nodeNo) + "/" + IntToString(numNodes)
  }

  /** The renderer parses the -n value back into the pair it was made from. */
  lemma NodeStringRoundTrip(nodeNo: int, numNodes: int)
    ensures Lorenz.ParseNode(NodeString(nodeNo, numNodes)) == Success((nodeNo, numNodes))
  {
    var a, b := IntToString(nodeNo), IntToString(numNodes);
    assert '/' !in a && '/' !in b;
    Lorenz.ParseNodeParts(a, b);
    IntToStringRoundTrip(nodeNo);
    IntToStringRoundTrip(numNodes);
  }

  /**
   * The words of the command line a task runs on the provider; the f-string
   * at main.py:28 puts one space between them and ends with a space, which
   * is the empty last word.
   */
  function CommandWords(job: Job, nodeNo: int): (words: seq<string>)
    ensures |words| == 11
  {
    [ "python3", "/golem/work/task.py",
      "-d", IntToString(job.duration),
      "-n", NodeString(nodeNo, job.numNodes),
      "-m", IntToString(job.numTrajectories),
      "-l", job.timeDeltaText, "" ]
  }

  function Command(job: Job, nodeNo: int): string
  {
    Join(CommandWords(job, nodeNo), ' ')
  }

  /**
   * The words after -d, -n and -m (words 3, 5 and 7) read back, with the
   * renderer's int() and split-and-int, as the duration, the pair
   * (node_no, num_nodes) and the trajectory count.
   */
  lemma CommandArguments(job: Job, nodeNo: int)
    ensures var w := CommandWords(job, nodeNo);
      && ParseInt(w[3]) == Some(job.duration)
      && Lorenz.ParseNode(w[5]) == Success((nodeNo, job.numNodes))
      && ParseInt(w[7]) == Some(job.numTrajectories)
  {
    var w := CommandWords(job, nodeNo);
    assert w[3] == IntToString(job.duration);
    assert w[5] == NodeString(nodeNo, job.numNodes);
    assert w[7] == IntToString(job.numTrajectories);
    IntToStringRoundTrip(job.duration);
    IntToStringRoundTrip(job.numTrajectories);
    NodeStringRoundTrip(nodeNo, job.numNodes);
  }

  /** Printed integers and node strings hold no space. */
  lemma NodeStringNoSpace(nodeNo: int, numNodes: int)
    ensures ' ' !in IntToString(nodeNo) && ' ' !in NodeString(nodeNo, numNodes)
  {
    var a, b := IntToString(nodeNo), IntToString(numNodes);
    assert ' ' !in a && ' ' !in b;
    assert NodeString(nodeNo, numNodes) == a + "/" + b;
  }

  /** When the time step holds no space, no word of the command does. */
  lemma CommandWordsNoSpace(job: Job, nodeNo: int)
    requires ' ' !in job.timeDeltaText
    ensures forall w :: w in CommandWords(job, nodeNo) ==> ' ' !in w
  {
    NodeStringNoSpace(nodeNo, job.numNodes);
    NodeStringNoSpace(job.duration, 0);
    NodeStringNoSpace(job.numTrajectories, 0);
    FixedWordsNoSpace();
  }

  lemma FixedWordsNoSpace()
    ensures ' ' !in "python3" && ' ' !in "/golem/work/task.py"
    ensures ' ' !in "-d" && ' ' !in "-n" && ' ' !in "-m" && ' ' !in "-l"
  {
  }

  /**
   * Split on spaces, the command line gives back exactly its words. The
   * provider runs it through `sh -c`, whose field splitting drops the empty
   * word after the trailing space: for words free of blanks and shell
   * metacharacters, the renderer's argv is `CommandWords` without its last word.
   */
  lemma CommandSplits(job: Job, nodeNo: int)
    requires ' ' !in job.timeDeltaText
    ensures Split(Command(job, nodeNo), ' ') == CommandWords(job, nodeNo)
  {
    var words := CommandWords(job, nodeNo);
    CommandWordsNoSpace(job, nodeNo);
    assert forall i :: 0 <= i < |words| ==> words[i] in words;
    SplitJoin(words, ' ');
  }

  /** The frame as the provider writes it. */
  function RemoteFrame(t: int): string
  {
    "/golem/output/frame_" + Format04(t) + ".png"
  }

  /** The frame as the requestor stores it. */
  function LocalFrame(t: int): string
  {
    "output/frame_" + Format04(t) + ".png"
  }

  /** The literal prefixes of both names, around any formatted index f. */
  lemma FrameNameShapes(f: string)
    ensures "/golem/output/frame_" + f + ".png" == "/golem/output" + "/frame_" + f + ".png"
    ensures "output/frame_" + f + ".png" == "output" + "/frame_" + f + ".png"
    ensures "/golem/output/frame_" + f + ".png" == "/golem/" + ("output/frame_" + f + ".png")
  {
    assert "/golem/output/frame_" == "/golem/output" + "/frame_";
    assert "output/frame_" == "output" + "/frame_";
    assert "/golem/output/frame_" == "/golem/" + "output/frame_";
  }

  /**
   * The remote name is the renderer's file for index t, and the local name
   * is the same name with the "/golem/" prefix dropped.
   */
  lemma FrameNamesAgree(t: int)
    ensures RemoteFrame(t) == Lorenz.FramePath("/golem/output", t)
    ensures LocalFrame(t) == Lorenz.FramePath("output", t)
    ensures LocalFrame(t) == RemoteFrame(t)[|"/golem/"|..]
  {
    FrameNameShapes(Format04(t));
  }

  /** Distinct indices are stored under distinct local names. */
  lemma LocalFrameInjective(a: int, b: int)
    requires LocalFrame(a) == LocalFrame(b)
    ensures a == b
  {
    AffixCancel("output/frame_", Format04(a), Format04(b), ".png");
    Format04Injective(a, b);
  }

  function DownloadFrame(t: int): Step
  {
    Download(RemoteFrame(t), LocalFrame(t))
  }

  /** `f` applied to every element, in order. */
  function Map<A, B>(f: A -> B, s: seq<A>): (r: seq<B>)
    ensures |r| == |s| && forall p :: 0 <= p < |s| ==> r[p] == f(s[p])
  {
    seq(|s|, p requires 0 <= p < |s| => f(s[p]))
  }

  lemma MapConcat<A, B>(f: A -> B, a: seq<A>, b: seq<A>)
    ensures Map(f, a + b) == Map(f, a) + Map(f, b)
  {
    var lhs, rhs := Map(f, a + b), Map(f, a) + Map(f, b);
    forall p | 0 <= p < |lhs| ensures lhs[p] == rhs[p] {
      if p >= |a| {
        assert (a + b)[p] == b[p - |a|];
      }
    }
  }

  /** One frame download per index, in the order of the indices. */
  function DownloadsFor(ts: seq<int>): (steps: seq<Step>)
    ensures |steps| == |ts|
  {
    Map(DownloadFrame, ts)
  }

  const Program := "lorenz.py"
  const RemoteProgram := "/golem/work/task.py"
  const LogRedirect := " >> /golem/output/log.txt 2>&1"
  const RemoteLog := "/golem/output/log.txt"
  const LocalLog := "log.txt"

  /** The shell invocation that runs a command and appends its output to the log. */
  function ShellArgs(cmd: string): seq<string>
  {
    ["sh", "-c", cmd + LogRedirect]
  }

  /** Downloading one more index appends one download for it. */
  lemma DownloadsExtend(t0: int, t: int)
    requires t0 <= t
    ensures DownloadsFor(Span(t0, t + 1).Indices()) == DownloadsFor(Span(t0, t).Indices()) + [DownloadFrame(t)]
  {
    var before := Span(t0, t).Indices();
    assert Span(t0, t + 1).Indices() == before + [t];
    MapConcat(DownloadFrame, before, [t]);
  }

  /**
   * What the worker queues before any frame: the program, the shell that
   * runs command `cmd`, the log.
   */
  function Preamble(cmd: string): seq<Step>
  {
    [ SendFile(Program, RemoteProgram),
      Exec(ShellArgs(cmd)),
      Download(RemoteLog, LocalLog) ]
  }

  /** The span the worker recomputes for a task, with the renderer's formula. */
  function TaskSpan(job: Job, nodeNo: int): Span
    requires job.numNodes != 0 && job.timeDelta != 0.0
  {
    NodeSpan(nodeNo, StepCount(job.duration, job.numNodes, job.timeDelta))
  }

  /** The `for t in range(t0, t1)` loop of `worker`: one download per index. */
  method QueueFrameDownloads(before: seq<Step>, t0: int, t1: int) returns (steps: seq<Step>)
    ensures steps == before + DownloadsFor(Span(t0, t1).Indices())
  {
    steps := before;
    var t := t0;
    while t < t1
      invariant t == t0 || t0 <= t <= t1
      invariant steps == before + DownloadsFor(Span(t0, t).Indices())
    {
      DownloadsExtend(t0, t);
      steps := steps + [Download(RemoteFrame(t), LocalFrame(t))];
      t := t + 1;
    }
    if t0 > t1 {
      assert t == t0;
      assert Span(t0, t).Indices() == [] == Span(t0, t1).Indices();
    }
  }

  /**
   * One pass of `worker` for a task with data `nodeNo` (main.py:26-37):
   * the steps it queues before `yield ctx.commit()`.
   */
  method Worker(job: Job, nodeNo: int) returns (r: Result<seq<Step>, TaskError>)
    requires 1 <= nodeNo <= job.numNodes
    ensures r.Failure? <==> job.timeDelta == 0.0
    ensures r.Success? ==>
      r.value == Preamble(Command(job, nodeNo)) + DownloadsFor(TaskSpan(job, nodeNo).Indices())
  {
    var steps := [SendFile(Program, RemoteProgram)];
    var cmd := Command(job, nodeNo);
    steps := steps + [Exec(ShellArgs(cmd))];
    steps := steps + [Download(RemoteLog, LocalLog)];
    assert steps == Preamble(cmd);
    if job.timeDelta == 0.0 {
      return Failure(DivisionByZero);
    }
    var taskDuration := job.duration as real / job.numNodes as real;
    var k := Trunc(taskDuration / job.timeDelta);
    var t0 := k * (nodeNo - 1);
    var t1 := t0 + k;
    assert TaskSpan(job, nodeNo) == Span(t0, t1);
    steps := QueueFrameDownloads(steps, t0, t1);
    r := Success(steps);
  }

  /** No frame download reads the remote log or writes over the local log. */
  lemma FrameIsNotLog(t: int)
    ensures RemoteFrame(t) != RemoteLog && LocalFrame(t) != LocalLog
  {
    assert LocalFrame(t)[0] == 'o' && LocalLog[0] == 'l';
    assert RemoteFrame(t)[14] == 'f' && RemoteLog[14] == 'l';
  }

  /**
   * For a task 1..n with non-negative duration and positive step, the worker
   * downloads exactly the files the renderer writes for that node, in the
   * same order. The command passes no -o, so the renderer writes into its
   * argparse default output directory, "/golem/output" (lorenz.py:93).
   */
  lemma DownloadsMatchRenderer(job: Job, nodeNo: int)
    requires 1 <= nodeNo <= job.numNodes && job.timeDelta > 0.0 && job.duration >= 0
    ensures var plan := Lorenz.PlanRun(NodeString(nodeNo, job.numNodes), job.timeDelta, job.duration);
      plan.Success? &&
      var written := Lorenz.RenderSchedule(plan.value);
      var downloads := DownloadsFor(TaskSpan(job, nodeNo).Indices());
      |downloads| == |written| &&
      forall p :: 0 <= p < |written| ==>
        downloads[p] == Download(Lorenz.FramePath("/golem/output", written[p].index),
                                 Lorenz.FramePath("output", written[p].index))
  {
    NodeStringRoundTrip(nodeNo, job.numNodes);
    var node := NodeString(nodeNo, job.numNodes);
    Lorenz.PlanRunSucceeds(node, nodeNo, job.numNodes, job.timeDelta, job.duration);
    DownloadsMatchPlan(job, nodeNo, Lorenz.PlanRun(node, job.timeDelta, job.duration).value);
  }

  /** The same, for any plan whose span is that task's and lies inside [0, N). */
  lemma DownloadsMatchPlan(job: Job, nodeNo: int, plan: Lorenz.Plan)
    requires job.numNodes != 0 && job.timeDelta != 0.0
    requires plan.span == TaskSpan(job, nodeNo)
    requires 0 <= plan.span.start <= plan.span.end <= plan.totalFrames
    ensures var written := Lorenz.RenderSchedule(plan);
      var downloads := DownloadsFor(TaskSpan(job, nodeNo).Indices());
      |downloads| == |written| &&
      forall p :: 0 <= p < |written| ==>
        downloads[p] == Download(Lorenz.FramePath("/golem/output", written[p].index),
                                 Lorenz.FramePath("output", written[p].index))
  {
    Lorenz.RenderScheduleOfSpan(plan);
    DownloadsNameFiles(plan.span.Indices());
  }

  /** Each download fetches the renderer's file for its index into the local copy. */
  lemma DownloadsNameFiles(ts: seq<int>)
    ensures forall p :: 0 <= p < |ts| ==>
      DownloadsFor(ts)[p] == Download(Lorenz.FramePath("/golem/output", ts[p]), Lorenz.FramePath("output", ts[p]))
  {
    forall p | 0 <= p < |ts|
      ensures DownloadsFor(ts)[p] == Download(Lorenz.FramePath("/golem/output", ts[p]), Lorenz.FramePath("output", ts[p]))
    {
      FrameNamesAgree(ts[p]);
    }
  }

  /** Frame downloads of tasks 1..m, concatenated in task order. */
  function AllDownloads(job: Job, m: nat): seq<Step>
    requires job.numNodes != 0 && job.timeDelta != 0.0
  {
    if m == 0 then [] else AllDownloads(job, m - 1) + DownloadsFor(TaskSpan(job, m).Indices())
  }

  lemma {:induction false} AllDownloadsByIndex(job: Job, m: nat)
    requires job.numNodes != 0 && job.timeDelta != 0.0
    ensures AllDownloads(job, m) ==
      DownloadsFor(AllIndices(m, StepCount(job.duration, job.numNodes, job.timeDelta)))
  {
    if m > 0 {
      var k := StepCount(job.duration, job.numNodes, job.timeDelta);
      AllDownloadsByIndex(job, m - 1);
      var a, b := AllIndices(m - 1, k), NodeSpan(m, k).Indices();
      assert AllIndices(m, k) == a + b;
      MapConcat(DownloadFrame, a, b);
    }
  }

  /**
   * Over all tasks, with positive duration and step: n*k frames are
   * downloaded, the t-th being index t, all below N, so no local name repeats.
   */
  lemma AllDownloadsDistinct(job: Job)
    requires job.numNodes >= 1 && job.timeDelta > 0.0 && job.duration >= 0
    ensures var all := AllDownloads(job, job.numNodes);
      var k := StepCount(job.duration, job.numNodes, job.timeDelta);
      && |all| == job.numNodes * k <= TotalFrames(job.duration, job.timeDelta)
      && (forall t :: 0 <= t < |all| ==> all[t] == DownloadFrame(t))
      && (forall p, q :: 0 <= p < q < |all| ==> all[p].local != all[q].local)
  {
    var k := StepCount(job.duration, job.numNodes, job.timeDelta);
    StepsFitFrames(job.duration, job.numNodes, job.timeDelta);
    AllDownloadsByIndex(job, job.numNodes);
    AllIndicesArePrefix(job.numNodes, k);
    var all := AllDownloads(job, job.numNodes);
    forall p, q | 0 <= p < q < |all| ensures all[p].local != all[q].local {
      if all[p].local == all[q].local {
        LocalFrameInjective(p, q);
      }
    }
  }

  /** Two different tasks never download a file to the same local name. */
  lemma TasksDownloadDisjoint(job: Job, a: int, b: int, p: int, q: int)
    requires 1 <= a <= job.numNodes && 1 <= b <= job.numNodes && a != b
    requires job.timeDelta > 0.0 && job.duration >= 0
    requires 0 <= p < |TaskSpan(job, a).Indices()| && 0 <= q < |TaskSpan(job, b).Indices()|
    ensures DownloadsFor(TaskSpan(job, a).Indices())[p].local != DownloadsFor(TaskSpan(job, b).Indices())[q].local
  {
    var k := StepCount(job.duration, job.numNodes, job.timeDelta);
    StepsFitFrames(job.duration, job.numNodes, job.timeDelta);
    var ta, tb := TaskSpan(job, a).start + p, TaskSpan(job, b).start + q;
    if ta == tb {
      SpansDisjoint(a, b, k, ta);
    } else if LocalFrame(ta) == LocalFrame(tb) {
      LocalFrameInjective(ta, tb);
    }
  }
}
