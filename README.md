# Lorenz attractor on Golem: frame partition and naming

The program renders an animation of Lorenz-system trajectories on several
provider nodes. The coordinator (`main.py`) creates one task per node
index 1..n. Each task uploads the renderer, runs it with
`-d <duration> -n <node_no>/<num_nodes> -m <num_trajectories> -l <time_delta>`,
and downloads the log and the frames that node produced. The renderer
(`lorenz.py`, `run`) parses the node string. It computes
N = int(duration / time_delta) frames in total and a per-node step
k = int((duration / num_nodes) / time_delta). Node m writes the global
frames t0 = k*(m-1), ..., t1-1 = t0+k-1 as `<output_dir>/frame_<j:04d>.png`.

This project models the index arithmetic, the naming and the command line
that both programs share. It proves the following:

- the per-node spans are contiguous, disjoint and of length k;
- together they cover exactly [0, n*k), with n*k ≤ N and fewer than n frames left over;
- the renderer and the downloader agree on every file name;
- the node string the coordinator prints is parsed back by the renderer;
- the frames downloaded over all tasks are n*k distinct files, numbered 0..n*k-1.

Modules:

- `Wrappers` (wrappers.dfy): `Option` and `Result`.
- `Text` (text.dfy): the Python string built-ins the core relies on:
  - `str.split` and its inverse join;
  - `int()` on text (surrounding whitespace, sign, digits with single underscores);
  - `str(int)`;
  - the `{x:04d}` format.
- `Partition` (partition.dfy): truncation of a real to an int, N, k, the
  per-node spans, and the facts about how the spans tile the frames.
- `Lorenz` (lorenz.dfy): `run` up to and including its render loop,
  reduced to the index, frame value and history length of each iteration.
- `Dispatch` (dispatch.dfy): the coordinator's task list, command line,
  worker steps and engine timeout.

## Model

| member | source | states |
|---|---|---|
| Text.Split | lorenz.py:28 | `s.split(sep)` yields at least one piece and no piece holds the separator; further properties in JoinSplit, SplitJoin, SplitCount, SplitConcat |
| Text.JoinSplit | lorenz.py:28 | joining the pieces of `s.split(sep)` with `sep` gives back `s` |
| Text.SplitJoin | lorenz.py:28 | splitting the join of separator-free pieces gives back exactly those pieces |
| Text.SplitCount | lorenz.py:28 | `split` yields one more piece than there are separators |
| Text.SplitConcat | lorenz.py:28 | `a + sep + b` with no separator in `a` splits into `a` followed by the pieces of `b` |
| Text.StripLeftSpec | lorenz.py:28 | left stripping removes exactly the leading whitespace, leaving a suffix that starts with a non-space |
| Text.StripRightSpec | lorenz.py:28 | right stripping removes exactly the trailing whitespace, leaving a prefix that ends with a non-space |
| Text.ParseInt | lorenz.py:28 | `int()` succeeds only on text that is not blank after stripping |
| Text.IntToString | main.py:28 | `str(x)` is non-empty, all digits except an optional leading '-', and ends in a digit; properties in IntToStringRoundTrip |
| Text.IntToStringRoundTrip | main.py:28 | `int(str(x)) == x` for every integer, negative ones included |
| Text.Format04 | lorenz.py:83 | `f"{x:04d}"` is at least four characters long; properties in Format04RoundTrip, Format04Injective, Format04FourDigits |
| Text.Format04RoundTrip | lorenz.py:83 | `int(f"{x:04d}") == x` for every integer, negative ones included |
| Text.Format04Injective | lorenz.py:83 | distinct integers format to distinct `{:04d}` strings |
| Text.Format04FourDigits | lorenz.py:83 | indices 0..9999 format to exactly four digits |
| Partition.Trunc | lorenz.py:30 | `int(x)` truncates toward zero: `0 <= r <= x < r+1` for x ≥ 0, and `r-1 < x <= r <= 0` for x < 0 |
| Partition.TotalFrames | lorenz.py:30 | N = int(duration / time_delta); definition, properties in StepsFitFrames, ExactDivisionCovers, TrailingGap |
| Partition.StepCount | lorenz.py:29-33 | k = int((duration / num_nodes) / time_delta); definition, properties in StepsFitFrames, ExactDivisionCovers |
| Partition.NodeSpan | lorenz.py:32-33 | the span [k*(node_no-1), k*(node_no-1)+k); definition, properties in OwnerIff, SpansAdjacent, SpansDisjoint, SpansCoverPrefix |
| Partition.OwnerIff | lorenz.py:32-33 | frame t lies in node m's span [k*(m-1), k*(m-1)+k) if and only if m = t div k + 1 |
| Partition.SpansAdjacent | lorenz.py:32-33 | each span holds k frames, and node m's span ends where node m+1's begins |
| Partition.SpansDisjoint | lorenz.py:32-33 | no frame lies in the spans of two different nodes |
| Partition.SpansCoverPrefix | lorenz.py:32-33 | some node 1..n owns frame t if and only if 0 ≤ t < n*k |
| Partition.AllIndicesArePrefix | lorenz.py:32-33 | the spans of nodes 1..n, concatenated in node order, are exactly 0, 1, ..., n*k-1 |
| Partition.FloorDivBound | lorenz.py:29-33 | for x ≥ 0 and n ≥ 1, n*int(x/n) ≤ int(x) < n*int(x/n) + n |
| Partition.StepsFitFrames | lorenz.py:29-33 | for duration ≥ 0, n ≥ 1 and time_delta > 0: k ≥ 0, n*k ≤ N, and N - n*k < n |
| Partition.ExactDivisionCovers | lorenz.py:29-33 | when duration/time_delta is a whole number divisible by n, the last span ends exactly at N |
| Partition.TrailingGap | lorenz.py:30-33 | frames n*k ≤ t < N lie in no node's span |
| Partition.FourNodeExample | lorenz.py:27-33 | with the defaults (20 s, 0.01 s, 4 nodes): N = 2000, k = 500, spans [0,500), [500,1000), [1000,1500), [1500,2000) |
| Partition.ThreeNodeGapExample | lorenz.py:29-33 | with 3 nodes: k = 666, so frames 1998 and 1999 are never rendered |
| Lorenz.ParseNode | lorenz.py:28 | success means exactly one '/' in the node string; every failure is the ValueError |
| Lorenz.ParseNodeParts | lorenz.py:28 | `a/b` with no '/' in a or b parses to (int(a), int(b)) when both parse, and otherwise fails |
| Lorenz.PlanRun | lorenz.py:28-39 | a malformed node string is the ValueError; num_nodes = 0 or time_delta = 0 is the ZeroDivisionError; past those, it fails exactly when N < 0, with the ValueError of `np.linspace`; on success the plan holds the parsed pair, N and the span [k*(node_no-1), k*(node_no-1)+k) |
| Lorenz.Frames | lorenz.py:30 | `np.arange(1, N+1)`: N values 1..N in order, none when N ≤ 0 |
| Lorenz.Slice | lorenz.py:71 | `s[lo:hi]` is no longer than `s`, and is `s[lo..hi]` when 0 ≤ lo ≤ hi ≤ len(s) |
| Lorenz.FramePath | lorenz.py:83 | `f"{output_dir}/frame_{j:04d}.png"`; definition, properties in FramePathInjective |
| Lorenz.RenderSchedule | lorenz.py:69-84 | the iterations of the render loop, one per element of `frames[t0:t1]`; definition, properties in RenderScheduleOfSpan, RenderScheduleInRange, RenderScheduleDistinct |
| Lorenz.RenderStep | lorenz.py:71-84 | the p-th iteration: index t0+p, frame value and history length (2*i) mod N; definition, used by RenderSchedule and RenderFrames |
| Lorenz.FramePathInjective | lorenz.py:83 | in one output directory, distinct indices give distinct file names |
| Lorenz.RenderFrames | lorenz.py:69-84 | the loop records, for the p-th frame i of `frames[t0:t1]`, index j = t0+p and history length (2*i) mod N |
| Lorenz.Run | lorenz.py:27-84 | `run` fails with the error of its checks, or renders exactly the render schedule of its plan |
| Lorenz.PlanRunSucceeds | lorenz.py:28-39 | for node 1..n, time_delta > 0 and duration ≥ 0, the checks pass and 0 ≤ t0 ≤ t1 ≤ N |
| Lorenz.RenderScheduleOfSpan | lorenz.py:69-84 | for a span inside [0, N), the loop runs once per index of the span, in order, with frame value j+1 and history length (2*(j+1)) mod N, which lies in [0, N) |
| Lorenz.RenderScheduleInRange | lorenz.py:28-84 | for a valid node: exactly k iterations, for j = k*(node_no-1)+p, with frame j+1 and history length (2*(j+1)) mod N in [0, N) |
| Lorenz.RenderScheduleDistinct | lorenz.py:69-84 | within one run, indices strictly increase and no file name repeats |
| Dispatch.TaskData | main.py:56 | definition of the task list; there are max(n, 0) tasks, and its contents are stated by TaskDataExactlyOnce |
| Dispatch.TaskDataExactlyOnce | main.py:56 | task data run over exactly 1..n, in increasing order, each once |
| Dispatch.EngineTimeoutMinutes | main.py:43-52 | for a non-negative node count the engine timeout is at least the 10-minute overhead |
| Dispatch.TimeoutPerNode | main.py:43-52 | with no node the timeout is the 10-minute overhead, and each further node adds exactly two minutes |
| Dispatch.TimeoutCoversTasks | main.py:43-56 | the timeout is the 10-minute overhead plus two minutes for each task in the engine's task list |
| Dispatch.NodeString | main.py:28 | the `-n` value `f"{node_no}/{num_nodes}"`; definition, properties in NodeStringRoundTrip |
| Dispatch.CommandWords | main.py:28 | the words of the command line, the last one empty after the trailing space; definition, properties in CommandArguments, CommandWordsNoSpace |
| Dispatch.Command | main.py:28 | the words joined with single spaces; definition, properties in CommandSplits |
| Dispatch.NodeStringRoundTrip | main.py:28 | the renderer parses the `-n` value `f"{node_no}/{num_nodes}"` back to (node_no, num_nodes) |
| Dispatch.CommandArguments | main.py:28 | the words after -d, -n and -m parse back to the duration, the node pair and the trajectory count |
| Dispatch.CommandWordsNoSpace | main.py:28 | when the printed time step holds no space, no word of the command does |
| Dispatch.CommandSplits | main.py:28-30 | split on spaces, the command gives back its words; this stands in for `sh -c`'s field splitting of blank-free words, which also drops the empty last word, so the renderer's argv is `CommandWords` without its last word |
| Dispatch.RemoteFrame | main.py:37 | `f"/golem/output/frame_{t:04d}.png"`; definition, properties in FrameNamesAgree, FrameIsNotLog |
| Dispatch.LocalFrame | main.py:37 | `f"output/frame_{t:04d}.png"`; definition, properties in FrameNamesAgree, LocalFrameInjective |
| Dispatch.DownloadFrame | main.py:37 | the download of frame t from its remote to its local name; definition, properties in DownloadsNameFiles |
| Dispatch.ShellArgs | main.py:30 | `("sh", "-c", f"{cmd} >> /golem/output/log.txt 2>&1")`; definition, used by Preamble |
| Dispatch.Preamble | main.py:27-31 | upload of the renderer, the shell command and the log download, in that order; definition, used by Worker |
| Dispatch.TaskSpan | main.py:32-35 | the span [t0, t1) the worker computes for node_no; definition, properties in DownloadsMatchRenderer, TasksDownloadDisjoint |
| Dispatch.FrameNamesAgree | main.py:37 | the remote name is the renderer's `FramePath("/golem/output", t)`; the local name is `FramePath("output", t)` and equals the remote name without "/golem/" |
| Dispatch.LocalFrameInjective | main.py:37 | distinct indices are stored under distinct local names |
| Dispatch.FrameIsNotLog | main.py:31-37 | no frame download reads the remote log or overwrites the local log |
| Dispatch.DownloadsExtend | main.py:36-37 | one more loop iteration appends exactly the download of index t |
| Dispatch.QueueFrameDownloads | main.py:36-37 | the loop appends the downloads of t0, ..., t1-1 in order, and nothing when t1 ≤ t0 |
| Dispatch.Worker | main.py:24-38 | the worker fails exactly when time_delta = 0; otherwise it queues the upload, the shell command, the log download, then the frames of its own span in order |
| Dispatch.DownloadsNameFiles | main.py:37 | the p-th download fetches the renderer's file for the p-th index into the local file of the same index |
| Dispatch.DownloadsMatchPlan | main.py:32-37 | for a plan whose span is that of task node_no, the downloads line up one-to-one, in order, with the files the loop writes |
| Dispatch.DownloadsMatchRenderer | main.py:26-37 | for task 1..n with time_delta > 0 and duration ≥ 0, the renderer run with that task's `-n` value succeeds, and that task downloads exactly the files it writes, in order |
| Dispatch.AllDownloads | main.py:56 | the frame downloads of tasks 1..m, concatenated in task order; definition, properties in AllDownloadsByIndex, AllDownloadsDistinct |
| Dispatch.AllDownloadsByIndex | main.py:56 | the frame downloads of tasks 1..m, concatenated, are the downloads of the concatenated spans |
| Dispatch.AllDownloadsDistinct | main.py:56 | over all tasks, n*k ≤ N frames are downloaded; the t-th is frame t; no local name repeats |
| Dispatch.TasksDownloadDisjoint | main.py:32-37 | two different tasks never download to the same local name |

## Left out

- The ODE integration (`odeint`), the random starting points, the trajectory data and `num_trajectories` beyond the command line: the model keeps only the index and the history length each iteration draws.
- Drawing with matplotlib, the camera azimuth, and saving the image: an iteration records its index j, and the file it writes is `FramePath(output_dir, j)`.
- The yapapi engine: package lookup, provider selection, the budget, asynchrony, retries, `commit`, `accept_task` and the summary logger. A worker is reduced to the list of steps it queues; `TaskData` and the timeout are modelled as values.
- The ffmpeg call that joins the frames, argument parsing and all printing.
- Floating point: `duration / num_nodes` and `/ time_delta` are exact real divisions, so IEEE-754 rounding is not modelled. For the defaults it makes no difference (20 / 0.01 rounds to exactly 2000.0 and 5 / 0.01 to 500.0), but 7 / 0.07 evaluates to 99.99999999999999, so Python's N is 99 where the model's is 100. Under floats the bound n*k ≤ N of `Partition.StepsFitFrames` can fail: with 21 s, 0.07 s and 5 nodes the float N is 299 while k is 60, so n*k = 300 and task 5 would download `frame_0299.png`, which is never written. With the coordinator's fixed 4 nodes the division by the node count is exact. A further consequence is that `int()` of an infinite or NaN quotient cannot occur.
- How Python prints the float `time_delta` into the command line: `Job.timeDeltaText` carries that text as a parameter, and the renderer's float parsing of `-l` is not modelled.
- `int()` on text: Unicode digits and non-ASCII whitespace are not accepted. Around the numeral the model skips exactly the ASCII whitespace `int()` skips on an all-ASCII string: space, tab, line feed, vertical tab, form feed and carriage return. The control characters 0x1C-0x1F, which `str.strip()` would remove, are rejected as `int()` rejects them.
- The errors that depend on `num_trajectories`: a negative count makes `np.random.random` raise (lorenz.py:36). A zero count leaves `x_t` without a second axis, so the loop raises at `x_t.shape[1]` (lorenz.py:72). How `odeint` treats an empty time grid is not modelled either.
- Lorenz.RenderFrames: the loop's print of t0, t1 and the frame shape is omitted; the history length is computed from the number of samples N, which is what `x_t.shape[1]` equals.
- Dispatch.Worker: when time_delta is 0 the source raises after queueing the first three steps; the model returns the error without them, since nothing is committed.
- Dispatch.CommandArguments: the flag words themselves (-d, -n, -m, -l) and the time-step word are fixed by `CommandWords` and are not restated in the contract.
- Running several tasks on one provider and the order in which the engine completes tasks: the cross-task lemmas are about the set of files, not timing.
