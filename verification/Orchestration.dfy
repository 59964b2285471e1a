/** The driver in `main` (main.cpp:58-185), as run by rank `iRank`: rank 0
    initialises the database, then every timestep computes, gathers and, on
    rank 0, writes the combined snapshot; the first call that reports status
    0 ends the run with exit code 1. */
module Orchestration {
  import opened Decomposition
  import opened FieldSampler
  import opened Assembly
  import opened PostProcessing

  /** The status-returning calls `main` makes, and the gather between them. */
  datatype Step =
    | InitStep
    | ComputeStep(t: int)
    | GatherStep(t: int)
    | WriteStep(t: int)

  /** `main` tests the status of every call except the gather's. */
  predicate Checked(s: Step)
  {
    !s.GatherStep?
  }

  /** The calls of timestep `t` on rank `iRank`, in order (main.cpp:129-171). */
  function TimestepSteps(iRank: nat, t: int): seq<Step>
  {
    [ComputeStep(t), GatherStep(t)] + (if iRank == 0 then [WriteStep(t)] else [])
  }

  /** Number of calls before the first timestep: rank 0 initialises (main.cpp:93-107). */
  function Prologue(iRank: nat): seq<Step>
  {
    if iRank == 0 then [InitStep] else []
  }

  /** Every call rank `iRank` makes when nothing fails, for timesteps `0 .. n-1`. */
  function Plan(iRank: nat, n: nat): seq<Step>
  {
    if n == 0 then Prologue(iRank) else Plan(iRank, n - 1) + TimestepSteps(iRank, n - 1)
  }

  /** Timestep `t`'s calls sit at offset `|Prologue| + t * |TimestepSteps|`
      of the plan: timesteps run in increasing order, each one compute, then
      gather, then (rank 0 only) the combined write. */
  lemma {:induction false} PlanTimestep(iRank: nat, n: nat, t: nat)
    requires t < n
    ensures var start := |Prologue(iRank)| + t * |TimestepSteps(iRank, t)|;
      && |Plan(iRank, n)| == |Prologue(iRank)| + n * |TimestepSteps(iRank, t)|
      && start + |TimestepSteps(iRank, t)| <= |Plan(iRank, n)|
      && Plan(iRank, n)[start..start + |TimestepSteps(iRank, t)|] == TimestepSteps(iRank, t)
  {
    var w := |TimestepSteps(iRank, t)|;
    PlanLength(iRank, n - 1);
    assert |TimestepSteps(iRank, n - 1)| == w;
    assert n * w == (n - 1) * w + w;
    if t < n - 1 {
      PlanTimestep(iRank, n - 1, t);
      var start := |Prologue(iRank)| + t * w;
      assert Plan(iRank, n)[start..start + w] == Plan(iRank, n - 1)[start..start + w];
    }
  }

  lemma {:induction false} PlanLength(iRank: nat, n: nat)
    ensures |Plan(iRank, n)| == |Prologue(iRank)| + n * |TimestepSteps(iRank, 0)|
  {
    if n > 0 {
      PlanLength(iRank, n - 1);
      assert |TimestepSteps(iRank, n - 1)| == |TimestepSteps(iRank, 0)|;
      assert n * |TimestepSteps(iRank, 0)| == (n - 1) * |TimestepSteps(iRank, 0)| + |TimestepSteps(iRank, 0)|;
    }
  }

  /** Index of the first checked call whose status is 0, or `|steps|` if none. */
  function FirstFailure(steps: seq<Step>, status: Step -> int): (k: nat)
    ensures k <= |steps|
    ensures forall i :: 0 <= i < k ==> !(Checked(steps[i]) && status(steps[i]) == 0)
    ensures k < |steps| ==> Checked(steps[k]) && status(steps[k]) == 0
  {
    if |steps| == 0 then 0
    else if Checked(steps[0]) && status(steps[0]) == 0 then 0
    else 1 + FirstFailure(steps[1..], status)
  }

  /** A failure in a prefix is the failure of the whole; a prefix without
      failure shifts the search to the rest. */
  lemma {:induction false} FirstFailureAppend(a: seq<Step>, b: seq<Step>, status: Step -> int)
    ensures FirstFailure(a + b, status)
         == if FirstFailure(a, status) < |a| then FirstFailure(a, status) else |a| + FirstFailure(b, status)
  {
    if |a| > 0 {
      assert (a + b)[1..] == a[1..] + b;
      FirstFailureAppend(a[1..], b, status);
    } else {
      assert a + b == b;
    }
  }

  /** A shorter plan is a prefix of a longer one. */
  lemma {:induction false} PlanPrefix(iRank: nat, m: nat, n: nat)
    requires m <= n
    ensures |Plan(iRank, m)| <= |Plan(iRank, n)| && Plan(iRank, n)[..|Plan(iRank, m)|] == Plan(iRank, m)
  {
    if m < n {
      PlanPrefix(iRank, m, n - 1);
    }
  }

  /** Stopping after call `i` of the plan, when `i` is the first failure,
      is the outcome of a failed run. */
  lemma OutcomeOnFailure(iRank: nat, nTimesteps: int, status: Step -> int, trace: seq<Step>, i: nat)
    requires var plan := Plan(iRank, if nTimesteps < 0 then 0 else nTimesteps);
      && i < |plan| && i <= FirstFailure(plan, status)
      && Checked(plan[i]) && status(plan[i]) == 0
      && |trace| == i + 1 && trace[..i] == plan[..i] && trace[i] == plan[i]
    ensures RunOutcome(iRank, nTimesteps, status, 1, trace)
  {
    var plan := Plan(iRank, if nTimesteps < 0 then 0 else nTimesteps);
    assert trace == plan[..i + 1];
  }

  /** A failing call at or before the first failure is the first failure. */
  lemma FailsAt(steps: seq<Step>, status: Step -> int, i: nat)
    requires i < |steps| && i <= FirstFailure(steps, status)
    requires Checked(steps[i]) && status(steps[i]) == 0
    ensures FirstFailure(steps, status) == i
  {
  }

  /** A call at or before the first failure that does not fail lies before it. */
  lemma PassesAt(steps: seq<Step>, status: Step -> int, i: nat)
    requires i < |steps| && i <= FirstFailure(steps, status)
    requires !(Checked(steps[i]) && status(steps[i]) == 0)
    ensures i < FirstFailure(steps, status)
  {
  }

  /** The run's outcome in terms of the plan: with `k` the first failing
      call, the run makes exactly the calls up to and including `k` and
      exits with 1; without failure it makes every call and exits with 0. */
  ghost predicate RunOutcome(iRank: nat, nTimesteps: int, status: Step -> int, exitCode: int, trace: seq<Step>)
  {
    var plan := Plan(iRank, if nTimesteps < 0 then 0 else nTimesteps);
    var k := FirstFailure(plan, status);
    if k < |plan| then exitCode == 1 && trace == plan[..k + 1] else exitCode == 0 && trace == plan
  }

  /** One iteration of `main`'s timestep loop on rank `iRank`
      (main.cpp:127-171): compute, gather and, on rank 0, the combined write,
      stopping at the first call whose status is 0. */
  method RunTimestep(iRank: nat, t: int, status: Step -> int) returns (failed: bool, calls: seq<Step>)
    ensures var w := TimestepSteps(iRank, t);
      && failed == (FirstFailure(w, status) < |w|)
      && calls == if failed then w[..FirstFailure(w, status) + 1] else w
  {
    ghost var w := TimestepSteps(iRank, t);
    calls := [ComputeStep(t)];
    if status(ComputeStep(t)) == 0 {
      FailsAt(w, status, 0);
      return true, calls;
    }
    PassesAt(w, status, 0);
    PassesAt(w, status, 1);
    calls := calls + [GatherStep(t)];
    if iRank == 0 {
      calls := calls + [WriteStep(t)];
      if status(WriteStep(t)) == 0 {
        FailsAt(w, status, 2);
        return true, calls;
      }
      PassesAt(w, status, 2);
    }
    failed := false;
  }

  /** The control flow of `main` after argument parsing (main.cpp:90-185).
      `status(s)` is what call `s` returns; the calls are made in plan order
      and the first status 0 returns 1 at once, skipping every later call and
      timestep. Falling off the end of `main` returns 0. */
  method RunMain(iRank: nat, nTimesteps: int, status: Step -> int) returns (exitCode: int, trace: seq<Step>)
    ensures RunOutcome(iRank, nTimesteps, status, exitCode, trace)
  {
    var n: nat := if nTimesteps < 0 then 0 else nTimesteps;
    ghost var plan := Plan(iRank, n);
    PlanPrefix(iRank, 0, n);
    trace := [];
    if iRank == 0 {
      trace := [InitStep];
      if status(InitStep) == 0 {
        OutcomeOnFailure(iRank, nTimesteps, status, trace, 0);
        return 1, trace;
      }
    }
    assert FirstFailure(trace, status) == |trace|;
    var t := 0;
    while t < nTimesteps
      invariant 0 <= t <= n
      invariant trace == Plan(iRank, t)
      invariant FirstFailure(trace, status) == |trace|
    {
      var failed, calls := RunTimestep(iRank, t, status);
      TimestepOutcome(iRank, t, n, status);
      trace := trace + calls;
      if failed {
        OutcomeAfterTimestep(iRank, nTimesteps, t, status, trace);
        return 1, trace;
      }
      t := t + 1;
    }
    exitCode := 0;
  }

  /** How the first failure of the plan relates to that of timestep `t`
      when the first `t` timesteps did not fail. */
  lemma TimestepOutcome(iRank: nat, t: nat, n: nat, status: Step -> int)
    requires t < n && FirstFailure(Plan(iRank, t), status) == |Plan(iRank, t)|
    ensures var p, w := Plan(iRank, t), TimestepSteps(iRank, t);
      FirstFailure(Plan(iRank, t + 1), status) == |p| + FirstFailure(w, status)
  {
    FirstFailureAppend(Plan(iRank, t), TimestepSteps(iRank, t), status);
  }

  /** A failure within the first `m` calls is the first failure of all of them. */
  lemma FailureInPrefix(steps: seq<Step>, m: nat, status: Step -> int)
    requires m <= |steps| && FirstFailure(steps[..m], status) < m
    ensures var k := FirstFailure(steps[..m], status);
      FirstFailure(steps, status) == k && steps[..k + 1] == steps[..m][..k + 1]
  {
    FirstFailureAppend(steps[..m], steps[m..], status);
    assert steps == steps[..m] + steps[m..];
  }

  /** A run that stops inside timestep `t` at the first failing call there,
      after failure-free earlier timesteps, has the outcome of a failed run. */
  lemma OutcomeAfterTimestep(iRank: nat, nTimesteps: int, t: nat, status: Step -> int, trace: seq<Step>)
    requires t < nTimesteps
    requires var p, w := Plan(iRank, t), TimestepSteps(iRank, t);
      && FirstFailure(Plan(iRank, t + 1), status) == |p| + FirstFailure(w, status)
      && FirstFailure(w, status) < |w|
      && trace == p + w[..FirstFailure(w, status) + 1]
    ensures RunOutcome(iRank, nTimesteps, status, 1, trace)
  {
    var n: nat := nTimesteps;
    var q := Plan(iRank, t + 1);
    PlanPrefix(iRank, t + 1, n);
    var p, w := Plan(iRank, t), TimestepSteps(iRank, t);
    var j := FirstFailure(w, status);
    assert q == p + w;
    assert q[..|p| + j + 1] == p + w[..j + 1];
    FailureInPrefix(Plan(iRank, n), |q|, status);
  }

  /** In this source `init`, `compute` and `processCombinedData` always
      return 1, so every run makes every planned call and exits with 0. */
  lemma SourceRunsEveryTimestep(iRank: nat, nTimesteps: int, exitCode: int, trace: seq<Step>)
    requires RunOutcome(iRank, nTimesteps, s => 1, exitCode, trace)
    ensures exitCode == 0 && trace == Plan(iRank, if nTimesteps < 0 then 0 else nTimesteps)
  {
  }

  /** One timestep of the whole job, as rank 0 sees its end (main.cpp:109-171):
      every rank `r` runs `compute` on its own buffer of `nRankValues` values,
      the gather concatenates the buffers in rank order, and rank 0 hands the
      result to `processCombinedData`. The combined frame is the global
      row-major sample of the lowest `nRanks * rankDimZ` layers. */
  method Timestep(noise: Noise, dim: nat, nRanks: nat, t: int, outputPath: string)
    returns (combined: seq<real>, write: Effect)
    requires nRanks > 0
    ensures combined == Sampled(noise, dim, 0, nRanks * RankDimZ(dim, nRanks), t)
    ensures |combined| == CombinedValueCount(dim, nRanks)
    ensures write == ProcessCombinedData(combined, 1, CombinedValueCount(dim, nRanks), dim, t, outputPath)
  {
    var rankDimZ := dim / nRanks;
    var nRankValues := dim * dim * rankDimZ;
    var nCombinedValues := nRankValues * nRanks;
    ghost var expected := RankFrames(noise, dim, nRanks, rankDimZ, t);
    var frames: seq<seq<real>> := [];
    for r := 0 to nRanks
      invariant |frames| == r
      invariant forall i :: 0 <= i < r ==> frames[i] == expected[i]
    {
      var rankData := new real[nRankValues];
      var status := Compute(rankData, r, dim, rankDimZ, t, noise);
      // `compute` always reports success, so the abort at main.cpp:136-139 never fires.
      assert status == 1;
      frames := frames + [rankData[..]];
    }
    assert frames == expected;
    combined := Gather(frames);
    GatheredFrameIsGlobalLayout(noise, dim, nRanks, rankDimZ, t);
    assert |combined| == nCombinedValues by {
      assert nCombinedValues == dim * dim * (nRanks * rankDimZ);
    }
    write := ProcessCombinedData(combined, 1, nCombinedValues, dim, t, outputPath);
  }

  /** What rank 0 writes at timestep `t`: one snapshot tagged `Time,<t>` at
      origin `(0, 0, 0)` declared as a `dim`-cube, whose `Field` array is the
      gathered frame. The array has as many values as the cube has points
      exactly when `nRanks` divides `dim` (main.cpp:159-166). */
  lemma CombinedSnapshotOfTimestep(noise: Noise, dim: nat, nRanks: nat, t: int, outputPath: string)
    requires nRanks > 0
    ensures var combined := Gather(RankFrames(noise, dim, nRanks, RankDimZ(dim, nRanks), t));
      && |combined| == CombinedValueCount(dim, nRanks)
      && var s := ProcessCombinedData(combined, 1, CombinedValueCount(dim, nRanks), dim, t, outputPath).calls[0].snapshot;
      && s.values == combined
      && s.tag == "Time," + Decimal(t)
      && s.image.origin == Triple(0, 0, 0)
      && PointCount(s.image) == dim * dim * dim
      && (|s.values| == PointCount(s.image) <==> dim % nRanks == 0)
  {
    var d := RankDimZ(dim, nRanks);
    GatheredFrameIsGlobalLayout(noise, dim, nRanks, d, t);
    assert dim * dim * (nRanks * d) == CombinedValueCount(dim, nRanks);
    CombinedCountVersusCube(dim, nRanks);
  }
}
