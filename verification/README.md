# mpi-post-processing, modelled in Dafny

`mpi-post-processing` is a proxy for an MPI simulation with in-situ post
processing:

- Every rank owns a slab of Z layers of a `dim`³ volume.
- At every timestep each rank fills its slab buffer with samples of a noise field (`compute`).
- `MPI_Gather` concatenates the slab buffers on rank 0.
- Rank 0 hands the combined frame to a Cinema database writer, which records one image snapshot per timestep.

This project models that core and proves its properties:

- `Arith`: division and remainder facts used by the index arithmetic (helpers).
- `Decomposition`: `rankDimZ = dim / nRanks` and the slab of each rank, as half-open layer ranges. It also holds the flat row-major index of a point in a slab buffer and its inverse.
- `FieldSampler`: `compute`, as a method with a triple `for` loop that fills an `array<real>` in place. It is proved against the function `Sampled`, which gives the sample of every point at its own offset.
- `Assembly`: the gather, as concatenation of the rank buffers in rank order. The gathered frame is proved to be the global row-major layout of the lowest `nRanks * rankDimZ` layers. Its length is compared with the `dim`³ cube.
- `PostProcessing`: the descriptors that `init`, `processRankData` and `processCombinedData` hand to the writer:
  - the writer calls, in order;
  - the image origin and extent;
  - the array name `Field` and the array payload;
  - the metadata tag strings, written with a model of `std::to_string`;
  - compression level 9 and the returned status.
- `Orchestration`: `main`'s control flow from the moment the arguments are parsed. Rank 0 initialises; every timestep computes, gathers and, on rank 0, writes. The first call that reports status 0 ends the run with exit code 1. Also here: one whole timestep of the job as rank 0 ends it.

Conventions:

- The noise generator is a parameter `noise(x, y, z, t)`. Scalars are `real`.
- The status each call returns is a parameter of `RunMain`, a function from call to status. In this source every callee returns 1; `SourceRunsEveryTimestep` states what that means for a run.

## Model

| member | source | states |
|---|---|---|
| Decomposition.RankDimZ | main.cpp:82 | the layers per rank are the largest `d` with `d * nRanks <= dim` (floor division) |
| Decomposition.SlabStart | main.cpp:20 | first layer of rank `iRank`'s slab, `rankDimZ * iRank` |
| Decomposition.SlabEnd | main.cpp:21 | one past the last layer of the slab, `SlabStart + rankDimZ` |
| Decomposition.InSlab | main.cpp:30 | layer `z` lies in `[SlabStart, SlabEnd)`, the range the inner loop runs over |
| Decomposition.SlabsAdjacent | main.cpp:20-21 | rank `i`'s slab ends exactly where rank `i + 1`'s begins |
| Decomposition.SlabsOrdered | main.cpp:20-21 | a lower rank's slab lies wholly below a higher rank's |
| Decomposition.SlabsDisjoint | main.cpp:20-21 | slabs of distinct ranks share no layer |
| Decomposition.SlabOwner | main.cpp:20-21 | every layer `z >= 0` belongs to a slab, and to exactly one |
| Decomposition.SlabsCover | main.cpp:20-21 | some rank below `nRanks` owns layer `z` if and only if `0 <= z < nRanks * rankDimZ` |
| Decomposition.RemainderLayersDropped | main.cpp:82 | the sampled layers stop at `dim - dim % nRanks`; a layer of the volume is sampled if and only if it lies below that |
| Decomposition.SlabLayers | main.cpp:30 | the inner loop visits `rankDimZ` layers, all inside the rank's slab |
| Decomposition.LayersInRankOrderAreRange | main.cpp:20-21 | the slabs taken in rank order list `0, 1, …, nRanks * rankDimZ - 1`, each layer once and in order |
| Decomposition.LocalIndex | main.cpp:31 | offset `(z - z0)*dim*dim + y*dim + x` of point `(x, y, z)` in a slab buffer starting at layer `z0` |
| Decomposition.LocalPoint | main.cpp:31 | the inverse decoding: offset `idx` holds point `(idx % dim, (idx / dim) % dim, z0 + idx / (dim*dim))` |
| Decomposition.LocalIndexInBounds | main.cpp:31 | the offset of every point of the slab lies in `[0, dim * dim * rankDimZ)`, the buffer length |
| Decomposition.LocalPointOfIndex | main.cpp:31 | decoding a point's offset gives the point back, so distinct points get distinct offsets |
| Decomposition.LocalIndexOfPoint | main.cpp:31 | every buffer offset is the offset of a point of the slab, so the index map is onto the buffer |
| FieldSampler.Sampled | main.cpp:28-37 | the specification of a filled buffer has `dim * dim * depth` values |
| FieldSampler.SampledAtPoint | main.cpp:31-36 | in `Sampled`, each point's offset holds that point's noise value |
| FieldSampler.HoldsSamplesIsSampled | main.cpp:28-39 | a buffer of the right length holding every point's sample at its offset equals `Sampled`; nothing else remains in it |
| FieldSampler.Compute | main.cpp:11-42 | returns 1, and afterwards the buffer is exactly the sample of the rank's slab, whatever it held before |
| Assembly.Gather | main.cpp:146-155 | the receive buffer of the gather: the rank buffers concatenated in rank order |
| Assembly.RankValueCount | main.cpp:109 | `nRankValues = dim*dim*rankDimZ` |
| Assembly.CombinedValueCount | main.cpp:110 | `nCombinedValues = nRankValues*nRanks` with `rankDimZ = dim / nRanks` |
| Assembly.GatherLength | main.cpp:146-155 | gathering `nRanks` buffers of `n` values yields `nRanks * n` values |
| Assembly.GatherAt | main.cpp:146-155 | value `k` of rank `r`'s buffer lands at offset `r * n + k` of the receive buffer |
| Assembly.RankFrames | main.cpp:129-135 | one buffer per rank, each of `nRankValues` values |
| Assembly.CombinedCountIsLayers | main.cpp:110 | `nCombinedValues` is `dim * dim` values per sampled layer |
| Assembly.CombinedCountDeficit | main.cpp:109-110 | `nCombinedValues` falls short of `dim`³ by `dim % nRanks` layers of `dim * dim` values |
| Assembly.CombinedCountVersusCube | main.cpp:109-110 | `nCombinedValues <= dim`³, with equality if and only if `nRanks` divides `dim` |
| Assembly.SampledSplit | main.cpp:28-37 | the sample of `a + b` layers is the sample of the lower `a` followed by that of the upper `b` |
| Assembly.GatheredFrameIsGlobalLayout | main.cpp:146-155 | the gathered buffers are the global row-major sample of layers `[0, nRanks * rankDimZ)` |
| Assembly.CombinedOffsetOfPoint | main.cpp:146-155 | after the gather, point `(x, y, z)` of a sampled layer sits at offset `z*dim*dim + y*dim + x` and holds its own noise value |
| PostProcessing.DigitChar | PostProcessing.cpp:67 | each digit is written as the character of its value |
| PostProcessing.Digits | PostProcessing.cpp:67 | non-empty, only digits, no leading zero except for 0 itself |
| PostProcessing.DigitsRoundTrip | PostProcessing.cpp:67 | reading the written digits back gives the number |
| PostProcessing.Decimal | PostProcessing.cpp:67 | non-empty; digits only, except a leading `-`, which is there if and only if the value is negative |
| PostProcessing.DecimalRoundTrip | PostProcessing.cpp:67-68 | the written integer reads back to itself, negative values included |
| PostProcessing.DecimalInjective | PostProcessing.cpp:67-68 | distinct integers are written as distinct strings |
| PostProcessing.RankTag | PostProcessing.cpp:66-69 | the per-rank tag `"Rank," + to_string(iRank) + "\n" + "Time," + to_string(time) + "\n"` |
| PostProcessing.CombinedTag | PostProcessing.cpp:112-114 | the combined tag starts with `Time,` and holds no newline |
| PostProcessing.RankTagRows | PostProcessing.cpp:66-69 | the per-rank tag is two newline-terminated rows, `Rank,<i>` then `Time,<t>`, neither containing a newline |
| PostProcessing.RankTagInjective | PostProcessing.cpp:66-69 | equal per-rank tags have equal rank and equal timestep |
| PostProcessing.CombinedTagInjective | PostProcessing.cpp:112-114 | equal combined tags have equal timestep |
| PostProcessing.RankTagIsNotCombinedTag | PostProcessing.cpp:112-114 | no per-rank tag equals a combined tag |
| PostProcessing.ImageWithDimensions | PostProcessing.cpp:96 | an image given by dimensions has their product as its point count, with negative dimensions counting as 0 |
| PostProcessing.RankImage | PostProcessing.cpp:41-50 | the per-rank image as written: origin `(0, 0, iRank*(rankDimZ-1))`, extent `[0, dim-1] x [0, dim-1] x [0, rankDimZ-1]` |
| PostProcessing.RankImagePointCount | PostProcessing.cpp:46-50 | the per-rank image has `dim * dim * rankDimZ` points, one per slab buffer value |
| PostProcessing.RankImageLagsSlab | PostProcessing.cpp:41-45 | as written, the per-rank image covers layer `z` if and only if layer `z + iRank` is in the rank's slab; its origin differs from the slab start whenever `iRank > 0`; for rank 1 with 2 layers the image covers layer 1, which rank 1 never sampled |
| PostProcessing.SlabAlignedRankImage | PostProcessing.cpp:41-45 | corrected per-rank image: its origin is the slab start |
| PostProcessing.SlabAlignedRankImageCoversSlab | PostProcessing.cpp:41-50 | the corrected image covers exactly the rank's slab and has one point per buffer value |
| PostProcessing.CombinedImage | PostProcessing.cpp:95-96 | origin `(0, 0, 0)`; for `dim >= 0` it has `dim`³ points; it covers layer `z` if and only if `0 <= z < dim` |
| PostProcessing.FieldName | PostProcessing.cpp:54 | the array name `"Field"`, used by both write paths (also PostProcessing.cpp:100) |
| PostProcessing.CompressionLevel | PostProcessing.cpp:74 | compression level 9, used by both write paths (also PostProcessing.cpp:119) |
| PostProcessing.Init | PostProcessing.cpp:10-26 | returns 1 after exactly two calls, both on the given path; the database delete precedes the lockfile creation; both happen; no snapshot is written |
| PostProcessing.ArrayValues | PostProcessing.cpp:55-59 | the array wraps the first `nTuples * nComponents` values of the caller's buffer, unchanged |
| PostProcessing.ProcessRankData | PostProcessing.cpp:28-80 | returns 1 after exactly one snapshot write to the path, holding the per-rank image, the array `Field`, the caller's values, the tag `Rank,<i>\nTime,<t>\n` and compression 9 |
| PostProcessing.ProcessCombinedData | PostProcessing.cpp:82-125 | returns 1 after exactly one snapshot write to the path, holding the `dim`³ image at the origin, the array `Field`, the caller's values, the tag `Time,<t>` and compression 9 |
| PostProcessing.SnapshotMetadataDistinct | PostProcessing.cpp:66-69 | snapshots written for distinct ranks or timesteps never carry the same metadata, and per-rank and combined snapshots never do |
| Orchestration.Prologue | main.cpp:93-107 | the calls before the first timestep: `init` on rank 0, nothing on other ranks |
| Orchestration.TimestepSteps | main.cpp:129-171 | the calls of timestep `t`: compute, gather, then the combined write on rank 0 only |
| Orchestration.Plan | main.cpp:127-171 | every call of a run without failure: the prologue, then timesteps `0 .. n-1` in order |
| Orchestration.PlanTimestep | main.cpp:127-171 | in the plan, timestep `t`'s calls (compute, gather, then the write on rank 0) sit right after the prologue and the `t` earlier timesteps |
| Orchestration.PlanLength | main.cpp:127-171 | the plan is the prologue plus one equal-sized block of calls per timestep |
| Orchestration.FirstFailure | main.cpp:136-139 | the first checked call with status 0: every checked call before it passes, and it fails |
| Orchestration.FirstFailureAppend | main.cpp:127-171 | a failure in an earlier part of the run is the run's first failure; otherwise the search goes on in the later part |
| Orchestration.OutcomeOnFailure | main.cpp:103-106 | stopping right after the first failing call is the outcome of a failed run |
| Orchestration.RunTimestep | main.cpp:127-171 | one timestep makes its calls in order up to and including the first failing one, and reports whether one failed |
| Orchestration.RunMain | main.cpp:90-185 | the run makes exactly the planned calls up to the first failure and exits with 1; without a failure it makes all of them and exits with 0 |
| Orchestration.SourceRunsEveryTimestep | main.cpp:127-171 | with every callee returning 1, the run makes every planned call for every timestep and exits with 0 |
| Orchestration.Timestep | main.cpp:109-171 | one timestep of the job: the combined frame is the global sample of the sampled layers, it has `nCombinedValues` values, and rank 0 writes exactly it |
| Orchestration.CombinedSnapshotOfTimestep | main.cpp:159-166 | rank 0's snapshot holds the gathered frame with tag `Time,<t>` at the origin as a `dim`³ cube; the values fill the cube if and only if `nRanks` divides `dim` |

## Left out

- The noise generator `PerlinNoise` and the double-precision scaling of coordinates (main.cpp:23-36) are not modelled; `noise(x, y, z, t)` stands for the value written at grid point `(x, y, z)` and timestep `t`. The values are `real`, not `float`.
- The MPI runtime is not modelled: `MPI_Init`, `MPI_Comm_size`/`MPI_Comm_rank`, `MPI_Barrier`, `MPI_Finalize`, and the blocking, concurrent semantics of `MPI_Gather`. Only the gather's result is kept: the rank buffers concatenated in rank order.
- Orchestration.Timestep runs the ranks' `compute` calls one after another on one machine. The concurrency of the ranks is not modelled.
- The VTK and TTK objects are not modelled: `vtkImageData`, `vtkFloatArray`, `ttkArrayEditor`, and `ttkCinemaWriter`'s on-disk format, `SetFormat(VTK)`, lockfile handling and compression. Only the descriptor values handed to them are modelled. `SetVoidArray`'s "do not free" flag is not modelled either.
- `ttk::globalDebugLevel_ = 3` (PostProcessing.cpp:91) is ambient library state, so it is not modelled.
- `writeToDisk` (main.cpp:44-56) is raw file output whose only call is commented out, so it is not modelled.
- Console output, the `argc != 4` check that returns 0, and `std::stoi` parsing (main.cpp:67-98) are not modelled. `dim` is taken as a natural number and `nRanks` as positive; the source checks neither.
- Orchestration.RunMain: the status each call returns is a parameter, and the values are not modelled. `compute` is not shown there to return 1; that is Compute's contract.
- Overflow of 32-bit `int` is not modelled. `dim * dim * rankDimZ` and `nRankValues * nRanks` exceed it once `dim` reaches 1291 on a single rank. All arithmetic here is unbounded.
- The unused local `offset` (main.cpp:18) is not modelled.
- `PostProcessing.h` declares the operations; its declarations are not part of this model.

## Findings

| source | as written | input that shows it | evidently intended | confidence | as-written member | corrected member |
|---|---|---|---|---|---|---|
| PostProcessing.cpp:41-45 | the per-rank image's Z origin is `iRank * (rankDimZ - 1)`, which fits the overlapping slab start left commented out at main.cpp:19; `compute` samples from `rankDimZ * iRank` (main.cpp:20) | `iRank = 1`, `rankDimZ = 2`: rank 1 samples layers 2 and 3, but its image is placed on layers 1 and 2 | the image is placed on the slab the rank sampled, origin `rankDimZ * iRank` | medium, not executed; `processRankData` is never called from `main` | PostProcessing.RankImageLagsSlab | PostProcessing.SlabAlignedRankImageCoversSlab |

`PostProcessing.ProcessRankData` keeps the image origin as written, because it models `processRankData` itself. No other part of the model places per-rank images: `main` never calls `processRankData`.
