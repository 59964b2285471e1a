/** The snapshot writer front end (PostProcessing.cpp). Each operation builds
    a descriptor from its arguments and hands it to the Cinema database
    writer; the descriptor is what is modelled here: the calls made on the
    database, the image geometry, the field name, the payload, the metadata
    tag string and the compression level. What the writer then does on disk
    is not part of this model. */
module PostProcessing {
  import opened Decomposition

  // ---------------------------------------------------------------------
  // Decimal formatting, as `std::to_string` renders an `int`.

  predicate IsDigit(c: char)
  {
    '0' <= c <= '9'
  }

  function DigitChar(d: nat): (c: char)
    requires d < 10
    ensures IsDigit(c) && c as int - '0' as int == d
  {
    ('0' as int + d) as char
  }

  /** Decimal digits of `n`, most significant first, without leading zeros. */
  function Digits(n: nat): (s: string)
    ensures |s| >= 1
    ensures forall i :: 0 <= i < |s| ==> IsDigit(s[i])
    ensures s[0] == '0' ==> n == 0
  {
    if n < 10 then [DigitChar(n)] else Digits(n / 10) + [DigitChar(n % 10)]
  }

  /** Reads a string of decimal digits back, most significant first. */
  function DigitsValue(s: string): int
  {
    if |s| == 0 then 0 else DigitsValue(s[..|s| - 1]) * 10 + (s[|s| - 1] as int - '0' as int)
  }

  lemma {:induction false} DigitsRoundTrip(n: nat)
    ensures DigitsValue(Digits(n)) == n
  {
    if n >= 10 {
      DigitsRoundTrip(n / 10);
      var s := Digits(n);
      assert s[..|s| - 1] == Digits(n / 10);
    }
  }

  /** `std::to_string` of an `int`: a minus sign for negative values, then
      the digits of the magnitude. */
  function Decimal(n: int): (s: string)
    ensures |s| >= 1
    ensures forall i :: 0 <= i < |s| ==> IsDigit(s[i]) || (i == 0 && s[i] == '-' && n < 0)
    ensures s[0] == '-' <==> n < 0
  {
    if n < 0 then "-" + Digits(-n) else Digits(n)
  }

  /** Reads back what `Decimal` writes. */
  function DecimalValue(s: string): int
  {
    if |s| > 0 && s[0] == '-' then -DigitsValue(s[1..]) else DigitsValue(s)
  }

  lemma DecimalRoundTrip(n: int)
    ensures DecimalValue(Decimal(n)) == n
  {
    if n < 0 {
      DigitsRoundTrip(-n);
      assert Decimal(n)[1..] == Digits(-n);
    } else {
      DigitsRoundTrip(n);
    }
  }

  /** Distinct integers are written as distinct strings. */
  lemma DecimalInjective(a: int, b: int)
    requires Decimal(a) == Decimal(b)
    ensures a == b
  {
    DecimalRoundTrip(a);
    DecimalRoundTrip(b);
  }

  // ---------------------------------------------------------------------
  // Metadata tag strings, parsed by the array editor into `Key,Value` rows.

  /** The tag of a per-rank snapshot (PostProcessing.cpp:66-69):
      two newline-terminated rows, `Rank,<iRank>` then `Time,<time>`. */
  function RankTag(iRank: int, time: int): string
  {
    "Rank," + Decimal(iRank) + "\n" + "Time," + Decimal(time) + "\n"
  }

  /** The tag of a combined snapshot (PostProcessing.cpp:112-114): the single
      row `Time,<time>`, with no Rank row and no trailing newline. */
  function CombinedTag(time: int): (tag: string)
    ensures '\n' !in tag
    ensures |tag| > 5 && tag[..5] == "Time,"
  {
    "Time," + Decimal(time)
  }

  /** Position of the first newline of `s`, or `|s|` when there is none. */
  function FirstNewline(s: string): (k: nat)
    ensures k <= |s|
  {
    if |s| == 0 || s[0] == '\n' then 0 else 1 + FirstNewline(s[1..])
  }

  /** A row without newline, followed by a newline, ends at the first newline. */
  lemma {:induction false} FirstNewlineEndsRow(a: string, b: string)
    requires '\n' !in a
    ensures FirstNewline(a + "\n" + b) == |a|
  {
    if |a| > 0 {
      assert (a + "\n" + b)[1..] == a[1..] + "\n" + b;
      assert '\n' !in a[1..];
      FirstNewlineEndsRow(a[1..], b);
    }
  }

  /** Two strings that each start with a newline-free row split alike. */
  lemma SplitAtFirstNewline(a: string, b: string, c: string, d: string)
    requires '\n' !in a && '\n' !in c
    requires a + "\n" + b == c + "\n" + d
    ensures a == c && b == d
  {
    var u := a + "\n" + b;
    FirstNewlineEndsRow(a, b);
    FirstNewlineEndsRow(c, d);
    assert a == u[..|a|];
    assert c == u[..|c|];
    assert b == u[|a| + 1..];
    assert d == u[|c| + 1..];
  }

  /** The rank tag is two rows: `Rank,<iRank>` and `Time,<time>`. */
  lemma RankTagRows(iRank: int, time: int)
    ensures RankTag(iRank, time) == ("Rank," + Decimal(iRank)) + "\n" + (("Time," + Decimal(time)) + "\n")
    ensures '\n' !in "Rank," + Decimal(iRank) && '\n' !in "Time," + Decimal(time)
  {
    var r, t := Decimal(iRank), Decimal(time);
    assert "Rank," + r + "\n" + "Time," + t + "\n" == ("Rank," + r) + "\n" + (("Time," + t) + "\n");
    assert forall i :: 0 <= i < |r| ==> r[i] != '\n';
    assert forall i :: 0 <= i < |t| ==> t[i] != '\n';
    assert forall i :: 0 <= i < |"Rank," + r| ==> ("Rank," + r)[i] != '\n' by {
      forall i | 0 <= i < |"Rank," + r| ensures ("Rank," + r)[i] != '\n' {
        if i >= 5 { assert ("Rank," + r)[i] == r[i - 5]; }
      }
    }
    assert forall i :: 0 <= i < |"Time," + t| ==> ("Time," + t)[i] != '\n' by {
      forall i | 0 <= i < |"Time," + t| ensures ("Time," + t)[i] != '\n' {
        if i >= 5 { assert ("Time," + t)[i] == t[i - 5]; }
      }
    }
  }

  /** Distinct `(iRank, time)` pairs give distinct per-rank tags, so per-rank
      snapshots of different ranks or timesteps never carry the same metadata. */
  lemma RankTagInjective(iRank: int, time: int, iRank': int, time': int)
    requires RankTag(iRank, time) == RankTag(iRank', time')
    ensures iRank == iRank' && time == time'
  {
    RankTagRows(iRank, time);
    RankTagRows(iRank', time');
    SplitAtFirstNewline("Rank," + Decimal(iRank), ("Time," + Decimal(time)) + "\n",
                        "Rank," + Decimal(iRank'), ("Time," + Decimal(time')) + "\n");
    assert Decimal(iRank) == ("Rank," + Decimal(iRank))[5..];
    assert Decimal(iRank') == ("Rank," + Decimal(iRank'))[5..];
    DecimalInjective(iRank, iRank');
    var u, u' := ("Time," + Decimal(time)) + "\n", ("Time," + Decimal(time')) + "\n";
    assert Decimal(time) == u[5..|u| - 1];
    assert Decimal(time') == u'[5..|u'| - 1];
    DecimalInjective(time, time');
  }

  /** Distinct timesteps give distinct combined tags. */
  lemma CombinedTagInjective(time: int, time': int)
    requires CombinedTag(time) == CombinedTag(time')
    ensures time == time'
  {
    assert Decimal(time) == CombinedTag(time)[5..];
    assert Decimal(time') == CombinedTag(time')[5..];
    DecimalInjective(time, time');
  }

  /** A per-rank tag is never a combined tag. */
  lemma RankTagIsNotCombinedTag(iRank: int, time: int, time': int)
    ensures RankTag(iRank, time) != CombinedTag(time')
  {
    assert RankTag(iRank, time)[0] == 'R';
    assert CombinedTag(time')[0] == 'T';
  }

  // ---------------------------------------------------------------------
  // Image geometry.

  datatype Triple = Triple(x: int, y: int, z: int)

  /** A uniform image with unit spacing: the world position of grid index
      `i` along an axis is `origin + i`, for `extentLo <= i <= extentHi`. */
  datatype Image = Image(origin: Triple, extentLo: Triple, extentHi: Triple)

  /** Number of grid indices in `[lo, hi]`; an inverted range is empty. */
  function Span(lo: int, hi: int): nat
  {
    if hi < lo then 0 else hi - lo + 1
  }

  function PointCount(image: Image): nat
  {
    Span(image.extentLo.x, image.extentHi.x)
      * Span(image.extentLo.y, image.extentHi.y)
      * Span(image.extentLo.z, image.extentHi.z)
  }

  /** World Z position `z` is one of the image's layers. */
  predicate CoversLayer(image: Image, z: int)
  {
    image.origin.z + image.extentLo.z <= z <= image.origin.z + image.extentHi.z
  }

  /** An image given by its dimensions: index extent `[0, d - 1]` per axis. */
  function ImageWithDimensions(origin: Triple, dims: Triple): (image: Image)
    ensures PointCount(image) == (if dims.x < 0 then 0 else dims.x)
                               * (if dims.y < 0 then 0 else dims.y)
                               * (if dims.z < 0 then 0 else dims.z)
  {
    Image(origin, Triple(0, 0, 0), Triple(dims.x - 1, dims.y - 1, dims.z - 1))
  }

  /** The per-rank image (PostProcessing.cpp:40-50): origin
      `(0, 0, iRank * (rankDimZ - 1))`, extent `[0, dim-1] x [0, dim-1] x [0, rankDimZ-1]`. */
  function RankImage(iRank: int, dim: int, rankDimZ: int): Image
  {
    Image(Triple(0, 0, iRank * (rankDimZ - 1)), Triple(0, 0, 0), Triple(dim - 1, dim - 1, rankDimZ - 1))
  }

  /** The per-rank image has one point per value of a slab buffer. */
  lemma RankImagePointCount(iRank: int, dim: nat, rankDimZ: nat)
    ensures PointCount(RankImage(iRank, dim, rankDimZ)) == dim * dim * rankDimZ
  {
  }

  /** As written, the per-rank image starts `iRank` layers below the slab
      that rank samples: its layers are `[SlabStart - iRank, SlabEnd - iRank)`.
      For rank 1 with two layers per rank, the image covers layers 1 and 2
      while the rank sampled layers 2 and 3. */
  lemma RankImageLagsSlab(iRank: nat, dim: int, rankDimZ: nat, z: int)
    ensures CoversLayer(RankImage(iRank, dim, rankDimZ), z)
        <==> InSlab(z + iRank, iRank, rankDimZ)
    ensures iRank > 0 ==>
      RankImage(iRank, dim, rankDimZ).origin.z != SlabStart(iRank, rankDimZ)
    ensures CoversLayer(RankImage(1, dim, 2), 1) && !InSlab(1, 1, 2)
  {
    assert iRank * (rankDimZ - 1) == rankDimZ * iRank - iRank;
  }

  /** Per-rank image placed on the slab the rank sampled. */
  function SlabAlignedRankImage(iRank: nat, dim: int, rankDimZ: nat): (image: Image)
    ensures image.origin.z == SlabStart(iRank, rankDimZ)
  {
    Image(Triple(0, 0, SlabStart(iRank, rankDimZ)), Triple(0, 0, 0), Triple(dim - 1, dim - 1, rankDimZ - 1))
  }

  /** The slab-aligned image covers exactly the rank's slab, so the images of
      distinct ranks never overlap, and it has one point per buffer value. */
  lemma SlabAlignedRankImageCoversSlab(iRank: nat, dim: nat, rankDimZ: nat, z: int)
    ensures CoversLayer(SlabAlignedRankImage(iRank, dim, rankDimZ), z) <==> InSlab(z, iRank, rankDimZ)
    ensures PointCount(SlabAlignedRankImage(iRank, dim, rankDimZ)) == dim * dim * rankDimZ
  {
  }

  /** The combined image (PostProcessing.cpp:94-96): origin `(0, 0, 0)` and
      dimensions `dim x dim x dim`. */
  function CombinedImage(dim: int): (image: Image)
    ensures image.origin == Triple(0, 0, 0)
    ensures dim >= 0 ==> PointCount(image) == dim * dim * dim
    ensures forall z :: CoversLayer(image, z) <==> 0 <= z < dim
  {
    ImageWithDimensions(Triple(0, 0, 0), Triple(dim, dim, dim))
  }

  // ---------------------------------------------------------------------
  // Records and writer calls.

  /** Name of the point-data array in every snapshot (PostProcessing.cpp:54, 100). */
  const FieldName: string := "Field"

  /** Compression level of every snapshot write (PostProcessing.cpp:74, 119). */
  const CompressionLevel: int := 9

  /** One image-shaped record: geometry, a named float array over the
      caller's buffer, the metadata tag string and the compression level. */
  datatype Snapshot = Snapshot(image: Image, fieldName: string, values: seq<real>, tag: string, compressionLevel: int)

  /** A call made on the Cinema database writer for the database at `path`. */
  datatype WriterCall =
    | DeleteDatabase(path: string)
    | InitializeLockFile(path: string)
    | WriteSnapshot(path: string, snapshot: Snapshot)

  /** The calls an operation makes, in order, and the status it returns. */
  datatype Effect = Effect(calls: seq<WriterCall>, status: int)

  /** `init` (PostProcessing.cpp:10-26): deletes any database at the path,
      then creates the lockfile, and reports success unconditionally. */
  function Init(outputPath: string): (e: Effect)
    ensures e.status == 1 && |e.calls| == 2
    ensures forall i :: 0 <= i < |e.calls| ==> e.calls[i].path == outputPath
    ensures forall i, j ::
      (0 <= i < |e.calls| && 0 <= j < |e.calls| && e.calls[i].DeleteDatabase? && e.calls[j].InitializeLockFile?) ==> i < j
    ensures exists i :: 0 <= i < |e.calls| && e.calls[i].DeleteDatabase?
    ensures exists j :: 0 <= j < |e.calls| && e.calls[j].InitializeLockFile?
    ensures forall i :: 0 <= i < |e.calls| ==> !e.calls[i].WriteSnapshot?
  {
    var e := Effect([DeleteDatabase(outputPath), InitializeLockFile(outputPath)], 1);
    assert e.calls[0].DeleteDatabase? && e.calls[1].InitializeLockFile?;
    e
  }

  /** The float array wraps the first `nTuples * nComponents` values of the
      caller's buffer (PostProcessing.cpp:55-59, 101-105). */
  function ArrayValues(data: seq<real>, nComponents: int, nTuples: int): (values: seq<real>)
    requires 0 <= nTuples * nComponents <= |data|
    ensures |values| == nTuples * nComponents
    ensures forall i :: 0 <= i < |values| ==> values[i] == data[i]
  {
    data[..nTuples * nComponents]
  }

  /** `processRankData` (PostProcessing.cpp:28-80): writes one snapshot of
      this rank's slab, tagged with its rank and timestep, and reports success. */
  function ProcessRankData(rankData: seq<real>, nComponents: int, nTuples: int, iRank: int,
                           dim: int, rankDimZ: int, time: int, outputPath: string): (e: Effect)
    requires 0 <= nTuples * nComponents <= |rankData|
    ensures e.status == 1 && |e.calls| == 1 && e.calls[0].WriteSnapshot? && e.calls[0].path == outputPath
    ensures var s := e.calls[0].snapshot;
      && s.fieldName == "Field" && s.compressionLevel == 9
      && s.image == RankImage(iRank, dim, rankDimZ)
      && s.values == ArrayValues(rankData, nComponents, nTuples)
      && s.tag == RankTag(iRank, time)
  {
    Effect([WriteSnapshot(outputPath,
      Snapshot(RankImage(iRank, dim, rankDimZ), FieldName, ArrayValues(rankData, nComponents, nTuples),
               RankTag(iRank, time), CompressionLevel))], 1)
  }

  /** `processCombinedData` (PostProcessing.cpp:82-125): writes one snapshot
      of the whole cube, tagged with the timestep only, and reports success. */
  function ProcessCombinedData(combinedData: seq<real>, nComponents: int, nTuples: int,
                               dim: int, time: int, outputPath: string): (e: Effect)
    requires 0 <= nTuples * nComponents <= |combinedData|
    ensures e.status == 1 && |e.calls| == 1 && e.calls[0].WriteSnapshot? && e.calls[0].path == outputPath
    ensures var s := e.calls[0].snapshot;
      && s.fieldName == "Field" && s.compressionLevel == 9
      && s.image == CombinedImage(dim)
      && s.values == ArrayValues(combinedData, nComponents, nTuples)
      && s.tag == CombinedTag(time)
  {
    Effect([WriteSnapshot(outputPath,
      Snapshot(CombinedImage(dim), FieldName, ArrayValues(combinedData, nComponents, nTuples),
               CombinedTag(time), CompressionLevel))], 1)
  }

  /** Snapshots written for distinct metadata never collide: two per-rank
      snapshots with equal metadata have the same rank and timestep, two
      combined snapshots the same timestep, and a per-rank snapshot never
      has a combined snapshot's metadata. */
  lemma SnapshotMetadataDistinct(rankData: seq<real>, combinedData: seq<real>, nComponents: int, nTuples: int,
                                 dim: int, rankDimZ: int, path: string,
                                 iRank: int, time: int, iRank': int, time': int)
    requires 0 <= nTuples * nComponents <= |rankData| && 0 <= nTuples * nComponents <= |combinedData|
    ensures var a := ProcessRankData(rankData, nComponents, nTuples, iRank, dim, rankDimZ, time, path).calls[0].snapshot;
            var b := ProcessRankData(rankData, nComponents, nTuples, iRank', dim, rankDimZ, time', path).calls[0].snapshot;
            a.tag == b.tag ==> iRank == iRank' && time == time'
    ensures var a := ProcessCombinedData(combinedData, nComponents, nTuples, dim, time, path).calls[0].snapshot;
            var b := ProcessCombinedData(combinedData, nComponents, nTuples, dim, time', path).calls[0].snapshot;
            a.tag == b.tag ==> time == time'
    ensures ProcessRankData(rankData, nComponents, nTuples, iRank, dim, rankDimZ, time, path).calls[0].snapshot.tag
         != ProcessCombinedData(combinedData, nComponents, nTuples, dim, time', path).calls[0].snapshot.tag
  {
    if RankTag(iRank, time) == RankTag(iRank', time') {
      RankTagInjective(iRank, time, iRank', time');
    }
    if CombinedTag(time) == CombinedTag(time') {
      CombinedTagInjective(time, time');
    }
    RankTagIsNotCombinedTag(iRank, time, time');
  }
}
