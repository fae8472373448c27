/**
  Binary diffs (crates/fcb_core/src/diff.rs). The prefix/suffix diff is modelled in full;
  SHA-256, JSON with base64, and bsdiff over zstd are parameters.
 */
module BinaryDiff {
  import opened Basics

  type Digest = string

  const SIMPLE_DIFF_ALGORITHM: string := "fcb-simple-v1"
  const BSDIFF_ZSTD_ALGORITHM: string := "bsdiff-zstd-v1"

  /** `insert` is absent when its text is not base64. */
  datatype SimpleBinaryDiff = SimpleBinaryDiff(
    algorithm: string,
    baseHash: Digest,
    outputHash: Digest,
    prefixLen: nat,
    suffixLen: nat,
    insert: Option<Bytes>)

  /** The libraries the diff code calls. */
  datatype DiffLibraries = DiffLibraries(
    sha256: Bytes -> Digest,
    toJson: SimpleBinaryDiff -> Bytes,
    fromJson: Bytes -> Option<SimpleBinaryDiff>,
    bsdiff: (Bytes, Bytes) -> Bytes,
    bspatch: (Bytes, Bytes) -> Option<Bytes>)

  /** Lengths are `usize`, which no slice of memory exceeds. */
  const USIZE_LIMIT: nat := 0x1_0000_0000_0000_0000

  /** What the program can print as JSON, it reads back. */
  ghost predicate JsonRoundTrips(libs: DiffLibraries) {
    forall d: SimpleBinaryDiff | d.prefixLen < USIZE_LIMIT && d.suffixLen < USIZE_LIMIT && d.insert.Some? ::
      libs.fromJson(libs.toJson(d)) == Some(d)
  }

  ghost predicate BsdiffRoundTrips(libs: DiffLibraries) {
    forall base, target :: libs.bspatch(base, libs.bsdiff(base, target)) == Some(target)
  }

  datatype DiffError =
    | UnsupportedAlgorithm | MalformedDiff | BaseHashMismatch | RangeExceedsBase | BadInsert | OutputHashMismatch

  // ---------------------------------------------------------------- the longest common ends

  predicate SharePrefix(a: Bytes, b: Bytes, n: nat) {
    n <= |a| && n <= |b| && a[..n] == b[..n]
  }

  predicate ShareSuffix(a: Bytes, b: Bytes, n: nat) {
    n <= |a| && n <= |b| && a[|a| - n..] == b[|b| - n..]
  }

  /**
    Two loops: the longest common prefix, then the longest common suffix of what is left of both.
    The contract says the cut rebuilds the target and that no other cut of the base does with fewer inserted bytes.
   */
  method CreateSimpleDiff(libs: DiffLibraries, base: Bytes, target: Bytes) returns (diff: SimpleBinaryDiff, encoded: Bytes)
    ensures encoded == libs.toJson(diff)
    ensures diff.algorithm == SIMPLE_DIFF_ALGORITHM
    ensures diff.baseHash == libs.sha256(base) && diff.outputHash == libs.sha256(target)
    ensures diff.insert.Some? && Rebuilds(base, target, diff.prefixLen, diff.suffixLen, diff.insert.value)
    ensures forall p: nat, s: nat, insert: Bytes {:trigger Rebuilds(base, target, p, s, insert)} ::
              Rebuilds(base, target, p, s, insert) ==> |diff.insert.value| <= |insert|
  {
    hide SharePrefix, ShareSuffix, Rebuilds;
    var prefixLen := 0;
    NothingShared(base, target);
    while prefixLen < |base| && prefixLen < |target| && base[prefixLen] == target[prefixLen]
      invariant prefixLen <= |base| && prefixLen <= |target| && SharePrefix(base, target, prefixLen)
    {
      PrefixGrows(base, target, prefixLen);
      prefixLen := prefixLen + 1;
    }
    var suffixLen := 0;
    while suffixLen < |base| - prefixLen && suffixLen < |target| - prefixLen
          && base[|base| - 1 - suffixLen] == target[|target| - 1 - suffixLen]
      invariant prefixLen + suffixLen <= |base| && prefixLen + suffixLen <= |target|
      invariant ShareSuffix(base, target, suffixLen)
    {
      SuffixGrows(base, target, suffixLen);
      suffixLen := suffixLen + 1;
    }
    var insert := target[prefixLen..|target| - suffixLen];
    diff := SimpleBinaryDiff(SIMPLE_DIFF_ALGORITHM, libs.sha256(base), libs.sha256(target), prefixLen, suffixLen, Some(insert));
    encoded := libs.toJson(diff);
    SharedEndsRebuild(base, target, prefixLen, suffixLen);
    forall p: nat, s: nat, other: Bytes {:trigger Rebuilds(base, target, p, s, other)} | Rebuilds(base, target, p, s, other)
      ensures |insert| <= |other|
    {
      NoCutIsShorter(base, target, prefixLen, suffixLen, p, s, other);
    }
  }

  lemma NothingShared(a: Bytes, b: Bytes)
    ensures SharePrefix(a, b, 0) && ShareSuffix(a, b, 0)
  {
  }

  lemma PrefixGrows(a: Bytes, b: Bytes, n: nat)
    requires SharePrefix(a, b, n) && n < |a| && n < |b| && a[n] == b[n]
    ensures SharePrefix(a, b, n + 1)
  {
    assert a[..n + 1] == a[..n] + [a[n]] && b[..n + 1] == b[..n] + [b[n]];
  }

  lemma SuffixGrows(a: Bytes, b: Bytes, n: nat)
    requires ShareSuffix(a, b, n) && n < |a| && n < |b| && a[|a| - 1 - n] == b[|b| - 1 - n]
    ensures ShareSuffix(a, b, n + 1)
  {
    assert a[|a| - 1 - n..] == [a[|a| - 1 - n]] + a[|a| - n..] && b[|b| - 1 - n..] == [b[|b| - 1 - n]] + b[|b| - n..];
  }

  lemma SharedEndsRebuild(base: Bytes, target: Bytes, p: nat, s: nat)
    requires SharePrefix(base, target, p) && ShareSuffix(base, target, s) && p + s <= |base| && p + s <= |target|
    ensures Rebuilds(base, target, p, s, target[p..|target| - s])
  {
    assert target == target[..p] + target[p..|target| - s] + target[|target| - s..];
  }

  /** What applying the cut `(p, s)` with `insert` yields, when the cut fits the base. */
  predicate Rebuilds(base: Bytes, target: Bytes, p: nat, s: nat, insert: Bytes) {
    p + s <= |base| && base[..p] + insert + base[|base| - s..] == target
  }

  /** Where both loops stopped, any other cut keeps at most as many bytes of the base. */
  lemma NoCutIsShorter(base: Bytes, target: Bytes, prefixLen: nat, suffixLen: nat, p: nat, s: nat, insert: Bytes)
    requires SharePrefix(base, target, prefixLen)
    requires prefixLen < |base| && prefixLen < |target| ==> base[prefixLen] != target[prefixLen]
    requires prefixLen + suffixLen <= |base| && prefixLen + suffixLen <= |target|
    requires suffixLen < |base| - prefixLen && suffixLen < |target| - prefixLen
             ==> base[|base| - 1 - suffixLen] != target[|target| - 1 - suffixLen]
    requires Rebuilds(base, target, p, s, insert)
    ensures |target| - prefixLen - suffixLen <= |insert|
  {
    assert |target| == p + |insert| + s;
    assert target[..p] == base[..p] && target[|target| - s..] == base[|base| - s..];
    SharedBytes(base, target, p, s);
  }

  lemma SharedBytes(a: Bytes, b: Bytes, p: nat, s: nat)
    requires SharePrefix(a, b, p) && ShareSuffix(a, b, s)
    ensures forall i | 0 <= i < p :: a[i] == b[i]
    ensures forall k | |a| - s <= k < |a| :: a[k] == b[|b| - |a| + k]
  {
    assert forall i | 0 <= i < p :: a[..p][i] == b[..p][i];
    forall k | |a| - s <= k < |a| ensures a[k] == b[|b| - |a| + k] {
      assert a[|a| - s..][k - (|a| - s)] == b[|b| - s..][k - (|a| - s)];
    }
  }

  // ---------------------------------------------------------------- applying

  function ApplySimple(libs: DiffLibraries, base: Bytes, encoded: Bytes): Result<Bytes, DiffError> {
    match libs.fromJson(encoded)
    case None => Err(MalformedDiff)
    case Some(d) =>
      if d.algorithm != SIMPLE_DIFF_ALGORITHM then Err(UnsupportedAlgorithm)
      else if libs.sha256(base) != d.baseHash then Err(BaseHashMismatch)
      else if d.prefixLen + d.suffixLen > |base| then Err(RangeExceedsBase)
      else if d.insert.None? then Err(BadInsert)
      else
        var output := base[..d.prefixLen] + d.insert.value + base[|base| - d.suffixLen..];
        if libs.sha256(output) != d.outputHash then Err(OutputHashMismatch) else Ok(output)
  }

  method ApplySimpleDiff(libs: DiffLibraries, base: Bytes, encoded: Bytes) returns (r: Result<Bytes, DiffError>)
    ensures r == ApplySimple(libs, base, encoded)
  {
    var parsed := libs.fromJson(encoded);
    if parsed.None? { return Err(MalformedDiff); }
    var diff := parsed.value;
    if diff.algorithm != SIMPLE_DIFF_ALGORITHM { return Err(UnsupportedAlgorithm); }
    if libs.sha256(base) != diff.baseHash { return Err(BaseHashMismatch); }
    if diff.prefixLen + diff.suffixLen > |base| { return Err(RangeExceedsBase); }
    if diff.insert.None? { return Err(BadInsert); }
    var output := base[..diff.prefixLen];
    output := output + diff.insert.value;
    output := output + base[|base| - diff.suffixLen..];
    if libs.sha256(output) != diff.outputHash { return Err(OutputHashMismatch); }
    return Ok(output);
  }

  function ApplyBinaryDiff(libs: DiffLibraries, algorithm: string, base: Bytes, encoded: Bytes): Result<Bytes, DiffError> {
    if algorithm == BSDIFF_ZSTD_ALGORITHM then
      (match libs.bspatch(base, encoded) case Some(output) => Ok(output) case None => Err(MalformedDiff))
    else if algorithm == SIMPLE_DIFF_ALGORITHM then ApplySimple(libs, base, encoded)
    else Err(UnsupportedAlgorithm)
  }

  /** `encoded` turns `base` into `target` under `algorithm`. */
  ghost predicate Turns(libs: DiffLibraries, algorithm: string, base: Bytes, encoded: Bytes, target: Bytes) {
    ApplyBinaryDiff(libs, algorithm, base, encoded) == Ok(target)
  }

  /** Creating and applying a simple diff gives the target back, for all byte strings. */
  method SimpleRoundTrip(libs: DiffLibraries, base: Bytes, target: Bytes) returns (encoded: Bytes, output: Result<Bytes, DiffError>)
    requires JsonRoundTrips(libs) && |base| < USIZE_LIMIT
    ensures output == Ok(target)
    ensures Turns(libs, SIMPLE_DIFF_ALGORITHM, base, encoded, target)
  {
    var diff;
    diff, encoded := CreateSimpleDiff(libs, base, target);
    assert libs.fromJson(encoded) == Some(diff);
    assert SIMPLE_DIFF_ALGORITHM != BSDIFF_ZSTD_ALGORITHM by {
      assert |SIMPLE_DIFF_ALGORITHM| == 13 && |BSDIFF_ZSTD_ALGORITHM| == 14;
    }
    output := ApplySimpleDiff(libs, base, encoded);
  }

  /** A diff applies to an output exactly when it is a cut of this base that rebuilds it and announces both hashes. */
  ghost predicate IsCutOf(libs: DiffLibraries, base: Bytes, encoded: Bytes, output: Bytes) {
    && libs.fromJson(encoded).Some?
    && var d := libs.fromJson(encoded).value;
    && d.algorithm == "fcb-simple-v1"
    && d.baseHash == libs.sha256(base) && d.outputHash == libs.sha256(output)
    && d.insert.Some? && Rebuilds(base, output, d.prefixLen, d.suffixLen, d.insert.value)
  }

  /** What the dispatcher accepts, with no other algorithm and no check skipped. */
  lemma AppliesIff(libs: DiffLibraries, algorithm: string, base: Bytes, encoded: Bytes, output: Bytes)
    ensures ApplyBinaryDiff(libs, algorithm, base, encoded) == Ok(output) <==>
            || (algorithm == "bsdiff-zstd-v1" && libs.bspatch(base, encoded) == Some(output))
            || (algorithm == "fcb-simple-v1" && IsCutOf(libs, base, encoded, output))
  {
    assert "fcb-simple-v1" != "bsdiff-zstd-v1" by { assert |"fcb-simple-v1"| == 13 && |"bsdiff-zstd-v1"| == 14; }
  }

  lemma BsdiffTurns(libs: DiffLibraries, base: Bytes, target: Bytes)
    requires BsdiffRoundTrips(libs)
    ensures Turns(libs, BSDIFF_ZSTD_ALGORITHM, base, libs.bsdiff(base, target), target)
  {
    assert libs.bspatch(base, libs.bsdiff(base, target)) == Some(target);
  }
}
