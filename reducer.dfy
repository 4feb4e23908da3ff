/**
 * Reducing a challenge from its detected power to a smaller target power:
 * the header is copied, then each of the five sections keeps its leading
 * target-power points and drops the rest; finally the written file is
 * re-validated.
 */
module Reducer {
  import opened Wrappers
  import opened Arithmetic
  import opened Layout
  import opened PowerDetector
  import opened Streams
  import opened Validator

  datatype ReduceError =
    | TargetAboveMaximum        // target_power > 27
    | ShorterThanHeader         // input_file_size - 64 underflows
    | UnsupportedSize           // detect_power_from_size panics
    | TargetAboveCurrent        // target_power > current_power
    | TruncatedInput            // a read_exact during the copy fails
    | VerifyFailed(cause: PointError)

  /**
   * The checks main makes before opening any file, in its order: the target
   * ceiling, then the header subtraction, then detection of the current power
   * from the file size, then the target against the current power. Success
   * carries the current power.
   */
  function PlanReduction(fileSize: nat, targetPower: nat): (r: Result<nat, ReduceError>)
    ensures r.Success? ==> MinPower <= r.value <= MaxPower && targetPower <= r.value
    ensures r.Success? ==> HeaderSize + ExpectedSize(r.value) == fileSize
    ensures r == Failure(TargetAboveMaximum) <==> MaxPower < targetPower
    ensures r == Failure(ShorterThanHeader) <==> targetPower <= MaxPower && fileSize < HeaderSize
    ensures r == Failure(UnsupportedSize) <==>
      && targetPower <= MaxPower && HeaderSize <= fileSize
      && forall q :: MinPower <= q <= MaxPower ==> HeaderSize + ExpectedSize(q) != fileSize
  {
    if targetPower > MaxPower then Failure(TargetAboveMaximum)
    else if fileSize < HeaderSize then Failure(ShorterThanHeader)
    else match Detect(AccumulatorSize(fileSize))
      case None => Failure(UnsupportedSize)
      case Some(current) => if targetPower > current then Failure(TargetAboveCurrent) else Success(current)
  }

  /** Once the power is detected and the target is within it, the plan succeeds with that power. */
  lemma PlanReductionDetected(fileSize: nat, targetPower: nat, current: nat)
    requires HeaderSize <= fileSize && targetPower <= MaxPower
    requires Detect(AccumulatorSize(fileSize)) == Some(current) && targetPower <= current
    ensures PlanReduction(fileSize, targetPower) == Success(current)
  {
  }

  /** The plan succeeds exactly when the file has the size of some supported power at least the target. */
  lemma PlanReductionAccepts(fileSize: nat, targetPower: nat)
    ensures PlanReduction(fileSize, targetPower).Success? <==>
      exists p :: MinPower <= p <= MaxPower && HeaderSize + ExpectedSize(p) == fileSize && targetPower <= p
  {
    if exists p :: MinPower <= p <= MaxPower && HeaderSize + ExpectedSize(p) == fileSize && targetPower <= p {
      var p :| MinPower <= p <= MaxPower && HeaderSize + ExpectedSize(p) == fileSize && targetPower <= p;
      DetectExpectedSize(p);
    }
  }

  /** The target is rejected against the current power exactly when the file has the size of a smaller supported power. */
  lemma PlanReductionTargetAboveCurrent(fileSize: nat, targetPower: nat)
    ensures PlanReduction(fileSize, targetPower) == Failure(TargetAboveCurrent) <==>
      && targetPower <= MaxPower
      && exists p :: MinPower <= p <= MaxPower && HeaderSize + ExpectedSize(p) == fileSize && p < targetPower
  {
    if exists p :: MinPower <= p <= MaxPower && HeaderSize + ExpectedSize(p) == fileSize && p < targetPower {
      var p :| MinPower <= p <= MaxPower && HeaderSize + ExpectedSize(p) == fileSize && p < targetPower;
      DetectExpectedSize(p);
    }
  }

  /**
   * Where usize subtraction wraps instead of panicking, a file shorter than the
   * header yields an accumulator size beyond every supported power, so the
   * detector rejects it: such a file is refused either way.
   */
  lemma WrappedSizeUndetected(fileSize: nat)
    requires fileSize < HeaderSize
    ensures Detect(fileSize + WordLimit - HeaderSize) == None
  {
    forall q | MinPower <= q <= MaxPower
      ensures ExpectedSize(q) != fileSize + WordLimit - HeaderSize
    {
      AtMaxPower();
      if q < MaxPower {
        ExpectedSizeStrictlyIncreasing(q, MaxPower);
      }
    }
  }

  /** The retained part of section s: its first target-power points, read at the current-power offset. */
  function SectionSlice(data: seq<byte>, current: nat, target: nat, s: nat): (r: seq<byte>)
    requires s < SectionCount && target <= current && HeaderSize + ExpectedSize(current) <= |data|
    ensures |r| == SectionBytes(target, s)
  {
    SectionFits(target, current, s);
    var start := FileOffset(current, s);
    data[start..start + SectionBytes(target, s)]
  }

  /**
   * What the reducer has written once s section blocks are done: the input's
   * header followed by the retained parts of sections 0 .. s - 1.
   */
  function Written(data: seq<byte>, current: nat, target: nat, s: nat): seq<byte>
    requires s <= SectionCount && target <= current && HeaderSize + ExpectedSize(current) <= |data|
  {
    if s == 0 then data[..HeaderSize]
    else Written(data, current, target, s - 1) + SectionSlice(data, current, target, s - 1)
  }

  /** After s sections the output has reached the file offset of section s at the target power. */
  lemma {:induction false} WrittenLength(data: seq<byte>, current: nat, target: nat, s: nat)
    requires s <= SectionCount && target <= current && HeaderSize + ExpectedSize(current) <= |data|
    ensures |Written(data, current, target, s)| == FileOffset(target, s)
  {
    if s > 0 {
      WrittenLength(data, current, target, s - 1);
    }
  }

  /**
   * The file the reducer writes: the input's header followed by the retained
   * prefix of each of the five sections. It is exactly a challenge of the
   * target power in size.
   */
  function ReducedImage(data: seq<byte>, current: nat, target: nat): (r: seq<byte>)
    requires target <= current && HeaderSize + ExpectedSize(current) <= |data|
    ensures |r| == HeaderSize + ExpectedSize(target)
  {
    SectionsTileExpectedSize(target);
    WrittenLength(data, current, target, SectionCount);
    Written(data, current, target, SectionCount)
  }

  lemma PrefixOfConcat(a: seq<byte>, b: seq<byte>, n: nat)
    requires n <= |a|
    ensures (a + b)[..n] == a[..n]
  {
  }

  lemma {:induction false} WrittenHeader(data: seq<byte>, current: nat, target: nat, s: nat)
    requires s <= SectionCount && target <= current && HeaderSize + ExpectedSize(current) <= |data|
    ensures HeaderSize <= |Written(data, current, target, s)|
    ensures Written(data, current, target, s)[..HeaderSize] == data[..HeaderSize]
  {
    if s > 0 {
      WrittenHeader(data, current, target, s - 1);
      PrefixOfConcat(Written(data, current, target, s - 1), SectionSlice(data, current, target, s - 1), HeaderSize);
    }
  }

  /** The reduced file starts with the input's 64-byte hash, copied unchanged. */
  lemma ReducedImageHeader(data: seq<byte>, current: nat, target: nat)
    requires target <= current && HeaderSize + ExpectedSize(current) <= |data|
    ensures ReducedImage(data, current, target)[..HeaderSize] == data[..HeaderSize]
  {
    WrittenHeader(data, current, target, SectionCount);
  }

  /** What is written after m sections is a prefix of what is written after any later count n. */
  lemma {:induction false} WrittenPrefix(data: seq<byte>, current: nat, target: nat, m: nat, n: nat)
    requires m <= n <= SectionCount && target <= current && HeaderSize + ExpectedSize(current) <= |data|
    ensures |Written(data, current, target, m)| <= |Written(data, current, target, n)|
    ensures Written(data, current, target, n)[..|Written(data, current, target, m)|]
         == Written(data, current, target, m)
    decreases n
  {
    if m < n {
      WrittenPrefix(data, current, target, m, n - 1);
      PrefixOfConcat(Written(data, current, target, n - 1), SectionSlice(data, current, target, n - 1),
        |Written(data, current, target, m)|);
    }
  }

  lemma SuffixOfConcat(a: seq<byte>, b: seq<byte>)
    ensures (a + b)[|a|..] == b
  {
  }

  lemma SliceOfPrefix(x: seq<byte>, lo: nat, hi: nat)
    requires lo <= hi <= |x|
    ensures x[..hi][lo..] == x[lo..hi]
  {
  }

  /** A sub-run of two equal runs is equal. */
  lemma SubRun(a: seq<byte>, b: seq<byte>, lo: nat, lo': nat, n: nat, i: nat, j: nat)
    requires lo + n <= |a| && lo' + n <= |b| && i <= j <= n
    requires a[lo..lo + n] == b[lo'..lo' + n]
    ensures a[lo + i..lo + j] == b[lo' + i..lo' + j]
  {
    var x, y := a[lo + i..lo + j], b[lo' + i..lo' + j];
    forall t | 0 <= t < j - i
      ensures x[t] == y[t]
    {
      assert a[lo..lo + n][i + t] == b[lo'..lo' + n][i + t];
    }
  }

  /** Once written, the retained part of section s sits between the lengths after s and s + 1 sections. */
  lemma WrittenSection(data: seq<byte>, current: nat, target: nat, s: nat, n: nat)
    requires s < n <= SectionCount && target <= current && HeaderSize + ExpectedSize(current) <= |data|
    ensures |Written(data, current, target, s)| <= |Written(data, current, target, s + 1)| <= |Written(data, current, target, n)|
    ensures Written(data, current, target, n)[|Written(data, current, target, s)|..|Written(data, current, target, s + 1)|]
         == SectionSlice(data, current, target, s)
  {
    var before, after := Written(data, current, target, s), Written(data, current, target, s + 1);
    WrittenPrefix(data, current, target, s + 1, n);
    SliceOfPrefix(Written(data, current, target, n), |before|, |after|);
    SuffixOfConcat(before, SectionSlice(data, current, target, s));
  }

  /**
   * Prefix preservation: section s of the output is byte for byte the first
   * target-power points of section s of the input.
   */
  lemma ReducedImageSection(data: seq<byte>, current: nat, target: nat, s: nat)
    requires s < SectionCount && target <= current && HeaderSize + ExpectedSize(current) <= |data|
    ensures SectionBytes(target, s) <= SectionBytes(current, s)
    ensures FileOffset(target, s) + SectionBytes(target, s) <= |ReducedImage(data, current, target)|
    ensures FileOffset(current, s) + SectionBytes(current, s) <= |data|
    ensures ReducedImage(data, current, target)[FileOffset(target, s)..FileOffset(target, s) + SectionBytes(target, s)]
         == data[FileOffset(current, s)..FileOffset(current, s) + SectionBytes(target, s)]
  {
    SectionFits(target, current, s);
    FileOffsetNext(target, s);
    WrittenLength(data, current, target, s);
    WrittenLength(data, current, target, s + 1);
    WrittenSection(data, current, target, s, SectionCount);
  }

  /**
   * Prefix preservation byte by byte: byte k of section s of the output is
   * byte k of section s of the input, for every retained byte.
   */
  lemma ReducedImageByte(data: seq<byte>, current: nat, target: nat, s: nat, k: nat)
    requires s < SectionCount && target <= current && HeaderSize + ExpectedSize(current) <= |data|
    requires k < SectionBytes(target, s)
    ensures FileOffset(target, s) + k < |ReducedImage(data, current, target)|
    ensures FileOffset(current, s) + k < |data|
    ensures ReducedImage(data, current, target)[FileOffset(target, s) + k]
         == data[FileOffset(current, s) + k]
  {
    ReducedImageSection(data, current, target, s);
    SubRun(ReducedImage(data, current, target), data, FileOffset(target, s), FileOffset(current, s),
      SectionBytes(target, s), k, k + 1);
    assert ReducedImage(data, current, target)[FileOffset(target, s) + k..FileOffset(target, s) + k + 1][0]
        == data[FileOffset(current, s) + k..FileOffset(current, s) + k + 1][0];
  }

  /**
   * Prefix preservation point by point: point j of section s of the output is
   * point j of section s of the input, for every retained j.
   */
  lemma ReducedImagePoint(data: seq<byte>, current: nat, target: nat, s: nat, j: nat)
    requires s < SectionCount && target <= current && HeaderSize + ExpectedSize(current) <= |data|
    requires j < SectionLength(target, s)
    ensures var out, w := ReducedImage(data, current, target), Width(SectionKind(s));
      FileOffset(target, s) + j * w + w <= |out| && FileOffset(current, s) + j * w + w <= |data|
      && out[FileOffset(target, s) + j * w..FileOffset(target, s) + j * w + w]
         == data[FileOffset(current, s) + j * w..FileOffset(current, s) + j * w + w]
  {
    var w := Width(SectionKind(s));
    assert j * w + w <= SectionBytes(target, s) by {
      PointInRun(j, SectionLength(target, s), w);
      SectionBytesProduct(target, s);
    }
    ReducedImageSection(data, current, target, s);
    SubRun(ReducedImage(data, current, target), data, FileOffset(target, s), FileOffset(current, s),
      SectionBytes(target, s), j * w, j * w + w);
  }

  lemma SliceConcat(d: seq<byte>, y: nat, z: nat)
    requires y <= z <= |d|
    ensures d[..y] + d[y..z] == d[..z]
  {
  }

  /** Identity: reducing to the current power reproduces the input byte for byte. */
  lemma {:induction false} WrittenAll(data: seq<byte>, current: nat, s: nat)
    requires s <= SectionCount && HeaderSize + ExpectedSize(current) <= |data|
    ensures FileOffset(current, s) <= |data|
    ensures Written(data, current, current, s) == data[..FileOffset(current, s)]
  {
    SectionOffsetMonotone(current, s, SectionCount);
    SectionsTileExpectedSize(current);
    WrittenLength(data, current, current, s);
    if s > 0 {
      WrittenAll(data, current, s - 1);
      SliceConcat(data, FileOffset(current, s - 1), FileOffset(current, s));
    }
  }

  lemma ReducedImageIdentity(data: seq<byte>, current: nat)
    requires |data| == HeaderSize + ExpectedSize(current)
    ensures ReducedImage(data, current, current) == data
  {
    WrittenAll(data, current, SectionCount);
    SectionsTileExpectedSize(current);
  }

  /** Reducing a valid challenge yields a valid challenge of the target power. */
  lemma ReducedChallengeValid(codec: Codec, data: seq<byte>, current: nat, target: nat)
    requires target <= current && HeaderSize + ExpectedSize(current) <= |data|
    requires ChallengeValid(codec, data, current)
    ensures ChallengeValid(codec, ReducedImage(data, current, target), target)
  {
    var out := ReducedImage(data, current, target);
    forall s | 0 <= s < SectionCount
      ensures SectionOk(codec, out, target, s)
    {
      var kind := SectionKind(s);
      var lo := FileOffset(target, s);
      forall j | 0 <= j < SectionLength(target, s)
        ensures ChunkOk(codec, kind, out, lo, j)
      {
        ReducedImagePoint(data, current, target, s, j);
        SectionLengthMonotone(target, current, s);
        assert SectionOk(codec, data, current, s);
        assert ChunkOk(codec, kind, data, FileOffset(current, s), j);
      }
    }
  }

  /**
   * Copy-then-skip of section s (one block of main): the first target-power
   * points are copied, the remaining current-power points are read and
   * dropped. It succeeds exactly when the whole current-power section is
   * there, and then leaves the cursor at the start of the next section.
   */
  method CopySection(input: InputStream, output: OutputStream, currentPower: nat, targetPower: nat, s: nat)
    returns (ok: bool)
    requires s < SectionCount && targetPower <= currentPower && input.Valid()
    modifies input, output
    ensures input.Valid()
    ensures SectionBytes(targetPower, s) <= SectionBytes(currentPower, s)
    ensures ok == (SectionBytes(currentPower, s) <= old(input.Remaining()))
    ensures ok ==> input.pos == old(input.pos) + SectionBytes(currentPower, s)
    ensures ok ==> output.bytes == old(output.bytes) + input.data[old(input.pos)..old(input.pos) + SectionBytes(targetPower, s)]
    ensures !ok ==> input.pos == |input.data|
  {
    var pointSize := Width(SectionKind(s));
    var retained := SectionLength(targetPower, s);
    SectionLengthMonotone(targetPower, currentPower, s);
    var skip := SectionLength(currentPower, s) - retained;
    assert retained * pointSize + skip * pointSize == SectionBytes(currentPower, s);
    ok := StreamCopyPoints(input, output, retained, pointSize);
    if !ok {
      MulMonotone(retained, SectionLength(currentPower, s), pointSize);
    }
    if ok && skip > 0 {
      ok := SkipPoints(input, skip, pointSize);
    }
  }

  /**
   * The checks of main before any file is created, in the source's order:
   * target ceiling, header subtraction, detection of the current power with
   * the detector's loop, target against current.
   */
  method CheckArguments(fileSize: nat, targetPower: nat) returns (r: Result<nat, ReduceError>)
    ensures r == PlanReduction(fileSize, targetPower)
  {
    if targetPower > MaxPower {
      return Failure(TargetAboveMaximum);
    }
    if fileSize < HeaderSize {
      return Failure(ShorterThanHeader);
    }
    var detected := DetectPowerFromSize(AccumulatorSize(fileSize));
    if detected.None? {
      return Failure(UnsupportedSize);
    }
    var currentPower := detected.value;
    if targetPower > currentPower {
      return Failure(TargetAboveCurrent);
    }
    PlanReductionDetected(fileSize, targetPower, currentPower);
    return Success(currentPower);
  }

  /**
   * main from the target ceiling check to the final flush: validates the
   * arguments and the detected power before creating any output (None: no
   * file is created), then copies the header and the five sections.
   */
  method Reduce(file: seq<byte>, targetPower: nat) returns (r: Result<nat, ReduceError>, written: Option<seq<byte>>)
    ensures r == PlanReduction(|file|, targetPower)
    ensures r.Failure? ==> written == None
    ensures r.Success? ==> written == Some(ReducedImage(file, r.value, targetPower))
  {
    r := CheckArguments(|file|, targetPower);
    if r.Failure? {
      return r, None;
    }
    var out, ok := CopyChallenge(file, r.value, targetPower);
    if !ok {
      // unreachable: the size check guarantees every read succeeds
      return Failure(TruncatedInput), None;
    }
    written := Some(out);
  }

  /**
   * The stream part of main for a file whose size matches the current power:
   * the 64-byte hash is copied, then the five section blocks run in order.
   * Every read succeeds and the output is exactly the reduced image.
   */
  method CopyChallenge(file: seq<byte>, currentPower: nat, targetPower: nat) returns (out: seq<byte>, ok: bool)
    requires targetPower <= currentPower && |file| == HeaderSize + ExpectedSize(currentPower)
    ensures ok && out == ReducedImage(file, currentPower, targetPower)
  {
    var input := new InputStream(file);
    var output := new OutputStream();
    var hash := new byte[HeaderSize];
    ok := input.ReadExact(hash);
    if ok {
      output.WriteAll(hash);
      assert output.bytes == Written(file, currentPower, targetPower, 0);
      ok := CopyNextSection(input, output, file, currentPower, targetPower, 0);
    }
    if ok {
      ok := CopyNextSection(input, output, file, currentPower, targetPower, 1);
    }
    if ok {
      ok := CopyNextSection(input, output, file, currentPower, targetPower, 2);
    }
    if ok {
      ok := CopyNextSection(input, output, file, currentPower, targetPower, 3);
    }
    if ok {
      ok := CopyNextSection(input, output, file, currentPower, targetPower, 4);
    }
    out := output.bytes;
  }

  /**
   * One section block of main, seen against the layout of the whole file: when
   * the cursor is at the start of section s of the current-power layout and
   * the output holds the header and the retained parts of the earlier
   * sections, the block succeeds, puts the cursor at the start of section s + 1
   * and appends the retained part of section s.
   */
  method CopyNextSection(input: InputStream, output: OutputStream, ghost file: seq<byte>,
                         currentPower: nat, targetPower: nat, s: nat) returns (ok: bool)
    requires s < SectionCount && targetPower <= currentPower
    requires input.Valid() && input.data == file && |file| == HeaderSize + ExpectedSize(currentPower)
    requires input.pos == FileOffset(currentPower, s)
    requires output.bytes == Written(file, currentPower, targetPower, s)
    modifies input, output
    ensures ok && input.Valid()
    ensures input.pos == FileOffset(currentPower, s + 1)
    ensures output.bytes == Written(file, currentPower, targetPower, s + 1)
  {
    SectionInBounds(currentPower, s);
    ok := CopySection(input, output, currentPower, targetPower, s);
  }

  /**
   * The whole run of the tool: reduce, then re-validate the written file at
   * the target power. A valid input challenge always reduces and validates.
   */
  method ReduceAndVerify(file: seq<byte>, targetPower: nat, codec: Codec)
    returns (r: Outcome<ReduceError>, written: Option<seq<byte>>)
    ensures PlanReduction(|file|, targetPower).Failure? ==>
      r == Fail(PlanReduction(|file|, targetPower).error) && written == None
    ensures PlanReduction(|file|, targetPower).Success? ==>
      var out := ReducedImage(file, PlanReduction(|file|, targetPower).value, targetPower);
      && written == Some(out)
      && (r.Pass? <==> ChallengeValid(codec, out, targetPower))
      && (r.Fail? ==> CheckChallenge(codec, out, targetPower).Fail?
                      && r.error == VerifyFailed(CheckChallenge(codec, out, targetPower).error))
    ensures && PlanReduction(|file|, targetPower).Success?
            && ChallengeValid(codec, file, PlanReduction(|file|, targetPower).value)
            ==> r == Pass
  {
    var plan, output := Reduce(file, targetPower);
    if plan.Failure? {
      return Fail(plan.error), None;
    }
    written := output;
    var check := VerifyReducedChallenge(output.value, codec, targetPower);
    r := if check.Pass? then Pass else Fail(VerifyFailed(check.error));
    assert r.Pass? <==> ChallengeValid(codec, output.value, targetPower) by {
      CheckChallengePass(codec, output.value, targetPower);
    }
    assert ChallengeValid(codec, file, plan.value) ==> ChallengeValid(codec, output.value, targetPower) by {
      if ChallengeValid(codec, file, plan.value) {
        ReducedChallengeValid(codec, file, plan.value, targetPower);
      }
    }
  }
}
