/**
 * Re-validation of a written challenge: every retained point of every
 * section is decoded with the curve library and must decode and not be the
 * point at infinity; the first point that fails stops the scan.
 */
module Validator {
  import opened Wrappers
  import opened Arithmetic
  import opened Layout
  import opened Streams

  /** What the curve library's `into_affine` followed by `is_zero` reports for an encoding. */
  datatype DecodeResult = Malformed | Decoded(atInfinity: bool)

  /**
   * The curve library as a capability: one fixed-width decoder per point kind.
   * It is a parameter of the model, so nothing is assumed about it.
   */
  datatype Codec = Codec(decodeG1: seq<byte> -> DecodeResult, decodeG2: seq<byte> -> DecodeResult)

  /** The errors of verify_g1_points / verify_g2_points; Truncated is a failing read_exact. */
  datatype PointError =
    | Truncated
    | InvalidPoint(kind: Kind, index: nat)
    | PointAtInfinity(kind: Kind, index: nat)

  function Decode(codec: Codec, kind: Kind, encoding: seq<byte>): DecodeResult
  {
    match kind
    case G1 => codec.decodeG1(encoding)
    case G2 => codec.decodeG2(encoding)
  }

  /** An encoding is accepted when it decodes to a point other than the identity. */
  predicate PointOk(codec: Codec, kind: Kind, encoding: seq<byte>)
  {
    Decode(codec, kind, encoding) == Decoded(false)
  }

  /** Point j of a run of `kind` points starting at byte `pos` is present and accepted. */
  predicate ChunkOk(codec: Codec, kind: Kind, data: seq<byte>, pos: nat, j: nat)
  {
    var at := pos + j * Width(kind);
    at + Width(kind) <= |data| && PointOk(codec, kind, data[at..at + Width(kind)])
  }

  /** All `count` points of a run are present and accepted. */
  predicate PointsOk(codec: Codec, kind: Kind, data: seq<byte>, pos: nat, count: nat)
  {
    forall j :: 0 <= j < count ==> ChunkOk(codec, kind, data, pos, j)
  }

  /**
   * The reference scan: points `index`, `index` + 1, ... of a run, the next one
   * at byte `pos`, `count` of them still to check. It stops at the first point
   * that cannot be read in full, does not decode, or is the identity.
   */
  function CheckPoints(codec: Codec, kind: Kind, data: seq<byte>, pos: nat, count: nat, index: nat)
    : Outcome<PointError>
    decreases count
  {
    if count == 0 then Pass
    else if |data| < pos + Width(kind) then Fail(Truncated)
    else match Decode(codec, kind, data[pos..pos + Width(kind)])
      case Malformed => Fail(InvalidPoint(kind, index))
      case Decoded(atInfinity) =>
        if atInfinity then Fail(PointAtInfinity(kind, index))
        else CheckPoints(codec, kind, data, pos + Width(kind), count - 1, index + 1)
  }

  lemma ChunkShift(codec: Codec, kind: Kind, data: seq<byte>, pos: nat, j: nat)
    ensures ChunkOk(codec, kind, data, pos, j + 1) == ChunkOk(codec, kind, data, pos + Width(kind), j)
  {
    assert pos + (j + 1) * Width(kind) == pos + Width(kind) + j * Width(kind);
  }

  /** The scan passes exactly when every point of the run is present and accepted. */
  lemma {:induction false} CheckPointsPass(codec: Codec, kind: Kind, data: seq<byte>, pos: nat, count: nat, index: nat)
    ensures CheckPoints(codec, kind, data, pos, count, index).Pass? <==> PointsOk(codec, kind, data, pos, count)
    decreases count
  {
    if count > 0 {
      CheckPointsPass(codec, kind, data, pos + Width(kind), count - 1, index + 1);
      if PointsOk(codec, kind, data, pos, count) {
        PrefixUnshift(codec, kind, data, pos, count - 1);
      }
      if ChunkOk(codec, kind, data, pos, 0) && PointsOk(codec, kind, data, pos + Width(kind), count - 1) {
        PrefixShift(codec, kind, data, pos, count - 1);
      }
    }
  }

  /**
   * Fail-fast: a reported point error names the first failing point, every
   * point before it is accepted, and the reported kind of failure is the one
   * the decoder gave for that point.
   */
  lemma {:induction false} CheckPointsFirstFailure(codec: Codec, kind: Kind, data: seq<byte>, pos: nat, count: nat, index: nat)
    requires CheckPoints(codec, kind, data, pos, count, index).Fail?
    ensures var e := CheckPoints(codec, kind, data, pos, count, index).error;
      e.Truncated? ==>
        exists k :: 0 <= k < count && PointsOk(codec, kind, data, pos, k) && |data| < pos + (k + 1) * Width(kind)
    ensures var e := CheckPoints(codec, kind, data, pos, count, index).error;
      !e.Truncated? ==>
        var k := e.index - index;
        && e.kind == kind && index <= e.index && k < count
        && PointsOk(codec, kind, data, pos, k)
        && pos + (k + 1) * Width(kind) <= |data|
        && Decode(codec, kind, data[pos + k * Width(kind)..pos + (k + 1) * Width(kind)])
           == (if e.InvalidPoint? then Malformed else Decoded(true))
    decreases count
  {
    var w := Width(kind);
    var e := CheckPoints(codec, kind, data, pos, count, index).error;
    if |data| < pos + w {
      assert PointsOk(codec, kind, data, pos, 0);
    } else if Decode(codec, kind, data[pos..pos + w]).Malformed? {
      assert PointsOk(codec, kind, data, pos, 0);
    } else if Decode(codec, kind, data[pos..pos + w]).atInfinity {
      assert PointsOk(codec, kind, data, pos, 0);
    } else {
      CheckPointsFirstFailure(codec, kind, data, pos + w, count - 1, index + 1);
      assert ChunkOk(codec, kind, data, pos, 0);
      if e.Truncated? {
        var k :| 0 <= k < count - 1 && PointsOk(codec, kind, data, pos + w, k)
          && |data| < pos + w + (k + 1) * w;
        PrefixShift(codec, kind, data, pos, k);
        assert pos + w + (k + 1) * w == pos + (k + 2) * w;
      } else {
        var k := e.index - (index + 1);
        PrefixShift(codec, kind, data, pos, k);
        assert pos + w + k * w == pos + (k + 1) * w;
        assert pos + w + (k + 1) * w == pos + (k + 2) * w;
      }
    }
  }

  /** A run of k + 1 accepted points is its first point followed by a run of k. */
  lemma PrefixShift(codec: Codec, kind: Kind, data: seq<byte>, pos: nat, k: nat)
    requires ChunkOk(codec, kind, data, pos, 0)
    requires PointsOk(codec, kind, data, pos + Width(kind), k)
    ensures PointsOk(codec, kind, data, pos, k + 1)
  {
    forall j | 0 <= j < k + 1
      ensures ChunkOk(codec, kind, data, pos, j)
    {
      if j > 0 {
        ChunkShift(codec, kind, data, pos, j - 1);
      }
    }
  }

  lemma PrefixUnshift(codec: Codec, kind: Kind, data: seq<byte>, pos: nat, k: nat)
    requires PointsOk(codec, kind, data, pos, k + 1)
    ensures ChunkOk(codec, kind, data, pos, 0)
    ensures PointsOk(codec, kind, data, pos + Width(kind), k)
  {
    assert ChunkOk(codec, kind, data, pos, 0);
    var next := pos + Width(kind);
    forall j | 0 <= j < k
      ensures ChunkOk(codec, kind, data, next, j)
    {
      ChunkShift(codec, kind, data, pos, j);
    }
  }

  /**
   * The scan reads only the bytes of its own run: two files that agree on those
   * bytes, and hold all of them, give the same result.
   */
  lemma {:induction false} CheckPointsWindow(codec: Codec, kind: Kind, d1: seq<byte>, d2: seq<byte>, pos: nat, count: nat, index: nat)
    requires pos + count * Width(kind) <= |d1| && pos + count * Width(kind) <= |d2|
    requires d1[pos..pos + count * Width(kind)] == d2[pos..pos + count * Width(kind)]
    ensures CheckPoints(codec, kind, d1, pos, count, index) == CheckPoints(codec, kind, d2, pos, count, index)
    decreases count
  {
    if count > 0 {
      var w := Width(kind);
      assert pos + count * w == pos + w + (count - 1) * w;
      assert d1[pos..pos + w] == d1[pos..pos + count * w][..w];
      assert d2[pos..pos + w] == d2[pos..pos + count * w][..w];
      assert d1[pos + w..pos + count * w] == d1[pos..pos + count * w][w..];
      assert d2[pos + w..pos + count * w] == d2[pos..pos + count * w][w..];
      CheckPointsWindow(codec, kind, d1, d2, pos + w, count - 1, index + 1);
    }
  }

  /** The scan never looks at bytes before its run: files agreeing from `lo` on give the same result. */
  lemma {:induction false} CheckPointsSuffix(codec: Codec, kind: Kind, d1: seq<byte>, d2: seq<byte>, lo: nat, pos: nat, count: nat, index: nat)
    requires lo <= pos && lo <= |d1| && lo <= |d2| && d1[lo..] == d2[lo..]
    ensures CheckPoints(codec, kind, d1, pos, count, index) == CheckPoints(codec, kind, d2, pos, count, index)
    decreases count
  {
    assert |d1| == |d2|;
    if count > 0 && pos + Width(kind) <= |d1| {
      var w := Width(kind);
      forall i | pos <= i < pos + w
        ensures d1[i] == d2[i]
      {
        assert d1[i] == d1[lo..][i - lo];
        assert d2[i] == d2[lo..][i - lo];
      }
      assert d1[pos..pos + w] == d2[pos..pos + w];
      CheckPointsSuffix(codec, kind, d1, d2, lo, pos + w, count - 1, index + 1);
    }
  }

  /**
   * verify_g1_points (kind G1) and verify_g2_points (kind G2): reads `count`
   * points into a fresh buffer each, decoding each one; the result is the
   * reference scan's, and the reader stops right after the point that failed.
   */
  method VerifyPoints(reader: InputStream, codec: Codec, kind: Kind, count: nat) returns (r: Outcome<PointError>)
    requires reader.Valid()
    modifies reader
    ensures reader.Valid()
    ensures r == CheckPoints(codec, kind, reader.data, old(reader.pos), count, 0)
    ensures r.Pass? ==> reader.pos == old(reader.pos) + count * Width(kind)
    ensures r.Fail? && r.error.Truncated? ==> reader.pos == |reader.data|
    ensures r.Fail? && !r.error.Truncated? ==> reader.pos == old(reader.pos) + (r.error.index + 1) * Width(kind)
  {
    var w := Width(kind);
    for i := 0 to count
      invariant reader.Valid()
      invariant reader.pos == old(reader.pos) + i * w
      invariant CheckPoints(codec, kind, reader.data, old(reader.pos), count, 0)
             == CheckPoints(codec, kind, reader.data, reader.pos, count - i, i)
    {
      var encoded := new byte[w];
      var start := reader.pos;
      var ok := reader.ReadExact(encoded);
      if !ok {
        return Fail(Truncated);
      }
      assert encoded[..] == reader.data[start..start + w];
      assert reader.pos == old(reader.pos) + (i + 1) * w;
      match Decode(codec, kind, encoded[..]) {
        case Malformed =>
          return Fail(InvalidPoint(kind, i));
        case Decoded(atInfinity) =>
          if atInfinity {
            return Fail(PointAtInfinity(kind, i));
          }
      }
    }
    return Pass;
  }

  // The whole written challenge: the header, then the five sections at the target power.

  predicate SectionOk(codec: Codec, data: seq<byte>, p: nat, s: nat)
    requires s < SectionCount
  {
    PointsOk(codec, SectionKind(s), data, FileOffset(p, s), SectionLength(p, s))
  }

  /** A challenge at power p is valid when it has a header and every point of every section is accepted. */
  predicate ChallengeValid(codec: Codec, data: seq<byte>, p: nat)
  {
    HeaderSize <= |data| && forall s :: 0 <= s < SectionCount ==> SectionOk(codec, data, p, s)
  }

  function CheckSection(codec: Codec, data: seq<byte>, p: nat, s: nat): Outcome<PointError>
    requires s < SectionCount
  {
    CheckPoints(codec, SectionKind(s), data, FileOffset(p, s), SectionLength(p, s), 0)
  }

  /** The sections s..4 in order, stopping at the first error. */
  function CheckSections(codec: Codec, data: seq<byte>, p: nat, s: nat): Outcome<PointError>
    requires s <= SectionCount
    decreases SectionCount - s
  {
    if s == SectionCount then Pass
    else match CheckSection(codec, data, p, s)
      case Fail(e) => Fail(e)
      case Pass => CheckSections(codec, data, p, s + 1)
  }

  /** One step of the section sequence: a failing section ends it, a passing one moves on. */
  lemma CheckSectionsStep(codec: Codec, data: seq<byte>, p: nat, s: nat)
    requires s < SectionCount
    ensures CheckSection(codec, data, p, s).Fail? ==>
      CheckSections(codec, data, p, s) == CheckSection(codec, data, p, s)
    ensures CheckSection(codec, data, p, s).Pass? ==>
      CheckSections(codec, data, p, s) == CheckSections(codec, data, p, s + 1)
  {
  }

  /** The reference result of verify_reduced_challenge on a file's contents. */
  function CheckChallenge(codec: Codec, data: seq<byte>, p: nat): Outcome<PointError>
  {
    if |data| < HeaderSize then Fail(Truncated) else CheckSections(codec, data, p, 0)
  }

  lemma {:induction false} CheckSectionsPass(codec: Codec, data: seq<byte>, p: nat, s: nat)
    requires s <= SectionCount
    ensures CheckSections(codec, data, p, s).Pass? <==>
      forall s' :: s <= s' < SectionCount ==> SectionOk(codec, data, p, s')
    decreases SectionCount - s
  {
    if s < SectionCount {
      CheckPointsPass(codec, SectionKind(s), data, FileOffset(p, s), SectionLength(p, s), 0);
      CheckSectionsPass(codec, data, p, s + 1);
      assert CheckSections(codec, data, p, s).Pass? <==>
        CheckSection(codec, data, p, s).Pass? && CheckSections(codec, data, p, s + 1).Pass?;
      if forall s' :: s + 1 <= s' < SectionCount ==> SectionOk(codec, data, p, s') {
        if SectionOk(codec, data, p, s) {
          forall s' | s <= s' < SectionCount
            ensures SectionOk(codec, data, p, s')
          {
          }
        }
      }
    }
  }

  /** The verification pass succeeds exactly on valid challenges. */
  lemma CheckChallengePass(codec: Codec, data: seq<byte>, p: nat)
    ensures CheckChallenge(codec, data, p).Pass? <==> ChallengeValid(codec, data, p)
  {
    CheckSectionsPass(codec, data, p, 0);
  }

  lemma {:induction false} CheckSectionsFirstFailure(codec: Codec, data: seq<byte>, p: nat, s0: nat)
    requires s0 < SectionCount && CheckSections(codec, data, p, s0).Fail?
    ensures exists s ::
      && s0 <= s < SectionCount
      && (forall s' :: s0 <= s' < s ==> SectionOk(codec, data, p, s'))
      && CheckSection(codec, data, p, s) == CheckSections(codec, data, p, s0)
    decreases SectionCount - s0
  {
    if CheckSection(codec, data, p, s0).Fail? {
      assert CheckSection(codec, data, p, s0) == CheckSections(codec, data, p, s0);
    } else {
      CheckPointsPass(codec, SectionKind(s0), data, FileOffset(p, s0), SectionLength(p, s0), 0);
      CheckSectionsFirstFailure(codec, data, p, s0 + 1);
      var s :| s0 + 1 <= s < SectionCount
        && (forall s' :: s0 + 1 <= s' < s ==> SectionOk(codec, data, p, s'))
        && CheckSection(codec, data, p, s) == CheckSections(codec, data, p, s0 + 1);
      assert forall s' :: s0 <= s' < s ==> SectionOk(codec, data, p, s');
    }
  }

  /**
   * Fail-fast over the sections: a failing verification pass reports the
   * error of one section s, every earlier section being valid; with
   * CheckPointsFirstFailure this names the first bad point of the file.
   */
  lemma CheckChallengeFirstFailure(codec: Codec, data: seq<byte>, p: nat)
    requires HeaderSize <= |data| && CheckChallenge(codec, data, p).Fail?
    ensures exists s ::
      && 0 <= s < SectionCount
      && (forall s' :: 0 <= s' < s ==> SectionOk(codec, data, p, s'))
      && CheckSection(codec, data, p, s) == CheckChallenge(codec, data, p)
  {
    CheckSectionsFirstFailure(codec, data, p, 0);
  }

  /** A valid challenge at power p holds at least the header and the whole accumulator of power p. */
  lemma ChallengeValidSize(codec: Codec, data: seq<byte>, p: nat)
    requires ChallengeValid(codec, data, p)
    ensures HeaderSize + ExpectedSize(p) <= |data|
  {
    assert SectionOk(codec, data, p, 4);
    assert ChunkOk(codec, G2, data, FileOffset(p, 4), 0);
    SectionsTileExpectedSize(p);
  }

  lemma {:induction false} CheckSectionsWindow(codec: Codec, d1: seq<byte>, d2: seq<byte>, p: nat, s: nat)
    requires s <= SectionCount
    requires HeaderSize + ExpectedSize(p) <= |d1| && HeaderSize + ExpectedSize(p) <= |d2|
    requires d1[..HeaderSize + ExpectedSize(p)] == d2[..HeaderSize + ExpectedSize(p)]
    ensures CheckSections(codec, d1, p, s) == CheckSections(codec, d2, p, s)
    decreases SectionCount - s
  {
    if s < SectionCount {
      var lo := FileOffset(p, s);
      SectionInBounds(p, s);
      assert d1[lo..lo + SectionBytes(p, s)] == d1[..HeaderSize + ExpectedSize(p)][lo..lo + SectionBytes(p, s)];
      assert d2[lo..lo + SectionBytes(p, s)] == d2[..HeaderSize + ExpectedSize(p)][lo..lo + SectionBytes(p, s)];
      CheckPointsWindow(codec, SectionKind(s), d1, d2, lo, SectionLength(p, s), 0);
      CheckSectionsWindow(codec, d1, d2, p, s + 1);
    }
  }

  /** Bytes after the target-power accumulator are never inspected. */
  lemma CheckChallengeIgnoresTrailing(codec: Codec, data: seq<byte>, extra: seq<byte>, p: nat)
    requires HeaderSize + ExpectedSize(p) <= |data|
    ensures CheckChallenge(codec, data + extra, p) == CheckChallenge(codec, data, p)
  {
    assert (data + extra)[..HeaderSize + ExpectedSize(p)] == data[..HeaderSize + ExpectedSize(p)];
    CheckSectionsWindow(codec, data + extra, data, p, 0);
  }

  lemma {:induction false} CheckSectionsSuffix(codec: Codec, d1: seq<byte>, d2: seq<byte>, p: nat, s: nat)
    requires s <= SectionCount
    requires HeaderSize <= |d1| && HeaderSize <= |d2| && d1[HeaderSize..] == d2[HeaderSize..]
    ensures CheckSections(codec, d1, p, s) == CheckSections(codec, d2, p, s)
    decreases SectionCount - s
  {
    if s < SectionCount {
      CheckPointsSuffix(codec, SectionKind(s), d1, d2, HeaderSize, FileOffset(p, s), SectionLength(p, s), 0);
      CheckSectionsSuffix(codec, d1, d2, p, s + 1);
    }
  }

  /** The 64-byte header is read but its contents are never inspected. */
  lemma CheckChallengeIgnoresHeader(codec: Codec, h1: seq<byte>, h2: seq<byte>, body: seq<byte>, p: nat)
    requires |h1| == HeaderSize && |h2| == HeaderSize
    ensures CheckChallenge(codec, h1 + body, p) == CheckChallenge(codec, h2 + body, p)
  {
    assert (h1 + body)[HeaderSize..] == body == (h2 + body)[HeaderSize..];
    CheckSectionsSuffix(codec, h1 + body, h2 + body, p, 0);
  }

  /** Checks section s of a challenge at power p, read from the start of that section. */
  method VerifySection(reader: InputStream, codec: Codec, p: nat, s: nat) returns (r: Outcome<PointError>)
    requires s < SectionCount && reader.Valid() && reader.pos == FileOffset(p, s)
    modifies reader
    ensures reader.Valid()
    ensures r == CheckSection(codec, reader.data, p, s)
    ensures r.Pass? ==> reader.pos == FileOffset(p, s + 1)
  {
    r := VerifyPoints(reader, codec, SectionKind(s), SectionLength(p, s));
    FileOffsetNext(p, s);
  }

  /**
   * verify_reduced_challenge on the contents of the file it opens: reads the
   * header, then checks the five sections of power `targetPower` in order.
   */
  method VerifyReducedChallenge(file: seq<byte>, codec: Codec, targetPower: nat) returns (r: Outcome<PointError>)
    ensures r == CheckChallenge(codec, file, targetPower)
  {
    var reader := new InputStream(file);
    var hash := new byte[HeaderSize];
    var ok := reader.ReadExact(hash);
    if !ok {
      return Fail(Truncated);
    }
    assert reader.pos == FileOffset(targetPower, 0);
    var s := 0;
    while s < SectionCount
      invariant s <= SectionCount && reader.Valid() && reader.data == file
      invariant reader.pos == FileOffset(targetPower, s)
      invariant CheckChallenge(codec, file, targetPower) == CheckSections(codec, file, targetPower, s)
    {
      r := VerifySection(reader, codec, targetPower, s);
      CheckSectionsStep(codec, file, targetPower, s);
      if r.Fail? {
        return;
      }
      s := s + 1;
    }
    return Pass;
  }
}
