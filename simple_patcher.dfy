/**
 * SimplePatcher's two entry points as imperative code over byte sequences:
 * createPatch with its nested cursor loops writing into a growing patch
 * buffer, and applyPatch with its command loop appending to an output
 * buffer. Each method is proved to compute its specification function, and
 * the properties of those functions carry over.
 */
module SimplePatcher {
  import opened Wrappers
  import opened DataIO
  import opened Checksum
  import opened PatchFormat
  import opened PatchApply
  import opened GreedyDiff

  /** The matchLength loop: counts how far src[i..] and dst[j..] agree. */
  method MatchLength(src: seq<byte>, dst: seq<byte>, i: nat, j: nat) returns (matchLength: nat)
    requires i <= |src| && j <= |dst|
    ensures matchLength == MatchRun(src, dst, i, j)
  {
    matchLength := 0;
    while i + matchLength < |src| && j + matchLength < |dst| && src[i + matchLength] == dst[j + matchLength]
      invariant i + matchLength <= |src| && j + matchLength <= |dst|
      invariant MatchRun(src, dst, i, j) == matchLength + MatchRun(src, dst, i + matchLength, j + matchLength)
      decreases |src| - matchLength
    {
      matchLength := matchLength + 1;
    }
  }

  /** The first lookahead loop: the offset 1..31 at which src shows dst[j] again, or 0. */
  method LookaheadInSrc(src: seq<byte>, dst: seq<byte>, i: nat, j: nat) returns (offset: nat)
    ensures offset == SrcLookahead(src, dst, i, j, 1)
  {
    var lookAhead := 1;
    while lookAhead < 32 && i + lookAhead < |src| && j < |dst|
      invariant 1 <= lookAhead <= 32
      invariant SrcLookahead(src, dst, i, j, 1) == SrcLookahead(src, dst, i, j, lookAhead)
      decreases 32 - lookAhead
    {
      if src[i + lookAhead] == dst[j] {
        return lookAhead;
      }
      lookAhead := lookAhead + 1;
    }
    return 0;
  }

  /** The second lookahead loop: the offset 1..31 at which dst shows src[i] again, or 0. */
  method LookaheadInDst(src: seq<byte>, dst: seq<byte>, i: nat, j: nat) returns (offset: nat)
    ensures offset == DstLookahead(src, dst, i, j, 1)
  {
    var lookAhead := 1;
    while lookAhead < 32 && i < |src| && j + lookAhead < |dst|
      invariant 1 <= lookAhead <= 32
      invariant DstLookahead(src, dst, i, j, 1) == DstLookahead(src, dst, i, j, lookAhead)
      decreases 32 - lookAhead
    {
      if src[i] == dst[j + lookAhead] {
        return lookAhead;
      }
      lookAhead := lookAhead + 1;
    }
    return 0;
  }

  /**
   * The mismatch loop: looks ahead in src, then in dst, and otherwise forces
   * both cursors one step on, until a lookahead finds a resync byte or both
   * inputs are used up.
   */
  method SkipMismatch(src: seq<byte>, dst: seq<byte>, i0: nat, j0: nat) returns (i: nat, j: nat)
    requires i0 <= |src| && j0 <= |dst| && (i0 < |src| || j0 < |dst|)
    ensures Cursors(i, j) == Resync(src, dst, Cursors(i0, j0))
  {
    i, j := i0, j0;
    while true
      invariant i <= |src| && j <= |dst| && (i < |src| || j < |dst|)
      invariant Resync(src, dst, Cursors(i, j)) == Resync(src, dst, Cursors(i0, j0))
      decreases (|src| - i) + (|dst| - j)
    {
      var a := LookaheadInSrc(src, dst, i, j);
      if a != 0 {
        ResyncBySrc(src, dst, Cursors(i, j));
        i := i + a;
        break;
      }
      var b := LookaheadInDst(src, dst, i, j);
      if b != 0 {
        ResyncByDst(src, dst, Cursors(i, j));
        j := j + b;
        break;
      }
      ResyncByForcedStep(src, dst, Cursors(i, j));
      ghost var forced := ForcedStep(src, dst, Cursors(i, j));
      if i < |src| {
        i := i + 1;
      }
      if j < |dst| {
        j := j + 1;
      }
      assert Cursors(i, j) == forced;
      if i >= |src| && j >= |dst| {
        break;
      }
    }
  }

  /**
   * createPatch(src, dst): writes the header, then runs the outer loop,
   * emitting Equal for a run of equal bytes and otherwise Insert (src bytes
   * skipped) and then Delete (dst bytes skipped) for the mismatch region.
   * The written bytes start with writeInt(|src|), writeInt(|dst|) and the
   * digest of src, and applying them to dst gives back src.
   */
  method CreatePatch(src: seq<byte>, dst: seq<byte>) returns (patch: seq<byte>)
    requires |src| <= MaxInt32 && |dst| <= MaxInt32
    ensures patch == Patch(src, dst)
    ensures |patch| >= HeaderLength
    ensures patch[..4] == WriteInt(|src|) && patch[4..8] == WriteInt(|dst|)
    ensures patch[8..HeaderLength] == Digest(src)
    ensures Apply(patch, dst) == Success(Applied(src, false))
  {
    patch := WriteInt(|src|) + WriteInt(|dst|);
    patch := patch + Digest(src);
    ghost var header := patch;
    assert patch == header + EncodeAll([]);
    var i: nat, j: nat := 0, 0;
    ghost var emitted: seq<Cmd> := [];
    while i < |src| || j < |dst|
      invariant i <= |src| && j <= |dst|
      invariant emitted + DiffFrom(src, dst, Cursors(i, j)) == Diff(src, dst)
      invariant patch == header + EncodeAll(emitted)
      decreases (|src| - i) + (|dst| - j)
    {
      var matchLength := MatchLength(src, dst, i, j);
      if matchLength > 0 {
        ghost var next, d := emitted + [Equal(matchLength)], Cursors(i + matchLength, j + matchLength);
        ghost var written := patch + [CommandEqual] + WriteInt(matchLength);
        EqualPassKeeps(emitted, src, dst, i, j, matchLength);
        WriteEqual(patch, header, emitted, matchLength);
        patch := patch + [CommandEqual] + WriteInt(matchLength);
        emitted := next;
        i, j := i + matchLength, j + matchLength;
        assert Cursors(i, j) == d && DiffFrom(src, dst, Cursors(i, j)) == DiffFrom(src, dst, d);
        assert patch == written && emitted == next;
        assert emitted + DiffFrom(src, dst, Cursors(i, j)) == next + DiffFrom(src, dst, d);
        assert emitted + DiffFrom(src, dst, Cursors(i, j)) == Diff(src, dst);
        assert patch == header + EncodeAll(emitted);
      } else {
        var srcDiffStart, dstDiffStart := i, j;
        i, j := SkipMismatch(src, dst, i, j);
        ghost var c, d := Cursors(srcDiffStart, dstDiffStart), Cursors(i, j);
        ghost var next := emitted + Region(src, dst, c, d);
        RegionPassKeeps(emitted, src, dst, c, d);
        WriteCmds(patch, header, emitted, Region(src, dst, c, d));
        patch := WriteMismatch(src, dst, patch, srcDiffStart, dstDiffStart, i, j);
        emitted := next;
        assert Cursors(i, j) == d && DiffFrom(src, dst, Cursors(i, j)) == DiffFrom(src, dst, d);
      }
    }
    assert DiffFrom(src, dst, Cursors(i, j)) == [];
    assert emitted == Diff(src, dst);
    HeaderFields(patch, src, dst, Diff(src, dst));
    PatchRoundTrip(src, dst);
  }

  /**
   * The mismatch branch of createPatch once the cursors have resynchronised:
   * an Insert of the skipped src bytes if there are any, then a Delete of the
   * skipped dst bytes if there are any.
   */
  method WriteMismatch(src: seq<byte>, dst: seq<byte>, patch0: seq<byte>, srcDiffStart: nat, dstDiffStart: nat, i: nat, j: nat)
    returns (patch: seq<byte>)
    requires srcDiffStart <= i <= |src| && dstDiffStart <= j <= |dst|
    ensures patch == patch0 + EncodeAll(Region(src, dst, Cursors(srcDiffStart, dstDiffStart), Cursors(i, j)))
  {
    patch := patch0;
    ghost var written: seq<Cmd> := [];
    if i > srcDiffStart {
      patch := patch + [CommandInsert] + WriteInt(i - srcDiffStart) + src[srcDiffStart..i];
      written := [Insert(src[srcDiffStart..i])];
      assert EncodeAll(written) == EncodeCmd(Insert(src[srcDiffStart..i])) + EncodeAll([]);
    }
    assert patch == patch0 + EncodeAll(written);
    if j > dstDiffStart {
      WriteDelete(patch, patch0, written, dst[dstDiffStart..j], j - dstDiffStart);
      patch := patch + [CommandDelete] + WriteInt(j - dstDiffStart) + dst[dstDiffStart..j];
      written := written + [Delete(dst[dstDiffStart..j])];
    }
    assert written == Region(src, dst, Cursors(srcDiffStart, dstDiffStart), Cursors(i, j));
  }

  /** Appending the encoding of a command list to a written stream encodes the longer list. */
  lemma WriteCmds(patch: seq<byte>, header: seq<byte>, emitted: seq<Cmd>, cmds: seq<Cmd>)
    requires patch == header + EncodeAll(emitted)
    ensures patch + EncodeAll(cmds) == header + EncodeAll(emitted + cmds)
  {
    EncodeAllAppend(emitted, cmds);
    Concat3(header, EncodeAll(emitted), EncodeAll(cmds));
  }

  /** The next pass of the outer loop continues the command list where the previous ones stopped. */
  lemma PassKeeps(emitted: seq<Cmd>, src: seq<byte>, dst: seq<byte>, c: Cursors)
    requires c.i <= |src| && c.j <= |dst| && (c.i < |src| || c.j < |dst|)
    requires emitted + DiffFrom(src, dst, c) == Diff(src, dst)
    ensures (emitted + OuterPass(src, dst, c).emitted) + DiffFrom(src, dst, OuterPass(src, dst, c).next) == Diff(src, dst)
  {
    DiffFromUnfold(src, dst, c);
  }

  /** After an Equal pass, the command list continues from the cursors past the run. */
  lemma EqualPassKeeps(emitted: seq<Cmd>, src: seq<byte>, dst: seq<byte>, i: nat, j: nat, n: nat)
    requires i <= |src| && j <= |dst| && n == MatchRun(src, dst, i, j) && n > 0
    requires emitted + DiffFrom(src, dst, Cursors(i, j)) == Diff(src, dst)
    ensures (emitted + [Equal(n)]) + DiffFrom(src, dst, Cursors(i + n, j + n)) == Diff(src, dst)
  {
    var c := Cursors(i, j);
    PassKeeps(emitted, src, dst, c);
    EqualPassHead(src, dst, c);
    var p := OuterPass(src, dst, c);
    assert p.emitted == [Equal(n)] && p.next == Cursors(i + n, j + n);
    assert (emitted + p.emitted) + DiffFrom(src, dst, p.next) == Diff(src, dst);
  }

  /** After a mismatch pass, the command list continues from the resynchronised cursors. */
  lemma RegionPassKeeps(emitted: seq<Cmd>, src: seq<byte>, dst: seq<byte>, c: Cursors, d: Cursors)
    requires c.i <= |src| && c.j <= |dst| && (c.i < |src| || c.j < |dst|) && MatchRun(src, dst, c.i, c.j) == 0
    requires d == Resync(src, dst, c)
    requires emitted + DiffFrom(src, dst, c) == Diff(src, dst)
    ensures (emitted + Region(src, dst, c, d)) + DiffFrom(src, dst, d) == Diff(src, dst)
  {
    PassKeeps(emitted, src, dst, c);
    RegionPass(src, dst, c);
  }

  /** Writing tag 0 and the run length encodes one more Equal. */
  lemma WriteEqual(patch: seq<byte>, header: seq<byte>, emitted: seq<Cmd>, n: nat)
    requires patch == header + EncodeAll(emitted)
    ensures patch + [CommandEqual] + WriteInt(n) == header + EncodeAll(emitted + [Equal(n)])
  {
    var e := EncodeCmd(Equal(n));
    assert e == [CommandEqual] + WriteInt(n);
    EncodeAllSnoc(emitted, Equal(n));
    Concat3(patch, [CommandEqual], WriteInt(n));
    Concat3(header, EncodeAll(emitted), e);
  }

  /** Writing tag 2, the length and the dst bytes encodes one more Delete. */
  lemma WriteDelete(patch: seq<byte>, header: seq<byte>, emitted: seq<Cmd>, bs: seq<byte>, n: nat)
    requires patch == header + EncodeAll(emitted) && n == |bs|
    ensures patch + [CommandDelete] + WriteInt(n) + bs == header + EncodeAll(emitted + [Delete(bs)])
  {
    var e := EncodeCmd(Delete(bs));
    assert e == [CommandDelete] + WriteInt(n) + bs;
    EncodeAllSnoc(emitted, Delete(bs));
    Concat3(patch, [CommandDelete] + WriteInt(n), bs);
    Concat3(patch, [CommandDelete], WriteInt(n));
    Concat3(header, EncodeAll(emitted), e);
  }

  /** Concatenation of byte strings is associative. */
  lemma Concat3(a: seq<byte>, b: seq<byte>, c: seq<byte>)
    ensures a + b + c == a + (b + c)
  {
  }

  /** The header fields at the front of a written patch. */
  lemma HeaderFields(patch: seq<byte>, src: seq<byte>, dst: seq<byte>, cmds: seq<Cmd>)
    requires patch == Header(src, dst) + EncodeAll(cmds)
    ensures |patch| >= HeaderLength
    ensures patch[..4] == WriteInt(|src|) && patch[4..8] == WriteInt(|dst|)
    ensures patch[8..HeaderLength] == Digest(src)
  {
    var h := Header(src, dst);
    assert patch[..4] == h[..4] && patch[4..8] == h[4..8] && patch[8..HeaderLength] == h[8..];
  }

  /**
   * One pass of the command loop of applyPatch: reads the command byte, then
   * its length, then its payload, raising the error the Java code raises at
   * the first check that fails.
   */
  method ExecuteCommand(patch: seq<byte>, dst: seq<byte>, at: nat, dstPos: nat, output: seq<byte>)
    returns (r: Result<Cursor, Error>)
    requires at < |patch| && dstPos <= |dst|
    ensures r == ExecCommand(patch, dst, Cursor(at, dstPos, output))
  {
    var command := patch[at];
    var next := at + 1;
    if command == CommandEqual {
      if |patch| - next < 4 {
        return Failure(Truncated);
      }
      var equalLength := ReadInt(patch[next..next + 4]);
      next := next + 4;
      if Wrap32(dstPos + equalLength) > |dst| {
        return Failure(Boundary);
      }
      if equalLength < 0 || dstPos + equalLength > |dst| {
        return Failure(InvalidLength);
      }
      return Success(Cursor(next, dstPos + equalLength, output + dst[dstPos..dstPos + equalLength]));
    } else if command == CommandInsert {
      if |patch| - next < 4 {
        return Failure(Truncated);
      }
      var insertLength := ReadInt(patch[next..next + 4]);
      next := next + 4;
      if insertLength < 0 {
        return Failure(InvalidLength);
      }
      if |patch| - next < insertLength {
        return Failure(Truncated);
      }
      var insertData := patch[next..next + insertLength];
      return Success(Cursor(next + insertLength, dstPos, output + insertData));
    } else if command == CommandDelete {
      if |patch| - next < 4 {
        return Failure(Truncated);
      }
      var deleteLength := ReadInt(patch[next..next + 4]);
      next := next + 4;
      if deleteLength < 0 {
        return Failure(InvalidLength);
      }
      if |patch| - next < deleteLength {
        return Failure(Truncated);
      }
      var expectedDeleteData := patch[next..next + deleteLength];
      if Wrap32(dstPos + deleteLength) > |dst| {
        return Failure(Boundary);
      }
      if dstPos + deleteLength > |dst| {
        return Failure(InvalidLength);
      }
      if expectedDeleteData != dst[dstPos..dstPos + deleteLength] {
        return Failure(ContentMismatch);
      }
      return Success(Cursor(next + deleteLength, dstPos + deleteLength, output));
    } else {
      return Failure(UnknownCommand(command));
    }
  }

  /**
   * applyPatch(patch, dst): reads the two sizes, rejects a dst of the wrong
   * size before reading the digest, replays the commands while bytes remain,
   * then checks that dst was used up and that the digest matches.
   */
  method ApplyPatch(patch: seq<byte>, dst: seq<byte>) returns (r: Result<Applied, Error>)
    ensures r == Apply(patch, dst)
  {
    if |patch| < 8 {
      return Failure(Truncated);
    }
    var originalSrcSize := ReadInt(patch[..4]);
    var originalDstSize := ReadInt(patch[4..8]);
    if |dst| != originalDstSize {
      return Failure(SizeMismatch(originalDstSize, |dst|));
    }
    if |patch| < HeaderLength {
      return Failure(Truncated);
    }
    var expectedDigest := patch[8..HeaderLength];
    var at: nat, dstPos: nat, output: seq<byte> := HeaderLength, 0, [];
    while at < |patch|
      invariant at <= |patch| && dstPos <= |dst|
      invariant Replay(patch, dst, Cursor(at, dstPos, output)) == Replay(patch, dst, Cursor(HeaderLength, 0, []))
      decreases |patch| - at
    {
      var step := ExecuteCommand(patch, dst, at, dstPos, output);
      match step
      case Failure(e) =>
        return Failure(e);
      case Success(t) =>
        at, dstPos, output := t.at, t.dstPos, t.out;
    }
    if dstPos != |dst| {
      return Failure(NotFullyProcessed);
    }
    if Digest(output) != expectedDigest {
      return Failure(ChecksumMismatch);
    }
    return Success(Applied(output, |output| != originalSrcSize));
  }
}
