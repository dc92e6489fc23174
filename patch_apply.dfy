/**
 * What applyPatch computes, as functions over the patch bytes and dst: the
 * header checks, the command-by-command replay and the final digest check,
 * with the order in which the Java code raises its errors.
 */
module PatchApply {
  import opened Wrappers
  import opened DataIO
  import opened Checksum
  import opened PatchFormat

  /** The ways applyPatch can fail. */
  datatype Error =
    | Truncated                           // EOFException: the patch ends inside a header, length or payload
    | SizeMismatch(expected: int, actual: nat)  // dst length differs from the header's dstLength
    | Boundary                            // "exceeded target file boundary"
    | ContentMismatch                     // Delete payload differs from dst
    | UnknownCommand(code: byte)          // "Patch file format error: unknown command code"
    | InvalidLength                       // Java runtime exception on a negative or overflowing length
    | NotFullyProcessed                   // commands ended before the end of dst
    | ChecksumMismatch                    // digest of the output differs from the header's

  /** The rebuilt bytes, and whether the "size mismatch after applying patch" warning is logged. */
  datatype Applied = Applied(output: seq<byte>, sizeWarning: bool)

  /** Replay state between commands: the next patch byte, the dst cursor (dstPos) and the output so far. */
  datatype Cursor = Cursor(at: nat, dstPos: nat, out: seq<byte>)

  /**
   * One pass of the command loop: reads the tag at `at`, its length and
   * payload, and performs the command. Java int arithmetic is kept: the
   * boundary test compares the wrapped sum dstPos + length, and a length that
   * is negative or whose sum overflows ends in a runtime exception
   * (InvalidLength) rather than a boundary error. A Delete reads its payload
   * before its boundary test, so a short patch is Truncated first.
   */
  function ExecCommand(patch: seq<byte>, dst: seq<byte>, s: Cursor): (r: Result<Cursor, Error>)
    requires s.at < |patch| && s.dstPos <= |dst|
    ensures r.Success? ==> s.at < r.value.at <= |patch| && s.dstPos <= r.value.dstPos <= |dst|
  {
    var tag := patch[s.at];
    if tag != CommandEqual && tag != CommandInsert && tag != CommandDelete then Failure(UnknownCommand(tag))
    else if |patch| - (s.at + 1) < 4 then Failure(Truncated)
    else RunCommand(patch, dst, s, tag, ReadInt(patch[s.at + 1..s.at + 5]))
  }

  /**
   * The body of one command once its tag (0, 1 or 2) and its length n are
   * read; the payload, if any, starts at s.at + 5.
   */
  function RunCommand(patch: seq<byte>, dst: seq<byte>, s: Cursor, tag: byte, n: int): (r: Result<Cursor, Error>)
    requires s.at + 5 <= |patch| && s.dstPos <= |dst|
    ensures r.Success? ==> s.at < r.value.at <= |patch| && s.dstPos <= r.value.dstPos <= |dst|
  {
    var next := s.at + 5;
    if tag == CommandEqual then
      if Wrap32(s.dstPos + n) > |dst| then Failure(Boundary)
      else if n < 0 || s.dstPos + n > |dst| then Failure(InvalidLength)
      else Success(Cursor(next, s.dstPos + n, s.out + dst[s.dstPos..s.dstPos + n]))
    else if n < 0 then Failure(InvalidLength)
    else if |patch| - next < n then Failure(Truncated)
    else if tag == CommandInsert then
      Success(Cursor(next + n, s.dstPos, s.out + patch[next..next + n]))
    else DeleteChecks(patch, dst, s, n)
  }

  /**
   * The rest of a Delete once its n payload bytes are read: the boundary
   * test, then the comparison of the payload with dst at dstPos.
   */
  function DeleteChecks(patch: seq<byte>, dst: seq<byte>, s: Cursor, n: nat): (r: Result<Cursor, Error>)
    requires s.at + 5 + n <= |patch| && s.dstPos <= |dst|
    ensures r.Success? ==> r.value == Cursor(s.at + 5 + n, s.dstPos + n, s.out) && s.dstPos + n <= |dst|
  {
    var next := s.at + 5;
    if Wrap32(s.dstPos + n) > |dst| then Failure(Boundary)
    else if s.dstPos + n > |dst| then Failure(InvalidLength)
    else if patch[next..next + n] != dst[s.dstPos..s.dstPos + n] then Failure(ContentMismatch)
    else Success(Cursor(next + n, s.dstPos + n, s.out))
  }

  /** The command loop: runs commands from s until the patch is exhausted or one fails. */
  function Replay(patch: seq<byte>, dst: seq<byte>, s: Cursor): Result<Cursor, Error>
    requires s.at <= |patch| && s.dstPos <= |dst|
    decreases |patch| - s.at, 1
  {
    if s.at == |patch| then Success(s) else ReplayNext(patch, dst, s)
  }

  /** One turn of the command loop: the next command, then the loop from where it leaves off. */
  function ReplayNext(patch: seq<byte>, dst: seq<byte>, s: Cursor): Result<Cursor, Error>
    requires s.at < |patch| && s.dstPos <= |dst|
    decreases |patch| - s.at, 0
  {
    match ExecCommand(patch, dst, s)
    case Failure(e) => Failure(e)
    case Success(t) => Replay(patch, dst, t)
  }

  /**
   * applyPatch(patch, dst). It succeeds only when dst has the header's length,
   * the commands consume dst exactly and the output's digest is the header's;
   * a wrong output length only sets the warning.
   */
  function Apply(patch: seq<byte>, dst: seq<byte>): (r: Result<Applied, Error>)
    ensures r.Success? ==>
      && HeaderLength <= |patch|
      && |dst| == ReadInt(patch[4..8])
      && Digest(r.value.output) == patch[8..HeaderLength]
      && r.value.sizeWarning == (|r.value.output| != ReadInt(patch[..4]))
  {
    if |patch| < 8 then Failure(Truncated)
    else
      var srcSize := ReadInt(patch[..4]);
      var dstSize := ReadInt(patch[4..8]);
      if |dst| != dstSize then Failure(SizeMismatch(dstSize, |dst|))
      else if |patch| < HeaderLength then Failure(Truncated)
      else
        match Replay(patch, dst, Cursor(HeaderLength, 0, []))
        case Failure(e) => Failure(e)
        case Success(p) =>
          if p.dstPos != |dst| then Failure(NotFullyProcessed)
          else if Digest(p.out) != patch[8..HeaderLength] then Failure(ChecksumMismatch)
          else Success(Applied(p.out, |p.out| != srcSize))
  }

  /**
   * Replay only ever appends to the output and moves the dst cursor forward:
   * a successful replay extends what was written before and ends at the end
   * of the patch.
   */
  lemma {:induction false} ReplayExtends(patch: seq<byte>, dst: seq<byte>, s: Cursor)
    requires s.at <= |patch| && s.dstPos <= |dst|
    requires Replay(patch, dst, s).Success?
    ensures s.out <= Replay(patch, dst, s).value.out
    ensures s.dstPos <= Replay(patch, dst, s).value.dstPos <= |dst|
    ensures Replay(patch, dst, s).value.at == |patch|
    decreases |patch| - s.at
  {
    if s.at < |patch| {
      ReplayExtends(patch, dst, ExecCommand(patch, dst, s).value);
    }
  }

  /** A slice of a slice is a slice of the original. */
  lemma SliceOfSlice(b: seq<byte>, lo: nat, hi: nat, k1: nat, k2: nat)
    requires lo <= hi <= |b| && k1 <= k2 <= hi - lo
    ensures b[lo..hi][k1..k2] == b[lo + k1..lo + k2]
  {
    forall k | 0 <= k < k2 - k1
      ensures b[lo..hi][k1..k2][k] == b[lo + k1..lo + k2][k]
    {
      assert b[lo..hi][k1..k2][k] == b[lo..hi][k1 + k] == b[lo + k1 + k];
    }
  }

  /** Reading the tag, length and payload of an encoded command back out of the patch. */
  lemma EncodedFields(patch: seq<byte>, at: nat, c: Cmd)
    requires EncodedAt(patch, at, c)
    requires Length(c) <= MaxInt32
    ensures |EncodeCmd(c)| == 5 + |Payload(c)|
    ensures patch[at] == Tag(c)
    ensures ReadInt(patch[at + 1..at + 5]) == Length(c)
    ensures patch[at + 5..at + |EncodeCmd(c)|] == Payload(c)
  {
    var e := EncodeCmd(c);
    EncodeCmdParts(c);
    SliceOfSlice(patch, at, at + |e|, 0, 1);
    SliceOfSlice(patch, at, at + |e|, 1, 5);
    SliceOfSlice(patch, at, at + |e|, 5, |e|);
    assert patch[at..at + 1] == e[..1];
    assert patch[at] == patch[at..at + 1][0];
    ReadWriteInt(Length(c));
  }

  /** The cursor a script command leaves behind once it has executed. */
  function After(c: Cmd, src: seq<byte>, i: nat, s: Cursor): Cursor
    requires i + SrcLen(c) <= |src|
  {
    Cursor(s.at + |EncodeCmd(c)|, s.dstPos + DstLen(c), s.out + src[i..i + SrcLen(c)])
  }

  lemma ExecEqual(patch: seq<byte>, c: Cmd, src: seq<byte>, dst: seq<byte>, i: nat, s: Cursor)
    requires c.Equal? && |src| <= MaxInt32 && |dst| <= MaxInt32
    requires Step(c, src, dst, i, s.dstPos)
    requires EncodedAt(patch, s.at, c)
    ensures s.at < |patch| && s.dstPos <= |dst| && i + SrcLen(c) <= |src|
    ensures ExecCommand(patch, dst, s) == Success(After(c, src, i, s))
  {
    var n := c.n;
    EncodedFields(patch, s.at, c);
    assert patch[s.at] == CommandEqual;
    assert ReadInt(patch[s.at + 1..s.at + 5]) == n;
    assert Wrap32(s.dstPos + n) == s.dstPos + n;
    assert dst[s.dstPos..s.dstPos + n] == src[i..i + n];
  }

  lemma ExecInsert(patch: seq<byte>, c: Cmd, src: seq<byte>, dst: seq<byte>, i: nat, s: Cursor)
    requires c.Insert? && |src| <= MaxInt32 && |dst| <= MaxInt32
    requires Step(c, src, dst, i, s.dstPos)
    requires EncodedAt(patch, s.at, c)
    ensures s.at < |patch| && s.dstPos <= |dst| && i + SrcLen(c) <= |src|
    ensures ExecCommand(patch, dst, s) == Success(After(c, src, i, s))
  {
    var bs := c.bytes;
    EncodedFields(patch, s.at, c);
    assert patch[s.at] == CommandInsert;
    assert ReadInt(patch[s.at + 1..s.at + 5]) == |bs|;
    assert patch[s.at + 5..s.at + 5 + |bs|] == bs == src[i..i + |bs|];
  }

  lemma ExecDelete(patch: seq<byte>, c: Cmd, src: seq<byte>, dst: seq<byte>, i: nat, s: Cursor)
    requires c.Delete? && |src| <= MaxInt32 && |dst| <= MaxInt32
    requires Step(c, src, dst, i, s.dstPos)
    requires EncodedAt(patch, s.at, c)
    ensures s.at < |patch| && s.dstPos <= |dst| && i + SrcLen(c) <= |src|
    ensures ExecCommand(patch, dst, s) == Success(After(c, src, i, s))
  {
    var bs := c.bytes;
    var n := |bs|;
    EncodedFields(patch, s.at, c);
    assert patch[s.at] == CommandDelete;
    assert ReadInt(patch[s.at + 1..s.at + 5]) == n;
    assert Wrap32(s.dstPos + n) == s.dstPos + n;
    assert patch[s.at + 5..s.at + 5 + n] == bs == dst[s.dstPos..s.dstPos + n];
    assert s.out + src[i..i] == s.out;
  }

  /** Executing one command of a script appends its src bytes and moves the dst cursor past its dst bytes. */
  lemma ExecScriptCmd(patch: seq<byte>, c: Cmd, src: seq<byte>, dst: seq<byte>, i: nat, s: Cursor)
    requires |src| <= MaxInt32 && |dst| <= MaxInt32
    requires Step(c, src, dst, i, s.dstPos)
    requires EncodedAt(patch, s.at, c)
    ensures s.at < |patch| && s.dstPos <= |dst| && i + SrcLen(c) <= |src|
    ensures ExecCommand(patch, dst, s) == Success(After(c, src, i, s))
  {
    if c.Equal? {
      ExecEqual(patch, c, src, dst, i, s);
    } else if c.Insert? {
      ExecInsert(patch, c, src, dst, i, s);
    } else {
      ExecDelete(patch, c, src, dst, i, s);
    }
  }

  /** A command that succeeds hands the rest of the loop its resulting state. */
  lemma ReplayStep(patch: seq<byte>, dst: seq<byte>, s: Cursor, t: Cursor)
    requires s.at < |patch| && s.dstPos <= |dst|
    requires ExecCommand(patch, dst, s) == Success(t)
    ensures Replay(patch, dst, s) == Replay(patch, dst, t)
  {
  }

  /** A prefix of b followed by the next slice is the longer prefix. */
  lemma PrefixExtend(b: seq<byte>, i: nat, k: nat)
    requires i <= k <= |b|
    ensures b[..i] + b[i..k] == b[..k]
  {
  }

  /**
   * The first command of an encoded script executes and leaves the cursor
   * past its bytes, past its dst bytes and with the output at the longer
   * prefix of src.
   */
  lemma ReplayScriptHead(patch: seq<byte>, cmds: seq<Cmd>, src: seq<byte>, dst: seq<byte>, i: nat, j: nat, at: nat)
    requires |src| <= MaxInt32 && |dst| <= MaxInt32
    requires cmds != [] && Script(cmds, src, dst, i, j, |src|, |dst|)
    requires EncodesFrom(patch, at, cmds)
    ensures at < |patch| && j <= |dst| && i + SrcLen(cmds[0]) <= |src|
    ensures at + |EncodeCmd(cmds[0])| <= |patch| && j + DstLen(cmds[0]) <= |dst|
    ensures Replay(patch, dst, Cursor(at, j, src[..i]))
         == Replay(patch, dst, Cursor(at + |EncodeCmd(cmds[0])|, j + DstLen(cmds[0]), src[..i + SrcLen(cmds[0])]))
    ensures Script(cmds[1..], src, dst, i + SrcLen(cmds[0]), j + DstLen(cmds[0]), |src|, |dst|)
    ensures EncodesFrom(patch, at + |EncodeCmd(cmds[0])|, cmds[1..])
  {
    ScriptCons(cmds, src, dst, i, j, |src|, |dst|);
    EncodesCons(patch, at, cmds);
    var s := Cursor(at, j, src[..i]);
    var t := Cursor(at + |EncodeCmd(cmds[0])|, j + DstLen(cmds[0]), src[..i + SrcLen(cmds[0])]);
    ExecScriptCmd(patch, cmds[0], src, dst, i, s);
    AfterOut(cmds[0], src, i, s);
    assert After(cmds[0], src, i, s) == t;
    ReplayStep(patch, dst, s, t);
  }

  /** A command that starts with the output at src[..i] leaves it at src[..i + SrcLen(c)]. */
  lemma AfterOut(c: Cmd, src: seq<byte>, i: nat, s: Cursor)
    requires i + SrcLen(c) <= |src| && s.out == src[..i]
    ensures After(c, src, i, s).out == src[..i + SrcLen(c)]
  {
    PrefixExtend(src, i, i + SrcLen(c));
  }

  /**
   * The core of the round trip: if the output so far is src[..i] and the
   * stream from `at` on encodes a script that takes the cursors from (i, j)
   * to the ends of src and dst, replaying it produces all of src and leaves
   * the dst cursor at the end of dst.
   */
  lemma {:induction false} ReplayScript(patch: seq<byte>, cmds: seq<Cmd>, src: seq<byte>, dst: seq<byte>, i: nat, j: nat, at: nat)
    requires |src| <= MaxInt32 && |dst| <= MaxInt32
    requires Script(cmds, src, dst, i, j, |src|, |dst|)
    requires i <= |src| && at <= |patch| && j <= |dst|
    requires EncodesFrom(patch, at, cmds)
    ensures Replay(patch, dst, Cursor(at, j, src[..i])) == Success(Cursor(|patch|, |dst|, src))
    decreases |cmds|
  {
    if cmds == [] {
      assert src[..i] == src;
    } else {
      var i1 := i + SrcLen(cmds[0]);
      var j1 := j + DstLen(cmds[0]);
      var at1 := at + |EncodeCmd(cmds[0])|;
      ReplayScriptHead(patch, cmds, src, dst, i, j, at);
      ReplayScript(patch, cmds[1..], src, dst, i1, j1, at1);
      assert Replay(patch, dst, Cursor(at, j, src[..i])) == Replay(patch, dst, Cursor(at1, j1, src[..i1]));
    }
  }

  /** applyPatch returns the replayed output once the header matches, dst is used up and the digest agrees. */
  lemma ApplyAccepts(patch: seq<byte>, dst: seq<byte>, out: seq<byte>)
    requires HeaderLength <= |patch| && |dst| == ReadInt(patch[4..8])
    requires Replay(patch, dst, Cursor(HeaderLength, 0, [])) == Success(Cursor(|patch|, |dst|, out))
    requires Digest(out) == patch[8..HeaderLength]
    ensures Apply(patch, dst) == Success(Applied(out, |out| != ReadInt(patch[..4])))
  {
  }

  /**
   * The size guard runs before anything past the two header ints is read:
   * whatever follows them, a dst of another length is refused.
   */
  lemma SizeGuardFirst(ints: seq<byte>, rest: seq<byte>, dst: seq<byte>)
    requires |ints| == 8 && |dst| != ReadInt(ints[4..8])
    ensures Apply(ints + rest, dst) == Failure(SizeMismatch(ReadInt(ints[4..8]), |dst|))
  {
    assert (ints + rest)[4..8] == ints[4..8];
  }

  /** A command that fails stops the loop with its error. */
  lemma ReplayStops(patch: seq<byte>, dst: seq<byte>, s: Cursor, e: Error)
    requires s.at < |patch| && s.dstPos <= |dst|
    requires ExecCommand(patch, dst, s) == Failure(e)
    ensures Replay(patch, dst, s) == Failure(e)
  {
    assert ReplayNext(patch, dst, s) == Failure(e);
  }

  /** Once a known tag and a full length field are there, a command is RunCommand on that tag and length. */
  lemma CommandBody(patch: seq<byte>, dst: seq<byte>, s: Cursor, n: int)
    requires s.at + 5 <= |patch| && s.dstPos <= |dst|
    requires patch[s.at] == CommandEqual || patch[s.at] == CommandInsert || patch[s.at] == CommandDelete
    requires n == ReadInt(patch[s.at + 1..s.at + 5])
    ensures ExecCommand(patch, dst, s) == RunCommand(patch, dst, s, patch[s.at], n)
  {
  }

  /** A tag other than 0, 1 or 2 is a format error, whatever follows it. */
  lemma UnknownTagFails(patch: seq<byte>, dst: seq<byte>, s: Cursor)
    requires s.at < |patch| && s.dstPos <= |dst|
    requires patch[s.at] != CommandEqual && patch[s.at] != CommandInsert && patch[s.at] != CommandDelete
    ensures Replay(patch, dst, s) == Failure(UnknownCommand(patch[s.at]))
  {
    ReplayStops(patch, dst, s, UnknownCommand(patch[s.at]));
  }

  /** An Equal reaching past the end of dst is a boundary error (when the Java sum does not overflow). */
  lemma EqualPastEndFails(patch: seq<byte>, dst: seq<byte>, s: Cursor, n: int)
    requires s.at + 5 <= |patch| && s.dstPos <= |dst| && patch[s.at] == CommandEqual
    requires n == ReadInt(patch[s.at + 1..s.at + 5])
    requires 0 <= n && |dst| < s.dstPos + n <= MaxInt32
    ensures Replay(patch, dst, s) == Failure(Boundary)
  {
    CommandBody(patch, dst, s, n);
    assert RunCommand(patch, dst, s, CommandEqual, n) == Failure(Boundary);
    ReplayStops(patch, dst, s, Boundary);
  }

  /**
   * A Delete reads its payload before its boundary test: a Delete whose
   * payload is cut short is Truncated, even when it also reaches past dst.
   */
  lemma DeleteReadsPayloadFirst(patch: seq<byte>, dst: seq<byte>, s: Cursor, n: int)
    requires s.at + 5 <= |patch| && s.dstPos <= |dst| && patch[s.at] == CommandDelete
    requires n == ReadInt(patch[s.at + 1..s.at + 5])
    requires 0 <= n && |patch| - (s.at + 5) < n
    ensures Replay(patch, dst, s) == Failure(Truncated)
  {
    CommandBody(patch, dst, s, n);
    assert RunCommand(patch, dst, s, CommandDelete, n) == Failure(Truncated);
    ReplayStops(patch, dst, s, Truncated);
  }

  /** A complete Delete reaching past the end of dst is a boundary error (when the Java sum does not overflow). */
  lemma DeletePastEndFails(patch: seq<byte>, dst: seq<byte>, s: Cursor, n: int)
    requires s.at + 5 <= |patch| && s.dstPos <= |dst| && patch[s.at] == CommandDelete
    requires n == ReadInt(patch[s.at + 1..s.at + 5])
    requires 0 <= n <= |patch| - (s.at + 5) && |dst| < s.dstPos + n <= MaxInt32
    ensures Replay(patch, dst, s) == Failure(Boundary)
  {
    CommandBody(patch, dst, s, n);
    assert DeleteChecks(patch, dst, s, n) == Failure(Boundary);
    ReplayStops(patch, dst, s, Boundary);
  }

  /** A Delete whose payload differs from dst at some offset k is a content mismatch. */
  lemma DeleteMismatchFails(patch: seq<byte>, dst: seq<byte>, s: Cursor, n: int, k: nat)
    requires s.at + 5 <= |patch| && s.dstPos <= |dst| && patch[s.at] == CommandDelete
    requires n == ReadInt(patch[s.at + 1..s.at + 5])
    requires 0 <= n <= |patch| - (s.at + 5) && s.dstPos + n <= |dst| <= MaxInt32
    requires k < n && patch[s.at + 5 + k] != dst[s.dstPos + k]
    ensures Replay(patch, dst, s) == Failure(ContentMismatch)
  {
    var next := s.at + 5;
    assert patch[next..next + n][k] != dst[s.dstPos..s.dstPos + n][k];
    assert IsInt32(s.dstPos + n);
    assert DeleteChecks(patch, dst, s, n) == Failure(ContentMismatch);
    CommandBody(patch, dst, s, n);
    ReplayStops(patch, dst, s, ContentMismatch);
  }

  /**
   * Every command error is fatal: once the header is accepted, an error in
   * the command loop is the error of applyPatch.
   */
  lemma CommandErrorIsFatal(patch: seq<byte>, dst: seq<byte>, e: Error)
    requires HeaderLength <= |patch| && |dst| == ReadInt(patch[4..8])
    requires Replay(patch, dst, Cursor(HeaderLength, 0, [])) == Failure(e)
    ensures Apply(patch, dst) == Failure(e)
  {
  }

  /**
   * After the last command: dst not used up is an error, then a digest of
   * the output other than the header's is an error.
   */
  lemma EndOfStreamChecks(patch: seq<byte>, dst: seq<byte>, p: Cursor)
    requires HeaderLength <= |patch| && |dst| == ReadInt(patch[4..8])
    requires Replay(patch, dst, Cursor(HeaderLength, 0, [])) == Success(p)
    ensures p.dstPos != |dst| ==> Apply(patch, dst) == Failure(NotFullyProcessed)
    ensures p.dstPos == |dst| && Digest(p.out) != patch[8..HeaderLength] ==> Apply(patch, dst) == Failure(ChecksumMismatch)
  {
  }

  /**
   * applyPatch(Header(src, dst) + the encoded script, dst) succeeds and
   * returns src, without the size warning.
   */
  lemma RoundTrip(cmds: seq<Cmd>, src: seq<byte>, dst: seq<byte>)
    requires |src| <= MaxInt32 && |dst| <= MaxInt32
    requires Script(cmds, src, dst, 0, 0, |src|, |dst|)
    ensures Apply(Header(src, dst) + EncodeAll(cmds), dst) == Success(Applied(src, false))
  {
    var h := Header(src, dst);
    var patch := h + EncodeAll(cmds);
    assert patch[..4] == WriteInt(|src|) by {
      assert patch[..4] == h[..4];
    }
    assert patch[4..8] == WriteInt(|dst|) by {
      assert patch[4..8] == h[4..8];
    }
    assert patch[8..HeaderLength] == Digest(src) by {
      assert patch[8..HeaderLength] == h[8..];
    }
    assert patch[HeaderLength..] == EncodeAll(cmds);
    EncodeAllEncodes(patch, HeaderLength, cmds);
    ReadWriteInt(|src|);
    ReadWriteInt(|dst|);
    assert src[..0] == [];
    ReplayScript(patch, cmds, src, dst, 0, 0, HeaderLength);
    ApplyAccepts(patch, dst, src);
  }
}
