/**
 * The patch wire format of SimplePatcher and the meaning of its command stream.
 *
 * A patch is: writeInt(srcLength), writeInt(dstLength), the 16-byte digest of src,
 * then commands until the end of the stream. A command is a tag byte and a
 * writeInt length; Insert and Delete carry that many payload bytes.
 */
module PatchFormat {
  import opened DataIO
  import opened Checksum

  const CommandEqual: byte := 0
  const CommandInsert: byte := 1
  const CommandDelete: byte := 2

  /** Bytes before the first command: two ints and the digest. */
  const HeaderLength: nat := 8 + DigestLength

  /**
   * Equal(n): the next n bytes of src and dst agree.
   * Insert(bytes): bytes of src not matched in dst (stored in the patch).
   * Delete(bytes): bytes of dst not matched in src (stored in the patch, checked on apply).
   */
  datatype Cmd = Equal(n: nat) | Insert(bytes: seq<byte>) | Delete(bytes: seq<byte>)

  /** How many bytes of src a command accounts for. */
  function SrcLen(c: Cmd): nat {
    match c
    case Equal(n) => n
    case Insert(bs) => |bs|
    case Delete(_) => 0
  }

  /** How many bytes of dst a command accounts for. */
  function DstLen(c: Cmd): nat {
    match c
    case Equal(n) => n
    case Insert(_) => 0
    case Delete(bs) => |bs|
  }

  function SrcTotal(cmds: seq<Cmd>): nat {
    if cmds == [] then 0 else SrcLen(cmds[0]) + SrcTotal(cmds[1..])
  }

  function DstTotal(cmds: seq<Cmd>): nat {
    if cmds == [] then 0 else DstLen(cmds[0]) + DstTotal(cmds[1..])
  }

  /** The tag byte written for a command. */
  function Tag(c: Cmd): byte {
    match c
    case Equal(_) => CommandEqual
    case Insert(_) => CommandInsert
    case Delete(_) => CommandDelete
  }

  /** The length field written for a command. */
  function Length(c: Cmd): nat {
    match c
    case Equal(n) => n
    case Insert(bs) => |bs|
    case Delete(bs) => |bs|
  }

  /** The bytes written after the length: none for Equal. */
  function Payload(c: Cmd): seq<byte> {
    match c
    case Equal(_) => []
    case Insert(bs) => bs
    case Delete(bs) => bs
  }

  /** The bytes one command occupies in the stream: tag, writeInt(length), payload. */
  function EncodeCmd(c: Cmd): seq<byte> {
    [Tag(c)] + WriteInt(Length(c)) + Payload(c)
  }

  /** The three fields of an encoded command, where they sit. */
  lemma EncodeCmdParts(c: Cmd)
    ensures |EncodeCmd(c)| == 5 + |Payload(c)|
    ensures EncodeCmd(c)[..1] == [Tag(c)]
    ensures EncodeCmd(c)[1..5] == WriteInt(Length(c))
    ensures EncodeCmd(c)[5..] == Payload(c)
  {
    var e := EncodeCmd(c);
    assert e == [Tag(c)] + (WriteInt(Length(c)) + Payload(c));
  }

  function EncodeAll(cmds: seq<Cmd>): seq<byte> {
    if cmds == [] then [] else EncodeCmd(cmds[0]) + EncodeAll(cmds[1..])
  }

  /** The bytes of one encoded command sit at `at` in the patch. */
  predicate EncodedAt(patch: seq<byte>, at: nat, c: Cmd) {
    at + |EncodeCmd(c)| <= |patch| && patch[at..at + |EncodeCmd(c)|] == EncodeCmd(c)
  }

  /** The first command of an encoded stream, and the encoding of the rest right after it. */
  lemma EncodeAllCons(patch: seq<byte>, at: nat, cmds: seq<Cmd>)
    requires cmds != [] && at <= |patch| && patch[at..] == EncodeAll(cmds)
    ensures EncodedAt(patch, at, cmds[0])
    ensures patch[at + |EncodeCmd(cmds[0])|..] == EncodeAll(cmds[1..])
  {
    var e := EncodeCmd(cmds[0]);
    assert patch[at..] == e + EncodeAll(cmds[1..]);
    assert patch[at..at + |e|] == patch[at..][..|e|];
    assert patch[at + |e|..] == patch[at..][|e|..];
  }

  /**
   * The patch holds the encodings of cmds back to back from `at` to its end.
   * The first command's bytes are checked two calls down, in EncodedThen, so
   * that the verifier looks at one command's bytes only when a proof asks.
   */
  predicate EncodesFrom(patch: seq<byte>, at: nat, cmds: seq<Cmd>)
    decreases |cmds|, 2
  {
    if cmds == [] then at == |patch| else EncodesNonEmpty(patch, at, cmds)
  }

  predicate EncodesNonEmpty(patch: seq<byte>, at: nat, cmds: seq<Cmd>)
    requires cmds != []
    decreases |cmds|, 1
  {
    EncodedThen(patch, at, cmds)
  }

  predicate EncodedThen(patch: seq<byte>, at: nat, cmds: seq<Cmd>)
    requires cmds != []
    decreases |cmds|, 0
  {
    EncodedAt(patch, at, cmds[0]) && EncodesFrom(patch, at + |EncodeCmd(cmds[0])|, cmds[1..])
  }

  /** The first command of an encoded stream, and the stream after it. */
  lemma EncodesCons(patch: seq<byte>, at: nat, cmds: seq<Cmd>)
    requires cmds != [] && EncodesFrom(patch, at, cmds)
    ensures EncodedAt(patch, at, cmds[0]) && EncodesFrom(patch, at + |EncodeCmd(cmds[0])|, cmds[1..])
  {
    assert EncodesNonEmpty(patch, at, cmds);
    assert EncodedThen(patch, at, cmds);
  }

  /** A patch whose tail is EncodeAll(cmds) holds each command's bytes in turn. */
  lemma {:induction false} EncodeAllEncodes(patch: seq<byte>, at: nat, cmds: seq<Cmd>)
    requires at <= |patch| && patch[at..] == EncodeAll(cmds)
    ensures EncodesFrom(patch, at, cmds)
    decreases |cmds|
  {
    if cmds == [] {
      assert |patch[at..]| == 0;
    } else {
      EncodeAllCons(patch, at, cmds);
      EncodeAllEncodes(patch, at + |EncodeCmd(cmds[0])|, cmds[1..]);
      assert EncodedThen(patch, at, cmds);
      assert EncodesNonEmpty(patch, at, cmds);
    }
  }

  /** Encoding a stream with one more command appends that command's bytes. */
  lemma {:induction false} EncodeAllSnoc(cmds: seq<Cmd>, c: Cmd)
    ensures EncodeAll(cmds + [c]) == EncodeAll(cmds) + EncodeCmd(c)
    decreases |cmds|
  {
    if cmds == [] {
      assert [c][1..] == [];
    } else {
      assert (cmds + [c])[1..] == cmds[1..] + [c];
      EncodeAllSnoc(cmds[1..], c);
    }
  }

  /** Encoding distributes over concatenation of command lists. */
  lemma {:induction false} EncodeAllAppend(a: seq<Cmd>, b: seq<Cmd>)
    ensures EncodeAll(a + b) == EncodeAll(a) + EncodeAll(b)
    decreases |a|
  {
    if a == [] {
      assert a + b == b;
    } else {
      assert (a + b)[1..] == a[1..] + b;
      EncodeAllAppend(a[1..], b);
    }
  }

  /** The patch header for diffing src against dst. */
  function Header(src: seq<byte>, dst: seq<byte>): (h: seq<byte>)
    ensures |h| == HeaderLength
  {
    WriteInt(|src|) + WriteInt(|dst|) + Digest(src)
  }

  /**
   * Command c is one the diff can emit with its cursors at src[i] and dst[j]:
   * an Equal covers a non-empty run of agreeing bytes and stops only at an end
   * or at a mismatch; an Insert or Delete carries a non-empty copy of the bytes
   * under its cursor.
   */
  predicate Step(c: Cmd, src: seq<byte>, dst: seq<byte>, i: nat, j: nat) {
    && i <= |src| && j <= |dst|
    && match c
    case Equal(n) =>
      && 0 < n && i + n <= |src| && j + n <= |dst|
      && src[i..i + n] == dst[j..j + n]
      && (i + n == |src| || j + n == |dst| || src[i + n] != dst[j + n])
    case Insert(bs) => bs != [] && i + |bs| <= |src| && src[i..i + |bs|] == bs
    case Delete(bs) => bs != [] && j + |bs| <= |dst| && dst[j..j + |bs|] == bs
  }

  /**
   * cmds, run from cursors (i, j), is a chain of Steps ending at cursors (i', j').
   * The first Step is checked two calls down, in StepThen, so that the
   * verifier looks at one command only when a proof asks (ScriptCons).
   */
  predicate Script(cmds: seq<Cmd>, src: seq<byte>, dst: seq<byte>, i: nat, j: nat, i': nat, j': nat)
    decreases |cmds|, 2
  {
    if cmds == [] then i == i' && j == j'
    else ScriptNonEmpty(cmds, src, dst, i, j, i', j')
  }

  predicate ScriptNonEmpty(cmds: seq<Cmd>, src: seq<byte>, dst: seq<byte>, i: nat, j: nat, i': nat, j': nat)
    requires cmds != []
    decreases |cmds|, 1
  {
    StepThen(cmds, src, dst, i, j, i', j')
  }

  predicate StepThen(cmds: seq<Cmd>, src: seq<byte>, dst: seq<byte>, i: nat, j: nat, i': nat, j': nat)
    requires cmds != []
    decreases |cmds|, 0
  {
    && Step(cmds[0], src, dst, i, j)
    && Script(cmds[1..], src, dst, i + SrcLen(cmds[0]), j + DstLen(cmds[0]), i', j')
  }

  /** Which command may follow which: no two Equals, no two Inserts, and after a Delete only an Equal. */
  predicate Follows(a: Cmd, b: Cmd) {
    match a
    case Equal(_) => !b.Equal?
    case Insert(_) => !b.Insert?
    case Delete(_) => b.Equal?
  }

  predicate WellOrdered(cmds: seq<Cmd>) {
    forall k :: 0 <= k < |cmds| - 1 ==> Follows(cmds[k], cmds[k + 1])
  }

  /** Two well-ordered lists joined where the first one's last command may precede the other's first. */
  lemma WellOrderedAppend(a: seq<Cmd>, b: seq<Cmd>)
    requires WellOrdered(a) && WellOrdered(b)
    requires a != [] && b != [] ==> Follows(a[|a| - 1], b[0])
    ensures WellOrdered(a + b)
  {
    forall k | 0 <= k < |a + b| - 1
      ensures Follows((a + b)[k], (a + b)[k + 1])
    {
      if k + 1 < |a| {
        assert (a + b)[k] == a[k] && (a + b)[k + 1] == a[k + 1];
      } else if k + 1 == |a| {
        assert (a + b)[k] == a[|a| - 1] && (a + b)[k + 1] == b[0];
      } else {
        assert (a + b)[k] == b[k - |a|] && (a + b)[k + 1] == b[k - |a| + 1];
      }
    }
  }

  /** The first step of a non-empty script, and the script that follows it. */
  lemma ScriptCons(cmds: seq<Cmd>, src: seq<byte>, dst: seq<byte>, i: nat, j: nat, i': nat, j': nat)
    requires cmds != [] && Script(cmds, src, dst, i, j, i', j')
    ensures Step(cmds[0], src, dst, i, j)
    ensures Script(cmds[1..], src, dst, i + SrcLen(cmds[0]), j + DstLen(cmds[0]), i', j')
    ensures i + SrcLen(cmds[0]) <= |src| && j + DstLen(cmds[0]) <= |dst|
  {
    assert ScriptNonEmpty(cmds, src, dst, i, j, i', j');
    assert StepThen(cmds, src, dst, i, j, i', j');
  }

  /** A step followed by a script from the step's end cursors is a script. */
  lemma ScriptPrepend(c: Cmd, rest: seq<Cmd>, src: seq<byte>, dst: seq<byte>, i: nat, j: nat, i1: nat, j1: nat, i': nat, j': nat)
    requires Step(c, src, dst, i, j) && i1 == i + SrcLen(c) && j1 == j + DstLen(c)
    requires Script(rest, src, dst, i1, j1, i', j')
    ensures Script([c] + rest, src, dst, i, j, i', j')
  {
    var cmds := [c] + rest;
    assert cmds[0] == c && cmds[1..] == rest;
    assert StepThen(cmds, src, dst, i, j, i', j');
    assert ScriptNonEmpty(cmds, src, dst, i, j, i', j');
  }

  /** A script extended by one more step is a script to the step's end. */
  lemma {:induction false} ScriptSnoc(cmds: seq<Cmd>, c: Cmd, src: seq<byte>, dst: seq<byte>, i: nat, j: nat, i': nat, j': nat)
    requires Script(cmds, src, dst, i, j, i', j')
    requires Step(c, src, dst, i', j')
    ensures Script(cmds + [c], src, dst, i, j, i' + SrcLen(c), j' + DstLen(c))
    decreases |cmds|
  {
    var i1, j1 := i' + SrcLen(c), j' + DstLen(c);
    if cmds == [] {
      ScriptPrepend(c, [], src, dst, i', j', i1, j1, i1, j1);
      assert [c] + [] == cmds + [c];
    } else {
      var i0, j0 := i + SrcLen(cmds[0]), j + DstLen(cmds[0]);
      ScriptCons(cmds, src, dst, i, j, i', j');
      ScriptSnoc(cmds[1..], c, src, dst, i0, j0, i', j');
      ScriptPrepend(cmds[0], cmds[1..] + [c], src, dst, i, j, i0, j0, i1, j1);
      assert [cmds[0]] + (cmds[1..] + [c]) == cmds + [c];
    }
  }

  /**
   * A script accounts for exactly the bytes between its start and end cursors:
   * Equal and Insert lengths sum to i' - i, Equal and Delete lengths to j' - j.
   */
  lemma {:induction false} ScriptSpan(cmds: seq<Cmd>, src: seq<byte>, dst: seq<byte>, i: nat, j: nat, i': nat, j': nat)
    requires Script(cmds, src, dst, i, j, i', j')
    ensures i <= i' && j <= j'
    ensures SrcTotal(cmds) == i' - i && DstTotal(cmds) == j' - j
    ensures cmds != [] ==> i' <= |src| && j' <= |dst|
    decreases |cmds|
  {
    if cmds != [] {
      ScriptCons(cmds, src, dst, i, j, i', j');
      ScriptSpan(cmds[1..], src, dst, i + SrcLen(cmds[0]), j + DstLen(cmds[0]), i', j');
    }
  }

  /** Because every Equal is maximal, a script never holds two Equals in a row. */
  lemma {:induction false} ScriptNoAdjacentEquals(cmds: seq<Cmd>, src: seq<byte>, dst: seq<byte>, i: nat, j: nat, i': nat, j': nat)
    requires Script(cmds, src, dst, i, j, i', j')
    ensures forall k :: 0 <= k < |cmds| - 1 ==> !(cmds[k].Equal? && cmds[k + 1].Equal?)
    decreases |cmds|
  {
    if 1 < |cmds| {
      var i1, j1 := i + SrcLen(cmds[0]), j + DstLen(cmds[0]);
      ScriptCons(cmds, src, dst, i, j, i', j');
      ScriptCons(cmds[1..], src, dst, i1, j1, i', j');
      ScriptNoAdjacentEquals(cmds[1..], src, dst, i1, j1, i', j');
      forall k | 0 <= k < |cmds| - 1
        ensures !(cmds[k].Equal? && cmds[k + 1].Equal?)
      {
        if 0 < k {
          assert cmds[k] == cmds[1..][k - 1] && cmds[k + 1] == cmds[1..][k];
        }
      }
    }
  }
}
