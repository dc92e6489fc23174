/** Bytes and the 32-bit big-endian integers of java.io.DataOutput.writeInt / DataInput.readInt. */
module DataIO {

  /** An octet; Java's signed byte is read here as its unsigned value 0..255. */
  newtype byte = b: int | 0 <= b < 0x100

  const MinInt32: int := -0x8000_0000
  const MaxInt32: int := 0x7FFF_FFFF

  predicate IsInt32(v: int) {
    MinInt32 <= v <= MaxInt32
  }

  /** Java `int` arithmetic: the mathematical value reduced to 32-bit two's complement. */
  function Wrap32(v: int): (r: int)
    ensures IsInt32(r)
    ensures IsInt32(v) ==> r == v
  {
    (v + 0x8000_0000) % 0x1_0000_0000 - 0x8000_0000
  }

  /** writeInt: the low 32 bits of `v`, high byte first (v >>> 24, v >>> 16, v >>> 8, v, each masked to 8 bits). */
  function WriteInt(v: int): (r: seq<byte>)
    ensures |r| == 4
  {
    var u := v % 0x1_0000_0000;
    [(u / 0x100_0000) as byte, (u / 0x1_0000 % 0x100) as byte, (u / 0x100 % 0x100) as byte, (u % 0x100) as byte]
  }

  /** readInt: four bytes, high byte first, read as a signed 32-bit value. */
  function ReadInt(b: seq<byte>): (v: int)
    requires |b| == 4
    ensures IsInt32(v)
  {
    var u := Unsigned(b);
    if u < 0x8000_0000 then u else u - 0x1_0000_0000
  }

  /** The four bytes as an unsigned big-endian number. */
  function Unsigned(b: seq<byte>): (u: int)
    requires |b| == 4
    ensures 0 <= u < 0x1_0000_0000
  {
    ((b[0] as int * 0x100 + b[1] as int) * 0x100 + b[2] as int) * 0x100 + b[3] as int
  }

  /** Reading back what writeInt wrote gives the value as a Java int. */
  lemma ReadWriteInt(v: int)
    ensures ReadInt(WriteInt(v)) == Wrap32(v)
  {
    var u := v % 0x1_0000_0000;
    var u1 := u / 0x100;
    var u2 := u1 / 0x100;
    var u3 := u2 / 0x100;
    assert u == u1 * 0x100 + u % 0x100;
    assert u1 == u2 * 0x100 + u1 % 0x100;
    assert u2 == u3 * 0x100 + u2 % 0x100;
    assert u / 0x1_0000 == u2 && u / 0x100_0000 == u3;
    var b := WriteInt(v);
    assert b[0] as int == u3 && b[1] as int == u2 % 0x100 && b[2] as int == u1 % 0x100 && b[3] as int == u % 0x100;
    assert Unsigned(b) == u;
  }

  /** Every four-byte group is what writeInt writes for the value readInt reads from it. */
  lemma WriteReadInt(b: seq<byte>)
    requires |b| == 4
    ensures WriteInt(ReadInt(b)) == b
  {
    var u3 := b[0] as int;
    var u2 := u3 * 0x100 + b[1] as int;
    var u1 := u2 * 0x100 + b[2] as int;
    var u := Unsigned(b);
    assert u == u1 * 0x100 + b[3] as int;
    assert ReadInt(b) % 0x1_0000_0000 == u;
    assert u / 0x100 == u1 && u % 0x100 == b[3] as int;
    assert u1 / 0x100 == u2 && u1 % 0x100 == b[2] as int;
    assert u2 / 0x100 == u3 && u2 % 0x100 == b[1] as int;
    assert u / 0x1_0000 == u2 && u / 0x100_0000 == u3;
    var w := WriteInt(ReadInt(b));
    assert w == [b[0], b[1], b[2], b[3]];
  }
}
