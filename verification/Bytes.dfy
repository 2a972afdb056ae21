/** Bytes, and the integers that on-disk structures store in them. */
module Bytes {

  type byte = b: int | 0 <= b < 256

  /** The number that bytes store, lowest byte first. */
  function LittleEndian(s: seq<byte>): (v: nat) {
    if s == [] then 0 else s[0] as int + 0x100 * LittleEndian(s[1..])
  }

  /** The number that bytes store, highest byte first. */
  function BigEndian(s: seq<byte>): (v: nat) {
    if s == [] then 0 else 0x100 * BigEndian(s[..|s| - 1]) + s[|s| - 1] as int
  }

  /** A big-endian DWORD. */
  function Be32(b: seq<byte>, o: nat): (v: nat)
    requires o + 4 <= |b|
    ensures v < 0x1_0000_0000
  {
    b[o] as int * 0x100_0000 + b[o + 1] as int * 0x1_0000 + b[o + 2] as int * 0x100 + b[o + 3] as int
  }

  /** A little-endian DWORD. */
  function Le32(b: seq<byte>, o: nat): (v: nat)
    requires o + 4 <= |b|
    ensures v < 0x1_0000_0000
  {
    b[o] as int + 0x100 * (b[o + 1] as int + 0x100 * (b[o + 2] as int + 0x100 * b[o + 3] as int))
  }

  /** The bytes that store a DWORD. */
  function Le32Bytes(v: nat): (b: seq<byte>)
    requires v < 0x1_0000_0000
    ensures |b| == 4
  {
    var v1 := v / 0x100;
    var v2 := v1 / 0x100;
    [v % 0x100, v1 % 0x100, v2 % 0x100, v2 / 0x100]
  }

  lemma Digit(d: byte, v: nat)
    ensures (d as int + 0x100 * v) % 0x100 == d && (d as int + 0x100 * v) / 0x100 == v
  {
  }

  lemma Le32RoundTrip(b: seq<byte>, o: nat)
    requires o + 4 <= |b|
    ensures Le32Bytes(Le32(b, o)) == b[o..o + 4]
  {
    var v3: nat := b[o + 3] as int;
    var v2 := b[o + 2] as int + 0x100 * v3;
    var v1 := b[o + 1] as int + 0x100 * v2;
    Digit(b[o + 2], v3);
    Digit(b[o + 1], v2);
    Digit(b[o], v1);
    assert Le32(b, o) == b[o] as int + 0x100 * v1;
  }

  lemma Le32Stored(b: seq<byte>, o: nat, v: nat)
    requires v < 0x1_0000_0000 && o + 4 <= |b| && b[o..o + 4] == Le32Bytes(v)
    ensures Le32(b, o) == v
  {
    var s := b[o..o + 4];
    assert b[o] == s[0] && b[o + 1] == s[1] && b[o + 2] == s[2] && b[o + 3] == s[3];
  }

  /** A little-endian WORD. */
  function Le16(b: seq<byte>, o: nat): (v: nat)
    requires o + 2 <= |b|
    ensures v < 0x1_0000
  {
    b[o] as int + b[o + 1] as int * 0x100
  }

  /** The words and DWORDs of on-disk structures are the numbers that their bytes store. */
  lemma Le16IsNumber(b: seq<byte>, o: nat)
    requires o + 2 <= |b|
    ensures Le16(b, o) == LittleEndian(b[o..o + 2])
  {
    LittleEndianStep(b, o, o + 2);
    LittleEndianStep(b, o + 1, o + 2);
  }

  lemma Le32IsNumber(b: seq<byte>, o: nat)
    requires o + 4 <= |b|
    ensures Le32(b, o) == LittleEndian(b[o..o + 4])
  {
    LittleEndianStep(b, o, o + 4);
    LittleEndianStep(b, o + 1, o + 4);
    LittleEndianStep(b, o + 2, o + 4);
    LittleEndianStep(b, o + 3, o + 4);
  }

  lemma LittleEndianStep(b: seq<byte>, o: nat, e: nat)
    requires o < e <= |b|
    ensures LittleEndian(b[o..e]) == b[o] as int + 0x100 * LittleEndian(b[o + 1..e])
  {
    assert b[o..e][1..] == b[o + 1..e];
  }

  lemma Be32IsNumber(b: seq<byte>, o: nat)
    requires o + 4 <= |b|
    ensures Be32(b, o) == BigEndian(b[o..o + 4])
  {
    BigEndianStep(b, o, o + 4);
    BigEndianStep(b, o, o + 3);
    BigEndianStep(b, o, o + 2);
    BigEndianStep(b, o, o + 1);
  }

  lemma BigEndianStep(b: seq<byte>, o: nat, e: nat)
    requires o < e <= |b|
    ensures BigEndian(b[o..e]) == 0x100 * BigEndian(b[o..e - 1]) + b[e - 1] as int
  {
    assert b[o..e][..e - o - 1] == b[o..e - 1];
  }

  method Store32(a: array<byte>, o: nat, v: nat)
    requires o + 4 <= a.Length && v < 0x1_0000_0000
    modifies a
    ensures a[o..o + 4] == Le32Bytes(v) && Le32(a[..], o) == v
    ensures forall x :: 0 <= x < a.Length && !(o <= x < o + 4) ==> a[x] == old(a[x])
  {
    var b := Le32Bytes(v);
    a[o], a[o + 1], a[o + 2], a[o + 3] := b[0], b[1], b[2], b[3];
    assert a[..][o..o + 4] == b;
    Le32Stored(a[..], o, v);
  }

  method Store16(a: array<byte>, o: nat, v: nat)
    requires o + 2 <= a.Length && v < 0x1_0000
    modifies a
    ensures Le16(a[..], o) == v
    ensures forall x :: 0 <= x < a.Length && !(o <= x < o + 2) ==> a[x] == old(a[x])
  {
    a[o], a[o + 1] := v % 0x100, v / 0x100;
  }
}
