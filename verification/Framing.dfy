/**
 Byte framing shared by the sealed states: big-endian integers, length-prefixed parts, and
 the buffer writes that produce them.
 */
module Framing {
  import opened Basics

  type Byte = n: nat | n < 256

  type Bytes = seq<Byte>

  function Power(width: nat): nat {
    if width == 0 then 1 else 256 * Power(width - 1)
  }

  /** The `width` bytes of a number, most significant first. */
  function BigEndian(value: nat, width: nat): (bytes: Bytes)
    ensures |bytes| == width
  {
    if width == 0 then [] else BigEndian(value / 256, width - 1) + [value % 256]
  }

  function Number(bytes: Bytes): (value: nat)
    ensures value < Power(|bytes|)
  {
    if bytes == [] then 0 else Number(bytes[..|bytes| - 1]) * 256 + bytes[|bytes| - 1]
  }

  lemma {:induction false} NumberOfBigEndian(value: nat, width: nat)
    requires value < Power(width)
    ensures Number(BigEndian(value, width)) == value
    decreases width
  {
    if width > 0 {
      NumberOfBigEndian(value / 256, width - 1);
      assert BigEndian(value, width)[..width - 1] == BigEndian(value / 256, width - 1);
    }
  }

  lemma {:induction false} BigEndianOfNumber(bytes: Bytes)
    ensures BigEndian(Number(bytes), |bytes|) == bytes
    decreases |bytes|
  {
    if bytes != [] {
      BigEndianOfNumber(bytes[..|bytes| - 1]);
      assert bytes == bytes[..|bytes| - 1] + [bytes[|bytes| - 1]];
    }
  }

  lemma Powers()
    ensures Power(2) == 0x1_0000 && Power(4) == 0x1_0000_0000 && Power(8) == 0x1_0000_0000_0000_0000
  {
    assert Power(3) == 256 * Power(2) && Power(5) == 256 * Power(4) && Power(6) == 256 * Power(5)
           && Power(7) == 256 * Power(6);
  }

  // ------------------------------------------------------------ length-prefixed parts

  function Part(bytes: Bytes, width: nat): Bytes {
    BigEndian(|bytes|, width) + bytes
  }

  /** A length-prefixed part can be split off in one way only. */
  lemma PartInjective(a: Bytes, x: Bytes, b: Bytes, y: Bytes, width: nat)
    requires |a| < Power(width) && |b| < Power(width) && Part(a, width) + x == Part(b, width) + y
    ensures a == b && x == y
  {
    NumberOfBigEndian(|a|, width);
    NumberOfBigEndian(|b|, width);
    var whole := Part(a, width) + x;
    assert whole[..width] == BigEndian(|a|, width) && whole[..width] == BigEndian(|b|, width);
    assert whole[width..width + |a|] == a && whole[width..width + |a|] == b;
    assert whole[width + |a|..] == x && whole[width + |a|..] == y;
  }

  /** Parts one after the other, as they are fed to a digest. */
  function Parts(parts: seq<Bytes>, width: nat): Bytes {
    if parts == [] then [] else Part(parts[0], width) + Parts(parts[1..], width)
  }

  /** Different lists of parts are different bytes: no two digest inputs are confused. */
  lemma {:induction false} PartsInjective(one: seq<Bytes>, two: seq<Bytes>, width: nat)
    requires width > 0 && Parts(one, width) == Parts(two, width)
    requires (forall i | 0 <= i < |one| :: |one[i]| < Power(width))
             && (forall i | 0 <= i < |two| :: |two[i]| < Power(width))
    ensures one == two
    decreases |one|
  {
    assert one != [] ==> |Parts(one, width)| >= width;
    assert two != [] ==> |Parts(two, width)| >= width;
    if one != [] && two != [] {
      PartInjective(one[0], Parts(one[1..], width), two[0], Parts(two[1..], width), width);
      PartsInjective(one[1..], two[1..], width);
      assert one == [one[0]] + one[1..] && two == [two[0]] + two[1..];
    }
  }

  // ------------------------------------------------------------ buffer writes

  /** Writes `source` at an offset and touches nothing else. */
  method CopyInto(buffer: array<Byte>, offset: nat, source: Bytes)
    requires offset + |source| <= buffer.Length
    modifies buffer
    ensures buffer[..] == old(buffer[..offset]) + source + old(buffer[offset + |source|..])
  {
    for i := 0 to |source|
      invariant buffer[..] == old(buffer[..offset]) + source[..i] + old(buffer[offset + i..])
    {
      buffer[offset + i] := source[i];
    }
  }

  /** Writes a number most significant byte first, from the last byte to the first. */
  method PutBigEndian(buffer: array<Byte>, offset: nat, width: nat, value: nat)
    requires offset + width <= buffer.Length
    modifies buffer
    ensures buffer[..] == old(buffer[..offset]) + BigEndian(value, width) + old(buffer[offset + width..])
  {
    var left, rest := width, value;
    while left > 0
      invariant 0 <= left <= width
      invariant BigEndian(rest, left) + buffer[offset + left..offset + width] == BigEndian(value, width)
      invariant buffer[..offset + left] == old(buffer[..offset + left])
      invariant buffer[offset + width..] == old(buffer[offset + width..])
    {
      ghost var before := buffer[offset + left..offset + width];
      left := left - 1;
      buffer[offset + left] := rest % 256;
      assert buffer[offset + left..offset + width] == [(rest % 256) as Byte] + before;
      rest := rest / 256;
    }
    assert buffer[..] == buffer[..offset] + buffer[offset..offset + width] + buffer[offset + width..];
  }
}
