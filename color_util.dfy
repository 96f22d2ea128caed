/** Packing and unpacking of 32-bit ARGB pixels (ColorUtil.java). A Java `int` is
    modelled as a `bv32`, a byte as a `bv8`. Java's `>>` is an arithmetic shift,
    Dafny's on `bv32` is a logical one; every right shift here is by at most 24 bits and
    is followed by `& 0xFF`, so the two agree on the bits kept. */
module ColorUtil {
  /** Independent reference: the pixel whose alpha, red, green and blue bytes are given. */
  function Pack(a: bv8, r: bv8, g: bv8, b: bv8): bv32 {
    ((a as bv32) << 24) | ((r as bv32) << 16) | ((g as bv32) << 8) | (b as bv32)
  }

  /** The byte of `x` that starts at bit `shift`. */
  function ByteAt(x: bv32, shift: nat): bv8
    requires shift <= 24
  {
    ((x >> shift) & 0xFF) as bv8
  }

  /** convertGrayValueToRGB: the low byte of `gray` copied into all four bytes. */
  function ConvertGrayValueToRgb(gray: bv32): (rgb: bv32)
    ensures rgb == Pack(ByteAt(gray, 0), ByteAt(gray, 0), ByteAt(gray, 0), ByteAt(gray, 0))
  {
    var low := gray & 0xFF;
    (low << 24) | (low << 16) | (low << 8) | low
  }

  /** getGrayFromRGB: the integer average of the red, green and blue bytes. */
  function GetGrayFromRgb(rgb: bv32): (gray: int)
    ensures 0 <= gray <= 255
  {
    var r := ((rgb >> 16) & 0xFF) as bv8;
    var g := ((rgb >> 8) & 0xFF) as bv8;
    var b := (rgb & 0xFF) as bv8;
    (r as int + g as int + b as int) / 3
  }

  /** getRGB: the red, green and blue bytes, in that order. */
  function GetRgb(rgb: bv32): (channels: seq<int>)
    ensures |channels| == 3
    ensures forall k :: 0 <= k < 3 ==> 0 <= channels[k] <= 255
  {
    var r := ((rgb >> 16) & 0xFF) as bv8;
    var g := ((rgb >> 8) & 0xFF) as bv8;
    var b := (rgb & 0xFF) as bv8;
    [r as int, g as int, b as int]
  }

  /** Every pixel is the packing of its own four bytes. */
  lemma PackOfBytes(x: bv32)
    ensures Pack(ByteAt(x, 24), ByteAt(x, 16), ByteAt(x, 8), ByteAt(x, 0)) == x
  {
    assert ByteAt(x, 24) as bv32 == (x >> 24) & 0xFF;
    assert ByteAt(x, 16) as bv32 == (x >> 16) & 0xFF;
    assert ByteAt(x, 8) as bv32 == (x >> 8) & 0xFF;
    assert ByteAt(x, 0) as bv32 == x & 0xFF;
  }

  lemma ByteAtPack(a: bv8, r: bv8, g: bv8, b: bv8)
    ensures ByteAt(Pack(a, r, g, b), 24) == a
    ensures ByteAt(Pack(a, r, g, b), 16) == r
    ensures ByteAt(Pack(a, r, g, b), 8) == g
    ensures ByteAt(Pack(a, r, g, b), 0) == b
  {
  }

  /** getRGB undoes packing: it returns exactly the red, green and blue bytes. */
  lemma GetRgbOfPack(a: bv8, r: bv8, g: bv8, b: bv8)
    ensures GetRgb(Pack(a, r, g, b)) == [r as int, g as int, b as int]
  {
    ByteAtPack(a, r, g, b);
  }

  /** getGrayFromRGB of a packed pixel is the floor of the mean of its red, green and blue bytes. */
  lemma GrayOfPack(a: bv8, r: bv8, g: bv8, b: bv8)
    ensures GetGrayFromRgb(Pack(a, r, g, b)) == (r as int + g as int + b as int) / 3
  {
    ByteAtPack(a, r, g, b);
  }

  /** The alpha byte (bits 24 to 31) never affects the gray value. */
  lemma GrayIgnoresAlpha(a: bv8, a': bv8, r: bv8, g: bv8, b: bv8)
    ensures GetGrayFromRgb(Pack(a, r, g, b)) == GetGrayFromRgb(Pack(a', r, g, b))
  {
    GrayOfPack(a, r, g, b);
    GrayOfPack(a', r, g, b);
  }

  /** Round trip: a gray pixel averages back to its gray byte, and splits into three copies of it. */
  lemma GrayRoundTrip(gray: bv32)
    ensures GetGrayFromRgb(ConvertGrayValueToRgb(gray)) == ByteAt(gray, 0) as int
    ensures GetRgb(ConvertGrayValueToRgb(gray)) == [ByteAt(gray, 0) as int, ByteAt(gray, 0) as int, ByteAt(gray, 0) as int]
  {
    var v := ByteAt(gray, 0);
    ByteAtPack(v, v, v, v);
  }
}
