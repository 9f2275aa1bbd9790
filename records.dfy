/** The two four-byte record formats of the texture (glyphy_lib.cc:241-282):
    the endpoint record written by `arc_encode` and the per-cell list header
    written by `arclist_encode`. A record is one RGBA texel of four
    `unsigned char` channels, laid out in memory in the order r, g, b, a. */
module Records {
  import opened Bits

  type Byte = x: int | 0 <= x < 256

  datatype Texel = Texel(r: Byte, g: Byte, b: Byte, a: Byte)

  /** The value `std::vector::resize` gives the texels it adds. */
  const ZeroTexel := Texel(0, 0, 0, 0)

  /** The distance value of an endpoint, already quantised by the caller
      (`lround (d * 127. / MAX_D + 128)`), or INFINITY for a contour start. */
  datatype Dist = Infinite | Finite(id: nat)

  /** The 12-bit coordinates of a point, already quantised by the caller
      (`lround (x * 4095)` and `lround (y * 4095)`). */
  datatype QPoint = QPoint(ix: nat, iy: nat)

  /** The budgets `arc_encode` asserts: 12 bits per coordinate, 8 bits for d. */
  predicate Encodable(p: QPoint, d: Dist)
  {
    p.ix < 4096 && p.iy < 4096 && (d.Finite? ==> d.id < 256)
  }

  /** The a byte of an endpoint record: x's high nibble shifted above y's
      does not overlap it, so the or is a sum that fits a byte. */
  lemma HighNibbles(ix: nat, iy: nat)
    requires ix < 4096 && iy < 4096
    ensures BitOr(Shl(Shr(ix, 8), 4), Shr(iy, 8)) == (ix / 256) * 16 + iy / 256 < 256
  {
    Pow2Values();
    var hx, hy := ix / 256, iy / 256;
    assert hx < 16 && hy < 16;
    OrDisjoint(hx, hy, 4);
  }

  /** arc_encode from the quantised values on: r holds d (0 for an infinite d),
      g and b the low bytes of x and y, a the two high nibbles. */
  function ArcEncode(ix: nat, iy: nat, d: Dist): (t: Texel)
    requires ix < 4096
    requires iy < 4096
    requires d.Finite? ==> d.id < 256
    ensures t.r == (if d.Infinite? then 0 else d.id)
    ensures t.g == ix % 256 && t.b == iy % 256
    ensures t.a == (ix / 256) * 16 + iy / 256
  {
    var id := if d.Infinite? then 0 else d.id;
    Pow2Values();
    HighNibbles(ix, iy);
    var a := BitOr(Shl(Shr(ix, 8), 4), Shr(iy, 8));
    Texel(id, LowerBits(ix, 8, 12), LowerBits(iy, 8, 12), a)
  }

  /** The endpoint record read as numbers: r the quantised d, g and b the
      low bytes of the coordinates, a their high nibbles, x above y. The
      specification of a cell's run is stated over this form; the contract
      of `ArcEncode` shows that the bit macros produce it. */
  function Record(ix: nat, iy: nat, d: Dist): Texel
    requires Encodable(QPoint(ix, iy), d)
  {
    Texel(if d.Infinite? then 0 else d.id, ix % 256, iy % 256, (ix / 256) * 16 + iy / 256)
  }

  /** How a decoder reads the coordinates back: x from `a >> 4` and g,
      y from `a & 15` and b. */
  function ArcDecode(t: Texel): QPoint
  {
    QPoint(Shr(t.a, 4) * 256 + t.g, LowerBits(t.a, 4, 8) * 256 + t.b)
  }

  /** Endpoint round trip: both coordinates come back exactly, and the r byte
      is the quantised d, or 0 for the contour-start marker. */
  lemma EndpointRoundTrip(ix: nat, iy: nat, d: Dist)
    requires ix < 4096 && iy < 4096 && (d.Finite? ==> d.id < 256)
    ensures ArcDecode(ArcEncode(ix, iy, d)) == QPoint(ix, iy)
    ensures ArcEncode(ix, iy, d).r == (if d.Infinite? then 0 else d.id)
    ensures d.Infinite? ==> ArcEncode(ix, iy, d).r == 0
  {
    var t := ArcEncode(ix, iy, d);
    Pow2Values();
    DivModUnique(t.a, 16, ix / 256, iy / 256);
    DivMod(ix, 256);
    DivMod(iy, 256);
  }

  /** Two endpoint records are equal exactly when they encode the same
      coordinates and the same r byte. */
  lemma EndpointInjective(ix: nat, iy: nat, d: Dist, jx: nat, jy: nat, e: Dist)
    requires ix < 4096 && iy < 4096 && (d.Finite? ==> d.id < 256)
    requires jx < 4096 && jy < 4096 && (e.Finite? ==> e.id < 256)
    ensures ArcEncode(ix, iy, d) == ArcEncode(jx, jy, e) <==>
            ix == jx && iy == jy && ArcEncode(ix, iy, d).r == ArcEncode(jx, jy, e).r
  {
    var t, u := ArcEncode(ix, iy, d), ArcEncode(jx, jy, e);
    if t == u {
      DivModUnique(t.a, 16, ix / 256, iy / 256);
      DivModUnique(u.a, 16, jx / 256, jy / 256);
      DivMod(ix, 256);
      DivMod(jx, 256);
      DivMod(iy, 256);
      DivMod(jy, 256);
    }
  }

  lemma OffsetSplit(offset: nat)
    ensures ((offset / 0x1_0000) % 256) * 0x1_0000 + ((offset % 0x1_0000) / 256) * 256 + offset % 256
            == offset % 0x100_0000
  {
    var q, m := offset / 0x1_0000, offset % 0x1_0000;
    DivMod(offset, 0x1_0000);
    DivMod(q, 256);
    DivMod(m, 256);
    DivModUnique(offset, 0x100_0000, q / 256, (q % 256) * 0x1_0000 + m);
    DivModUnique(offset, 256, q * 256 + m / 256, m % 256);
  }

  /** arclist_encode: a 24-bit offset over r, g, b (high to low) and the
      point count's low byte in a, overridden by the solid-interior sentinel
      255 when the cell is inside and has no points. Nothing checks the
      count, so 256 points wrap to 0 and 255 points read like the sentinel. */
  function ArclistEncode(offset: nat, numPoints: nat, isInside: bool): (t: Texel)
    ensures t.r * 0x1_0000 + t.g * 0x100 + t.b == offset % 0x100_0000
    ensures offset < 0x100_0000 ==> t.r * 0x1_0000 + t.g * 0x100 + t.b == offset
    ensures t.a == if isInside && numPoints == 0 then 255 else numPoints % 256
  {
    Pow2Values();
    var r := ToByte(UpperBits(offset, 8, 24));
    var g := MiddleBits(offset, 8, 16, 24);
    var b := LowerBits(offset, 8, 24);
    var a := LowerBits(numPoints, 8, 8);
    OffsetSplit(offset);
    ModBelow(offset, 0x100_0000);
    Texel(r, g, b, if isInside && numPoints == 0 then 255 else a)
  }

  /** The header read as numbers: the offset's three low bytes from high to
      low, then the count byte, or 255 for an empty inside cell. The
      packer's specification writes headers in this form, and
      `ArclistEncodeIsHeader` shows that the bit macros produce it. */
  function Header(offset: nat, numPoints: nat, isInside: bool): Texel
  {
    Texel(offset / 0x1_0000 % 0x100, offset / 0x100 % 0x100, offset % 0x100,
          if isInside && numPoints == 0 then 255 else numPoints % 0x100)
  }

  /** Three bytes that spell `offset mod 2^24`, high to low, are its
      byte-sized digits. */
  lemma OffsetDigits(offset: nat, r: nat, g: nat, b: nat)
    requires r < 0x100 && g < 0x100 && b < 0x100
    requires r * 0x1_0000 + g * 0x100 + b == offset % 0x100_0000
    ensures r == offset / 0x1_0000 % 0x100 && g == offset / 0x100 % 0x100 && b == offset % 0x100
  {
    var k := offset / 0x100_0000;
    assert offset == k * 0x100_0000 + offset % 0x100_0000;
    DivModUnique(offset, 0x1_0000, k * 0x100 + r, g * 0x100 + b);
    DivModUnique(k * 0x100 + r, 0x100, k, r);
    DivModUnique(offset, 0x100, k * 0x1_0000 + r * 0x100 + g, b);
    DivModUnique(k * 0x1_0000 + r * 0x100 + g, 0x100, k * 0x100 + r, g);
  }

  lemma ArclistEncodeIsHeader(offset: nat, numPoints: nat, isInside: bool)
    ensures ArclistEncode(offset, numPoints, isInside) == Header(offset, numPoints, isInside)
  {
    var t := ArclistEncode(offset, numPoints, isInside);
    OffsetDigits(offset, t.r, t.g, t.b);
  }

  /** The count byte reads as the sentinel 255 exactly for an empty inside
      cell and for any count that is 255 modulo 256. */
  lemma HeaderSentinel(offset: nat, numPoints: nat, isInside: bool)
    ensures ArclistEncode(offset, numPoints, isInside).a == 255 <==>
            (isInside && numPoints == 0) || numPoints % 256 == 255
  {
  }

  /** Below 255 points the count field reads back exactly, with 255 standing
      for an empty inside cell. */
  lemma HeaderCountRoundTrip(offset: nat, numPoints: nat, isInside: bool)
    requires numPoints < 255
    ensures var a := ArclistEncode(offset, numPoints, isInside).a;
      && (a == 255 <==> isInside && numPoints == 0)
      && (if a == 255 then 0 else a) == numPoints
  {
    DivModUnique(numPoints, 256, 0, numPoints);
  }

  /** The unchecked count: 255 points give the same header as an empty inside
      cell, and 256 points the same header as an empty outside cell. */
  lemma HeaderCountAliases(offset: nat)
    ensures ArclistEncode(offset, 255, false) == ArclistEncode(offset, 0, true)
    ensures ArclistEncode(offset, 256, true) == ArclistEncode(offset, 0, false)
  {
  }

  /** Below 2^24, headers that are equal carry the same offset. */
  lemma HeaderOffsetInjective(o1: nat, n1: nat, i1: bool, o2: nat, n2: nat, i2: bool)
    requires o1 < 0x100_0000 && o2 < 0x100_0000
    requires ArclistEncode(o1, n1, i1) == ArclistEncode(o2, n2, i2)
    ensures o1 == o2
  {
  }
}
