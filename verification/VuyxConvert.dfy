/**
  VUYX to BGR24 (stream_server/src/decoder.c, 1285-1362 and 1372-1527): eight pixels at a time
  with vector instructions and the rest one by one must give the bytes of the scalar formula.
 */
module VuyxConvert {
  import opened Bytes
  import opened Avx2
  import opened VuyxColours

  // ---------- the vector formula ----------

  const OUT: seq<int> := [-1, -1, -1, -1, -1, -1, -1, -1, -1, -1, -1, -1]
  const PICK_V: seq<int> := [0, 4, 8, 12] + OUT + [0, 4, 8, 12] + OUT
  const PICK_U: seq<int> := [1, 5, 9, 13] + OUT + [1, 5, 9, 13] + OUT
  const PICK_Y: seq<int> := [2, 6, 10, 14] + OUT + [2, 6, 10, 14] + OUT

  /** Shuffle, split into halves, interleave, widen: one component of eight pixels. */
  function Component(raw: seq<byte>, pick: seq<int>): (r: Lanes)
    requires |raw| == |pick| == 32
    ensures |r| == 8
  {
    var s := Shuffle8(raw, pick);
    Widen(UnpackLo32(s[..16], s[16..]))
  }

  function V32(raw: seq<byte>): (r: Lanes)
    requires |raw| == 32
    ensures |r| == 8
  {
    Sub32(Component(raw, PICK_V), Set1(128))
  }

  function U32(raw: seq<byte>): (r: Lanes)
    requires |raw| == 32
    ensures |r| == 8
  {
    Sub32(Component(raw, PICK_U), Set1(128))
  }

  function YTerms(c: Coeffs, raw: seq<byte>): (r: Lanes)
    requires |raw| == 32
    ensures |r| == 8
  {
    Mullo32(Max32(Sub32(Component(raw, PICK_Y), Set1(c.yOffset)), Set1(0)), Set1(c.yMul))
  }

  /** Clamp to a byte with max, min and the two packs. */
  function Narrow(a: Lanes): (r: seq<byte>)
    requires |a| == 8
    ensures |r| == 8
  {
    PackUs16(PackUs32(Min32(Max32(a, Set1(0)), Set1(255))))
  }

  function BlueLanes(c: Coeffs, raw: seq<byte>): (r: Lanes)
    requires |raw| == 32
    ensures |r| == 8
  {
    Srai8(Add32(Add32(YTerms(c, raw), Mullo32(U32(raw), Set1(c.buMul))), Set1(128)))
  }

  function GreenLanes(c: Coeffs, raw: seq<byte>): (r: Lanes)
    requires |raw| == 32
    ensures |r| == 8
  {
    Srai8(Add32(
      Sub32(Sub32(YTerms(c, raw), Mullo32(U32(raw), Set1(c.guMul))), Mullo32(V32(raw), Set1(c.gvMul))),
      Set1(128)))
  }

  function RedLanes(c: Coeffs, raw: seq<byte>): (r: Lanes)
    requires |raw| == 32
    ensures |r| == 8
  {
    Srai8(Add32(Add32(YTerms(c, raw), Mullo32(V32(raw), Set1(c.vrMul))), Set1(128)))
  }

  // ---------- both agree ----------

  /** The shuffle and the interleave bring byte `k` of pixel `i` to lane `i`. */
  lemma ComponentAt(raw: seq<byte>, pick: seq<int>, k: nat, i: nat)
    requires |raw| == 32 && k < 3 && i < 8
    requires pick == [k, k + 4, k + 8, k + 12] + OUT + [k, k + 4, k + 8, k + 12] + OUT
    ensures Component(raw, pick)[i] == raw[4 * i + k] as int
  {
    var s := Shuffle8(raw, pick);
    var j := if i < 4 then i else 16 + (i - 4);
    assert pick[j] == k + 4 * (if i < 4 then i else i - 4);
    assert s[j] == raw[4 * i + k];
    assert UnpackLo32(s[..16], s[16..])[i] == s[j];
  }

  lemma NarrowAt(a: Lanes, i: nat)
    requires |a| == 8 && i < 8
    ensures Narrow(a)[i] == Clamp(a[i])
  {
  }

  lemma ProductBound(a: int, b: int, m: int, n: int)
    requires 0 <= a <= m && -n <= b <= n && 0 <= n
    ensures -(m * n) <= a * b <= m * n
  {
    assert a * b <= a * n <= m * n;
    assert -(a * b) == a * (-b) <= a * n;
  }

  /** No intermediate value of the formula leaves the 32-bit range. */
  lemma NoOverflow(c: Coeffs, v: byte, u: byte, y: byte)
    requires CoeffsOk(c)
    ensures 0 <= YTerm(c, y) <= COEFF_LIMIT * 255
    ensures -(COEFF_LIMIT * 128) <= c.buMul * (u as int - 128) <= COEFF_LIMIT * 128
    ensures -(COEFF_LIMIT * 128) <= c.guMul * (u as int - 128) <= COEFF_LIMIT * 128
    ensures -(COEFF_LIMIT * 128) <= c.gvMul * (v as int - 128) <= COEFF_LIMIT * 128
    ensures -(COEFF_LIMIT * 128) <= c.vrMul * (v as int - 128) <= COEFF_LIMIT * 128
  {
    var ys := Max(y as int - c.yOffset, 0);
    ProductBound(c.yMul, ys, COEFF_LIMIT, 255);
    assert c.yMul * ys >= 0;
    ProductBound(c.buMul, u as int - 128, COEFF_LIMIT, 128);
    ProductBound(c.guMul, u as int - 128, COEFF_LIMIT, 128);
    ProductBound(c.gvMul, v as int - 128, COEFF_LIMIT, 128);
    ProductBound(c.vrMul, v as int - 128, COEFF_LIMIT, 128);
  }

  lemma InputsAt(c: Coeffs, raw: seq<byte>, i: nat)
    requires CoeffsOk(c) && |raw| == 32 && i < 8
    ensures V32(raw)[i] == raw[4 * i] as int - 128
    ensures U32(raw)[i] == raw[4 * i + 1] as int - 128
    ensures YTerms(c, raw)[i] == YTerm(c, raw[4 * i + 2])
  {
    hide V32, U32, YTerms, YTerm;
    ChromaAt(raw, i);
    YTermAt(c, raw, i);
  }

  lemma ChromaAt(raw: seq<byte>, i: nat)
    requires |raw| == 32 && i < 8
    ensures V32(raw)[i] == raw[4 * i] as int - 128
    ensures U32(raw)[i] == raw[4 * i + 1] as int - 128
  {
    hide Set1, Sub32, Component;
    ComponentAt(raw, PICK_V, 0, i);
    ComponentAt(raw, PICK_U, 1, i);
    WrapFits(raw[4 * i] as int - 128);
    WrapFits(raw[4 * i + 1] as int - 128);
    hide Wrap32;
  }

  lemma YTermAt(c: Coeffs, raw: seq<byte>, i: nat)
    requires CoeffsOk(c) && |raw| == 32 && i < 8
    ensures YTerms(c, raw)[i] == YTerm(c, raw[4 * i + 2])
  {
    hide Set1, Sub32, Mullo32, Max32, Component;
    ComponentAt(raw, PICK_Y, 2, i);
    NoOverflow(c, raw[4 * i], raw[4 * i + 1], raw[4 * i + 2]);
    var y := raw[4 * i + 2] as int;
    WrapFits(y - c.yOffset);
    assert Max(y - c.yOffset, 0) * c.yMul == YTerm(c, raw[4 * i + 2]);
    WrapFits(Max(y - c.yOffset, 0) * c.yMul);
    hide Wrap32;
  }

  /** The eight pixels of a block are those of the scalar formula. */
  lemma BlockIsScalar(c: Coeffs, raw: seq<byte>, i: nat)
    requires CoeffsOk(c) && |raw| == 32 && i < 8
    ensures Pixel(c, raw[4 * i], raw[4 * i + 1], raw[4 * i + 2])
         == [Narrow(BlueLanes(c, raw))[i], Narrow(GreenLanes(c, raw))[i], Narrow(RedLanes(c, raw))[i]]
  {
    hide Narrow, BlueLanes, GreenLanes, RedLanes, BlueSum, GreenSum, RedSum, Clamp;
    BlueLaneAt(c, raw, i);
    GreenLaneAt(c, raw, i);
    RedLaneAt(c, raw, i);
    NarrowAt(BlueLanes(c, raw), i);
    NarrowAt(GreenLanes(c, raw), i);
    NarrowAt(RedLanes(c, raw), i);
  }

  lemma BlueLaneAt(c: Coeffs, raw: seq<byte>, i: nat)
    requires CoeffsOk(c) && |raw| == 32 && i < 8
    ensures BlueLanes(c, raw)[i] == BlueSum(c, raw[4 * i + 1], raw[4 * i + 2]) / 256
  {
    hide V32, U32, YTerms, YTerm, Wrap32, Set1, Add32, Sub32, Mullo32, Srai8;
    var u, y := raw[4 * i + 1], raw[4 * i + 2];
    InputsAt(c, raw, i);
    NoOverflow(c, raw[4 * i], u, y);
    var t := c.buMul * (u as int - 128);
    assert (u as int - 128) * c.buMul == t;
    SumsFit(YTerm(c, y), t, 0);
  }

  lemma GreenLaneAt(c: Coeffs, raw: seq<byte>, i: nat)
    requires CoeffsOk(c) && |raw| == 32 && i < 8
    ensures GreenLanes(c, raw)[i] == GreenSum(c, raw[4 * i], raw[4 * i + 1], raw[4 * i + 2]) / 256
  {
    hide V32, U32, YTerms, YTerm, Wrap32, Set1, Add32, Sub32, Mullo32, Srai8;
    var v, u, y := raw[4 * i], raw[4 * i + 1], raw[4 * i + 2];
    InputsAt(c, raw, i);
    NoOverflow(c, v, u, y);
    var s := c.guMul * (u as int - 128);
    var t := c.gvMul * (v as int - 128);
    assert (u as int - 128) * c.guMul == s && (v as int - 128) * c.gvMul == t;
    SumsFit(YTerm(c, y), -s, -t);
  }

  lemma RedLaneAt(c: Coeffs, raw: seq<byte>, i: nat)
    requires CoeffsOk(c) && |raw| == 32 && i < 8
    ensures RedLanes(c, raw)[i] == RedSum(c, raw[4 * i], raw[4 * i + 2]) / 256
  {
    hide V32, U32, YTerms, YTerm, Wrap32, Set1, Add32, Sub32, Mullo32, Srai8;
    var v, y := raw[4 * i], raw[4 * i + 2];
    InputsAt(c, raw, i);
    NoOverflow(c, v, raw[4 * i + 1], y);
    var t := c.vrMul * (v as int - 128);
    assert (v as int - 128) * c.vrMul == t;
    SumsFit(YTerm(c, y), t, 0);
  }

  /** Adding up terms of this size never wraps. */
  lemma SumsFit(y: int, s: int, t: int)
    requires 0 <= y <= COEFF_LIMIT * 255
    requires -(COEFF_LIMIT * 128) <= s <= COEFF_LIMIT * 128 && -(COEFF_LIMIT * 128) <= t <= COEFF_LIMIT * 128
    ensures Wrap32(s) == s && Wrap32(-s) == -s && Wrap32(t) == t && Wrap32(-t) == -t
    ensures Wrap32(y + s) == y + s && Wrap32(y + s + t) == y + s + t
    ensures Wrap32(y + s + 128) == y + s + 128 && Wrap32(y + s + t + 128) == y + s + t + 128
  {
  }

  // ---------- the code ----------

  /** Pixel `x` of the row is the scalar formula of the four bytes it came from. */
  ghost predicate PixelDone(c: Coeffs, src: array<byte>, from: nat, dst: array<byte>, to: nat, x: nat)
    reads src, dst
  {
    && from + 4 * x + 4 <= src.Length && to + 3 * x + 3 <= dst.Length
    && dst[to + 3 * x..to + 3 * x + 3] == Pixel(c, src[from + 4 * x], src[from + 4 * x + 1], src[from + 4 * x + 2])
  }

  /** The rows before `to` and behind the row are left alone. */
  twostate predicate OnlyRow(dst: array<byte>, to: nat, width: nat)
    reads dst
  {
    forall i :: 0 <= i < dst.Length && !(to <= i < to + 3 * width) ==> dst[i] == old(dst[i])
  }

  /** `decoder_fast_convert_vuyx_to_bgr24_row_avx2`: whole blocks of eight; returns the pixels done. */
  method ConvertBlocks(src: array<byte>, from: nat, dst: array<byte>, to: nat, width: nat, c: Coeffs) returns (x: nat)
    requires CoeffsOk(c) && src != dst
    requires from + 4 * width <= src.Length && to + 3 * width <= dst.Length
    modifies dst
    ensures width < x + 8 && x <= width
    ensures forall k :: 0 <= k < x ==> PixelDone(c, src, from, dst, to, k)
    ensures OnlyRow(dst, to, width)
  {
    x := 0;
    while x + 8 <= width
      invariant x <= width
      invariant forall k :: 0 <= k < x ==> PixelDone(c, src, from, dst, to, k)
      invariant OnlyRow(dst, to, width)
    {
      ConvertBlock(src, from, dst, to, x, width, c);
      x := x + 8;
    }
  }

  method ConvertBlock(src: array<byte>, from: nat, dst: array<byte>, to: nat, x: nat, ghost width: nat, c: Coeffs)
    requires CoeffsOk(c) && src != dst && x + 8 <= width
    requires from + 4 * width <= src.Length && to + 3 * width <= dst.Length
    requires forall k :: 0 <= k < x ==> PixelDone(c, src, from, dst, to, k)
    modifies dst
    ensures forall k :: 0 <= k < x + 8 ==> PixelDone(c, src, from, dst, to, k)
    ensures OnlyRow(dst, to, width)
  {
    hide Narrow, BlueLanes, GreenLanes, RedLanes, Pixel, PixelDone;
    var raw := src[from + 4 * x..from + 4 * x + 32];
    var b, g, r := Narrow(BlueLanes(c, raw)), Narrow(GreenLanes(c, raw)), Narrow(RedLanes(c, raw));
    for i := 0 to 8
      invariant forall k :: 0 <= k < x + i ==> PixelDone(c, src, from, dst, to, k)
      invariant OnlyRow(dst, to, width)
    {
      BlockIsScalar(c, raw, i);
      PutPixel(src, from, dst, to, x + i, width, c, b[i], g[i], r[i]);
    }
  }

  /** Writes the next pixel of a row; the earlier ones stay done. */
  method PutPixel(ghost src: array<byte>, ghost from: nat, dst: array<byte>, to: nat, x: nat, ghost width: nat,
                  ghost c: Coeffs, b: byte, g: byte, r: byte)
    requires src != dst && x < width
    requires from + 4 * width <= src.Length && to + 3 * width <= dst.Length
    requires [b, g, r] == Pixel(c, src[from + 4 * x], src[from + 4 * x + 1], src[from + 4 * x + 2])
    requires forall k :: 0 <= k < x ==> PixelDone(c, src, from, dst, to, k)
    modifies dst
    ensures forall k :: 0 <= k < x + 1 ==> PixelDone(c, src, from, dst, to, k)
    ensures OnlyRow(dst, to, width)
  {
    hide Pixel;
    var at := to + 3 * x;
    dst[at] := b;
    dst[at + 1] := g;
    dst[at + 2] := r;
    assert dst[at..at + 3] == [b, g, r];
    forall k | 0 <= k < x ensures PixelDone(c, src, from, dst, to, k) {
      assert old(PixelDone(c, src, from, dst, to, k));
      assert dst[to + 3 * k..to + 3 * k + 3] == old(dst[to + 3 * k..to + 3 * k + 3]);
    }
  }

  /** One row: blocks if the processor has the instructions, then the rest pixel by pixel. */
  method ConvertRow(src: array<byte>, from: nat, dst: array<byte>, to: nat, width: nat, c: Coeffs, avx2: bool)
    requires CoeffsOk(c) && src != dst
    requires from + 4 * width <= src.Length && to + 3 * width <= dst.Length
    modifies dst
    ensures forall k :: 0 <= k < width ==> PixelDone(c, src, from, dst, to, k)
    ensures OnlyRow(dst, to, width)
  {
    hide Pixel, PixelDone;
    var x := 0;
    if avx2 {
      x := ConvertBlocks(src, from, dst, to, width, c);
    }
    while x < width
      invariant x <= width
      invariant forall k :: 0 <= k < x ==> PixelDone(c, src, from, dst, to, k)
      invariant OnlyRow(dst, to, width)
    {
      var b, g, r := ConvertPixel(src[from + 4 * x], src[from + 4 * x + 1], src[from + 4 * x + 2], c);
      PutPixel(src, from, dst, to, x, width, c, b, g, r);
      x := x + 1;
    }
  }

  /** The body of the scalar loop. */
  method ConvertPixel(vByte: byte, uByte: byte, yByte: byte, c: Coeffs) returns (blue: byte, green: byte, red: byte)
    ensures [blue, green, red] == Pixel(c, vByte, uByte, yByte)
  {
    var v, u := vByte as int, uByte as int;
    var ySample := yByte as int - c.yOffset;
    var du, dv := u - 128, v - 128;
    if ySample < 0 {
      ySample := 0;
    }
    var yTerm := c.yMul * ySample;
    var b := (yTerm + c.buMul * du + 128) / 256;
    var g := (yTerm - c.guMul * du - c.gvMul * dv + 128) / 256;
    var r := (yTerm + c.vrMul * dv + 128) / 256;
    return Clamp(b), Clamp(g), Clamp(r);
  }

  datatype Converted = Rejected | Picture(dst: array<byte>, stride: nat)

  /** The picture: every pixel of every row. */
  ghost predicate PictureDone(c: Coeffs, src: array<byte>, stride: nat, dst: array<byte>, width: nat, rows: nat)
    reads src, dst
  {
    forall y, x :: 0 <= y < rows && 0 <= x < width ==> PixelDone(c, src, y * stride, dst, y * (3 * width), x)
  }

  /** Every pixel has the colour that the standard gives to its three bytes V, U and Y. */
  ghost predicate ColoursTrue(rec601: bool, full: bool, src: array<byte>, stride: nat, dst: array<byte>,
                              width: nat, rows: nat)
    reads src, dst
  {
    forall y, x :: 0 <= y < rows && 0 <= x < width ==>
      PixelTrue(rec601, full, src, y * stride, dst, y * (3 * width), x)
  }

  ghost predicate PixelTrue(rec601: bool, full: bool, src: array<byte>, from: nat, dst: array<byte>, to: nat, x: nat)
    reads src, dst
  {
    var i, j := from + 4 * x, to + 3 * x;
    && i + 4 <= src.Length && j + 3 <= dst.Length
    && Shows(rec601, full, src[i], src[i + 1], src[i + 2], dst[j], dst[j + 1], dst[j + 2])
    && GreyIsGrey(full, src[i], src[i + 1], src[i + 2], dst[j], dst[j + 1], dst[j + 2])
  }

  lemma DoneIsTrue(hasInfo: bool, space: int, range: int, src: array<byte>, stride: nat, dst: array<byte>,
                   width: nat, rows: nat)
    requires PictureDone(CoeffsFrom(hasInfo, space, range), src, stride, dst, width, rows)
    ensures ColoursTrue(hasInfo && space == REC_601, hasInfo && range == RANGE_FULL, src, stride, dst, width, rows)
  {
    var c := CoeffsFrom(hasInfo, space, range);
    var rec601, full := hasInfo && space == REC_601, hasInfo && range == RANGE_FULL;
    hide Pixel, Shows, GreyIsGrey, CoeffsFrom;
    forall y, x | 0 <= y < rows && 0 <= x < width
      ensures PixelTrue(rec601, full, src, y * stride, dst, y * (3 * width), x)
    {
      assert PixelDone(c, src, y * stride, dst, y * (3 * width), x);
      PixelDoneTrue(hasInfo, space, range, src, y * stride, dst, y * (3 * width), x);
    }
  }

  lemma PixelDoneTrue(hasInfo: bool, space: int, range: int, src: array<byte>, from: nat, dst: array<byte>, to: nat,
                      x: nat)
    requires PixelDone(CoeffsFrom(hasInfo, space, range), src, from, dst, to, x)
    ensures PixelTrue(hasInfo && space == REC_601, hasInfo && range == RANGE_FULL, src, from, dst, to, x)
  {
    hide Pixel, Shows, GreyIsGrey, CoeffsFrom;
    var i, j := from + 4 * x, to + 3 * x;
    PixelShows(hasInfo, space, range, src[i], src[i + 1], src[i + 2]);
    PixelIsGrey(hasInfo, space, range, src[i], src[i + 1], src[i + 2]);
    assert dst[j..j + 3] == [dst[j], dst[j + 1], dst[j + 2]];
  }

  /**
    Any two pixels of converted rows: with the same colour the order of their light is the order of
    every channel; with the same light more U means more blue, more V more red, and either less green.
   */
  lemma PixelsOrdered(c: Coeffs, src: array<byte>, from: nat, dst: array<byte>, to: nat, x: nat,
                      from2: nat, to2: nat, x2: nat)
    requires CoeffsOk(c)
    requires PixelDone(c, src, from, dst, to, x) && PixelDone(c, src, from2, dst, to2, x2)
    ensures var i, j := from + 4 * x, to + 3 * x;
      var i2, j2 := from2 + 4 * x2, to2 + 3 * x2;
      && (src[i..i + 2] == src[i2..i2 + 2] ==>
            LightOrdered(src[i + 2], dst[j..j + 3], src[i2 + 2], dst[j2..j2 + 3]))
      && (src[i + 2] == src[i2 + 2] ==>
            ChromaOrdered(src[i], src[i + 1], dst[j..j + 3], src[i2], src[i2 + 1], dst[j2..j2 + 3]))
  {
    hide Pixel, LightOrdered, ChromaOrdered;
    var i, i2 := from + 4 * x, from2 + 4 * x2;
    assert src[i..i + 2] == [src[i], src[i + 1]] && src[i2..i2 + 2] == [src[i2], src[i2 + 1]];
    MoreLight(c, src[i], src[i + 1], src[i + 2], src[i2 + 2]);
    MoreChroma(c, src[i], src[i + 1], src[i2], src[i2 + 1], src[i + 2]);
  }

  /**
    `decoder_fast_convert_vuyx_to_bgr24`: the result does not depend on the instructions the
    processor has, and is the scalar formula at every pixel, whatever the stride of the source; each
    channel is within one of what the chosen standard gives over the reals.
   */
  method Convert(src: array<byte>, stride: int, width: int, height: int, hasInfo: bool, space: int, range: int,
                 avx2: bool)
    returns (r: Converted)
    requires width > 0 && height > 0 && stride >= 4 * width ==> (height - 1) * stride + 4 * width <= src.Length
    ensures r.Rejected? <==> width <= 0 || height <= 0 || stride < 4 * width
    ensures r.Picture? ==>
      && fresh(r.dst) && r.dst.Length == height * (3 * width) && r.stride == 3 * width
      && PictureDone(CoeffsFrom(hasInfo, space, range), src, stride, r.dst, width, height)
      && ColoursTrue(hasInfo && space == REC_601, hasInfo && range == RANGE_FULL, src, stride, r.dst, width, height)
  {
    if width <= 0 || height <= 0 || stride < 4 * width {
      return Rejected;
    }
    var c := CoeffsFrom(hasInfo, space, range);
    var line := 3 * width;
    var dst := new byte[height * line];
    var y := 0;
    hide CoeffsFrom, CoeffsOk, ColoursTrue;
    while y < height
      invariant 0 <= y <= height
      invariant PictureDone(c, src, stride, dst, width, y)
    {
      ConvertLine(src, stride, dst, width, height, y, c, avx2);
      y := y + 1;
    }
    DoneIsTrue(hasInfo, space, range, src, stride, dst, width, height);
    return Picture(dst, line);
  }

  lemma RowBounds(y: nat, height: nat, line: nat)
    requires y < height
    ensures 0 <= y * line <= (height - 1) * line && y * line + line <= height * line
  {
    assert (y + 1) * line <= height * line;
  }

  /** Row `y` of the picture; the rows above stay done. */
  method ConvertLine(src: array<byte>, stride: nat, dst: array<byte>, width: nat, height: nat, y: nat, c: Coeffs,
                     avx2: bool)
    requires CoeffsOk(c) && src != dst && y < height && stride >= 4 * width
    requires (height - 1) * stride + 4 * width <= src.Length && dst.Length == height * (3 * width)
    requires PictureDone(c, src, stride, dst, width, y)
    modifies dst
    ensures PictureDone(c, src, stride, dst, width, y + 1)
  {
    var line := 3 * width;
    RowBounds(y, height, stride);
    RowBounds(y, height, line);
    hide Pixel, CoeffsOk;
    ConvertRow(src, y * stride, dst, y * line, width, c, avx2);
    forall z, x | 0 <= z < y + 1 && 0 <= x < width ensures PixelDone(c, src, z * stride, dst, z * line, x) {
      if z < y {
        RowBounds(z, y, line);
        var at := z * line + 3 * x;
        assert old(PixelDone(c, src, z * stride, dst, z * line, x));
        assert dst[at..at + 3] == old(dst[at..at + 3]);
      }
    }
  }
}
