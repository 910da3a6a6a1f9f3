/**
  The scalar formula of the VUYX conversion (stream_server/src/decoder.c, 1310-1362 and 1500-1524)
  against the standards: for every pixel, how far it is from the colour that the matrices of
  Rec. ITU-R BT.601 and Rec. ITU-R BT.709 give over the reals.
 */
module VuyxColours {
  import opened Bytes
  import opened Avx2

  datatype Coeffs = Coeffs(yOffset: int, yMul: int, vrMul: int, guMul: int, gvMul: int, buMul: int)

  const REC_601 := 0
  const REC_709 := 1
  const RANGE_LIMITED := 0
  const RANGE_FULL := 1

  /** `vuyx_bgr_coeffs_from_info`; without stream information Rec. 709 limited range is assumed. */
  function CoeffsFrom(hasInfo: bool, space: int, range: int): (c: Coeffs)
    ensures CoeffsOk(c)
  {
    var s := if hasInfo then space else REC_709;
    var r := if hasInfo then range else RANGE_LIMITED;
    if s == REC_601 then
      if r == RANGE_FULL then Coeffs(0, 256, 359, 88, 183, 454) else Coeffs(16, 298, 409, 100, 208, 516)
    else
      if r == RANGE_FULL then Coeffs(0, 256, 403, 48, 120, 475) else Coeffs(16, 298, 459, 55, 136, 541)
  }

  /** Coefficients far beyond those in use, and still too small for any 32-bit lane to overflow. */
  const COEFF_LIMIT := 0x10_0000

  predicate CoeffsOk(c: Coeffs) {
    && 0 <= c.yOffset <= 255
    && 0 <= c.yMul <= COEFF_LIMIT && 0 <= c.vrMul <= COEFF_LIMIT && 0 <= c.guMul <= COEFF_LIMIT
    && 0 <= c.gvMul <= COEFF_LIMIT && 0 <= c.buMul <= COEFF_LIMIT
  }

  // ---------- the scalar formula ----------

  function Clamp(x: int): byte {
    if x < 0 then 0 else if x > 255 then 255 else x as byte
  }

  function YTerm(c: Coeffs, y: byte): int {
    c.yMul * Max(y as int - c.yOffset, 0)
  }

  function BlueSum(c: Coeffs, u: byte, y: byte): int {
    YTerm(c, y) + c.buMul * (u as int - 128) + 128
  }

  function GreenSum(c: Coeffs, v: byte, u: byte, y: byte): int {
    YTerm(c, y) - c.guMul * (u as int - 128) - c.gvMul * (v as int - 128) + 128
  }

  function RedSum(c: Coeffs, v: byte, y: byte): int {
    YTerm(c, y) + c.vrMul * (v as int - 128) + 128
  }

  /** One pixel, blue first. */
  function Pixel(c: Coeffs, v: byte, u: byte, y: byte): (p: seq<byte>)
    ensures |p| == 3
  {
    [Clamp(BlueSum(c, u, y) / 256), Clamp(GreenSum(c, v, u, y) / 256), Clamp(RedSum(c, v, y) / 256)]
  }

  // ---------- the standards ----------

  /** Shares of red and blue in the luma signal: section 2.5.1 of BT.601 and item 3.2 of BT.709. */
  function Kr(rec601: bool): real {
    if rec601 then 0.299 else 0.2126
  }

  function Kb(rec601: bool): real {
    if rec601 then 0.114 else 0.0722
  }

  function Kg(rec601: bool): (k: real)
    ensures k > 0.0
  {
    1.0 - Kr(rec601) - Kb(rec601)
  }

  /** In the limited range luma has 219 steps and chroma 224, of 255. */
  function LumaGain(full: bool): real {
    if full then 1.0 else 255.0 / 219.0
  }

  function ChromaGain(full: bool): real {
    if full then 1.0 else 255.0 / 224.0
  }

  function RedPerV(rec601: bool, full: bool): real {
    ChromaGain(full) * 2.0 * (1.0 - Kr(rec601))
  }

  function BluePerU(rec601: bool, full: bool): real {
    ChromaGain(full) * 2.0 * (1.0 - Kb(rec601))
  }

  /** Green is what red and blue leave of the luma. */
  function GreenPerU(rec601: bool, full: bool): real {
    BluePerU(rec601, full) * Kb(rec601) / Kg(rec601)
  }

  function GreenPerV(rec601: bool, full: bool): real {
    RedPerV(rec601, full) * Kr(rec601) / Kg(rec601)
  }

  function Black(full: bool): int {
    if full then 0 else 16
  }

  /** Luma below black counts as black. */
  function Light(full: bool, y: byte): real {
    LumaGain(full) * (if y as int < Black(full) then 0 else y as int - Black(full)) as real
  }

  function Blue(rec601: bool, full: bool, u: byte, y: byte): real {
    Light(full, y) + BluePerU(rec601, full) * (u as int - 128) as real
  }

  function Green(rec601: bool, full: bool, v: byte, u: byte, y: byte): real {
    Light(full, y) - GreenPerU(rec601, full) * (u as int - 128) as real
      - GreenPerV(rec601, full) * (v as int - 128) as real
  }

  function Red(rec601: bool, full: bool, v: byte, y: byte): real {
    Light(full, y) + RedPerV(rec601, full) * (v as int - 128) as real
  }

  /** The byte differs by less than one from the value, cut to the range of a byte. */
  predicate Near(b: byte, x: real) {
    var cut := if x < 0.0 then 0.0 else if x > 255.0 then 255.0 else x;
    -1.0 < b as int as real - cut < 1.0
  }

  /** The three bytes are the colour that the standard gives to V, U and Y. */
  predicate Shows(rec601: bool, full: bool, v: byte, u: byte, y: byte, b: byte, g: byte, r: byte) {
    && Near(b, Blue(rec601, full, u, y))
    && Near(g, Green(rec601, full, v, u, y))
    && Near(r, Red(rec601, full, v, y))
  }

  // ---------- the formula against the standards ----------

  /** The integer is the one nearest to 256 times the factor. */
  predicate Rounded(c: int, factor: real) {
    -0.5 < c as real - 256.0 * factor < 0.5
  }

  /** Every coefficient of the four rows is the factor of the standard, scaled by 256 and rounded. */
  lemma RowsAreRounded(hasInfo: bool, space: int, range: int)
    ensures var c := CoeffsFrom(hasInfo, space, range);
      var rec601 := hasInfo && space == REC_601;
      var full := hasInfo && range == RANGE_FULL;
      && c.yOffset == Black(full)
      && Rounded(c.yMul, LumaGain(full))
      && Rounded(c.vrMul, RedPerV(rec601, full)) && Rounded(c.buMul, BluePerU(rec601, full))
      && Rounded(c.guMul, GreenPerU(rec601, full)) && Rounded(c.gvMul, GreenPerV(rec601, full))
  {
  }

  lemma CutNear(x: int, z: real)
    requires -1.0 < x as real - z < 1.0
    ensures Near(Clamp(x), z)
  {
  }

  /** One factor of a row: as the code has it, over the reals, and the steps it counts. */
  datatype Term = Term(scaled: int, factor: real, steps: int)

  function Scaled(t: Term): int {
    t.scaled * t.steps
  }

  function Exact(t: Term): real {
    t.factor * t.steps as real
  }

  /** The sum of the code and the value of the standard, term by term. */
  predicate InTerms(sum: int, value: real, light: Term, u: Term, v: Term) {
    && sum == Scaled(light) + Scaled(u) + Scaled(v) + 128
    && value == Exact(light) + Exact(u) + Exact(v)
  }

  predicate Close(t: Term, n: int, e: real) {
    0.0 <= e && -e <= t.scaled as real - 256.0 * t.factor <= e && -n <= t.steps <= n
  }

  lemma BoundedProduct(x: real, r: real, e: real, n: real)
    requires -e <= x <= e && -n <= r <= n
    ensures -(e * n) <= x * r <= e * n
  {
    assert (e - x) * (n + r) >= 0.0;
    assert (e + x) * (n - r) >= 0.0;
    assert (e - x) * (n - r) >= 0.0;
    assert (e + x) * (n + r) >= 0.0;
  }

  lemma DifferenceTimes(c: real, f: real, r: real)
    ensures (c - 256.0 * f) * r == c * r - 256.0 * (f * r)
  {
    assert (256.0 * f) * r == 256.0 * (f * r);
  }

  lemma ProductAsReal(c: int, d: int)
    ensures (c * d) as real == c as real * d as real
  {
  }

  /** A scaled factor, times the steps it counts. */
  lemma ScaledTerm(t: Term, n: int, e: real)
    requires Close(t, n, e)
    ensures -(e * n as real) <= Scaled(t) as real - 256.0 * Exact(t) <= e * n as real
  {
    var x := t.scaled as real - 256.0 * t.factor;
    var r := t.steps as real;
    BoundedProduct(x, r, e, n as real);
    DifferenceTimes(t.scaled as real, t.factor, r);
    ProductAsReal(t.scaled, t.steps);
  }

  /** The errors of scaling, of three terms, and of the rounding shift stay below one together. */
  lemma SumNear(sum: int, value: real, light: Term, u: Term, v: Term, eu: real, ev: real)
    requires InTerms(sum, value, light, u, v)
    requires Close(light, 255, 0.0823) && Close(u, 128, eu) && Close(v, 128, ev) && eu + ev <= 0.834
    ensures Near(Clamp(sum / 256), value)
  {
    hide Near, Clamp, Close, Scaled, Exact;
    ScaledTerm(light, 255, 0.0823);
    ScaledTerm(u, 128, eu);
    ScaledTerm(v, 128, ev);
    ErrorsAdd(Scaled(light), Scaled(u), Scaled(v), Exact(light), Exact(u), Exact(v), eu, ev);
    CutNear(sum / 256, value);
  }

  lemma ErrorsAdd(a: int, b: int, c: int, p: real, q: real, r: real, eu: real, ev: real)
    requires -(0.0823 * 255.0) <= a as real - 256.0 * p <= 0.0823 * 255.0
    requires -(eu * 128.0) <= b as real - 256.0 * q <= eu * 128.0
    requires -(ev * 128.0) <= c as real - 256.0 * r <= ev * 128.0
    requires eu + ev <= 0.834
    ensures -1.0 < ((a + b + c + 128) / 256) as real - (p + q + r) < 1.0
  {
    var sum := a + b + c + 128;
    ShiftRounds(sum);
    assert sum as real == a as real + b as real + c as real + 128.0;
  }

  lemma ShiftRounds(sum: int)
    ensures sum as real - 256.0 < 256.0 * (sum / 256) as real <= sum as real
  {
  }

  /** How far the coefficients are from the scaled factors. */
  lemma RowsAreClose(hasInfo: bool, space: int, range: int) returns (eu: real, ev: real)
    ensures var c := CoeffsFrom(hasInfo, space, range);
      var rec601 := hasInfo && space == REC_601;
      var full := hasInfo && range == RANGE_FULL;
      && c.yOffset == Black(full)
      && -0.0823 <= c.yMul as real - 256.0 * LumaGain(full) <= 0.0823
      && -0.5 <= c.vrMul as real - 256.0 * RedPerV(rec601, full) <= 0.5
      && -0.5 <= c.buMul as real - 256.0 * BluePerU(rec601, full) <= 0.5
      && -eu <= c.guMul as real - 256.0 * GreenPerU(rec601, full) <= eu
      && -ev <= c.gvMul as real - 256.0 * GreenPerV(rec601, full) <= ev
      && 0.0 <= eu && 0.0 <= ev && eu + ev <= 0.834
  {
    var rec601 := hasInfo && space == REC_601;
    var full := hasInfo && range == RANGE_FULL;
    eu := if full then (if rec601 then 0.2 else 0.1) else (if rec601 then 0.3 else 0.409);
    ev := if full then (if rec601 then 0.2 else 0.2) else (if rec601 then 0.2 else 0.425);
  }

  function LightTerm(c: Coeffs, full: bool, y: byte): Term {
    Term(c.yMul, LumaGain(full), Max(y as int - c.yOffset, 0))
  }

  lemma LightClose(c: Coeffs, full: bool, y: byte)
    requires c.yOffset == Black(full) && -0.0823 <= c.yMul as real - 256.0 * LumaGain(full) <= 0.0823
    ensures var t := LightTerm(c, full, y);
      Close(t, 255, 0.0823) && Light(full, y) == Exact(t) && YTerm(c, y) == Scaled(t)
  {
    hide LumaGain;
  }

  const NO_TERM := Term(0, 0.0, 0)

  lemma BlueShows(c: Coeffs, rec601: bool, full: bool, u: byte, y: byte)
    requires c.yOffset == Black(full) && -0.0823 <= c.yMul as real - 256.0 * LumaGain(full) <= 0.0823
    requires -0.5 <= c.buMul as real - 256.0 * BluePerU(rec601, full) <= 0.5
    ensures Near(Clamp(BlueSum(c, u, y) / 256), Blue(rec601, full, u, y))
  {
    hide LumaGain, BluePerU, Clamp, Near, Light, LightTerm, YTerm;
    LightClose(c, full, y);
    var term := Term(c.buMul, BluePerU(rec601, full), u as int - 128);
    assert Close(term, 128, 0.5) && Close(NO_TERM, 128, 0.0);
    assert InTerms(BlueSum(c, u, y), Blue(rec601, full, u, y), LightTerm(c, full, y), term, NO_TERM);
    hide *;
    SumNear(BlueSum(c, u, y), Blue(rec601, full, u, y), LightTerm(c, full, y), term, NO_TERM, 0.5, 0.0);
  }

  lemma RedShows(c: Coeffs, rec601: bool, full: bool, v: byte, y: byte)
    requires c.yOffset == Black(full) && -0.0823 <= c.yMul as real - 256.0 * LumaGain(full) <= 0.0823
    requires -0.5 <= c.vrMul as real - 256.0 * RedPerV(rec601, full) <= 0.5
    ensures Near(Clamp(RedSum(c, v, y) / 256), Red(rec601, full, v, y))
  {
    hide LumaGain, RedPerV, Clamp, Near, Light, LightTerm, YTerm;
    LightClose(c, full, y);
    var term := Term(c.vrMul, RedPerV(rec601, full), v as int - 128);
    assert Close(term, 128, 0.5) && Close(NO_TERM, 128, 0.0);
    assert InTerms(RedSum(c, v, y), Red(rec601, full, v, y), LightTerm(c, full, y), NO_TERM, term);
    hide *;
    SumNear(RedSum(c, v, y), Red(rec601, full, v, y), LightTerm(c, full, y), NO_TERM, term, 0.0, 0.5);
  }

  lemma Negated(m: int, f: real, d: int, e: real)
    requires 0.0 <= e && -e <= m as real - 256.0 * f <= e && -128 <= d <= 128
    ensures Close(Term(-m, -f, d), 128, e)
    ensures -m * d == -(m * d) && -f * d as real == -(f * d as real)
  {
  }

  lemma GreenShows(c: Coeffs, rec601: bool, full: bool, v: byte, u: byte, y: byte, eu: real, ev: real)
    requires c.yOffset == Black(full) && -0.0823 <= c.yMul as real - 256.0 * LumaGain(full) <= 0.0823
    requires -eu <= c.guMul as real - 256.0 * GreenPerU(rec601, full) <= eu
    requires -ev <= c.gvMul as real - 256.0 * GreenPerV(rec601, full) <= ev
    requires 0.0 <= eu && 0.0 <= ev && eu + ev <= 0.834
    ensures Near(Clamp(GreenSum(c, v, u, y) / 256), Green(rec601, full, v, u, y))
  {
    hide LumaGain, GreenPerU, GreenPerV, Clamp, Near, Light, LightTerm, YTerm, Close;
    LightClose(c, full, y);
    var fu, fv, du, dv := GreenPerU(rec601, full), GreenPerV(rec601, full), u as int - 128, v as int - 128;
    Negated(c.guMul, fu, du, eu);
    Negated(c.gvMul, fv, dv, ev);
    var ut, vt := Term(-c.guMul, -fu, du), Term(-c.gvMul, -fv, dv);
    assert InTerms(GreenSum(c, v, u, y), Green(rec601, full, v, u, y), LightTerm(c, full, y), ut, vt);
    hide *;
    SumNear(GreenSum(c, v, u, y), Green(rec601, full, v, u, y), LightTerm(c, full, y), ut, vt, eu, ev);
  }

  /** Every pixel has the colour of the standard: the chosen space, and Rec. 709 limited range without information. */
  lemma PixelShows(hasInfo: bool, space: int, range: int, v: byte, u: byte, y: byte)
    ensures var p := Pixel(CoeffsFrom(hasInfo, space, range), v, u, y);
      Shows(hasInfo && space == REC_601, hasInfo && range == RANGE_FULL, v, u, y, p[0], p[1], p[2])
  {
    var c := CoeffsFrom(hasInfo, space, range);
    var rec601 := hasInfo && space == REC_601;
    var full := hasInfo && range == RANGE_FULL;
    var eu, ev := RowsAreClose(hasInfo, space, range);
    hide CoeffsFrom, LumaGain, RedPerV, BluePerU, GreenPerU, GreenPerV, Clamp, Near;
    hide BlueSum, GreenSum, RedSum, Blue, Green, Red;
    BlueShows(c, rec601, full, u, y);
    GreenShows(c, rec601, full, v, u, y, eu, ev);
    RedShows(c, rec601, full, v, y);
  }

  // ---------- greys, and the direction of each component ----------

  /** Without colour the three channels are equal, and black and white are exactly 0 and 255. */
  predicate GreyIsGrey(full: bool, v: byte, u: byte, y: byte, b: byte, g: byte, r: byte) {
    v == 128 && u == 128 ==>
      && b == g == r
      && (b == 0 <==> y as int <= Black(full))
      && (b == 255 <==> y >= (if full then 255 else 235))
  }

  lemma PixelIsGrey(hasInfo: bool, space: int, range: int, v: byte, u: byte, y: byte)
    ensures var p := Pixel(CoeffsFrom(hasInfo, space, range), v, u, y);
      GreyIsGrey(hasInfo && range == RANGE_FULL, v, u, y, p[0], p[1], p[2])
  {
  }

  lemma ClampOrdered(a: int, b: int)
    requires a <= b
    ensures Clamp(a / 256) <= Clamp(b / 256)
  {
  }

  /** Of two pixels, the first with no more light and the same colour is no brighter in any channel. */
  predicate LightOrdered(y: byte, p: seq<byte>, z: byte, q: seq<byte>)
    requires |p| == |q| == 3
  {
    y <= z ==> p[0] <= q[0] && p[1] <= q[1] && p[2] <= q[2]
  }

  lemma MoreLightTerm(c: Coeffs, y: byte, z: byte)
    requires CoeffsOk(c) && y <= z
    ensures YTerm(c, y) <= YTerm(c, z)
  {
    MoreTimes(c.yMul, Max(y as int - c.yOffset, 0), Max(z as int - c.yOffset, 0));
  }

  lemma MoreLight(c: Coeffs, v: byte, u: byte, y: byte, z: byte)
    requires CoeffsOk(c)
    ensures LightOrdered(y, Pixel(c, v, u, y), z, Pixel(c, v, u, z))
  {
    hide Clamp, YTerm;
    if y <= z {
      MoreLightTerm(c, y, z);
      ClampOrdered(BlueSum(c, u, y), BlueSum(c, u, z));
      ClampOrdered(GreenSum(c, v, u, y), GreenSum(c, v, u, z));
      ClampOrdered(RedSum(c, v, y), RedSum(c, v, z));
    }
  }

  /** With the same light, more U makes blue no darker, and more V red; either makes green no brighter. */
  predicate ChromaOrdered(v: byte, u: byte, p: seq<byte>, w: byte, t: byte, q: seq<byte>)
    requires |p| == |q| == 3
  {
    && (u <= t ==> p[0] <= q[0])
    && (v <= w ==> p[2] <= q[2])
    && (u <= t && v <= w ==> p[1] >= q[1])
  }

  lemma MoreTimes(m: int, a: int, b: int)
    requires 0 <= m && a <= b
    ensures m * a <= m * b
  {
  }

  lemma MoreChroma(c: Coeffs, v: byte, u: byte, w: byte, t: byte, y: byte)
    requires CoeffsOk(c)
    ensures ChromaOrdered(v, u, Pixel(c, v, u, y), w, t, Pixel(c, w, t, y))
  {
    hide Clamp, YTerm;
    if u <= t { MoreBlue(c, u, t, y); }
    if v <= w { MoreRed(c, v, w, y); }
    if u <= t && v <= w { LessGreen(c, v, u, w, t, y); }
    hide BlueSum, GreenSum, RedSum, CoeffsOk;
  }

  lemma MoreBlue(c: Coeffs, u: byte, t: byte, y: byte)
    requires CoeffsOk(c) && u <= t
    ensures Clamp(BlueSum(c, u, y) / 256) <= Clamp(BlueSum(c, t, y) / 256)
  {
    hide Clamp, YTerm;
    MoreTimes(c.buMul, u as int - 128, t as int - 128);
    ClampOrdered(BlueSum(c, u, y), BlueSum(c, t, y));
  }

  lemma MoreRed(c: Coeffs, v: byte, w: byte, y: byte)
    requires CoeffsOk(c) && v <= w
    ensures Clamp(RedSum(c, v, y) / 256) <= Clamp(RedSum(c, w, y) / 256)
  {
    hide Clamp, YTerm;
    MoreTimes(c.vrMul, v as int - 128, w as int - 128);
    ClampOrdered(RedSum(c, v, y), RedSum(c, w, y));
  }

  lemma LessGreen(c: Coeffs, v: byte, u: byte, w: byte, t: byte, y: byte)
    requires CoeffsOk(c) && u <= t && v <= w
    ensures Clamp(GreenSum(c, w, t, y) / 256) <= Clamp(GreenSum(c, v, u, y) / 256)
  {
    hide Clamp, YTerm;
    MoreTimes(c.guMul, u as int - 128, t as int - 128);
    MoreTimes(c.gvMul, v as int - 128, w as int - 128);
    ClampOrdered(GreenSum(c, w, t, y), GreenSum(c, v, u, y));
  }
}
