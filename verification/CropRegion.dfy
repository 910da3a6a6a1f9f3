/**
  Regions of interest in stream_server/src/zmq_bridge.c, 524-605: the request is cut down to the
  frame, and the rows of what is left are copied out.
 */
module CropRegion {
  import opened Bytes

  datatype Request = NoRequest | Request(x: int, y: int, w: int, h: int)

  datatype Region = Region(x: nat, y: nat, w: nat, h: nat, applied: bool)

  datatype Resolved = Failed | Resolved(region: Region)

  predicate InFrame(width: int, height: int, px: int, py: int) {
    0 <= px < width && 0 <= py < height
  }

  predicate Wanted(req: Request, px: int, py: int) {
    req.NoRequest? || (req.x <= px < req.x + req.w && req.y <= py < req.y + req.h)
  }

  predicate InRegion(r: Region, px: int, py: int) {
    r.x <= px < r.x + r.w && r.y <= py < r.y + r.h
  }

  function ResolveRoi(width: int, height: int, stride: int, req: Request): (r: Resolved)
    ensures r.Resolved? ==>
      && width * 3 <= stride && r.region.w > 0 && r.region.h > 0
      && r.region.x + r.region.w <= width && r.region.y + r.region.h <= height
  {
    if width <= 0 || height <= 0 || stride < width * 3 then Failed
    else if req.NoRequest? then Resolved(Region(0, 0, width, height, false))
    else if req.w <= 0 || req.h <= 0 then Failed
    else
      var right := if req.x + req.w > width then width else req.x + req.w;
      var bottom := if req.y + req.h > height then height else req.y + req.h;
      var x: nat := if req.x < 0 then 0 else req.x;
      var y: nat := if req.y < 0 then 0 else req.y;
      if right <= x || bottom <= y then Failed
      else
        Resolved(Region(x, y, right - x, bottom - y,
                        !(x == 0 && y == 0 && right - x == width && bottom - y == height)))
  }

  /**
    The region is exactly the pixels wanted that the frame has; it is refused exactly when there are
    none, and a crop is made exactly when some pixel of the frame is left out.
   */
  lemma RegionIsIntersection(width: int, height: int, stride: int, req: Request)
    requires stride >= width * 3
    ensures var r := ResolveRoi(width, height, stride, req);
      && (r.Failed? <==> forall px, py :: !(InFrame(width, height, px, py) && Wanted(req, px, py)))
      && (r.Resolved? ==>
           && (forall px, py :: InRegion(r.region, px, py) <==> InFrame(width, height, px, py) && Wanted(req, px, py))
           && (r.region.applied <==> exists px, py :: InFrame(width, height, px, py) && !Wanted(req, px, py)))
  {
    var r := ResolveRoi(width, height, stride, req);
    if r.Resolved? {
      var g := r.region;
      assert InFrame(width, height, g.x, g.y) && Wanted(req, g.x, g.y);
      if g.applied {
        assert InFrame(width, height, 0, 0) && InFrame(width, height, width - 1, height - 1);
        assert !(Wanted(req, 0, 0) && Wanted(req, width - 1, height - 1));
      }
    }
  }

  /** A region inside a frame whose bytes are `src`. */
  predicate Fits(src: seq<byte>, width: nat, height: nat, stride: nat, r: Region) {
    r.x + r.w <= width && r.y + r.h <= height && width * 3 <= stride && |src| == height * stride
  }

  function Size(r: Region): nat {
    r.h * (r.w * 3)
  }

  /** Where the bytes of a row of the region start. */
  function RowStart(stride: nat, r: Region, row: nat): nat {
    (r.y + row) * stride + r.x * 3
  }

  lemma RowInside(src: seq<byte>, width: nat, height: nat, stride: nat, r: Region, row: nat)
    requires Fits(src, width, height, stride, r) && row < r.h
    ensures RowStart(stride, r, row) + r.w * 3 <= |src|
  {
    var k := height - (r.y + row);
    assert |src| == (r.y + row) * stride + k * stride;
    assert k * stride >= stride;
  }

  /** The first `n` rows of the region, without the gaps between them. */
  function Rows(src: seq<byte>, width: nat, height: nat, stride: nat, r: Region, n: nat): (out: seq<byte>)
    requires Fits(src, width, height, stride, r) && n <= r.h
    ensures |out| == n * (r.w * 3)
  {
    if n == 0 then []
    else
      RowInside(src, width, height, stride, r, n - 1);
      var at := RowStart(stride, r, n - 1);
      Rows(src, width, height, stride, r, n - 1) + src[at..at + r.w * 3]
  }

  /** Channel `c` of pixel (px, py) of the crop is that channel of pixel (x + px, y + py) of the frame. */
  lemma {:induction false} PixelOfRows(src: seq<byte>, width: nat, height: nat, stride: nat, r: Region, n: nat,
                                       px: nat, py: nat, c: nat)
    requires Fits(src, width, height, stride, r) && n <= r.h && px < r.w && py < n && c < 3
    ensures 0 <= py * (r.w * 3) + px * 3 + c < n * (r.w * 3)
    ensures 0 <= (r.y + py) * stride + (r.x + px) * 3 + c < |src|
    ensures Rows(src, width, height, stride, r, n)[py * (r.w * 3) + px * 3 + c]
         == src[(r.y + py) * stride + (r.x + px) * 3 + c]
  {
    RowInside(src, width, height, stride, r, py);
    var w3 := r.w * 3;
    assert n * w3 == (n - 1) * w3 + w3;
    if py < n - 1 {
      PixelOfRows(src, width, height, stride, r, n - 1, px, py, c);
    }
  }

  method CopyRow(src: array<byte>, from: nat, dst: array<byte>, to: nat, len: nat)
    requires from + len <= src.Length && to + len <= dst.Length && src != dst
    modifies dst
    ensures dst[..to + len] == old(dst[..to]) + src[from..from + len]
  {
    forall i | 0 <= i < len {
      dst[to + i] := src[from + i];
    }
  }

  lemma RowsLeft(row: nat, h: nat, w3: nat)
    requires row < h
    ensures row * w3 + w3 == (row + 1) * w3 <= h * w3
  {
    assert (h - row - 1) * w3 >= 0;
    assert h * w3 == (row + 1) * w3 + (h - row - 1) * w3;
  }

  lemma WholeSize(r: Region)
    ensures Size(r) == r.h * (r.w * 3)
  {
  }

  lemma RowsStep(src: seq<byte>, width: nat, height: nat, stride: nat, r: Region, row: nat)
    requires Fits(src, width, height, stride, r) && row < r.h
    ensures var at := RowStart(stride, r, row);
      && at + r.w * 3 <= |src|
      && |Rows(src, width, height, stride, r, row)| + r.w * 3 <= Size(r)
      && Rows(src, width, height, stride, r, row + 1)
         == Rows(src, width, height, stride, r, row) + src[at..at + r.w * 3]
  {
    RowInside(src, width, height, stride, r, row);
    RowsLeft(row, r.h, r.w * 3);
    hide RowStart;
  }

  /** The copy of the region, row by row. */
  method CropBgrFrame(src: array<byte>, width: nat, height: nat, stride: nat, r: Region) returns (bgr: array<byte>)
    requires Fits(src[..], width, height, stride, r)
    ensures fresh(bgr) && bgr[..] == Rows(src[..], width, height, stride, r, r.h)
  {
    hide RowStart, Fits, Size;
    ghost var s := src[..];
    assert Rows(s, width, height, stride, r, 0) == [];
    assert |Rows(s, width, height, stride, r, r.h)| == Size(r) by { WholeSize(r); }
    hide Rows;
    bgr := new byte[Size(r)];
    var dstStride := r.w * 3;
    var done: nat := 0;
    for row := 0 to r.h
      invariant done <= bgr.Length && src[..] == s
      invariant bgr[..done] == Rows(s, width, height, stride, r, row)
    {
      RowsStep(s, width, height, stride, r, row);
      var from := RowStart(stride, r, row);
      CopyRow(src, from, bgr, done, dstStride);
      assert src[from..from + dstStride] == s[from..from + dstStride];
      done := done + dstStride;
    }
    assert bgr[..done] == bgr[..];
  }
}
