/**
  The incremental PNG extractor of the agent client (strem_agent_client/strem_agent_client.py,
  392-421). A PNG file is a signature and a series of chunks up to IEND; each chunk is a length,
  a type, that many bytes and a checksum (section 5.3 of the W3C PNG Specification).
 */
module PngExtractor {
  import opened Bytes
  import opened Protocol

  const SIGNATURE: seq<byte> := [0x89, 0x50, 0x4e, 0x47, 0x0d, 0x0a, 0x1a, 0x0a]
  const IEND: seq<byte> := [0x49, 0x45, 0x4e, 0x44]

  // ---------- the extractor as a function of the whole buffer ----------

  predicate SignatureAt(buf: seq<byte>, i: nat) {
    i + 8 <= |buf| && buf[i..i + 8] == SIGNATURE
  }

  ghost predicate FirstSignature(buf: seq<byte>, start: nat, p: nat) {
    && (p < |buf| ==> SignatureAt(buf, p))
    && forall i :: start <= i < p ==> !SignatureAt(buf, i)
  }

  /** `bytearray.find`: the first signature, `|buf|` for none. */
  function FindSignature(buf: seq<byte>, start: nat): (p: nat)
    requires start <= |buf|
    ensures start <= p <= |buf| && FirstSignature(buf, start, p)
    decreases |buf| - start
  {
    if start == |buf| then |buf|
    else if SignatureAt(buf, start) then start
    else FindSignature(buf, start + 1)
  }

  datatype Extent = Incomplete | Complete(end: nat)

  function ChunkSize(buf: seq<byte>, i: nat): nat
    requires i + 8 <= |buf|
  {
    12 + FromBe32(buf[i..i + 4])
  }

  /** Walks over the chunks from `i` on; a file is complete behind its IEND chunk. */
  function Walk(buf: seq<byte>, i: nat): (e: Extent)
    ensures e.Complete? ==> i + 12 <= e.end <= |buf|
    decreases |buf| - i
  {
    if |buf| < i + 8 then Incomplete
    else
      var next := i + ChunkSize(buf, i);
      if |buf| < next then Incomplete
      else if buf[i + 4..i + 8] == IEND then Complete(next)
      else Walk(buf, next)
  }

  /** The last bytes, kept because a signature may be split between two reads. */
  function KeptTail(buf: seq<byte>): seq<byte> {
    if |buf| > 8 then buf[|buf| - 8..] else buf
  }

  /** The files found in a buffer, and what stays behind in it. */
  function Extract(buf: seq<byte>): (seq<seq<byte>>, seq<byte>)
    decreases |buf|
  {
    var p := FindSignature(buf, 0);
    if p == |buf| then ([], KeptTail(buf)) else ExtractAt(buf[p..])
  }

  /** The same for a buffer that starts with a signature. */
  function ExtractAt(buf: seq<byte>): (seq<seq<byte>>, seq<byte>)
    requires SignatureAt(buf, 0)
    decreases |buf|, 0
  {
    match Walk(buf, 8)
    case Incomplete => ([], buf)
    case Complete(end) =>
      var r := Extract(buf[end..]);
      ([buf[..end]] + r.0, r.1)
  }

  // ---------- chunking does not matter ----------

  lemma {:induction false} FindUnique(buf: seq<byte>, start: nat, p: nat)
    requires start <= p <= |buf| && FirstSignature(buf, start, p)
    ensures FindSignature(buf, start) == p
  {
    hide SignatureAt;
    var q := FindSignature(buf, start);
    assert q < |buf| ==> SignatureAt(buf, q);
    assert p < |buf| ==> SignatureAt(buf, p);
  }

  lemma SignatureInPrefix(a: seq<byte>, c: seq<byte>, i: nat)
    requires i + 8 <= |a|
    ensures SignatureAt(a + c, i) == SignatureAt(a, i)
  {
    assert (a + c)[i..i + 8] == a[i..i + 8];
  }

  lemma SignatureShift(d: nat, buf: seq<byte>, i: nat)
    requires d <= |buf|
    ensures SignatureAt(buf, d + i) == SignatureAt(buf[d..], i)
  {
    if d + i + 8 <= |buf| {
      assert buf[d + i..d + i + 8] == buf[d..][i..i + 8];
    }
  }

  lemma {:induction false} WalkExtends(a: seq<byte>, c: seq<byte>, i: nat)
    requires Walk(a, i).Complete?
    ensures Walk(a + c, i) == Walk(a, i)
    decreases |a| - i
  {
    assert (a + c)[i..i + 4] == a[i..i + 4] && (a + c)[i + 4..i + 8] == a[i + 4..i + 8];
    hide FromBe32;
    if a[i + 4..i + 8] != IEND {
      WalkExtends(a, c, i + ChunkSize(a, i));
    }
  }

  lemma FoundInPrefix(a: seq<byte>, c: seq<byte>)
    requires FindSignature(a, 0) < |a|
    ensures FindSignature(a + c, 0) == FindSignature(a, 0)
  {
    hide SignatureAt, FindSignature;
    var p := FindSignature(a, 0);
    Reaches(a, p);
    SignatureInPrefix(a, c, p);
    forall i | 0 <= i < p ensures !SignatureAt(a + c, i) {
      SignatureInPrefix(a, c, i);
    }
    FindUnique(a + c, 0, p);
  }

  lemma Reaches(a: seq<byte>, p: nat)
    requires SignatureAt(a, p)
    ensures p + 8 <= |a|
  {
  }

  /** Without a signature only the kept tail can take part in one. */
  lemma FoundBehind(a: seq<byte>, c: seq<byte>)
    requires FindSignature(a, 0) == |a|
    ensures var d := |a| - |KeptTail(a)|;
      FindSignature(a + c, 0) == d + FindSignature(KeptTail(a) + c, 0)
  {
    hide SignatureAt, FindSignature, FirstSignature;
    var d := |a| - |KeptTail(a)|;
    var t := KeptTail(a) + c;
    BehindTail(a, c);
    NoneIn(a, |a|);
    var q := FindSignature(t, 0);
    SignatureShift(d, a + c, q);
    NoneIn(t, q);
    forall i | 0 <= i < d + q ensures !SignatureAt(a + c, i) {
      if i < d { SignatureInPrefix(a, c, i); } else { SignatureShift(d, a + c, i - d); }
    }
    FirstAt(a + c, d + q, q < |t|);
    FindUnique(a + c, 0, d + q);
  }

  /** What it means that a search has ended at `p`. */
  lemma NoneIn(buf: seq<byte>, p: nat)
    requires FindSignature(buf, 0) == p
    ensures p < |buf| ==> SignatureAt(buf, p)
    ensures forall i :: 0 <= i < p ==> !SignatureAt(buf, i)
  {
    assert FirstSignature(buf, 0, p);
  }

  lemma FirstAt(buf: seq<byte>, p: nat, found: bool)
    requires p <= |buf| && (if found then SignatureAt(buf, p) else p == |buf|)
    requires forall i :: 0 <= i < p ==> !SignatureAt(buf, i)
    ensures FirstSignature(buf, 0, p)
  {
    hide SignatureAt;
  }

  /** Extracting after each of two reads finds the same files, and leaves the same rest, as extracting once. */
  lemma {:induction false} ExtractTwice(a: seq<byte>, c: seq<byte>)
    ensures var first := Extract(a);
      var second := Extract(first.1 + c);
      Extract(a + c) == (first.0 + second.0, second.1)
    decreases |a|
  {
    var p := FindSignature(a, 0);
    if p == |a| {
      hide FindSignature, SignatureAt, ExtractAt;
      FoundBehind(a, c);
      TailOnly(a, c);
    } else {
      FoundInPrefix(a, c);
      assert (a + c)[p..] == a[p..] + c;
      SignatureShift(p, a, 0);
      hide FindSignature, SignatureAt, ExtractAt;
      ExtractAtTwice(a[p..], c);
    }
  }

  lemma TailOnly(a: seq<byte>, c: seq<byte>)
    requires FindSignature(a, 0) == |a|
    requires FindSignature(a + c, 0) == |a| - |KeptTail(a)| + FindSignature(KeptTail(a) + c, 0)
    ensures Extract(a + c) == Extract(KeptTail(a) + c)
    ensures Extract(a) == ([], KeptTail(a)) && [] + Extract(a + c).0 == Extract(a + c).0
  {
    hide FindSignature, SignatureAt, ExtractAt;
    var d := |a| - |KeptTail(a)|;
    var t := KeptTail(a) + c;
    BehindTail(a, c);
    var q := FindSignature(t, 0);
    hide KeptTail;
    if q < |t| {
      DropTwice(a + c, d, q);
    }
  }

  /** Dropping what is not kept changes neither what lies behind it nor what would be kept. */
  lemma BehindTail(a: seq<byte>, c: seq<byte>)
    ensures KeptTail(a) + c == (a + c)[|a| - |KeptTail(a)|..]
    ensures KeptTail(a + c) == KeptTail(KeptTail(a) + c)
  {
  }

  lemma DropTwice(s: seq<byte>, d: nat, q: nat)
    requires d <= |s| && q <= |s[d..]|
    ensures s[d..][q..] == s[d + q..]
  {
  }

  lemma {:induction false} ExtractAtTwice(a: seq<byte>, c: seq<byte>)
    requires SignatureAt(a, 0)
    ensures SignatureAt(a + c, 0)
    ensures var first := ExtractAt(a);
      var second := Extract(first.1 + c);
      ExtractAt(a + c) == (first.0 + second.0, second.1)
    decreases |a|, 0
  {
    SignatureInPrefix(a, c, 0);
    match Walk(a, 8)
    case Incomplete =>
      StartsAtZero(a + c);
      hide Walk, SignatureAt, FindSignature;
      assert [] + ExtractAt(a + c).0 == ExtractAt(a + c).0;
    case Complete(end) =>
      ExtractTwice(a[end..], c);
      hide Extract;
      FirstFileStays(a, c, end);
      Associate([a[..end]], Extract(a[end..]).0, Extract(Extract(a[end..]).1 + c).0);
  }

  lemma StartsAtZero(buf: seq<byte>)
    requires SignatureAt(buf, 0)
    ensures Extract(buf) == ExtractAt(buf)
  {
    FindUnique(buf, 0, 0);
    hide ExtractAt, SignatureAt, FindSignature;
    assert buf[0..] == buf;
  }

  lemma FirstFileStays(a: seq<byte>, c: seq<byte>, end: nat)
    requires SignatureAt(a, 0) && SignatureAt(a + c, 0) && Walk(a, 8) == Complete(end)
    ensures ExtractAt(a) == ([a[..end]] + Extract(a[end..]).0, Extract(a[end..]).1)
    ensures ExtractAt(a + c) == ([a[..end]] + Extract(a[end..] + c).0, Extract(a[end..] + c).1)
  {
    WalkExtends(a, c, 8);
    hide Walk, SignatureAt, Extract;
    assert (a + c)[..end] == a[..end] && (a + c)[end..] == a[end..] + c;
  }

  /** Reading a stream in pieces: the files found so far and the bytes kept. */
  function Feed(pieces: seq<seq<byte>>): (seq<seq<byte>>, seq<byte>) {
    if pieces == [] then ([], [])
    else
      var before := Feed(pieces[..|pieces| - 1]);
      var r := Extract(before.1 + pieces[|pieces| - 1]);
      (before.0 + r.0, r.1)
  }

  /** However a stream is cut into reads, the files found are those of one look at the whole. */
  lemma {:induction false} CuttingDoesNotMatter(pieces: seq<seq<byte>>)
    ensures Feed(pieces) == Extract(Flatten(pieces))
  {
    if pieces == [] {
      FindUnique([], 0, 0);
    } else {
      var front := pieces[..|pieces| - 1];
      var last := pieces[|pieces| - 1];
      CuttingDoesNotMatter(front);
      FlattenSnoc(front, last);
      assert front + [last] == pieces;
      hide Extract, Flatten;
      ExtractTwice(Flatten(front), last);
    }
  }

  // ---------- what the files are ----------

  datatype Chunk = Chunk(kind: seq<byte>, data: seq<byte>, crc: seq<byte>)

  predicate ChunkOk(c: Chunk) {
    |c.kind| == 4 && |c.crc| == 4 && |c.data| < UINT32_LIMIT
  }

  function RenderChunk(c: Chunk): seq<byte> {
    Be32(|c.data|) + c.kind + c.data + c.crc
  }

  function RenderChunks(cs: seq<Chunk>): seq<byte> {
    if cs == [] then [] else RenderChunk(cs[0]) + RenderChunks(cs[1..])
  }

  /** A PNG file: the signature, any chunks, and IEND as the last one only. */
  function RenderPng(cs: seq<Chunk>): seq<byte> {
    SIGNATURE + RenderChunks(cs)
  }

  predicate PngOk(cs: seq<Chunk>) {
    && cs != []
    && (forall i :: 0 <= i < |cs| ==> ChunkOk(cs[i]))
    && (forall i :: 0 <= i < |cs| ==> (cs[i].kind == IEND <==> i == |cs| - 1))
  }

  /** A chunk of this kind lies from `i` to `next`. */
  predicate Stands(buf: seq<byte>, i: nat, next: nat, kind: seq<byte>) {
    i + 8 <= |buf| && next == i + ChunkSize(buf, i) <= |buf| && buf[i + 4..i + 8] == kind
  }

  lemma ChunkAt(before: seq<byte>, c: Chunk, rest: seq<byte>)
    requires ChunkOk(c)
    ensures Stands(before + (RenderChunk(c) + rest), |before|, |before| + |RenderChunk(c)|, c.kind)
  {
    var buf := before + (RenderChunk(c) + rest);
    Be32RoundTrip(|c.data|);
    hide Be32, FromBe32;
    assert buf[|before|..|before| + 4] == Be32(|c.data|);
  }

  lemma {:induction false} WalkOverChunks(before: seq<byte>, cs: seq<Chunk>, rest: seq<byte>)
    requires PngOk(cs)
    ensures Walk(before + (RenderChunks(cs) + rest), |before|) == Complete(|before| + |RenderChunks(cs)|)
    decreases |cs|
  {
    hide RenderChunk, Walk, ChunkOk;
    var c := cs[0];
    var more := RenderChunks(cs[1..]) + rest;
    Associate(RenderChunk(c), RenderChunks(cs[1..]), rest);
    assert before + (RenderChunks(cs) + rest) == before + (RenderChunk(c) + more);
    WalkStep(before + (RenderChunk(c) + more), before, c, more);
    if |cs| > 1 {
      WalkOverChunks(before + RenderChunk(c), cs[1..], rest);
      Associate(before, RenderChunk(c), more);
    } else {
      assert RenderChunks(cs[1..]) == [];
    }
  }

  lemma WalkStep(buf: seq<byte>, before: seq<byte>, c: Chunk, more: seq<byte>)
    requires ChunkOk(c) && buf == before + (RenderChunk(c) + more)
    ensures var next := |before| + |RenderChunk(c)|;
      Walk(buf, |before|) == if c.kind == IEND then Complete(next) else Walk(buf, next)
  {
    hide Stands, RenderChunk, Walk, ChunkOk, ChunkSize;
    assert Stands(buf, |before|, |before| + |RenderChunk(c)|, c.kind) by { ChunkAt(before, c, more); }
    WalkUnfolds(buf, |before|, |before| + |RenderChunk(c)|, c.kind);
  }

  lemma WalkUnfolds(buf: seq<byte>, i: nat, next: nat, kind: seq<byte>)
    requires Stands(buf, i, next, kind)
    ensures Walk(buf, i) == if kind == IEND then Complete(next) else Walk(buf, next)
  {
    hide ChunkSize;
  }

  function RenderAll(files: seq<seq<Chunk>>): seq<seq<byte>> {
    seq(|files|, i requires 0 <= i < |files| => RenderPng(files[i]))
  }

  /** Files written one behind the other come out again, each as written, and nothing stays behind. */
  lemma {:induction false} FilesComeBack(files: seq<seq<Chunk>>)
    requires forall i :: 0 <= i < |files| ==> PngOk(files[i])
    ensures Extract(Flatten(RenderAll(files))) == (RenderAll(files), [])
  {
    if files == [] {
      FindUnique([], 0, 0);
    } else {
      var rest := Flatten(RenderAll(files[1..]));
      assert RenderAll(files)[1..] == RenderAll(files[1..]);
      assert RenderAll(files) == [RenderPng(files[0])] + RenderAll(files[1..]);
      FilesComeBack(files[1..]);
      FileInFront(files[0], rest);
    }
  }

  lemma FileInFront(cs: seq<Chunk>, rest: seq<byte>)
    requires PngOk(cs)
    ensures Extract(RenderPng(cs) + rest) == ([RenderPng(cs)] + Extract(rest).0, Extract(rest).1)
  {
    var buf := RenderPng(cs) + rest;
    WalkOverChunks(SIGNATURE, cs, rest);
    Associate(SIGNATURE, RenderChunks(cs), rest);
    assert buf[0..8] == SIGNATURE;
    FindUnique(buf, 0, 0);
    hide Walk, FindSignature, RenderChunks, PngOk;
    assert buf[0..] == buf;
    assert buf[..|RenderPng(cs)|] == RenderPng(cs) && buf[|RenderPng(cs)|..] == rest;
  }

  /** Bytes in front of a file are skipped, as long as no signature begins among them. */
  lemma NoiseInFront(noise: seq<byte>, cs: seq<Chunk>, rest: seq<byte>)
    requires PngOk(cs)
    requires forall i :: 0 <= i < |noise| ==> !SignatureAt(noise + (RenderPng(cs) + rest), i)
    ensures Extract(noise + (RenderPng(cs) + rest)) == ([RenderPng(cs)] + Extract(rest).0, Extract(rest).1)
  {
    hide Extract, RenderPng, SignatureAt, PngOk;
    FileInFront(cs, rest);
    StartsSigned(cs, rest);
    SkipsNoise(noise, RenderPng(cs) + rest);
  }

  lemma SkipsNoise(noise: seq<byte>, file: seq<byte>)
    requires file != [] && SignatureAt(file, 0)
    requires forall i :: 0 <= i < |noise| ==> !SignatureAt(noise + file, i)
    ensures Extract(noise + file) == Extract(file)
  {
    hide Extract, ExtractAt, SignatureAt, FindSignature;
    var buf := noise + file;
    SignatureShift(|noise|, buf, 0);
    assert buf[|noise|..] == file && file[0..] == file;
    FindUnique(file, 0, 0);
    FindUnique(buf, 0, |noise|);
    ExtractFrom(file, 0);
    ExtractFrom(buf, |noise|);
  }

  lemma ExtractFrom(buf: seq<byte>, p: nat)
    requires p < |buf| && FindSignature(buf, 0) == p
    ensures Extract(buf) == ExtractAt(buf[p..])
  {
    hide ExtractAt, FindSignature;
  }

  lemma StartsSigned(cs: seq<Chunk>, rest: seq<byte>)
    ensures SignatureAt(RenderPng(cs) + rest, 0) && RenderPng(cs) + rest != []
  {
    hide RenderChunks;
    assert (RenderPng(cs) + rest)[0..8] == SIGNATURE;
  }

  /** The chunks of an image without pixels, byte by byte: a header chunk of 13 bytes, and IEND. */
  lemma FileByteByByte(header: seq<byte>, crc: seq<byte>, rest: seq<byte>)
    requires |header| == 13 && |crc| == 4
    ensures var file: seq<byte> :=
        [0x89, 0x50, 0x4e, 0x47, 0x0d, 0x0a, 0x1a, 0x0a]
        + (([0, 0, 0, 13] + [0x49, 0x48, 0x44, 0x52] + header + crc)
           + ([0, 0, 0, 0] + [0x49, 0x45, 0x4e, 0x44] + [] + [0xae, 0x42, 0x60, 0x82]));
      Extract(file + rest) == ([file] + Extract(rest).0, Extract(rest).1)
  {
    var ihdr := Chunk([0x49, 0x48, 0x44, 0x52], header, crc);
    var iend := Chunk(IEND, [], [0xae, 0x42, 0x60, 0x82]);
    FileInFront([ihdr, iend], rest);
    TwoChunks(ihdr, iend);
    LengthBytes();
    hide Extract, RenderChunks, Be32, PngOk;
  }

  lemma LengthBytes()
    ensures Be32(13) == [0, 0, 0, 13] && Be32(0) == [0, 0, 0, 0]
  {
  }

  lemma TwoChunks(a: Chunk, b: Chunk)
    ensures RenderChunks([a, b]) == RenderChunk(a) + RenderChunk(b)
  {
    hide RenderChunk;
    assert [a, b][1..] == [b] && [b][1..] == [];
    assert RenderChunks([b]) == RenderChunk(b) + RenderChunks([]);
    assert RenderChunk(b) + [] == RenderChunk(b);
  }

  // ---------- the code ----------

  class PngReader {
    var buf: seq<byte>

    constructor ()
      ensures buf == []
    {
      buf := [];
    }

    /** `extract_pngs`: takes complete files out of the buffer, in place. */
    method ExtractPngs() returns (out: seq<seq<byte>>)
      modifies this
      ensures (out, buf) == Extract(old(buf))
    {
      hide FindSignature, SignatureAt, FirstSignature, Walk;
      out := [];
      ghost var whole := Extract(buf);
      assert [] + whole.0 == whole.0;
      while true
        invariant whole == (out + Extract(buf).0, Extract(buf).1)
        decreases |buf|
      {
        var at := FindSignature(buf, 0);
        if at == |buf| {
          if |buf| > 8 {
            buf := buf[|buf| - 8..];
          }
          assert out + [] == out;
          return;
        }
        if at > 0 {
          SignatureMoves(buf, at);
          buf := buf[at..];
        } else {
          SignatureMoves(buf, 0);
        }
        var end := NextFile();
        if end == 0 {
          assert out + [] == out;
          return;
        }
        Associate(out, [buf[..end]], Extract(buf[end..]).0);
        out := out + [buf[..end]];
        buf := buf[end..];
      }
    }

    /** The inner loop: the end of the file at the front, 0 while it is incomplete. */
    method NextFile() returns (end: nat)
      ensures Walk(buf, 8) == if end == 0 then Incomplete else Complete(end)
      ensures end <= |buf|
    {
      var i := 8;
      while true
        invariant Walk(buf, 8) == Walk(buf, i)
        decreases |buf| - i
      {
        if |buf| < i + 8 {
          return 0;
        }
        var size := 4 + 4 + FromBe32(buf[i..i + 4]) + 4;
        var kind := buf[i + 4..i + 8];
        if |buf| < i + size {
          return 0;
        }
        i := i + size;
        if kind == IEND {
          return i;
        }
      }
    }

    /** One read of the stream. */
    method Read(chunk: seq<byte>) returns (out: seq<seq<byte>>)
      modifies this
      ensures (out, buf) == Extract(old(buf) + chunk)
    {
      buf := buf + chunk;
      out := ExtractPngs();
    }

    /** Reads piece by piece until the stream ends. */
    method ReadAll(pieces: seq<seq<byte>>) returns (out: seq<seq<byte>>)
      requires buf == []
      modifies this
      ensures (out, buf) == Extract(Flatten(pieces))
    {
      hide Extract;
      out := [];
      var i := 0;
      assert pieces[..0] == [];
      while i < |pieces|
        invariant 0 <= i <= |pieces|
        invariant (out, buf) == Feed(pieces[..i])
      {
        assert pieces[..i + 1][..i] == pieces[..i];
        var more := Read(pieces[i]);
        out := out + more;
        i := i + 1;
      }
      assert pieces[..i] == pieces;
      CuttingDoesNotMatter(pieces);
    }
  }

  /** A signature in front is found there. */
  lemma SignatureMoves(buf: seq<byte>, at: nat)
    requires at == FindSignature(buf, 0) < |buf|
    ensures SignatureAt(buf[at..], 0)
    ensures Extract(buf[at..]) == ExtractAt(buf[at..]) == Extract(buf)
  {
    SignatureShift(at, buf, 0);
    FindUnique(buf[at..], 0, 0);
    hide SignatureAt, FindSignature, ExtractAt;
    assert buf[at..][0..] == buf[at..];
  }
}
