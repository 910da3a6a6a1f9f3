/**
  The TLV protocol between ml_worker and stream_server (stream_server/src/protocol.c, 18-107):
  a length that counts the header, a type, a stream id, and the payload, all big endian.
 */
module Protocol {
  import opened Bytes

  const HEADER_SIZE := 7
  const MAX_PACKET_SIZE := 10 * 1024 * 1024
  const MAX_STREAMS := 256
  const VIDEO_DATA := 1
  const HEARTBEAT := 2
  const STREAM_START := 3
  const STREAM_STOP := 4

  const UINT32_LIMIT := 0x1_0000_0000

  function ByteOf(x: nat, shift: nat): byte
    requires shift > 0
  {
    ((x / shift) % 256) as byte
  }

  function Be32(x: nat): (b: seq<byte>)
    ensures |b| == 4
  {
    [ByteOf(x, 0x100_0000), ByteOf(x, 0x1_0000), ByteOf(x, 0x100), ByteOf(x, 1)]
  }

  function Be16(x: nat): (b: seq<byte>)
    ensures |b| == 2
  {
    [ByteOf(x, 0x100), ByteOf(x, 1)]
  }

  function FromBe32(b: seq<byte>): (x: nat)
    requires |b| == 4
    ensures x < UINT32_LIMIT
  {
    b[0] as nat * 0x100_0000 + b[1] as nat * 0x1_0000 + b[2] as nat * 0x100 + b[3] as nat
  }

  function FromBe16(b: seq<byte>): (x: nat)
    requires |b| == 2
    ensures x < 0x1_0000
  {
    b[0] as nat * 0x100 + b[1] as nat
  }

  lemma Be32RoundTrip(x: nat)
    requires x < UINT32_LIMIT
    ensures FromBe32(Be32(x)) == x
  {
  }

  lemma Be16RoundTrip(x: nat)
    requires x < 0x1_0000
    ensures FromBe16(Be16(x)) == x
  {
  }

  lemma Be32Onto(b: seq<byte>)
    requires |b| == 4
    ensures Be32(FromBe32(b)) == b
  {
    var x := FromBe32(b);
    assert x / 0x100_0000 == b[0] as nat;
    assert x / 0x1_0000 == b[0] as nat * 256 + b[1] as nat;
    assert x / 0x100 == b[0] as nat * 0x1_0000 + b[1] as nat * 256 + b[2] as nat;
    hide FromBe32;
  }

  lemma Be16Onto(b: seq<byte>)
    requires |b| == 2
    ensures Be16(FromBe16(b)) == b
  {
  }

  // ---------- headers ----------

  datatype Header = Header(length: nat, msgType: nat, streamId: nat)

  datatype Parsed<T> = Malformed | Ok(value: T)

  predicate Admissible(h: Header) {
    && HEADER_SIZE <= h.length <= MAX_PACKET_SIZE
    && VIDEO_DATA <= h.msgType <= STREAM_STOP
    && 1 <= h.streamId <= MAX_STREAMS
  }

  function HeaderBytes(h: Header): (b: seq<byte>)
    ensures |b| == HEADER_SIZE
  {
    Be32(h.length) + [ByteOf(h.msgType, 1)] + Be16(h.streamId)
  }

  /** The fields as they stand in the bytes. */
  function FieldsOf(b: seq<byte>): Header
    requires |b| == HEADER_SIZE
  {
    Header(FromBe32(b[..4]), b[4] as nat, FromBe16(b[5..7]))
  }

  function ParseHeader(b: seq<byte>): Parsed<Header>
    requires |b| == HEADER_SIZE
  {
    if Admissible(FieldsOf(b)) then Ok(FieldsOf(b)) else Malformed
  }

  predicate Representable(h: Header) {
    h.length < UINT32_LIMIT && h.msgType < 256 && h.streamId < 0x1_0000
  }

  /** Any header that fits its fields is read back as written. */
  lemma HeaderRoundTrip(h: Header)
    requires Representable(h)
    ensures FieldsOf(HeaderBytes(h)) == h
  {
    var b := HeaderBytes(h);
    Be32RoundTrip(h.length);
    Be16RoundTrip(h.streamId);
    hide Be32, Be16, FromBe32, FromBe16;
    assert b[..4] == Be32(h.length) && b[5..7] == Be16(h.streamId);
  }

  lemma HeaderOnto(b: seq<byte>)
    requires |b| == HEADER_SIZE
    ensures HeaderBytes(FieldsOf(b)) == b
  {
    Be32Onto(b[..4]);
    Be16Onto(b[5..7]);
    hide Be32, Be16, FromBe32, FromBe16;
    assert b == b[..4] + [b[4]] + b[5..7];
  }

  // ---------- messages ----------

  datatype Message = Message(msgType: nat, streamId: nat, payload: seq<byte>)

  function HeaderOf(m: Message): Header {
    Header(HEADER_SIZE + |m.payload|, m.msgType, m.streamId)
  }

  function Encode(m: Message): (b: seq<byte>)
    ensures |b| == HEADER_SIZE + |m.payload|
  {
    HeaderBytes(HeaderOf(m)) + m.payload
  }

  function EncodeAll(ms: seq<Message>): seq<byte> {
    if ms == [] then [] else Encode(ms[0]) + EncodeAll(ms[1..])
  }

  lemma {:induction false} EncodeAllSnoc(ms: seq<Message>, m: Message)
    ensures EncodeAll(ms + [m]) == EncodeAll(ms) + Encode(m)
  {
    hide Encode;
    if ms == [] {
      assert [m][1..] == [];
      assert ms + [m] == [m];
    } else {
      assert (ms + [m])[1..] == ms[1..] + [m];
      EncodeAllSnoc(ms[1..], m);
      Associate(Encode(ms[0]), EncodeAll(ms[1..]), Encode(m));
    }
  }

  /** The messages the receive loop gets out of the bytes that reach it before the stream ends. */
  function Decode(s: seq<byte>): seq<Message>
    decreases |s|
  {
    if |s| < HEADER_SIZE then []
    else
      match ParseHeader(s[..HEADER_SIZE])
      case Malformed => []
      case Ok(h) =>
        if |s| < h.length then []
        else [Message(h.msgType, h.streamId, s[HEADER_SIZE..h.length])] + Decode(s[h.length..])
  }

  predicate Receivable(m: Message) {
    Admissible(HeaderOf(m))
  }

  lemma DecodeOne(m: Message, rest: seq<byte>)
    requires Receivable(m)
    ensures Decode(Encode(m) + rest) == [m] + Decode(rest)
  {
    var s := Encode(m) + rest;
    HeaderRoundTrip(HeaderOf(m));
    hide HeaderBytes, FieldsOf;
    assert s[..HEADER_SIZE] == HeaderBytes(HeaderOf(m));
    assert s[HEADER_SIZE..|Encode(m)|] == m.payload;
    assert s[|Encode(m)|..] == rest;
  }

  /** A header the receiver does not admit ends the loop, and all that follows is lost. */
  lemma DecodeStops(m: Message, rest: seq<byte>)
    requires !Receivable(m) && Representable(HeaderOf(m))
    ensures Decode(Encode(m) + rest) == []
  {
    HeaderRoundTrip(HeaderOf(m));
    hide HeaderBytes, FieldsOf;
    assert (Encode(m) + rest)[..HEADER_SIZE] == HeaderBytes(HeaderOf(m));
  }

  /** A message cut short yields nothing, receivable or not. */
  lemma DecodeCut(m: Message, n: nat)
    requires Representable(HeaderOf(m)) && n < |Encode(m)|
    ensures Decode(Encode(m)[..n]) == []
  {
    if n >= HEADER_SIZE {
      HeaderRoundTrip(HeaderOf(m));
      hide HeaderBytes, FieldsOf;
      assert Encode(m)[..n][..HEADER_SIZE] == HeaderBytes(HeaderOf(m));
    }
  }

  /** The loop recovers every receivable message in front, whatever comes behind. */
  lemma {:induction false} DecodeAfter(ms: seq<Message>, rest: seq<byte>)
    requires forall i :: 0 <= i < |ms| ==> Receivable(ms[i])
    ensures Decode(EncodeAll(ms) + rest) == ms + Decode(rest)
  {
    hide Encode, Decode, Receivable;
    if ms == [] {
      assert EncodeAll(ms) + rest == rest;
    } else {
      Associate(Encode(ms[0]), EncodeAll(ms[1..]), rest);
      DecodeOne(ms[0], EncodeAll(ms[1..]) + rest);
      DecodeAfter(ms[1..], rest);
      Associate([ms[0]], ms[1..], Decode(rest));
      assert [ms[0]] + ms[1..] == ms;
    }
  }

  /** From a stream of receivable messages cut anywhere, exactly the whole messages come out. */
  lemma {:induction false} DecodeTruncated(ms: seq<Message>, n: nat) returns (k: nat)
    requires forall i :: 0 <= i < |ms| ==> Receivable(ms[i])
    requires n <= |EncodeAll(ms)|
    ensures k <= |ms| && |EncodeAll(ms[..k])| <= n && (k < |ms| ==> n < |EncodeAll(ms[..k + 1])|)
    ensures Decode(EncodeAll(ms)[..n]) == ms[..k]
  {
    if ms == [] {
      return 0;
    }
    hide Encode, Decode, Receivable, EncodeAll;
    EncodeUnfolds(ms);
    var first := |Encode(ms[0])|;
    if n < first {
      k := 0;
      DecodeShort(ms, n);
    } else {
      var j := DecodeTruncated(ms[1..], n - first);
      k := j + 1;
      OneMoreBound(ms, n, j);
      OneMoreDecoded(ms, n, j);
    }
  }

  lemma EncodeUnfolds(ms: seq<Message>)
    requires ms != []
    ensures EncodeAll(ms) == Encode(ms[0]) + EncodeAll(ms[1..])
  {
  }

  lemma OneMoreDecoded(ms: seq<Message>, n: nat, j: nat)
    requires ms != [] && Receivable(ms[0]) && j < |ms| && |Encode(ms[0])| <= n <= |EncodeAll(ms)|
    requires n - |Encode(ms[0])| <= |EncodeAll(ms[1..])|
    requires Decode(EncodeAll(ms[1..])[..n - |Encode(ms[0])|]) == ms[1..][..j]
    ensures Decode(EncodeAll(ms)[..n]) == ms[..j + 1]
  {
    hide Encode, Decode, Receivable, EncodeAll;
    EncodeUnfolds(ms);
    DecodeStep(ms[0], EncodeAll(ms[1..]), n);
    assert [ms[0]] + ms[1..][..j] == ms[..j + 1];
  }

  /** The bounds on the messages behind the first, with the first in front. */
  lemma OneMoreBound(ms: seq<Message>, n: nat, j: nat)
    requires ms != [] && j < |ms| && |Encode(ms[0])| <= n
    requires |EncodeAll(ms[1..][..j])| <= n - |Encode(ms[0])|
    requires j < |ms| - 1 ==> n - |Encode(ms[0])| < |EncodeAll(ms[1..][..j + 1])|
    ensures |EncodeAll(ms[..j + 1])| <= n
    ensures j + 1 < |ms| ==> n < |EncodeAll(ms[..j + 2])|
  {
    hide Encode, EncodeAll;
    EncodePrefix(ms, j + 1);
    if j + 1 < |ms| { EncodePrefix(ms, j + 2); }
  }

  lemma DecodeShort(ms: seq<Message>, n: nat)
    requires ms != [] && Receivable(ms[0]) && n < |Encode(ms[0])|
    ensures n < |EncodeAll(ms[..1])| && EncodeAll(ms[..0]) == []
    ensures Decode(EncodeAll(ms)[..n]) == ms[..0]
  {
    hide Encode, Decode;
    EncodeOne(ms[0]);
    assert ms[..1] == [ms[0]] && ms[..0] == [];
    assert EncodeAll(ms)[..n] == Encode(ms[0])[..n];
    DecodeCut(ms[0], n);
  }

  lemma DecodeStep(m: Message, tail: seq<byte>, n: nat)
    requires Receivable(m) && |Encode(m)| <= n <= |Encode(m) + tail|
    ensures Decode((Encode(m) + tail)[..n]) == [m] + Decode(tail[..n - |Encode(m)|])
  {
    hide Encode, Decode, Receivable;
    assert (Encode(m) + tail)[..n] == Encode(m) + tail[..n - |Encode(m)|];
    DecodeOne(m, tail[..n - |Encode(m)|]);
  }

  lemma EncodeOne(m: Message)
    ensures EncodeAll([m]) == Encode(m)
  {
    assert [m][1..] == [];
  }

  lemma EncodePrefix(ms: seq<Message>, k: nat)
    requires 0 < k <= |ms|
    ensures EncodeAll(ms[..k]) == Encode(ms[0]) + EncodeAll(ms[1..][..k - 1])
  {
    assert ms[..k][1..] == ms[1..][..k - 1];
  }

  /** On arbitrary bytes: what comes out was written at the front of the stream, message by message. */
  lemma {:induction false} DecodeIsSound(s: seq<byte>) returns (tail: seq<byte>)
    ensures s == EncodeAll(Decode(s)) + tail
    ensures forall i :: 0 <= i < |Decode(s)| ==> Receivable(Decode(s)[i])
    decreases |s|
  {
    tail := s;
    if |s| >= HEADER_SIZE && ParseHeader(s[..HEADER_SIZE]).Ok? && |s| >= FieldsOf(s[..HEADER_SIZE]).length {
      var h := FieldsOf(s[..HEADER_SIZE]);
      var m := Message(h.msgType, h.streamId, s[HEADER_SIZE..h.length]);
      DecodedMessage(s, m);
      hide *;
      tail := DecodeIsSound(s[h.length..]);
      var rest := Decode(s[h.length..]);
      EncodeCons(m, rest);
      Associate(Encode(m), EncodeAll(rest), tail);
    }
  }

  lemma EncodeCons(m: Message, rest: seq<Message>)
    ensures EncodeAll([m] + rest) == Encode(m) + EncodeAll(rest)
  {
    assert ([m] + rest)[1..] == rest;
  }

  lemma DecodedMessage(s: seq<byte>, m: Message)
    requires |s| >= HEADER_SIZE
    requires var h := FieldsOf(s[..HEADER_SIZE]);
      Admissible(h) && h.length <= |s| && m == Message(h.msgType, h.streamId, s[HEADER_SIZE..h.length])
    ensures Receivable(m) && |Encode(m)| == FieldsOf(s[..HEADER_SIZE]).length
    ensures s == Encode(m) + s[|Encode(m)|..]
    ensures Decode(s) == [m] + Decode(s[|Encode(m)|..])
  {
    var h := FieldsOf(s[..HEADER_SIZE]);
    HeaderOnto(s[..HEADER_SIZE]);
    assert HeaderOf(m) == h;
    hide HeaderBytes, FieldsOf, Decode;
    DecodeUnfolds(s, h, m);
    Parts(s, h.length);
  }

  lemma DecodeUnfolds(s: seq<byte>, h: Header, m: Message)
    requires |s| >= HEADER_SIZE && h == FieldsOf(s[..HEADER_SIZE]) && Admissible(h) && h.length <= |s|
    requires m == Message(h.msgType, h.streamId, s[HEADER_SIZE..h.length])
    ensures Decode(s) == [m] + Decode(s[h.length..])
  {
    hide FieldsOf;
  }

  lemma Parts(s: seq<byte>, n: nat)
    requires HEADER_SIZE <= n <= |s|
    ensures s == (s[..HEADER_SIZE] + s[HEADER_SIZE..n]) + s[n..]
  {
  }

  // ---------- STREAM_START ----------

  datatype StreamInfo = StreamInfo(
    width: nat, height: nat, fps: nat, bitrate: nat, codec: nat, chroma: nat,
    bitdepth: nat, videoFormat: nat, colorSpace: nat, colorRange: nat)
  {
    predicate Valid() {
      && width < UINT32_LIMIT && height < UINT32_LIMIT && fps < UINT32_LIMIT && bitrate < UINT32_LIMIT
      && codec < UINT32_LIMIT && chroma < UINT32_LIMIT && bitdepth < UINT32_LIMIT
      && videoFormat < UINT32_LIMIT && colorSpace < UINT32_LIMIT && colorRange < UINT32_LIMIT
    }
  }

  function WordBytes(words: seq<nat>): (b: seq<byte>)
    ensures |b| == 4 * |words|
  {
    if words == [] then [] else Be32(words[0]) + WordBytes(words[1..])
  }

  lemma {:induction false} WordAt(words: seq<nat>, k: nat)
    requires k < |words|
    ensures WordBytes(words)[4 * k..4 * k + 4] == Be32(words[k])
  {
    hide Be32;
    if k > 0 {
      WordAt(words[1..], k - 1);
      assert WordBytes(words)[4 * k..4 * k + 4] == WordBytes(words[1..])[4 * (k - 1)..4 * (k - 1) + 4];
    }
  }

  function Words(i: StreamInfo): seq<nat> {
    [i.width, i.height, i.fps, i.bitrate, i.codec, i.chroma, i.bitdepth, i.videoFormat, i.colorSpace, i.colorRange]
  }

  /** The 40 bytes the sender puts into STREAM_START. */
  function InfoBytes(i: StreamInfo): (b: seq<byte>)
    ensures |b| == 40
  {
    WordBytes(Words(i))
  }

  function Field(b: seq<byte>, k: nat): nat
    requires 4 * k + 4 <= |b|
  {
    FromBe32(b[4 * k..4 * k + 4])
  }

  /** `protocol_parse_stream_info`: payloads of 16, 32 and 40 bytes are understood. */
  function ParseInfo(b: seq<byte>): Parsed<StreamInfo> {
    if |b| < 16 then Malformed
    else if |b| < 32 then
      Ok(StreamInfo(Field(b, 0), Field(b, 1), Field(b, 2), Field(b, 3), 0, 0, 8, 0, 0, 0))
    else
      var space := if |b| >= 40 then Field(b, 8) else 0;
      var range := if |b| >= 40 then Field(b, 9) else 0;
      Ok(StreamInfo(Field(b, 0), Field(b, 1), Field(b, 2), Field(b, 3), Field(b, 4), Field(b, 5),
                    Field(b, 6), Field(b, 7), space, range))
  }

  /** What the sender announces is what the receiver learns; older, shorter payloads get defaults. */
  lemma InfoRoundTrip(i: StreamInfo, n: nat)
    requires i.Valid() && 16 <= n <= 40
    ensures ParseInfo(InfoBytes(i)[..n]) == Ok(
      if n < 32 then StreamInfo(i.width, i.height, i.fps, i.bitrate, 0, 0, 8, 0, 0, 0)
      else if n < 40 then i.(colorSpace := 0, colorRange := 0)
      else i)
  {
    var b := InfoBytes(i)[..n];
    var words := Words(i);
    forall k | 0 <= k < 10 && 4 * k + 4 <= n ensures Field(b, k) == words[k] {
      hide Be32, FromBe32, WordBytes;
      WordAt(words, k);
      assert b[4 * k..4 * k + 4] == WordBytes(words)[4 * k..4 * k + 4];
      Be32RoundTrip(words[k]);
    }
    hide InfoBytes, Field;
  }

  // ---------- the code ----------

  /** `protocol_build_header`: byte assignments into the caller's buffer. */
  method BuildHeader(buf: array<byte>, msgType: nat, streamId: nat, payloadLen: nat)
    requires buf.Length >= HEADER_SIZE
    modifies buf
    ensures buf[..HEADER_SIZE] == HeaderBytes(Header((HEADER_SIZE + payloadLen) % UINT32_LIMIT, msgType, streamId))
    ensures buf[HEADER_SIZE..] == old(buf[HEADER_SIZE..])
  {
    var total := (HEADER_SIZE + payloadLen) % UINT32_LIMIT;
    buf[0] := ((total / 0x100_0000) % 256) as byte;
    buf[1] := ((total / 0x1_0000) % 256) as byte;
    buf[2] := ((total / 0x100) % 256) as byte;
    buf[3] := (total % 256) as byte;
    buf[4] := (msgType % 256) as byte;
    buf[5] := ((streamId / 0x100) % 256) as byte;
    buf[6] := (streamId % 256) as byte;
  }

  /** `protocol_parse_header`. */
  method ReadHeader(buf: array<byte>) returns (r: Parsed<Header>)
    requires buf.Length >= HEADER_SIZE
    ensures r == ParseHeader(buf[..HEADER_SIZE])
  {
    var length := buf[0] as nat * 0x100_0000 + buf[1] as nat * 0x1_0000 + buf[2] as nat * 0x100 + buf[3] as nat;
    var msgType := buf[4] as nat;
    var streamId := buf[5] as nat * 0x100 + buf[6] as nat;
    assert buf[..HEADER_SIZE][..4] == [buf[0], buf[1], buf[2], buf[3]];
    assert buf[..HEADER_SIZE][5..7] == [buf[5], buf[6]];
    if length < HEADER_SIZE || length > MAX_PACKET_SIZE {
      return Malformed;
    }
    if msgType < VIDEO_DATA || msgType > STREAM_STOP {
      return Malformed;
    }
    if streamId == 0 || streamId > MAX_STREAMS {
      return Malformed;
    }
    return Ok(Header(length, msgType, streamId));
  }
}
