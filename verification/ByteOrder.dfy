/**
  The bytes of the TLV protocol as they stand on the wire (stream_server/src/protocol.c, 18-107, and
  src/tcp_sender.c, 391-444): which byte counts most, and where each field stands.
 */
module ByteOrder {
  import opened Bytes
  import opened Protocol

  /** At the first place where the two differ, the first has the smaller byte. */
  predicate Before(a: seq<byte>, b: seq<byte>)
    requires |a| == |b|
  {
    a != [] && (a[0] < b[0] || (a[0] == b[0] && Before(a[1..], b[1..])))
  }

  /** The number that digits to the base 256 spell, read from the left. */
  function Value(b: seq<byte>): nat {
    if b == [] then 0 else 256 * Value(b[..|b| - 1]) + b[|b| - 1] as nat
  }

  lemma FourDigits(b: seq<byte>)
    requires |b| == 4
    ensures Value(b) == FromBe32(b)
  {
    assert Value(b[..3][..2][..1]) == b[0] as nat;
    assert Value(b[..3][..2]) == 256 * b[0] as nat + b[1] as nat;
    assert Value(b[..3]) == 256 * Value(b[..3][..2]) + b[2] as nat;
  }

  lemma TwoDigits(b: seq<byte>)
    requires |b| == 2
    ensures Value(b) == FromBe16(b)
  {
    assert Value(b[..1]) == b[0] as nat;
  }

  /** Numbers are in the order of their bytes, the most significant byte first: four of them ... */
  lemma Be32Ordered(x: nat, y: nat)
    requires x < UINT32_LIMIT && y < UINT32_LIMIT
    ensures x < y <==> Before(Be32(x), Be32(y))
  {
    Be32RoundTrip(x);
    Be32RoundTrip(y);
    FromBe32Ordered(Be32(x), Be32(y));
    hide *;
  }

  lemma FromBe32Ordered(a: seq<byte>, b: seq<byte>)
    requires |a| == |b| == 4
    ensures FromBe32(a) < FromBe32(b) <==> Before(a, b)
  {
    BeforeFour(a, b);
  }

  lemma BeforeFour(a: seq<byte>, b: seq<byte>)
    requires |a| == |b| == 4
    ensures Before(a, b) <==>
      a[0] < b[0] || (a[0] == b[0] && (a[1] < b[1] || (a[1] == b[1] &&
        (a[2] < b[2] || (a[2] == b[2] && a[3] < b[3])))))
  {
    BeforeTwo(a[1..][1..], b[1..][1..]);
    assert Before(a[1..], b[1..]) <==> a[1] < b[1] || (a[1] == b[1] && Before(a[1..][1..], b[1..][1..]));
  }

  lemma BeforeTwo(a: seq<byte>, b: seq<byte>)
    requires |a| == |b| == 2
    ensures Before(a, b) <==> a[0] < b[0] || (a[0] == b[0] && a[1] < b[1])
  {
    assert Before(a[1..], b[1..]) <==> a[1] < b[1];
  }

  /** ... and two. */
  lemma Be16Ordered(x: nat, y: nat)
    requires x < 0x1_0000 && y < 0x1_0000
    ensures x < y <==> Before(Be16(x), Be16(y))
  {
    BeforeTwo(Be16(x), Be16(y));
  }

  lemma FromBe16Ordered(a: seq<byte>, b: seq<byte>)
    requires |a| == |b| == 2
    ensures FromBe16(a) < FromBe16(b) <==> Before(a, b)
  {
    BeforeTwo(a, b);
  }

  // ---------- places ----------

  /** The length stands in the first four bytes, the type in the fifth, the stream id in the last two. */
  lemma HeaderPlaces(h: Header)
    requires Representable(h)
    ensures var b := HeaderBytes(h);
      Value(b[..4]) == h.length && b[4] as nat == h.msgType && Value(b[5..]) == h.streamId
  {
    var b := HeaderBytes(h);
    HeaderRoundTrip(h);
    FourDigits(b[..4]);
    TwoDigits(b[5..]);
    assert b[5..7] == b[5..];
    hide HeaderBytes, Value, FromBe32, FromBe16;
  }

  /** Which seven bytes the receiver takes for a header, and what it reads from them. */
  lemma HeaderIsAdmittedIff(b: seq<byte>)
    requires |b| == HEADER_SIZE
    ensures ParseHeader(b).Ok? <==>
      7 <= Value(b[..4]) <= 10_485_760 && 1 <= b[4] <= 4 && 1 <= Value(b[5..]) <= 256
    ensures ParseHeader(b).Ok? ==> ParseHeader(b).value == Header(Value(b[..4]), b[4] as nat, Value(b[5..]))
  {
    FourDigits(b[..4]);
    TwoDigits(b[5..]);
    assert b[5..7] == b[5..];
    hide Value, FromBe32, FromBe16;
  }

  /** The heartbeat of stream 1, byte by byte, and a STREAM_START of stream 256. */
  lemma HeadersByteByByte()
    ensures Encode(Message(2, 1, [])) == [0, 0, 0, 7, 2, 0, 1]
    ensures ParseHeader([0, 0, 0, 7, 2, 0, 1]) == Ok(Header(7, 2, 1))
    ensures HeaderBytes(Header(47, 3, 256)) == [0, 0, 0, 47, 3, 1, 0]
    ensures HeaderBytes(Header(10_485_760, 1, 255)) == [0, 0xa0, 0, 0, 1, 0, 255]
  {
    assert Be32(7) == [0, 0, 0, 7] && Be32(47) == [0, 0, 0, 47] && Be32(10_485_760) == [0, 0xa0, 0, 0];
    assert Be16(1) == [0, 1] && Be16(256) == [1, 0] && Be16(255) == [0, 255];
    assert HeaderBytes(Header(7, 2, 1)) == [0, 0, 0, 7, 2, 0, 1];
    HeaderRoundTrip(Header(7, 2, 1));
  }

  /** The ten fields of STREAM_START stand one behind the other, four bytes each. */
  lemma InfoPlaces(i: StreamInfo)
    requires i.Valid()
    ensures var b := InfoBytes(i);
      && Value(b[..4]) == i.width && Value(b[4..8]) == i.height
      && Value(b[8..12]) == i.fps && Value(b[12..16]) == i.bitrate
      && Value(b[16..20]) == i.codec && Value(b[20..24]) == i.chroma
      && Value(b[24..28]) == i.bitdepth && Value(b[28..32]) == i.videoFormat
      && Value(b[32..36]) == i.colorSpace && Value(b[36..40]) == i.colorRange
  {
    hide InfoBytes, Value, Words;
    InfoPlace(i, 0);
    InfoPlace(i, 1);
    InfoPlace(i, 2);
    InfoPlace(i, 3);
    InfoPlace(i, 4);
    InfoPlace(i, 5);
    InfoPlace(i, 6);
    InfoPlace(i, 7);
    InfoPlace(i, 8);
    InfoPlace(i, 9);
    WordsAre(i);
  }

  lemma WordsAre(i: StreamInfo)
    ensures var w := Words(i);
      && w[0] == i.width && w[1] == i.height && w[2] == i.fps && w[3] == i.bitrate && w[4] == i.codec
      && w[5] == i.chroma && w[6] == i.bitdepth && w[7] == i.videoFormat && w[8] == i.colorSpace
      && w[9] == i.colorRange
  {
  }

  lemma InfoPlace(i: StreamInfo, k: nat)
    requires i.Valid() && k < 10
    ensures Value(InfoBytes(i)[4 * k..4 * k + 4]) == Words(i)[k]
  {
    WordAt(Words(i), k);
    Be32RoundTrip(Words(i)[k]);
    FourDigits(Be32(Words(i)[k]));
    hide Be32, FromBe32, Value, WordBytes;
  }
}
