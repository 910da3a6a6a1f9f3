/**
  NAL types, the parameter-set cache and keyframe detection of the recorder
  (stream_server/src/compressed_recorder.c, 317-352 and 382-413). NAL unit types are those of
  section 7.4.1 of ITU-T H.264 and section 7.4.2.2 of ITU-T H.265.
 */
module ParamSets {
  import opened Bytes
  import opened AnnexB

  const PARAM_SET_LIMIT := 1024 * 1024
  const START_CODE: seq<byte> := [0, 0, 0, 1]
  const NO_PARAMS: seq<seq<byte>> := [[], [], []]
  const H264: nat := 0
  const HEVC: nat := 1

  datatype NalKind = ParamSet(index: nat) | Keyframe | Other

  function KindOf(codec: nat, nal: seq<byte>): (k: NalKind)
    ensures k.ParamSet? ==> k.index < 3
  {
    if nal == [] then Other
    else if codec == H264 then
      var t := nal[0] % 32;
      if t == 7 then ParamSet(0) else if t == 8 then ParamSet(1) else if t == 5 then Keyframe else Other
    else if codec == HEVC && |nal| >= 2 then
      var t := (nal[0] / 2) % 64;
      if t == 32 then ParamSet(0) else if t == 33 then ParamSet(1) else if t == 34 then ParamSet(2)
      else if 16 <= t <= 21 then Keyframe else Other
    else Other
  }

  /** A NAL that the cache keeps as parameter set `i`. */
  predicate Keeps(codec: nat, i: nat, nal: seq<byte>) {
    KindOf(codec, nal) == ParamSet(i) && |nal| <= PARAM_SET_LIMIT
  }

  predicate HasKeyframe(codec: nat, nals: seq<seq<byte>>) {
    exists k :: 0 <= k < |nals| && KindOf(codec, nals[k]) == Keyframe
  }

  /** The cache after one more NAL. */
  function Absorb(codec: nat, params: seq<seq<byte>>, nal: seq<byte>): (p: seq<seq<byte>>)
    requires |params| == 3
    ensures |p| == 3
  {
    var kind := KindOf(codec, nal);
    if kind.ParamSet? && |nal| <= PARAM_SET_LIMIT then params[kind.index := START_CODE + nal] else params
  }

  function AbsorbAll(codec: nat, params: seq<seq<byte>>, nals: seq<seq<byte>>): (p: seq<seq<byte>>)
    requires |params| == 3
    ensures |p| == 3
  {
    if nals == [] then params
    else Absorb(codec, AbsorbAll(codec, params, nals[..|nals| - 1]), nals[|nals| - 1])
  }

  /** The number of parameter sets a codec needs. */
  function SetCount(codec: nat): nat {
    if codec == HEVC then 3 else 2
  }

  predicate Supported(codec: nat) {
    codec == H264 || codec == HEVC
  }

  predicate Ready(codec: nat, params: seq<seq<byte>>)
    requires |params| == 3
  {
    Supported(codec) && forall i :: 0 <= i < SetCount(codec) ==> params[i] != []
  }

  /** What `write_param_sets` puts in front of a segment. */
  function Header(codec: nat, params: seq<seq<byte>>): seq<byte> {
    Flatten(if SetCount(codec) <= |params| then params[..SetCount(codec)] else params)
  }

  /** A packet as it is stored: a payload without start code gets one. */
  function Stored(packet: seq<byte>): seq<byte> {
    if HasCode(packet) then packet else START_CODE + packet
  }

  /** All NALs of a series of packets. */
  function AllNals(packets: seq<seq<byte>>): seq<seq<byte>> {
    if packets == [] then []
    else AllNals(packets[..|packets| - 1]) + Nals(packets[|packets| - 1])
  }

  lemma AllNalsSnoc(packets: seq<seq<byte>>, p: seq<byte>)
    ensures AllNals(packets + [p]) == AllNals(packets) + Nals(p)
  {
    var all := packets + [p];
    assert all[..|all| - 1] == packets && all[|all| - 1] == p;
  }

  lemma AbsorbSnoc(codec: nat, params: seq<seq<byte>>, nals: seq<seq<byte>>, nal: seq<byte>)
    requires |params| == 3
    ensures AbsorbAll(codec, params, nals + [nal]) == Absorb(codec, AbsorbAll(codec, params, nals), nal)
  {
    var all := nals + [nal];
    assert all[..|all| - 1] == nals && all[|all| - 1] == nal;
  }

  lemma {:induction false} AbsorbAppend(codec: nat, params: seq<seq<byte>>, xs: seq<seq<byte>>, ys: seq<seq<byte>>)
    requires |params| == 3
    ensures AbsorbAll(codec, params, xs + ys) == AbsorbAll(codec, AbsorbAll(codec, params, xs), ys)
  {
    hide Absorb;
    if ys == [] {
      assert xs + ys == xs;
    } else {
      var y := ys[|ys| - 1];
      var front := ys[..|ys| - 1];
      AbsorbAppend(codec, params, xs, front);
      AbsorbSnoc(codec, params, xs + front, y);
      assert xs + ys == (xs + front) + [y];
    }
  }

  /**
    What the cache holds after any NALs: set `i` is the start code plus the last NAL of that kind
    that fits the limit, and is empty exactly when there was none.
   */
  lemma {:induction false} CacheHoldsLatest(codec: nat, nals: seq<seq<byte>>, i: nat)
    requires i < 3
    ensures var p := AbsorbAll(codec, NO_PARAMS, nals)[i];
      if p == [] then forall k :: 0 <= k < |nals| ==> !Keeps(codec, i, nals[k])
      else exists k :: 0 <= k < |nals| && Keeps(codec, i, nals[k]) && p == START_CODE + nals[k]
                    && forall j :: k < j < |nals| ==> !Keeps(codec, i, nals[j])
  {
    if nals != [] {
      var n := |nals| - 1;
      var front := nals[..n];
      CacheHoldsLatest(codec, front, i);
      if Keeps(codec, i, nals[n]) {
        assert AbsorbAll(codec, NO_PARAMS, nals)[i] == START_CODE + nals[n];
      } else {
        var p := AbsorbAll(codec, NO_PARAMS, front)[i];
        assert p == AbsorbAll(codec, NO_PARAMS, nals)[i];
        if p != [] {
          var k :| 0 <= k < n && Keeps(codec, i, front[k]) && p == START_CODE + front[k]
                && forall j :: k < j < n ==> !Keeps(codec, i, front[j]);
          assert Keeps(codec, i, nals[k]);
          assert forall j :: k < j < n ==> nals[j] == front[j];
        }
      }
    }
  }

  lemma HasKeyframeSnoc(codec: nat, nals: seq<seq<byte>>, nal: seq<byte>)
    ensures HasKeyframe(codec, nals + [nal]) <==> HasKeyframe(codec, nals) || KindOf(codec, nal) == Keyframe
  {
    var all := nals + [nal];
    assert all[|nals|] == nal;
    assert forall k :: 0 <= k < |nals| ==> all[k] == nals[k];
  }

  // ---------- NAL headers ----------

  /**
    The one-byte header of H.264: a forbidden bit, two bits of reference importance and five of type.
    Types 7 and 8 are the sets kept, 5 is an IDR slice.
   */
  lemma H264Types(forbidden: nat, ref: nat, t: nat, rest: seq<byte>)
    requires forbidden < 2 && ref < 4 && t < 32
    ensures var k := KindOf(0, [(128 * forbidden + 32 * ref + t) as byte] + rest);
      && (k == ParamSet(0) <==> t == 7)
      && (k == ParamSet(1) <==> t == 8)
      && (k == Keyframe <==> t == 5)
      && k != ParamSet(2)
  {
  }

  /**
    The two-byte header of H.265: a forbidden bit, six bits of type, six of layer, three of temporal
    id. Types 32, 33 and 34 are the sets kept, 16 to 21 random access pictures.
   */
  lemma HevcTypes(forbidden: nat, t: nat, layer: nat, temporal: nat, rest: seq<byte>)
    requires forbidden < 2 && t < 64 && layer < 64 && temporal < 8
    ensures var header: seq<byte> :=
        [(128 * forbidden + 2 * t + layer / 32) as byte, (8 * (layer % 32) + temporal) as byte];
      var k := KindOf(1, header + rest);
      && (k == ParamSet(0) <==> t == 32)
      && (k == ParamSet(1) <==> t == 33)
      && (k == ParamSet(2) <==> t == 34)
      && (k == Keyframe <==> 16 <= t <= 21)
  {
    var first := 128 * forbidden + 2 * t + layer / 32;
    assert (first / 2) % 64 == t;
  }

  /** Nothing else has a meaning: no NAL of another codec, no empty one, and no single byte for H.265. */
  lemma OtherNals(codec: nat, nal: seq<byte>)
    ensures codec > 1 || nal == [] || (codec == 1 && |nal| == 1) ==> KindOf(codec, nal) == Other
  {
  }

  /** What a segment starts with, in its order: SPS and PPS, or VPS, SPS and PPS; and when it can start. */
  lemma HeaderOrder(first: seq<byte>, second: seq<byte>, third: seq<byte>)
    ensures Header(0, [first, second, third]) == first + second
    ensures Header(1, [first, second, third]) == first + second + third
    ensures Ready(0, [first, second, third]) <==> first != [] && second != []
    ensures Ready(1, [first, second, third]) <==> first != [] && second != [] && third != []
  {
    var sets := [first, second, third];
    assert sets[..2] == [first, second] && sets[..3] == sets;
    assert [first, second][1..] == [second] && sets[1..] == [second, third] && [second, third][1..] == [third];
    assert Flatten([third]) == third + Flatten<byte>([]) && Flatten([second]) == second + Flatten<byte>([]);
    assert Flatten([third]) == third && Flatten([second]) == second;
    assert Flatten([first, second]) == first + Flatten([second]);
    assert Flatten([second, third]) == second + Flatten([third]);
    assert Flatten(sets) == first + Flatten([second, third]);
    Associate(first, second, third);
  }

  // ---------- what a finished file splits into ----------

  /** The bytes of a file that holds these packets behind this header. */
  function FileBytes(header: seq<byte>, packets: seq<seq<byte>>): seq<byte> {
    if packets == [] then header
    else FileBytes(header, packets[..|packets| - 1]) + Stored(packets[|packets| - 1])
  }

  lemma FileBytesSnoc(header: seq<byte>, packets: seq<seq<byte>>, p: seq<byte>)
    ensures FileBytes(header, packets + [p]) == FileBytes(header, packets) + Stored(p)
  {
    var all := packets + [p];
    assert all[..|all| - 1] == packets && all[|all| - 1] == p;
  }

  /** The NALs a stored packet contributes: its own, a bare payload losing only trailing zeros. */
  lemma {:induction false} NalsOfStored(p: seq<byte>)
    requires Aligned(p) || !HasCode(p)
    ensures HasCode(Stored(p)) && Aligned(Stored(p))
    ensures Nals(Stored(p)) == if HasCode(p) then Nals(p) else Report(TrimZeros(p), [])
  {
    if !HasCode(p) {
      var u := Unit(4, TrimZeros(p), |p| - |TrimZeros(p)|);
      forall i | 0 <= i < |u.nal| ensures CodeLen(u.nal, i) == 0 {
        assert CodeLen(p, i) == 0;
      }
      NalsOfRender(u);
      assert p == TrimZeros(p) + Zeros(u.zeros);
      assert START_CODE + p == Render(u);
    }
  }

  function StoredNals(packets: seq<seq<byte>>): seq<seq<byte>> {
    if packets == [] then []
    else StoredNals(packets[..|packets| - 1]) + Nals(Stored(packets[|packets| - 1]))
  }

  /** A packet whose NALs come out of any file it is stored in: bare, or with only zeros before its first start code. */
  predicate Clean(p: seq<byte>) {
    Aligned(p) || !HasCode(p)
  }

  /** Each packet, as stored, can be appended to what the file holds before it. */
  predicate AllAppendable(header: seq<byte>, packets: seq<seq<byte>>) {
    packets == [] ||
    (var front := packets[..|packets| - 1];
     AllAppendable(header, front) && Appendable(FileBytes(header, front), Stored(packets[|packets| - 1])))
  }

  lemma {:induction false} CleanPacketsAppend(header: seq<byte>, packets: seq<seq<byte>>)
    requires forall k :: 0 <= k < |packets| ==> Clean(packets[k])
    ensures AllAppendable(header, packets)
  {
    if packets != [] {
      var n := |packets| - 1;
      assert Clean(packets[n]);
      NalsOfStored(packets[n]);
      hide Stored, Aligned, FileBytes, Clean;
      CleanPacketsAppend(header, packets[..n]);
    }
  }

  lemma StoredHasCode(p: seq<byte>)
    ensures HasCode(Stored(p))
  {
    if !HasCode(p) {
      assert CodeLen(Stored(p), 0) == 4;
    }
  }

  /** One more stored packet `last` behind the file `f`. */
  lemma KeptOrGrownStep(f: seq<byte>, last: seq<byte>, h: seq<seq<byte>>, stored: seq<seq<byte>>)
    requires HasCode(f) && HasCode(last)
    ensures HasCode(f + last)
    ensures Nals(f) == h + stored && Appendable(f, last) ==> Nals(f + last) == h + (stored + Nals(last))
    ensures (Nals(f) == h + stored && !Appendable(f, last)) || TotalLen(Nals(f)) > TotalLen(h) + TotalLen(stored) ==>
      TotalLen(Nals(f + last)) > TotalLen(h) + TotalLen(stored + Nals(last))
  {
    NalsKeptOrGrown(f, last);
    hide *;
    Associate(h, stored, Nals(last));
    TotalLenAppend(h, stored);
    TotalLenAppend(stored, Nals(last));
    TotalLenAppend(Nals(f), Nals(last));
  }

  lemma FileUnfolds(header: seq<byte>, packets: seq<seq<byte>>)
    requires packets != []
    ensures var front := packets[..|packets| - 1];
      var last := Stored(packets[|packets| - 1]);
      && FileBytes(header, packets) == FileBytes(header, front) + last
      && StoredNals(packets) == StoredNals(front) + Nals(last)
      && (AllAppendable(header, packets) <==>
           AllAppendable(header, front) && Appendable(FileBytes(header, front), last))
  {
    hide Stored, Nals, Appendable;
  }

  /** A file holds the NALs of its header and packets, or else more NAL bytes than those. */
  lemma {:induction false} FileKeptOrGrown(header: seq<byte>, packets: seq<seq<byte>>)
    requires HasCode(header)
    ensures HasCode(FileBytes(header, packets))
    ensures AllAppendable(header, packets) ==> Nals(FileBytes(header, packets)) == Nals(header) + StoredNals(packets)
    ensures !AllAppendable(header, packets) ==>
      TotalLen(Nals(FileBytes(header, packets))) > TotalLen(Nals(header)) + TotalLen(StoredNals(packets))
  {
    if packets == [] {
      assert Nals(header) + [] == Nals(header);
    } else {
      hide *;
      var front := packets[..|packets| - 1];
      var last := packets[|packets| - 1];
      FileKeptOrGrown(header, front);
      FileUnfolds(header, packets);
      StoredHasCode(last);
      KeptOrGrownStep(FileBytes(header, front), Stored(last), Nals(header), StoredNals(front));
    }
  }

  /**
    The recorder's own scanner, run over a file, returns the NALs of its header, then those of
    each packet, in order, exactly when every packet can be appended to what stands before it.
   */
  lemma FileSplitsIff(header: seq<byte>, packets: seq<seq<byte>>)
    requires HasCode(header)
    ensures Nals(FileBytes(header, packets)) == Nals(header) + StoredNals(packets) <==> AllAppendable(header, packets)
  {
    FileKeptOrGrown(header, packets);
    hide *;
    TotalLenAppend(Nals(header), StoredNals(packets));
  }

  lemma OneSetSplits(stored: seq<byte>, nal: seq<byte>)
    requires stored == START_CODE + nal && !HasCode(nal) && nal != [] && nal[0] != 0
    ensures HasCode(stored) && Aligned(stored) && Nals(stored) == [TrimZeros(nal)]
  {
    assert stored == Stored(nal);
    NalsOfStored(nal);
    hide Nals, HasCode, Aligned;
    assert TrimZeros(nal) != [];
  }

  /** A cached set and the NAL it holds. */
  predicate HoldsNal(stored: seq<byte>, nal: seq<byte>) {
    stored == START_CODE + nal && !HasCode(nal) && nal != [] && nal[0] != 0
  }

  function Trimmed(nals: seq<seq<byte>>): (r: seq<seq<byte>>)
    ensures |r| == |nals| && forall i :: 0 <= i < |nals| ==> r[i] == TrimZeros(nals[i])
  {
    seq(|nals|, i requires 0 <= i < |nals| => TrimZeros(nals[i]))
  }

  /** The header splits into the cached sets themselves, trailing zeros aside. */
  lemma {:induction false} HeaderSplits(sets: seq<seq<byte>>, nals: seq<seq<byte>>)
    requires |sets| == |nals| > 0
    requires forall i :: 0 <= i < |sets| ==> HoldsNal(sets[i], nals[i])
    ensures HasCode(Flatten(sets)) && Aligned(Flatten(sets))
    ensures Nals(Flatten(sets)) == Trimmed(nals)
  {
    OneSetSplits(sets[0], nals[0]);
    hide HasCode, Aligned, Nals, TrimZeros, HoldsNal;
    if |sets| == 1 {
      assert Flatten(sets) == sets[0] + Flatten<byte>([]) == sets[0];
    } else {
      HeaderSplits(sets[1..], nals[1..]);
      OneMoreSet(sets[0], Flatten(sets[1..]), nals);
      assert Flatten(sets) == sets[0] + Flatten(sets[1..]);
    }
  }

  lemma OneMoreSet(first: seq<byte>, rest: seq<byte>, nals: seq<seq<byte>>)
    requires nals != [] && HasCode(first) && Aligned(first) && HasCode(rest) && Aligned(rest)
    requires Nals(first) == [TrimZeros(nals[0])] && Nals(rest) == Trimmed(nals[1..])
    ensures HasCode(first + rest) && Aligned(first + rest) && Nals(first + rest) == Trimmed(nals)
  {
    hide HasCode, Aligned, Nals, TrimZeros;
    NalsConcat(first, rest);
    assert Trimmed(nals) == [TrimZeros(nals[0])] + Trimmed(nals[1..]);
  }
}
