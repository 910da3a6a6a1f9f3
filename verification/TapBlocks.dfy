/**
  What a subscriber's decoder finds in a recovery block, NAL by NAL
  (strem_agent_server/src/h264_tap.c, 383-404 and 490-527).
 */
module TapBlocks {
  import opened Bytes
  import opened AnnexB
  import opened ParamSets
  import opened TapScan
  import opened TapSpec
  import opened TapRuns

  predicate IsSet(nal: seq<byte>) {
    nal != [] && (nal[0] % 32 == SPS || nal[0] % 32 == PPS)
  }

  ghost predicate SetsOnly(nals: seq<seq<byte>>) {
    forall k :: 0 <= k < |nals| ==> IsSet(nals[k])
  }

  /** The NALs ahead of the first IDR unit; all of them if there is none. */
  function AheadOfIdr(nals: seq<seq<byte>>): seq<seq<byte>> {
    if nals == [] || (nals[0] != [] && nals[0][0] % 32 == IDR) then []
    else [nals[0]] + AheadOfIdr(nals[1..])
  }

  /** What the cache holds for a kind: nothing, or a whole packet whose first NAL is of the kind. */
  predicate CachedAs(packet: seq<byte>, t: int) {
    packet == [] || FirstType(packet) == t
  }

  lemma StartsAligned(p: seq<byte>)
    requires StartsWithCode(p)
    ensures HasCode(p) && Aligned(p)
  {
    assert CodeLen(p, 0) > 0;
    NextCodeUnique(p, 0, 0);
  }

  lemma FramedStarts(p: seq<byte>)
    requires p != []
    ensures StartsWithCode(Framed4(p))
  {
  }

  lemma CachedStarts(packet: seq<byte>, t: int)
    requires CachedAs(packet, t) && packet != [] && t >= 0
    ensures StartsWithCode(packet)
  {
  }

  /** A packet that starts with a code, or is empty, keeps its NALs ahead of another such packet. */
  lemma NalsAhead(a: seq<byte>, b: seq<byte>)
    requires a == [] || StartsWithCode(a)
    requires StartsWithCode(b)
    ensures Nals(a + b) == Nals(a) + Nals(b) && StartsWithCode(a + b)
  {
    if a == [] {
      assert a + b == b;
      NoNals();
    } else {
      StartsAligned(a);
      StartsAligned(b);
      NalsConcat(a, b);
      hide Nals;
    }
  }

  lemma NoNals()
    ensures Nals([]) == []
  {
  }

  /** A recovery block splits into the NALs of the two cached packets and of the packet itself. */
  lemma RecoveryBlockSplits(sps: seq<byte>, pps: seq<byte>, p: seq<byte>)
    requires CachedAs(sps, 7) && CachedAs(pps, 8) && p != []
    ensures Nals(sps + pps + Framed4(p)) == Nals(sps) + (Nals(pps) + Nals(Framed4(p)))
  {
    FramedStarts(p);
    if sps != [] { CachedStarts(sps, 7); }
    if pps != [] { CachedStarts(pps, 8); }
    hide Framed4, CachedAs, StartsWithCode, Nals;
    Associate(sps, pps, Framed4(p));
    NalsAhead(pps, Framed4(p));
    NalsAhead(sps, pps + Framed4(p));
  }

  lemma {:induction false} AheadOfIdrAppend(xs: seq<seq<byte>>, ys: seq<seq<byte>>)
    ensures AheadOfIdr(xs + ys) == AheadOfIdr(xs) + if HasType(xs, IDR) then [] else AheadOfIdr(ys)
  {
    hide HasType, AheadOfIdr;
    if xs == [] {
      assert xs + ys == ys;
      NoTypes(IDR);
      AheadOfNone();
    } else {
      var rest := xs[1..];
      assert xs + ys == [xs[0]] + (rest + ys) && xs == [xs[0]] + rest;
      AheadOfIdrAppend(rest, ys);
      HasTypeCons(xs[0], rest, IDR);
      AheadOfCons(xs[0], rest);
      AheadOfCons(xs[0], rest + ys);
      Associate([xs[0]], AheadOfIdr(rest), if HasType(rest, IDR) then [] else AheadOfIdr(ys));
    }
  }

  lemma AheadOfNone()
    ensures AheadOfIdr([]) == []
  {
  }

  lemma AheadOfCons(nal: seq<byte>, rest: seq<seq<byte>>)
    ensures AheadOfIdr([nal] + rest) ==
      if nal != [] && nal[0] % 32 == IDR then [] else [nal] + AheadOfIdr(rest)
  {
    assert ([nal] + rest)[1..] == rest;
  }

  lemma HasTypeCons(nal: seq<byte>, rest: seq<seq<byte>>, t: byte)
    ensures HasType([nal] + rest, t) <==> (nal != [] && nal[0] % 32 == t) || HasType(rest, t)
  {
    var all := [nal] + rest;
    assert all[0] == nal;
    assert forall k :: 0 <= k < |rest| ==> all[k + 1] == rest[k];
  }

  lemma SetsOnlyAppend(xs: seq<seq<byte>>, ys: seq<seq<byte>>)
    ensures SetsOnly(xs + ys) <==> SetsOnly(xs) && SetsOnly(ys)
  {
    var all := xs + ys;
    hide IsSet;
    assert forall k :: 0 <= k < |xs| ==> all[k] == xs[k];
    assert forall k :: 0 <= k < |ys| ==> all[|xs| + k] == ys[k];
  }

  /**
    Only parameter sets lie ahead of the first IDR unit of a recovery block exactly when that holds
    of the cached SPS packet, and, as long as no IDR unit has come, of the PPS packet and the packet.
   */
  lemma OnlySetsAheadIff(sps: seq<byte>, pps: seq<byte>, p: seq<byte>)
    requires CachedAs(sps, 7) && CachedAs(pps, 8) && p != []
    ensures SetsOnly(AheadOfIdr(Nals(sps + pps + Framed4(p)))) <==>
      SetsOnly(AheadOfIdr(Nals(sps))) &&
      (HasType(Nals(sps), IDR) ||
       (SetsOnly(AheadOfIdr(Nals(pps))) &&
        (HasType(Nals(pps), IDR) || SetsOnly(AheadOfIdr(Nals(Framed4(p)))))))
  {
    RecoveryBlockSplits(sps, pps, p);
    var x, y, z := Nals(sps), Nals(pps), Nals(Framed4(p));
    hide Framed4, Nals, CachedAs, AheadOfIdr, HasType, SetsOnly;
    AheadOfIdrAppend(x, y + z);
    AheadOfIdrAppend(y, z);
    SetsOnlyAppend(AheadOfIdr(x), AheadOfIdr(y + z));
    SetsOnlyAppend(AheadOfIdr(y), AheadOfIdr(z));
    assert AheadOfIdr(x) + [] == AheadOfIdr(x) && AheadOfIdr(y) + [] == AheadOfIdr(y);
  }

  /** The blocks of the slot's client, or of its last one. */
  function LogOf(slot: Slot): seq<Block> {
    if slot.Live? then slot.c.log else slot.ended
  }

  lemma {:induction false} LatestIsCached(inputs: seq<Input>, t: int, before: seq<byte>)
    requires CachedAs(before, t)
    ensures CachedAs(Latest(inputs, t, before), t)
  {
    if inputs != [] {
      LatestIsCached(inputs[..|inputs| - 1], t, before);
    }
  }

  /**
    Every recovery block of every run, of a connection in use or ended: the sets sent ahead are the
    newest packets that began with an SPS and with a PPS, whole; they hold parameter sets only
    exactly when every NAL of those packets is one.
   */
  lemma RecoverySetsIff(cfg: Config, sps: seq<byte>, pps: seq<byte>, inputs: seq<Input>, log: seq<Block>, i: nat)
    requires CachedAs(sps, 7) && CachedAs(pps, 8)
    requires forall k :: 0 <= k < |inputs| ==> inputs[k].packet != []
    requires log == LogOf(Run(cfg, sps, pps, inputs)) && i < |log| && log[i].recovery
    ensures log[i].index < |inputs|
    ensures var b := log[i];
      var s := Latest(inputs[..b.index + 1], 7, sps);
      var q := Latest(inputs[..b.index + 1], 8, pps);
      && Nals(BytesOf(b)) == Nals(s) + (Nals(q) + Nals(Framed4(b.packet)))
      && (SetsOnly(Nals(b.sets)) <==> SetsOnly(Nals(s)) && SetsOnly(Nals(q)))
  {
    hide Run, Latest, Nals, SetsOnly, Framed4, BytesOf, CachedAs;
    BlocksFollowPublishes(cfg, sps, pps, inputs);
    assert FromPublish(log[i], sps, pps, inputs);
    var b := log[i];
    hide Tracks, FromPublish;
    BlockFromPublish(b, sps, pps, inputs);
    LatestIsCached(inputs[..b.index + 1], 7, sps);
    LatestIsCached(inputs[..b.index + 1], 8, pps);
    CachedBlock(b, Latest(inputs[..b.index + 1], 7, sps), Latest(inputs[..b.index + 1], 8, pps));
  }

  lemma BlockFromPublish(b: Block, sps: seq<byte>, pps: seq<byte>, inputs: seq<Input>)
    requires FromPublish(b, sps, pps, inputs) && b.recovery
    ensures b.index < |inputs| && b.packet == inputs[b.index].packet
    ensures b.sets == Latest(inputs[..b.index + 1], 7, sps) + Latest(inputs[..b.index + 1], 8, pps)
  {
  }

  lemma CachedBlock(b: Block, s: seq<byte>, q: seq<byte>)
    requires CachedAs(s, 7) && CachedAs(q, 8) && b.sets == s + q && b.packet != []
    ensures Nals(BytesOf(b)) == Nals(s) + (Nals(q) + Nals(Framed4(b.packet)))
    ensures SetsOnly(Nals(b.sets)) <==> SetsOnly(Nals(s)) && SetsOnly(Nals(q))
  {
    hide Nals, SetsOnly, Framed4, CachedAs;
    RecoveryBlockSplits(s, q, b.packet);
    SetsSplit(s, q);
    SetsOnlyAppend(Nals(s), Nals(q));
  }

  lemma SetsSplit(s: seq<byte>, q: seq<byte>)
    requires CachedAs(s, 7) && CachedAs(q, 8)
    ensures Nals(s + q) == Nals(s) + Nals(q)
  {
    if s != [] { CachedStarts(s, 7); }
    if q == [] {
      assert s + q == s;
      NoNals();
      assert Nals(s) + [] == Nals(s);
    } else {
      CachedStarts(q, 8);
      NalsAhead(s, q);
    }
  }

  // ---------- a packet that is cached with its picture ----------

  function SpsAndIdr(): seq<byte> {
    Join([Unit(4, [0x67, 1], 0), Unit(4, [0x65, 1], 0)])
  }

  lemma SpsAndIdrNals()
    ensures Nals(SpsAndIdr()) == [[0x67, 1], [0x65, 1]]
  {
    var us := [Unit(4, [0x67, 1], 0), Unit(4, [0x65, 1], 0)];
    forall i | 0 <= i < |us| ensures WellFormed(us[i]) {
      assert |us[i].nal| == 2;
    }
    ScanOfJoin(us);
    TwoNals(us);
  }

  lemma SpsAndIdrType()
    ensures FirstType(SpsAndIdr()) == 7
  {
    var us := [Unit(4, [0x67, 1], 0), Unit(4, [0x65, 1], 0)];
    TwoUnits(us);
    hide Join;
    assert Render(us[0]) == [0, 0, 0, 1, 0x67, 1];
    var p := Render(us[0]) + Render(us[1]);
    assert p[0] == 0 && p[1] == 0 && p[2] == 0 && p[3] == 1 && p[4] == 0x67;
  }

  /** A packet that begins with an SPS is cached whole, and while recovering it is sent ahead of itself. */
  lemma SentAheadOfItself(c: Client, p: seq<byte>, start: nat)
    requires LogOk(c) && !c.pending && c.needIdr && FirstType(p) == 7
    ensures p != [] && LogOk(Cached(c, p))
    ensures var b := LastBlock(Assembled(Cached(c, p), p, start));
      b.sets == p + c.pps && BytesOf(b) == p + c.pps + p
  {
  }

  /** An SPS and an IDR unit in one packet: a recovery sends the picture twice, once among the sets. */
  lemma PictureSentAhead(c: Client, start: nat)
    requires LogOk(c) && !c.pending && c.needIdr && c.pps == []
    ensures FirstType(SpsAndIdr()) == 7 && SpsAndIdr() != [] && LogOk(Cached(c, SpsAndIdr()))
    ensures var b := LastBlock(Assembled(Cached(c, SpsAndIdr()), SpsAndIdr(), start));
      BytesOf(b) == SpsAndIdr() + SpsAndIdr() && !SetsOnly(Nals(b.sets))
  {
    hide SpsAndIdr, Nals, FirstType, Assembled, BytesOf, LogOk;
    var p := SpsAndIdr();
    SpsAndIdrType();
    SpsAndIdrNals();
    SentAheadOfItself(c, p, start);
    assert p + [] == p;
    assert !IsSet(Nals(p)[1]);
  }

  lemma TwoNals(us: seq<Unit>)
    requires |us| == 2 && us[0].nal != [] && us[1].nal != []
    ensures NalsOf(us) == [us[0].nal, us[1].nal]
  {
    assert us[1..] == [us[1]] && us[1..][1..] == [];
    assert NalsOf(us[1..]) == [us[1].nal];
  }

  lemma TwoUnits(us: seq<Unit>)
    requires |us| == 2
    ensures Join(us) == Render(us[0]) + Render(us[1])
  {
    hide Render;
    assert us[1..] == [us[1]] && us[1..][1..] == [];
    assert Join(us[1..]) == Render(us[1]) + [] == Render(us[1]);
  }
}
