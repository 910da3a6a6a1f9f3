/**
  The agent's own search for a NAL type (strem_agent_server/src/h264_tap.c, 352-381) compared
  with the recorder's scanner: two programs must agree on which payloads hold an IDR unit.
 */
module TapScan {
  import opened Bytes
  import opened AnnexB

  const IDR: byte := 5
  const SPS: byte := 7
  const PPS: byte := 8

  predicate StartsWithCode(p: seq<byte>) {
    || (|p| >= 4 && p[0] == 0 && p[1] == 0 && p[2] == 0 && p[3] == 1)
    || (|p| >= 3 && p[0] == 0 && p[1] == 0 && p[2] == 1)
  }

  /** The search from position `i`: behind a start code it goes on after the header byte. */
  predicate Scan(p: seq<byte>, t: byte, i: nat)
    decreases |p| - i
  {
    i + 4 < |p| &&
    (var n := CodeLen(p, i);
     if n > 0 then p[i + n] % 32 == t || Scan(p, t, i + n + 1) else Scan(p, t, i + 1))
  }

  predicate Contains(p: seq<byte>, t: byte) {
    |p| >= 5 && Scan(p, t, 0)
  }

  /** `annexb_contains_nal_type`: true exactly when some NAL that the search reads has the type. */
  method ContainsNalType(p: seq<byte>, t: byte) returns (found: bool)
    ensures found == Contains(p, t)
    ensures t != 0 ==> (found <==> HasType(AgentNals(p), t))
    ensures t != 0 && found ==> HasType(Nals(p), t)
  {
    if t != 0 {
      ContainsIff(p, t);
      FoundIsThere(p, t);
    }
    hide AgentNals, HasType;
    if |p| < 5 {
      return false;
    }
    var i := 0;
    while i + 4 < |p|
      invariant 0 <= i <= |p| + 1
      invariant Scan(p, t, 0) == Scan(p, t, i)
      decreases |p| - i
    {
      var sc := 0;
      if p[i] == 0 && p[i + 1] == 0 && p[i + 2] == 1 {
        sc := 3;
      } else if p[i] == 0 && p[i + 1] == 0 && p[i + 2] == 0 && p[i + 3] == 1 {
        sc := 4;
      }
      if sc > 0 {
        var header := i + sc;
        if header < |p| {
          if p[header] % 32 == t {
            return true;
          }
        }
        i := header + 1;
      } else {
        i := i + 1;
      }
    }
    return false;
  }

  predicate HasType(nals: seq<seq<byte>>, t: byte) {
    exists k :: 0 <= k < |nals| && nals[k] != [] && nals[k][0] % 32 == t
  }

  lemma HasTypeReport(nal: seq<byte>, rest: seq<seq<byte>>, t: byte)
    ensures HasType(Report(nal, rest), t) <==> (nal != [] && nal[0] % 32 == t) || HasType(rest, t)
  {
    if nal != [] {
      var all := [nal] + rest;
      assert all[0] == nal;
      assert forall k :: 0 <= k < |rest| ==> all[k + 1] == rest[k];
    }
  }

  /** Every start code is followed by a byte other than zero, and the last one by at least two bytes if it is short. */
  predicate Framed(d: seq<byte>, pos: nat)
    requires AtCode(d, pos)
    decreases |d| - pos
  {
    pos == |d| ||
    (pos + 4 < |d| && BodyStart(d, pos) < |d| && d[BodyStart(d, pos)] != 0 && Framed(d, Next(d, pos)))
  }

  lemma {:induction false} ScanSkips(d: seq<byte>, t: byte, i: nat, next: nat)
    requires i <= next <= |d| && FirstCode(d, i, next)
    ensures Scan(d, t, i) == Scan(d, t, next)
    decreases next - i
  {
    if i < next {
      assert CodeLen(d, i) == 0;
      assert FirstCode(d, i + 1, next);
      hide FirstCode, CodeLen;
      ScanSkips(d, t, i + 1, next);
    }
  }

  lemma {:induction false} ScanFromCode(d: seq<byte>, t: byte, pos: nat)
    requires AtCode(d, pos) && Framed(d, pos)
    ensures Scan(d, t, pos) <==> HasType(NalsFrom(d, pos), t)
    decreases |d| - pos
  {
    if pos < |d| {
      var s := BodyStart(d, pos);
      var next := Next(d, pos);
      BodyHead(d, pos);
      ScanSkips(d, t, s + 1, next);
      hide CodeLen, NextCode, FirstCode, TrimZeros, NalAt, HasType;
      ScanFromCode(d, t, next);
      HasTypeReport(NalAt(d, pos), NalsFrom(d, next), t);
    }
  }

  lemma BodyHead(d: seq<byte>, pos: nat)
    requires pos < |d| && AtCode(d, pos)
    requires BodyStart(d, pos) < |d| && d[BodyStart(d, pos)] != 0
    ensures NalAt(d, pos) != [] && NalAt(d, pos)[0] == d[BodyStart(d, pos)]
    ensures BodyStart(d, pos) + 1 <= Next(d, pos)
    ensures FirstCode(d, BodyStart(d, pos) + 1, Next(d, pos))
  {
    var s := BodyStart(d, pos);
    assert CodeLen(d, s) == 0;
    hide TrimZeros;
    assert d[s..Next(d, pos)][0] == d[s];
  }

  /** On framed payloads the agent finds a NAL type exactly when the recorder's scanner reports one. */
  lemma ScannersAgree(d: seq<byte>, t: byte)
    requires HasCode(d) && Framed(d, NextCode(d, 0))
    ensures Contains(d, t) <==> HasType(Nals(d), t)
  {
    ScanSkips(d, t, 0, NextCode(d, 0));
    ScanFromCode(d, t, NextCode(d, 0));
  }

  // ---------- exactly which NALs the agent reads ----------

  /**
    The agent reads the header behind the start code at `pos`, unless the packet ends within a
    byte of it, or the code begins at a header byte that the agent has just read (`behind`) and is
    short: of a long one the search then still finds the last three bytes.
   */
  predicate Reached(d: seq<byte>, pos: nat, behind: bool)
    requires pos < |d| && AtCode(d, pos)
  {
    if behind then CodeLen(d, pos) == 4 && pos + 5 < |d| else pos + 4 < |d|
  }

  /** Whether the next start code begins at the header byte read behind this one. */
  predicate NextBehind(d: seq<byte>, pos: nat, behind: bool)
    requires pos < |d| && AtCode(d, pos)
  {
    Reached(d, pos, behind) && Next(d, pos) == BodyStart(d, pos)
  }

  function ReadFrom(d: seq<byte>, pos: nat, behind: bool): seq<seq<byte>>
    requires AtCode(d, pos)
    decreases |d| - pos
  {
    if pos == |d| then []
    else
      var rest := ReadFrom(d, Next(d, pos), NextBehind(d, pos, behind));
      if Reached(d, pos, behind) then Report(NalAt(d, pos), rest) else rest
  }

  function MissedFrom(d: seq<byte>, pos: nat, behind: bool): seq<seq<byte>>
    requires AtCode(d, pos)
    decreases |d| - pos
  {
    if pos == |d| then []
    else
      var rest := MissedFrom(d, Next(d, pos), NextBehind(d, pos, behind));
      if Reached(d, pos, behind) then rest else Report(NalAt(d, pos), rest)
  }

  /** The NALs of a packet whose headers the agent reads; none of a packet without start code. */
  function AgentNals(d: seq<byte>): seq<seq<byte>> {
    if HasCode(d) then ReadFrom(d, NextCode(d, 0), false) else []
  }

  /** The NALs that the recorder's scanner reports and the agent does not read. */
  function MissedNals(d: seq<byte>): seq<seq<byte>> {
    if HasCode(d) then MissedFrom(d, NextCode(d, 0), false) else Nals(d)
  }

  /** What the search finds behind a start code whose header it reads. */
  lemma ReadHeader(d: seq<byte>, t: byte, pos: nat, at: nat)
    requires pos < |d| && AtCode(d, pos) && t != 0
    requires at + 4 < |d| && CodeLen(d, at) > 0 && at + CodeLen(d, at) == BodyStart(d, pos) < |d|
    ensures Scan(d, t, at) <==>
      (NalAt(d, pos) != [] && NalAt(d, pos)[0] % 32 == t) || Scan(d, t, BodyStart(d, pos) + 1)
  {
    var s := BodyStart(d, pos);
    var next := Next(d, pos);
    if next == s {
      assert d[s] == 0;
    } else {
      hide NextCode, TrimZeros;
      assert d[s..next][0] == d[s];
      assert NalAt(d, pos) == [] ==> d[s..next][0] == 0;
    }
  }

  lemma AfterRead(d: seq<byte>, t: byte, pos: nat)
    requires pos < |d| && AtCode(d, pos)
    ensures var s := BodyStart(d, pos);
      var next := Next(d, pos);
      next > s ==> Scan(d, t, s + 1) == Scan(d, t, next)
  {
    var s := BodyStart(d, pos);
    if Next(d, pos) > s {
      assert FirstCode(d, s, Next(d, pos));
      hide CodeLen, NextCode;
      ScanSkips(d, t, s + 1, Next(d, pos));
    }
  }

  /** A short code that begins at the byte just read is passed over. */
  lemma PassedOver(d: seq<byte>, t: byte, pos: nat)
    requires pos < |d| && AtCode(d, pos) && CodeLen(d, pos) == 3
    ensures Scan(d, t, pos + 1) == Scan(d, t, Next(d, pos))
  {
    var next := Next(d, pos);
    assert CodeLen(d, pos + 1) == 0 && CodeLen(d, pos + 2) == 0;
    assert FirstCode(d, pos + 3, next);
    hide CodeLen, NextCode;
    ScanSkips(d, t, pos + 1, next);
  }

  lemma NothingLeft(d: seq<byte>, t: byte, i: nat)
    requires i + 4 >= |d|
    ensures !Scan(d, t, i)
  {
  }

  lemma {:induction false} ScanReads(d: seq<byte>, t: byte, pos: nat, behind: bool)
    requires AtCode(d, pos) && t != 0
    ensures Scan(d, t, if behind then pos + 1 else pos) <==> HasType(ReadFrom(d, pos, behind), t)
    decreases |d| - pos
  {
    var i := if behind then pos + 1 else pos;
    if pos == |d| {
      NothingLeft(d, t, i);
    } else {
      var next := Next(d, pos);
      var rest := ReadFrom(d, next, NextBehind(d, pos, behind));
      ScanReads(d, t, next, NextBehind(d, pos, behind));
      if Reached(d, pos, behind) {
        ReadHeader(d, t, pos, i);
        AfterRead(d, t, pos);
        hide Scan, HasType, NalAt, NextCode, CodeLen;
        HasTypeReport(NalAt(d, pos), rest, t);
      } else if behind && CodeLen(d, pos) == 3 {
        PassedOver(d, t, pos);
      } else {
        NothingLeft(d, t, i);
        NothingLeft(d, t, next);
      }
    }
  }

  /** The agent finds a type exactly when a NAL whose header it reads has it. No caller asks for type 0. */
  lemma ContainsIff(d: seq<byte>, t: byte)
    requires t != 0
    ensures Contains(d, t) <==> HasType(AgentNals(d), t)
  {
    var first := NextCode(d, 0);
    assert Contains(d, t) <==> Scan(d, t, 0);
    assert FirstCode(d, 0, first);
    ScanSkips(d, t, 0, first);
    hide NextCode, CodeLen, Scan, HasType;
    if HasCode(d) {
      ScanReads(d, t, first, false);
    } else {
      NothingLeft(d, t, first);
      NoTypes(t);
    }
  }

  lemma NoTypes(t: byte)
    ensures !HasType([], t)
  {
  }

  lemma {:induction false} ReadOrMissedFrom(d: seq<byte>, t: byte, pos: nat, behind: bool)
    requires AtCode(d, pos)
    ensures HasType(NalsFrom(d, pos), t) <==>
      HasType(ReadFrom(d, pos, behind), t) || HasType(MissedFrom(d, pos, behind), t)
    decreases |d| - pos
  {
    if pos < |d| {
      var more := NextBehind(d, pos, behind);
      var next := Next(d, pos);
      var nal := NalAt(d, pos);
      ReadOrMissedFrom(d, t, next, more);
      HasTypeReport(nal, NalsFrom(d, next), t);
      HasTypeReport(nal, ReadFrom(d, next, more), t);
      HasTypeReport(nal, MissedFrom(d, next, more), t);
      hide HasType, Report, NextCode, CodeLen, NalAt, Reached, NextBehind;
    }
  }

  /** Every NAL the recorder's scanner reports is read by the agent or missed by it. */
  lemma ReadOrMissed(d: seq<byte>, t: byte)
    ensures HasType(Nals(d), t) <==> HasType(AgentNals(d), t) || HasType(MissedNals(d), t)
  {
    NoTypes(t);
    if HasCode(d) {
      ReadOrMissedFrom(d, t, NextCode(d, 0), false);
    }
    hide HasType;
  }

  /** Whatever the packet, a type that the agent finds is one the recorder's scanner reports. */
  lemma FoundIsThere(d: seq<byte>, t: byte)
    requires t != 0
    ensures Contains(d, t) ==> HasCode(d) && HasType(Nals(d), t)
  {
    ContainsIff(d, t);
    ReadOrMissed(d, t);
    NoTypes(t);
    hide HasType, HasCode, Contains;
  }

  /** The two agree on a type exactly when no NAL of it is missed, or another one of it is read. */
  lemma ScannersAgreeIff(d: seq<byte>, t: byte)
    requires t != 0
    ensures (Contains(d, t) <==> HasType(Nals(d), t)) <==> (HasType(MissedNals(d), t) ==> HasType(AgentNals(d), t))
  {
    ContainsIff(d, t);
    ReadOrMissed(d, t);
    hide *;
  }

  /** A bare packet is an IDR unit for the recorder and never one for the agent. */
  lemma BareIsMissed(d: seq<byte>, t: byte)
    requires !HasCode(d) && d != [] && d[0] % 32 == t && t != 0
    ensures HasType(Nals(d), t) && !Contains(d, t)
  {
    ContainsIff(d, t);
    NoTypes(t);
    assert Nals(d)[0] == d;
  }

  /** Without framing they differ: a bare IDR header, and one that follows a zero byte. */
  lemma ScannersDiffer()
    ensures var d: seq<byte> := [0, 0, 1, 0x65];
      HasType(Nals(d), IDR) && !Contains(d, IDR)
    ensures var d: seq<byte> := [0, 0, 1, 0, 0, 1, 0x65, 1];
      HasType(Nals(d), IDR) && !Contains(d, IDR)
  {
    var d: seq<byte> := [0, 0, 1, 0x65];
    assert NextCode(d, 0) == 0;
    NextCodeUnique(d, 3, 4);
    BodyHead(d, 0);
    assert NalsFrom(d, 0) == Report(NalAt(d, 0), []);
    HasTypeReport(NalAt(d, 0), [], IDR);
    var e: seq<byte> := [0, 0, 1, 0, 0, 1, 0x65, 1];
    assert NextCode(e, 0) == 0 && NextCode(e, 3) == 3;
    NextCodeUnique(e, 6, 8);
    BodyHead(e, 3);
    assert TrimZeros(e[3..3]) == [];
    assert NalsFrom(e, 3) == Report(NalAt(e, 3), []);
    assert NalsFrom(e, 0) == NalsFrom(e, 3);
    HasTypeReport(NalAt(e, 3), [], IDR);
    assert !Scan(e, IDR, 4);
  }
}
