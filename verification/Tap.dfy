/**
  The code of one client slot of the tap (strem_agent_server/src/h264_tap.c, 322-338, 383-540 and
  566-588): one growing buffer that packets are copied into and that is sent piece by piece.
  Each operation is proved to make the step of `TapSpec`, and the bytes the socket has taken are
  those of the blocks of its log.
 */
module Tap {
  import opened Bytes
  import opened ParamSets
  import opened TapScan
  import opened Sockets
  import opened TapSpec

  const FIRST_CAPACITY := 256 * 1024

  function WireOf(b: Block): seq<byte>
    requires b.sent <= |BytesOf(b)|
  {
    BytesOf(b)[..b.sent]
  }

  lemma WireSnoc(log: seq<Block>, b: Block)
    requires b.sent <= |BytesOf(b)|
    ensures Wire(log + [b]) == Wire(log) + WireOf(b)
  {
    assert (log + [b])[..|log|] == log;
  }

  lemma WireAdvances(log: seq<Block>, sent: nat)
    requires log != []
    requires var last := log[|log| - 1];
      last.sent <= sent <= |BytesOf(last)|
    ensures var last := log[|log| - 1];
      Wire(log[|log| - 1 := last.(sent := sent)]) == Wire(log) + BytesOf(last)[last.sent..sent]
  {
    var last := log[|log| - 1];
    var front := log[..|log| - 1];
    assert log == front + [last];
    assert log[|log| - 1 := last.(sent := sent)] == front + [last.(sent := sent)];
    var b := BytesOf(last);
    assert BytesOf(last.(sent := sent)) == b;
    hide Wire, Framed4, BytesOf;
    WireSnoc(front, last);
    WireSnoc(front, last.(sent := sent));
    assert b[..sent] == b[..last.sent] + b[last.sent..sent];
    Associate(Wire(front), b[..last.sent], b[last.sent..sent]);
  }

  class TapClient {
    var active: bool
    var outBuf: array<byte>
    var outLen: nat
    var outOff: nat
    var outStart: nat
    var needIdr: bool
    var pendingIdr: bool
    var sps: seq<byte>
    var pps: seq<byte>
    var wire: seq<byte>             // what the socket of this connection has taken

    ghost var published: nat
    ghost var log: seq<Block>

    ghost function ClientView(): Client
      reads this
    {
      Client(needIdr, pendingIdr, sps, pps, published, log, outOff < outLen, outStart)
    }

    ghost function View(): Slot
      requires outOff <= outLen <= outBuf.Length
      reads this, outBuf
    {
      if active then Live(ClientView()) else Free(outBuf[outOff..outLen], outStart, log)
    }

    /** The buffer holds the last block from its first byte, sent up to `outOff`. */
    ghost predicate Buffered()
      reads this, outBuf
    {
      && outOff <= outLen <= outBuf.Length
      && (outOff == outLen ==> outLen == 0 && outStart == 0)
      && (active && outOff < outLen ==>
            log != [] && outBuf[..outLen] == BytesOf(log[|log| - 1]) && outOff == log[|log| - 1].sent)
    }

    ghost predicate Valid()
      reads this, outBuf
    {
      Buffered() && wire == Wire(log) && (active ==> LogOk(ClientView())) && (!active ==> Vacant())
    }

    /** A free slot: nothing is known of a client, and a packet left in the buffer has its start code. */
    ghost predicate Vacant()
      requires outLen <= outBuf.Length
      reads this, outBuf
    {
      && NoClient()
      && outOff == 0 && (outLen > 0 ==> StartsWithCode(outBuf[..outLen]))
    }

    ghost predicate NoClient()
      reads this
    {
      !needIdr && !pendingIdr && sps == [] && pps == []
    }

    constructor ()
      ensures Valid() && View() == Free([], 0, []) && fresh(outBuf)
    {
      active, outBuf, outLen, outOff, outStart := false, new byte[0], 0, 0, 0;
      needIdr, pendingIdr, sps, pps, wire := false, false, [], [], [];
      published, log := 0, [];
    }

    /** `client_close`. */
    method Close()
      requires wire == Wire(log)
      modifies this
      ensures Valid() && View() == Free([], 0, old(log)) && fresh(outBuf) && wire == old(wire) && log == old(log)
      ensures !active
    {
      active := false;
      outBuf := new byte[0];
      outLen, outOff, outStart := 0, 0, 0;
      needIdr, pendingIdr := false, false;
      sps, pps := [], [];
    }

    /** `ensure_out_buf`: the capacity doubles until the block fits. */
    method EnsureOutBuf(need: nat)
      modifies `outBuf
      ensures need <= outBuf.Length && (outBuf == old(outBuf) || fresh(outBuf))
    {
      if need <= outBuf.Length {
        return;
      }
      var cap := if outBuf.Length > 0 then outBuf.Length else FIRST_CAPACITY;
      while cap < need
        invariant cap > 0
        decreases need - cap
      {
        cap := cap * 2;
      }
      outBuf := new byte[cap];
    }

    /** `memcpy` into the buffer. */
    method CopyInto(off: nat, src: seq<byte>)
      requires off + |src| <= outBuf.Length
      modifies outBuf
      ensures outBuf[..off + |src|] == old(outBuf[..off]) + src
    {
      forall i | 0 <= i < |src| {
        outBuf[off + i] := src[i];
      }
      assert outBuf[..off] == old(outBuf[..off]);
      assert outBuf[off..off + |src|] == src;
    }

    /** `flush_out_buf`, for the answers the socket gives; none left means it would block. */
    method FlushOutBuf(answers: seq<Answer>) returns (cleared: bool)
      requires Valid() && active && outOff < outLen
      modifies this
      ensures Valid()
      ensures outBuf == old(outBuf) || fresh(outBuf)
      ensures var f := Flushed(old(ClientView()), answers);
        && cleared == (f.1 != Blocked)
        && View() == if f.1 == Dead then Free([], 0, f.0.log) else Live(f.0)
      ensures cleared ==> outOff == outLen
    {
      hide Wire, Framed4, Flush, BytesOf;
      var end := SendBlock(answers);
      if end == Dead {
        Close();
      } else if end == Emptied {
        FinishBlock();
      }
      cleared := end != Blocked;
    }

    /** The loop, and the log that says how far it came. */
    method SendBlock(answers: seq<Answer>) returns (end: FlushEnd)
      requires Valid() && active && outOff < outLen
      modifies `wire, `outOff, `log
      ensures end == Flushed(old(ClientView()), answers).1
      ensures log == Flushed(old(ClientView()), answers).0.log && wire == Wire(log)
      ensures outOff <= outLen && (outOff < outLen <==> end != Emptied)
      ensures log != [] && outBuf[..outLen] == BytesOf(log[|log| - 1]) && outOff == log[|log| - 1].sent
    {
      hide Wire, Framed4;
      ghost var last := log[|log| - 1];
      end := SendLoop(answers);
      log := log[|log| - 1 := last.(sent := outOff)];
    }

    /** The buffer is empty; a recovery block that has just been delivered ends the recovery. */
    method FinishBlock()
      modifies `outLen, `outOff, `outStart, `pendingIdr, `needIdr
      ensures outLen == outOff == outStart == 0 && !pendingIdr
      ensures needIdr == (old(needIdr) && !old(pendingIdr))
    {
      outLen, outOff, outStart := 0, 0, 0;
      if pendingIdr {
        pendingIdr := false;
        needIdr := false;
      }
    }

    /** One `send` that takes `k` bytes. */
    method SendSome(k: nat, ghost before: seq<byte>, ghost bytes: seq<byte>, ghost from: nat)
      requires from <= outOff <= outOff + k <= outLen <= outBuf.Length && bytes == outBuf[..outLen]
      requires wire == before + bytes[from..outOff]
      modifies `wire, `outOff
      ensures outOff == old(outOff) + k && wire == before + bytes[from..outOff]
    {
      Split3(bytes, from, outOff, outOff + k);
      Associate(before, bytes[from..outOff], bytes[outOff..outOff + k]);
      assert outBuf[outOff..outOff + k] == bytes[outOff..outOff + k];
      wire := wire + outBuf[outOff..outOff + k];
      outOff := outOff + k;
    }

    method SendLoop(answers: seq<Answer>) returns (end: FlushEnd)
      requires Valid() && active && outOff < outLen
      modifies `wire, `outOff
      ensures var last := log[|log| - 1];
        && (outOff - last.sent, end) == Flush(outLen - last.sent, answers)
        && last.sent <= outOff <= outLen
        && wire == Wire(log[|log| - 1 := last.(sent := outOff)])
    {
      hide Wire, BytesOf, Framed4;
      ghost var last := log[|log| - 1];
      ghost var bytes := BytesOf(last);
      ghost var room := outLen - outOff;
      var i := 0;
      end := Emptied;
      assert answers[0..] == answers;
      while outOff < outLen && end == Emptied
        invariant last.sent <= outOff <= outLen && 0 <= i <= |answers|
        invariant end == Emptied ==>
          Flush(room, answers) == (outOff - last.sent + Flush(outLen - outOff, answers[i..]).0,
                                   Flush(outLen - outOff, answers[i..]).1)
        invariant end != Emptied ==> Flush(room, answers) == (outOff - last.sent, end)
        invariant wire == old(wire) + bytes[last.sent..outOff]
        decreases |answers| - i, end == Emptied
      {
        if i == |answers| {
          end := Blocked;
          break;
        }
        assert answers[i..][1..] == answers[i + 1..] && answers[i..][0] == answers[i];
        match answers[i] {
          case Took(n) =>
            SendSome(Taken(n, outLen - outOff), old(wire), bytes, last.sent);
          case Interrupted =>
          case WouldBlock => end := Blocked;
          case _ => end := Dead;
        }
        i := i + 1;
      }
      WireAdvances(log, outOff);
    }

    /** `maybe_cache_param_sets`. */
    method MaybeCacheParamSets(p: seq<byte>)
      modifies `sps, `pps
      ensures sps == (if FirstType(p) == 7 then p else old(sps))
      ensures pps == (if FirstType(p) == 8 then p else old(pps))
    {
      if !StartsWithCode(p) {
        return;
      }
      var nalType: int := -1;
      if |p| >= 5 && p[0] == 0 && p[1] == 0 && p[2] == 0 && p[3] == 1 {
        nalType := (p[4] % 32) as int;
      } else if |p| >= 4 && p[0] == 0 && p[1] == 0 && p[2] == 1 {
        nalType := (p[3] % 32) as int;
      }
      if nalType != 7 && nalType != 8 {
        return;
      }
      if nalType == 7 {
        sps := p;
      } else {
        pps := p;
      }
    }

    /** The bytes of a block, copied piece by piece; returns their number. */
    method Fill(p: seq<byte>) returns (off: nat)
      modifies `outBuf, outBuf
      ensures outBuf == old(outBuf) || fresh(outBuf)
      ensures off <= outBuf.Length
      ensures outBuf[..off] == (if needIdr then sps + pps else []) + Framed4(p)
    {
      var needSc := !StartsWithCode(p);
      var total := 0;
      if needIdr {
        total := |sps| + |pps|;
      }
      total := total + (if needSc then 4 else 0) + |p|;
      EnsureOutBuf(total);
      off := FillSets();
      ghost var sets := if needIdr then sps + pps else [];
      assert |sets| == if needIdr then |sps| + |pps| else 0;
      if needSc {
        CopyInto(off, START_CODE);
        off := off + 4;
        Associate(sets, START_CODE, p);
      }
      CopyInto(off, p);
      off := off + |p|;
    }

    method FillSets() returns (off: nat)
      requires needIdr ==> |sps| + |pps| <= outBuf.Length
      modifies outBuf
      ensures off == (if needIdr then |sps| + |pps| else 0)
      ensures outBuf[..off] == if needIdr then sps + pps else []
    {
      off := 0;
      if needIdr {
        assert outBuf[..0] + sps == sps;
        CopyInto(off, sps);
        off := off + |sps|;
        CopyInto(off, pps);
        off := off + |pps|;
      }
    }

    /** Copies the block into the buffer; also done for a client that has just been closed. */
    method Assemble(p: seq<byte>, start: nat)
      requires Valid() && outOff == outLen && p != []
      requires active ==> published > 0
      modifies this, outBuf
      ensures Valid() && active == old(active)
      ensures outBuf == old(outBuf) || fresh(outBuf)
      ensures active ==> View() == Live(Assembled(old(ClientView()), p, start)) && outOff < outLen
      ensures !active ==> View() == Free(Framed4(p), start, old(log))
    {
      hide Wire, Framed4, BytesOf, StartsWithCode;
      var off := Fill(p);
      NothingAhead(Framed4(p));
      outLen, outOff := off, 0;
      if active {
        LogBlock(p, start);
      } else {
        LeaveBlock(p, start);
      }
    }

    /** The packet stays behind in the buffer of a slot that has just become free. */
    method LeaveBlock(p: seq<byte>, start: nat)
      requires !active && NoClient() && wire == Wire(log) && p != []
      requires outOff == 0 && outLen <= outBuf.Length && outBuf[..outLen] == Framed4(p)
      modifies `outStart
      ensures Valid() && View() == Free(Framed4(p), start, log)
    {
      hide Wire, Framed4, StartsWithCode;
      FramedIsNotEmpty(p);
      outStart := start;
      assert outBuf[0..outLen] == outBuf[..outLen];
    }

    /** The buffer holds a new block. */
    method LogBlock(p: seq<byte>, start: nat)
      requires active && published > 0 && p != []
      requires outOff == 0 && outLen <= outBuf.Length
      requires outBuf[..outLen] == (if needIdr then sps + pps else []) + Framed4(p)
      requires LogOk(ClientView().(pending := false)) && wire == Wire(log)
      modifies `pendingIdr, `log, `outStart
      ensures Valid() && outOff < outLen
      ensures ClientView() == Assembled(old(ClientView()).(pending := false), p, start)
    {
      hide Wire, Framed4;
      outStart := start;
      ghost var b := Block(published - 1, if needIdr then sps + pps else [], p, needIdr, 0);
      assert |Framed4(p)| > 0 by { FramedIsNotEmpty(p); }
      if needIdr {
        pendingIdr := true;
      }
      WireSnoc(log, b);
      assert wire + [] == wire;
      log := log + [b];
    }

    /** `h264_tap_publish` for this slot. */
    method Publish(cfg: Config, p: seq<byte>, io: Io)
      requires Valid()
      modifies this, outBuf
      ensures Valid()
      ensures View() == TapSpec.Publish(cfg, old(View()), p, io)
    {
      if |p| == 0 || !active {
        return;
      }
      var isIdr := ContainsNalType(p, IDR);
      PrepareClient(cfg, p, io.now);
      if outLen > outOff {
        var cleared := FlushOutBuf(io.first);
        if !cleared {
          return;
        }
      }
      SendPacket(p, isIdr, io);
    }

    /** Caching, and the cut of a block that has stalled for too long. */
    method PrepareClient(cfg: Config, p: seq<byte>, now: nat)
      requires Valid() && active
      modifies this
      ensures Valid() && active && published > 0 && outBuf == old(outBuf)
      ensures ClientView() == Unstalled(cfg, Cached(old(ClientView()), p), now)
    {
      hide Wire, BytesOf, FirstType, StartsWithCode;
      CacheSets(p);
      CutStalled(cfg, now);
    }

    method CacheSets(p: seq<byte>)
      requires Valid() && active
      modifies `sps, `pps, `published
      ensures Valid() && published > 0
      ensures ClientView() == Cached(old(ClientView()), p)
    {
      hide Wire, BytesOf, FirstType, StartsWithCode;
      MaybeCacheParamSets(p);
      published := published + 1;
    }

    /** A block that has been in the buffer for too long is cut. */
    method CutStalled(cfg: Config, now: nat)
      requires Valid() && active
      modifies `outLen, `outOff, `outStart, `needIdr
      ensures Valid() && ClientView() == Unstalled(cfg, old(ClientView()), now)
    {
      hide Wire, BytesOf, StartsWithCode;
      if outLen > outOff && outStart != 0 {
        var stall := Sub64(now, outStart);
        if stall > cfg.stallMs * NS_PER_MS {
          outLen, outOff, outStart := 0, 0, 0;
          if cfg.dropToIdr {
            needIdr := true;
          }
        }
      }
    }

    /** The rest of publish, with an empty buffer; the client may have been closed by the flush. */
    method SendPacket(p: seq<byte>, isIdr: bool, io: Io)
      requires Valid() && outOff == outLen && p != [] && isIdr == Contains(p, IDR)
      requires active ==> published > 0
      modifies this, outBuf
      ensures Valid()
      ensures View() == if old(active) then Sent(old(ClientView()), p, io) else Free(Framed4(p), io.start, old(log))
    {
      hide Wire, BytesOf, Contains, Flush;
      if needIdr && !isIdr {
        return;
      }
      Assemble(p, io.start);
      if active {
        var cleared := FlushOutBuf(io.second);
      }
    }

    /** Client placement: everything but the buffer starts anew. */
    method Place(newSps: seq<byte>, newPps: seq<byte>)
      requires Valid() && !active
      modifies this
      ensures Valid() && View() == Accept(old(View()), newSps, newPps) && outBuf == old(outBuf)
    {
      hide Wire, BytesOf, Framed4, StartsWithCode;
      StaleBlock(outBuf[..outLen]);
      active, needIdr := true, true;
      sps, pps := newSps, newPps;
      wire, published := [], 0;
      log := if outLen == 0 then [] else [Block(0, [], outBuf[..outLen], false, 0)];
      assert outBuf[outOff..outLen] == outBuf[..outLen];
    }
  }

  lemma StaleBlock(stale: seq<byte>)
    ensures Wire([]) == [] && Wire([Block(0, [], stale, false, 0)]) == []
    ensures StartsWithCode(stale) ==> BytesOf(Block(0, [], stale, false, 0)) == stale
  {
    var b := Block(0, [], stale, false, 0);
    WireSnoc([], b);
    assert [] + [b] == [b];
  }

  lemma NothingAhead(s: seq<byte>)
    ensures [] + s == s
  {
  }

  lemma FramedIsNotEmpty(p: seq<byte>)
    requires p != []
    ensures Framed4(p) != [] && StartsWithCode(Framed4(p))
  {
  }

  lemma Split3(s: seq<byte>, i: nat, j: nat, k: nat)
    requires i <= j <= k <= |s|
    ensures s[i..k] == s[i..j] + s[j..k]
  {
  }
}
