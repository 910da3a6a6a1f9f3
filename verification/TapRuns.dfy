/**
  What a subscriber of the tap receives, for every schedule of partial sends, blocked sends and
  stalls (strem_agent_server/src/h264_tap.c, 418-540 and 566-588).
 */
module TapRuns {
  import opened Bytes
  import opened AnnexB
  import opened TapScan
  import opened Sockets
  import opened TapSpec

  /** The last block that is finished was delivered to its last byte. */
  predicate InSync(c: Client) {
    var finished := if c.pending && c.log != [] then |c.log| - 1 else |c.log|;
    finished > 0 && Whole(c.log[finished - 1])
  }

  /** The first block, and any block behind a cut one, is an IDR unit behind the parameter sets. */
  ghost predicate Recovers(log: seq<Block>) {
    && (forall i :: 0 <= i < |log| ==> log[i].sent <= |BytesOf(log[i])|)
    && (log != [] ==> log[0].recovery)
    && (forall i :: 0 <= i < |log| - 1 ==> Whole(log[i]) || log[i + 1].recovery)
    && (forall i :: 0 <= i < |log| && log[i].recovery ==> Contains(log[i].packet, IDR))
    && (forall i :: 0 <= i < |log| && !log[i].recovery ==> log[i].sets == [])
  }

  /** Recovery is on exactly while the subscriber is out of sync, and ends only with a recovery block. */
  ghost predicate Good(c: Client) {
    && LogOk(c)
    && Recovers(c.log)
    && (c.needIdr <==> !InSync(c))
    && (c.pendingIdr ==> c.needIdr)
    && (c.pending && c.needIdr ==> c.pendingIdr && LastBlock(c).recovery)
  }

  /** A slot whose client receives well, or whose last client did until it died. */
  ghost predicate GoodSlot(slot: Slot) {
    if slot.Live? then Good(slot.c) else Recovers(slot.ended)
  }

  lemma FlushedKeeps(c: Client, answers: seq<Answer>)
    requires Good(c) && c.pending
    ensures Recovers(Flushed(c, answers).0.log)
    ensures Flushed(c, answers).1 != Dead ==> Good(Flushed(c, answers).0)
  {
    hide Flush, Framed4, Contains;
  }

  lemma SentKeeps(c: Client, p: seq<byte>, io: Io)
    requires Good(c) && !c.pending && p != [] && c.published > 0
    ensures var r := Sent(c, p, io);
      if r.Live? then Good(r.c) else Recovers(r.ended)
  {
    hide Flushed, BytesOf, Contains;
    if !(c.needIdr && !Contains(p, IDR)) {
      AssembledKeeps(c, p, io.start);
      FlushedKeeps(Assembled(c, p, io.start), io.second);
    }
  }

  lemma AssembledKeeps(c: Client, p: seq<byte>, start: nat)
    requires Good(c) && !c.pending && p != [] && c.published > 0
    requires c.needIdr ==> Contains(p, IDR)
    ensures Good(Assembled(c, p, start))
  {
    hide BytesOf, Contains;
  }

  lemma UnstalledKeeps(cfg: Config, c: Client, p: seq<byte>, now: nat)
    requires Good(c)
    ensures cfg.dropToIdr || c.needIdr || !Stalled(cfg, Cached(c, p), now) ==>
              Good(Unstalled(cfg, Cached(c, p), now))
  {
    CachedKeeps(c, p);
    hide Good, Cached, Stalled;
    if Stalled(cfg, Cached(c, p), now) && (cfg.dropToIdr || c.needIdr) {
      CutKeeps(Cached(c, p));
    }
  }

  lemma CachedKeeps(c: Client, p: seq<byte>)
    requires Good(c)
    ensures Good(Cached(c, p)) && Cached(c, p).needIdr == c.needIdr
  {
    hide BytesOf, FirstType, Recovers;
  }

  /** Cutting a block and recovering is always good: the last finished block is then a cut one. */
  lemma CutKeeps(c: Client)
    requires Good(c) && c.pending
    ensures Good(c.(pending := false, start := 0, needIdr := true))
  {
    hide BytesOf, Recovers;
  }

  /** The state keeps its order and the packets of the blocks. */
  lemma PublishKeeps(cfg: Config, slot: Slot, p: seq<byte>, io: Io)
    requires slot.Live? && Good(slot.c)
    requires cfg.dropToIdr || slot.c.needIdr || !Stalled(cfg, Cached(slot.c, p), io.now)
    ensures var r := Publish(cfg, slot, p, io);
      if r.Live? then Good(r.c) else Recovers(r.ended)
  {
    hide Flushed, Sent, Cached, Unstalled, Stalled;
    if p != [] {
      var c := Unstalled(cfg, Cached(slot.c, p), io.now);
      UnstalledKeeps(cfg, slot.c, p, io.now);
      Counted(cfg, slot.c, p, io.now);
      if c.pending {
        FlushedKeeps(c, io.first);
        FlushedCounts(c, io.first);
        if Flushed(c, io.first).1 == Emptied {
          SentKeeps(Flushed(c, io.first).0, p, io);
        }
      } else {
        SentKeeps(c, p, io);
      }
    }
  }

  lemma Counted(cfg: Config, c: Client, p: seq<byte>, now: nat)
    ensures Unstalled(cfg, Cached(c, p), now).published == c.published + 1
  {
  }

  lemma FlushedCounts(c: Client, answers: seq<Answer>)
    requires LogOk(c) && c.pending
    ensures Flushed(c, answers).0.published == c.published
  {
  }

  /**
    For every sequence of publishes and every way the socket may take them, with dropping to IDR
    on: the first block a subscriber receives, and any block behind a cut one, is an IDR unit
    behind the cached parameter sets, and recovery is over exactly when the last finished block
    was delivered whole. The same holds of the blocks of a connection that ended.
   */
  lemma {:induction false} SubscriberRecovers(cfg: Config, sps: seq<byte>, pps: seq<byte>, inputs: seq<Input>)
    requires cfg.dropToIdr
    ensures GoodSlot(Run(cfg, sps, pps, inputs))
  {
    if inputs != [] {
      var front := inputs[..|inputs| - 1];
      var last := inputs[|inputs| - 1];
      SubscriberRecovers(cfg, sps, pps, front);
      hide Good, Recovers;
      if Run(cfg, sps, pps, front).Live? {
        PublishKeeps(cfg, Run(cfg, sps, pps, front), last.packet, last.io);
      }
    }
  }

  /** Behind recovery everything is whole: from some recovery block on, each finished block arrived complete. */
  lemma {:induction false} RecoveredFrom(log: seq<Block>, n: nat) returns (k: nat)
    requires Recovers(log) && 0 < n <= |log| && Whole(log[n - 1])
    ensures k < n && log[k].recovery && forall i :: k <= i < n ==> Whole(log[i])
  {
    if log[n - 1].recovery {
      k := n - 1;
    } else {
      assert n > 1 && Whole(log[n - 2]);
      k := RecoveredFrom(log, n - 1);
    }
  }

  // ---------- when it fails ----------

  /** A packet that finds the block in the buffer stalled, with dropping to IDR off and no recovery going on. */
  predicate Breaks(cfg: Config, slot: Slot, p: seq<byte>, io: Io) {
    slot.Live? && p != [] && !cfg.dropToIdr && !slot.c.needIdr && Stalled(cfg, Cached(slot.c, p), io.now)
  }

  /** With dropping to IDR off, a stall in sync is the one thing that breaks it, also for a client that dies. */
  lemma StallBreaksWithoutDrop(cfg: Config, slot: Slot, p: seq<byte>, io: Io)
    requires GoodSlot(slot)
    ensures GoodSlot(Publish(cfg, slot, p, io)) <==> !Breaks(cfg, slot, p, io)
  {
    assert slot.Live? ==> LogOk(slot.c);
    hide Stalled, Good, Recovers;
    if Breaks(cfg, slot, p, io) {
      StallCuts(cfg, slot, p, io);
      hide Publish, Sent, Unstalled, Cached, LogOk;
      PlainAfterCut(Unstalled(cfg, Cached(slot.c, p), io.now), p, io);
    } else if slot.Live? && p != [] {
      hide Publish;
      PublishKeeps(cfg, slot, p, io);
    }
  }

  /** The stalled block is cut, and the packet follows as if nothing had happened. */
  lemma StallCuts(cfg: Config, slot: Slot, p: seq<byte>, io: Io)
    requires slot.Live? && LogOk(slot.c) && Breaks(cfg, slot, p, io)
    ensures var c := Unstalled(cfg, Cached(slot.c, p), io.now);
      && LogOk(c) && !c.pending && !c.needIdr && c.published > 0
      && c.log != [] && !Whole(LastBlock(c))
      && Publish(cfg, slot, p, io) == Sent(c, p, io)
  {
    hide Sent, Flushed, BytesOf, FirstType;
  }

  /** In sync as far as it knows, behind a block that was cut: the packet goes out plain. */
  lemma PlainAfterCut(c: Client, p: seq<byte>, io: Io)
    requires LogOk(c) && !c.pending && !c.needIdr && c.log != [] && !Whole(LastBlock(c))
    requires p != [] && c.published > 0
    ensures !GoodSlot(Sent(c, p, io))
  {
    hide Flush, BytesOf, Whole, Framed4, Contains;
    var s := Sent(c, p, io);
    var log := if s.Live? then s.c.log else s.ended;
    assert log[|c.log| - 1] == LastBlock(c) && !log[|c.log|].recovery;
  }

  /** Good at every point of the run. */
  ghost predicate AlwaysGood(cfg: Config, sps: seq<byte>, pps: seq<byte>, inputs: seq<Input>) {
    && GoodSlot(Run(cfg, sps, pps, inputs))
    && (inputs != [] ==> AlwaysGood(cfg, sps, pps, inputs[..|inputs| - 1]))
  }

  predicate NeverBreaks(cfg: Config, sps: seq<byte>, pps: seq<byte>, inputs: seq<Input>) {
    inputs == [] ||
    (var front := inputs[..|inputs| - 1];
     var last := inputs[|inputs| - 1];
     NeverBreaks(cfg, sps, pps, front) && !Breaks(cfg, Run(cfg, sps, pps, front), last.packet, last.io))
  }

  /** A run is good throughout, blocks of a client that died included, exactly when no packet finds such a stall. */
  lemma {:induction false} GoodThroughoutIff(cfg: Config, sps: seq<byte>, pps: seq<byte>, inputs: seq<Input>)
    ensures AlwaysGood(cfg, sps, pps, inputs) <==> NeverBreaks(cfg, sps, pps, inputs)
  {
    if inputs != [] {
      var front := inputs[..|inputs| - 1];
      var last := inputs[|inputs| - 1];
      GoodThroughoutIff(cfg, sps, pps, front);
      hide Breaks, GoodSlot;
      if GoodSlot(Run(cfg, sps, pps, front)) {
        StallBreaksWithoutDrop(cfg, Run(cfg, sps, pps, front), last.packet, last.io);
      }
      hide Publish;
      AlwaysGoodNow(cfg, sps, pps, front);
    }
  }

  lemma AlwaysGoodNow(cfg: Config, sps: seq<byte>, pps: seq<byte>, inputs: seq<Input>)
    ensures AlwaysGood(cfg, sps, pps, inputs) ==> GoodSlot(Run(cfg, sps, pps, inputs))
  {
    hide GoodSlot, Run;
  }

  /** A packet without start code is sent with one, but never ends a recovery, whatever its type. */
  lemma BarePacketNeverRecovers(c: Client, p: seq<byte>, io: Io)
    requires LogOk(c) && !c.pending && p != [] && c.published > 0
    requires c.needIdr && !HasCode(p)
    ensures Sent(c, p, io) == Live(c)
  {
    FoundIsThere(p, IDR);
    hide Contains, HasCode;
  }

  /** A client that dies in the first flush of a publish leaves the packet in the freed slot. */
  lemma DeadSlotKeepsPacket(cfg: Config, slot: Slot, p: seq<byte>, io: Io)
    requires slot.Live? && LogOk(slot.c) && slot.c.pending && p != []
    requires !Stalled(cfg, Cached(slot.c, p), io.now)
    requires Flushed(Cached(slot.c, p), io.first).1 == Dead
    ensures Publish(cfg, slot, p, io).Free? && Publish(cfg, slot, p, io).stale == Framed4(p) != []
  {
  }

  /** The next subscriber starts well exactly when the slot it gets has an empty buffer. */
  lemma StartsWellIff(slot: Slot, sps: seq<byte>, pps: seq<byte>)
    requires slot.Free? && (slot.stale != [] ==> StartsWithCode(slot.stale))
    ensures Good(Accept(slot, sps, pps).c) <==> slot.stale == []
  {
  }

  // ---------- which packets, which parameter sets ----------

  /** The last published packet whose first NAL has this type, or what was cached before. */
  function Latest(inputs: seq<Input>, t: int, before: seq<byte>): seq<byte> {
    if inputs == [] then before
    else
      var p := inputs[|inputs| - 1].packet;
      if FirstType(p) == t then p else Latest(inputs[..|inputs| - 1], t, before)
  }

  /** The block carries the packet of its publish, behind the sets cached by then if it is a recovery block. */
  predicate FromPublish(b: Block, sps: seq<byte>, pps: seq<byte>, inputs: seq<Input>) {
    && b.index < |inputs|
    && b.packet == inputs[b.index].packet
    && (b.recovery ==> b.sets == Latest(inputs[..b.index + 1], 7, sps) + Latest(inputs[..b.index + 1], 8, pps))
  }

  /** Blocks come from publishes in order, no packet twice. */
  ghost predicate Ordered(log: seq<Block>, sps: seq<byte>, pps: seq<byte>, inputs: seq<Input>) {
    && (forall i :: 0 <= i < |log| ==> FromPublish(log[i], sps, pps, inputs))
    && (forall i, j :: 0 <= i < j < |log| ==> log[i].index < log[j].index)
  }

  ghost predicate Tracks(c: Client, sps: seq<byte>, pps: seq<byte>, inputs: seq<Input>) {
    && LogOk(c)
    && c.published == |inputs|
    && c.sps == Latest(inputs, 7, sps)
    && c.pps == Latest(inputs, 8, pps)
    && Ordered(c.log, sps, pps, inputs)
  }

  lemma OrderedGrows(log: seq<Block>, sps: seq<byte>, pps: seq<byte>, inputs: seq<Input>)
    requires inputs != [] && Ordered(log, sps, pps, inputs[..|inputs| - 1])
    ensures Ordered(log, sps, pps, inputs)
    ensures forall i :: 0 <= i < |log| ==> log[i].index < |inputs| - 1
  {
    var front := inputs[..|inputs| - 1];
    forall i | 0 <= i < |log| ensures FromPublish(log[i], sps, pps, inputs) {
      assert FromPublish(log[i], sps, pps, front);
      assert inputs[..log[i].index + 1] == front[..log[i].index + 1];
    }
  }

  lemma FlushedTracks(c: Client, answers: seq<Answer>, sps: seq<byte>, pps: seq<byte>, inputs: seq<Input>)
    requires Tracks(c, sps, pps, inputs) && c.pending
    ensures Tracks(Flushed(c, answers).0, sps, pps, inputs)
  {
    hide Flush, BytesOf, Latest;
    var r := Flushed(c, answers).0;
    forall i | 0 <= i < |r.log| ensures FromPublish(r.log[i], sps, pps, inputs) {
      assert FromPublish(c.log[i], sps, pps, inputs);
    }
  }

  lemma FlushedIndices(c: Client, answers: seq<Answer>)
    requires LogOk(c) && c.pending
    ensures var log := Flushed(c, answers).0.log;
      |log| == |c.log| && forall i :: 0 <= i < |log| ==> log[i].index == c.log[i].index
  {
  }

  lemma SentTracks(c: Client, io: Io, sps: seq<byte>, pps: seq<byte>, inputs: seq<Input>)
    requires inputs != [] && inputs[|inputs| - 1].packet != []
    requires Tracks(c, sps, pps, inputs) && !c.pending
    requires forall i :: 0 <= i < |c.log| ==> c.log[i].index < |inputs| - 1
    ensures var r := Sent(c, inputs[|inputs| - 1].packet, io);
      if r.Live? then Tracks(r.c, sps, pps, inputs) else Ordered(r.ended, sps, pps, inputs)
  {
    hide Flushed, BytesOf, Contains, Latest;
    var p := inputs[|inputs| - 1].packet;
    if !(c.needIdr && !Contains(p, IDR)) {
      var next := Assembled(c, p, io.start);
      assert inputs[..|inputs|] == inputs;
      FlushedTracks(next, io.second, sps, pps, inputs);
    }
  }

  /**
    Every block is the packet of one publish, in order and never twice; a recovery block carries
    the newest parameter sets published up to and including that packet.
   */
  lemma {:induction false} BlocksFollowPublishes(cfg: Config, sps: seq<byte>, pps: seq<byte>, inputs: seq<Input>)
    requires forall i :: 0 <= i < |inputs| ==> inputs[i].packet != []
    ensures var r := Run(cfg, sps, pps, inputs);
      if r.Live? then Tracks(r.c, sps, pps, inputs) else Ordered(r.ended, sps, pps, inputs)
  {
    if inputs != [] {
      var front := inputs[..|inputs| - 1];
      var last := inputs[|inputs| - 1];
      BlocksFollowPublishes(cfg, sps, pps, front);
      hide *;
      PublishTracks(cfg, Run(cfg, sps, pps, front), last.io, sps, pps, inputs);
    }
  }

  lemma PublishTracks(cfg: Config, slot: Slot, io: Io, sps: seq<byte>, pps: seq<byte>, inputs: seq<Input>)
    requires inputs != [] && inputs[|inputs| - 1].packet != []
    requires if slot.Live? then Tracks(slot.c, sps, pps, inputs[..|inputs| - 1])
             else Ordered(slot.ended, sps, pps, inputs[..|inputs| - 1])
    ensures var r := Publish(cfg, slot, inputs[|inputs| - 1].packet, io);
      if r.Live? then Tracks(r.c, sps, pps, inputs) else Ordered(r.ended, sps, pps, inputs)
  {
    hide Flushed, Sent, FromPublish, Ordered, Latest, LogOk, Stalled, FirstType;
    var p := inputs[|inputs| - 1].packet;
    if slot.Free? {
      OrderedGrows(slot.ended, sps, pps, inputs);
    } else {
      OrderedGrows(slot.c.log, sps, pps, inputs);
      var c := Unstalled(cfg, Cached(slot.c, p), io.now);
      CachedTracks(cfg, slot.c, io.now, sps, pps, inputs);
      hide Cached, Unstalled;
      if c.pending {
        FlushedTracks(c, io.first, sps, pps, inputs);
        FlushedIndices(c, io.first);
        if Flushed(c, io.first).1 == Emptied {
          SentTracks(Flushed(c, io.first).0, io, sps, pps, inputs);
        }
      } else {
        SentTracks(c, io, sps, pps, inputs);
      }
    }
  }

  lemma CachedTracks(cfg: Config, c: Client, now: nat, sps: seq<byte>, pps: seq<byte>, inputs: seq<Input>)
    requires inputs != [] && Tracks(c, sps, pps, inputs[..|inputs| - 1]) && Ordered(c.log, sps, pps, inputs)
    ensures Tracks(Unstalled(cfg, Cached(c, inputs[|inputs| - 1].packet), now), sps, pps, inputs)
    ensures Unstalled(cfg, Cached(c, inputs[|inputs| - 1].packet), now).log == c.log
  {
    hide Ordered, BytesOf, Stalled, FirstType;
  }
}
