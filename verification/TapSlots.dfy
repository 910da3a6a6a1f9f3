/**
  What becomes of a subscriber in the long run, and of a slot of the client table that serves one
  subscriber after the other (strem_agent_server/src/h264_tap.c, 295-338, 452-540 and 566-588).
 */
module TapSlots {
  import opened Bytes
  import opened AnnexB
  import opened ParamSets
  import opened TapScan
  import opened Sockets
  import opened TapSpec
  import opened TapRuns

  // ---------- recovery ends ----------

  /** The socket takes what is in the buffer, if anything is. */
  predicate Drains(c: Client, answers: seq<Answer>)
    requires LogOk(c)
  {
    c.pending ==> Flushed(c, answers).1 == Emptied
  }

  /** The client once its buffer has been emptied. */
  function Drained(c: Client, answers: seq<Answer>): (r: Client)
    requires LogOk(c)
    ensures LogOk(r) && r.published == c.published
  {
    if c.pending then Flushed(c, answers).0 else c
  }

  /** The client a publish sends to, after caching and the stall check. */
  function Ready(cfg: Config, c: Client, p: seq<byte>, io: Io): (r: Client)
    requires LogOk(c)
    ensures LogOk(r) && r.published == c.published + 1
  {
    Drained(Unstalled(cfg, Cached(c, p), io.now), io.first)
  }

  lemma PublishWhenDrained(cfg: Config, c: Client, p: seq<byte>, io: Io)
    requires LogOk(c) && p != [] && Drains(Unstalled(cfg, Cached(c, p), io.now), io.first)
    ensures !Ready(cfg, c, p, io).pending
    ensures Publish(cfg, Live(c), p, io) == Sent(Ready(cfg, c, p, io), p, io)
  {
    hide Sent, Flush, Cached, Unstalled;
  }

  /** The packet is put into the buffer and the socket takes it whole. */
  predicate Delivers(c: Client, p: seq<byte>, io: Io)
    requires LogOk(c) && !c.pending && p != [] && c.published > 0
  {
    Flushed(Assembled(c, p, io.start), io.second).1 == Emptied
  }

  lemma DeliveredWhole(c: Client, p: seq<byte>, io: Io)
    requires LogOk(c) && !c.pending && p != [] && c.published > 0
    requires (c.needIdr ==> Contains(p, IDR)) && Delivers(c, p, io)
    ensures Sent(c, p, io).Live?
    ensures var r := Sent(c, p, io).c;
      && !r.pending && !r.needIdr
      && |r.log| == |c.log| + 1 && r.log[..|c.log|] == c.log
      && Whole(LastBlock(r)) && LastBlock(r).packet == p && LastBlock(r).recovery == c.needIdr
  {
    hide Flush, Framed4, Contains;
    var a := Assembled(c, p, io.start);
    var last := LastBlock(a);
    assert Flush(|BytesOf(last)| - last.sent, io.second).0 == |BytesOf(last)| - last.sent;
  }

  /**
    A packet with an IDR unit that the socket takes whole ends any recovery: the client is in sync,
    the packet is the last block, and from some recovery block on every block arrived whole.
   */
  lemma RecoveryEnds(cfg: Config, slot: Slot, p: seq<byte>, io: Io) returns (k: nat)
    requires slot.Live? && Good(slot.c) && Contains(p, IDR) && !Breaks(cfg, slot, p, io)
    requires Drains(Unstalled(cfg, Cached(slot.c, p), io.now), io.first)
    requires Delivers(Ready(cfg, slot.c, p, io), p, io)
    ensures Publish(cfg, slot, p, io).Live?
    ensures var c := Publish(cfg, slot, p, io).c;
      && Good(c) && !c.needIdr && !c.pending
      && LastBlock(c).packet == p
      && k < |c.log| && c.log[k].recovery && forall i :: k <= i < |c.log| ==> Whole(c.log[i])
  {
    PublishWhenDrained(cfg, slot.c, p, io);
    DeliveredWhole(Ready(cfg, slot.c, p, io), p, io);
    StallBreaksWithoutDrop(cfg, slot, p, io);
    hide Publish, Sent, Breaks, Whole;
    var c := Publish(cfg, slot, p, io).c;
    k := RecoveredFrom(c.log, |c.log|);
  }

  // ---------- behind a recovery every packet goes out ----------

  /** The block in the buffer, if any, has not stalled and is taken; the packet does not kill the connection. */
  predicate KeepsUp(cfg: Config, slot: Slot, p: seq<byte>, io: Io)
    requires slot.Live? ==> LogOk(slot.c)
  {
    && slot.Live? && p != []
    && !Stalled(cfg, Cached(slot.c, p), io.now)
    && Drains(Cached(slot.c, p), io.first)
    && Publish(cfg, slot, p, io).Live?
  }

  /** The slot after more publishes. */
  function PublishAll(cfg: Config, slot: Slot, inputs: seq<Input>): (r: Slot)
    requires slot.Live? ==> LogOk(slot.c)
    ensures r.Live? ==> LogOk(r.c)
  {
    if inputs == [] then slot
    else
      var last := inputs[|inputs| - 1];
      Publish(cfg, PublishAll(cfg, slot, inputs[..|inputs| - 1]), last.packet, last.io)
  }

  predicate AllKeepUp(cfg: Config, slot: Slot, inputs: seq<Input>)
    requires slot.Live? ==> LogOk(slot.c)
  {
    inputs == [] ||
    (var front := inputs[..|inputs| - 1];
     var last := inputs[|inputs| - 1];
     AllKeepUp(cfg, slot, front) && KeepsUp(cfg, PublishAll(cfg, slot, front), last.packet, last.io))
  }

  /** The blocks of `c`, sent further, and the packet as a plain block behind them. */
  ghost predicate Extended(c: Client, r: Client, p: seq<byte>) {
    && |r.log| == |c.log| + 1
    && r.log[|c.log|].packet == p && !r.log[|c.log|].recovery
    && forall i :: 0 <= i < |c.log| ==>
         r.log[i].packet == c.log[i].packet && r.log[i].recovery == c.log[i].recovery
  }

  /** One such publish to a client in sync adds its packet as a plain block. */
  lemma PacketGoesOut(cfg: Config, c: Client, p: seq<byte>, io: Io)
    requires Good(c) && !c.needIdr && KeepsUp(cfg, Live(c), p, io)
    ensures var r := Publish(cfg, Live(c), p, io).c;
      Good(r) && !r.needIdr && Extended(c, r, p)
  {
    GoodIsLogged(c);
    hide Publish, Stalled, Good, Drains, Flushed, Sent, Unstalled, Cached, Ready, LogOk;
    StallBreaksWithoutDrop(cfg, Live(c), p, io);
    NotStalled(cfg, c, p, io);
    PublishWhenDrained(cfg, c, p, io);
    InSyncStays(cfg, c, p, io);
    PlainBlockAdded(Ready(cfg, c, p, io), p, io);
  }

  lemma NotStalled(cfg: Config, c: Client, p: seq<byte>, io: Io)
    requires LogOk(c) && !Stalled(cfg, Cached(c, p), io.now)
    ensures Unstalled(cfg, Cached(c, p), io.now) == Cached(c, p) && Cached(c, p).published > 0
  {
    hide Stalled;
  }

  lemma InSyncStays(cfg: Config, c: Client, p: seq<byte>, io: Io)
    requires LogOk(c) && !c.needIdr && !Stalled(cfg, Cached(c, p), io.now)
    ensures var r := Ready(cfg, c, p, io);
      && !r.needIdr && |r.log| == |c.log|
      && forall i :: 0 <= i < |c.log| ==>
           r.log[i].packet == c.log[i].packet && r.log[i].recovery == c.log[i].recovery
  {
    hide Flush, BytesOf, Stalled, FirstType;
  }

  lemma PlainBlockAdded(c: Client, p: seq<byte>, io: Io)
    requires LogOk(c) && !c.pending && !c.needIdr && p != [] && c.published > 0 && Sent(c, p, io).Live?
    ensures var r := Sent(c, p, io).c;
      && !r.needIdr && |r.log| == |c.log| + 1
      && LastBlock(r).packet == p && !LastBlock(r).recovery
      && forall i :: 0 <= i < |c.log| ==> r.log[i] == c.log[i]
  {
    hide Flush, BytesOf, Contains;
  }

  /** The packets are the blocks behind those of `c`, in order and plain. */
  ghost predicate WentOut(c: Client, r: Client, inputs: seq<Input>) {
    && |r.log| == |c.log| + |inputs|
    && forall i :: 0 <= i < |inputs| ==>
         r.log[|c.log| + i].packet == inputs[i].packet && !r.log[|c.log| + i].recovery
  }

  lemma OneMoreWentOut(c: Client, r: Client, s: Client, inputs: seq<Input>, last: Input)
    requires WentOut(c, r, inputs) && Extended(r, s, last.packet)
    ensures WentOut(c, s, inputs + [last])
  {
    var all := inputs + [last];
    forall i | 0 <= i < |all|
      ensures s.log[|c.log| + i].packet == all[i].packet && !s.log[|c.log| + i].recovery
    {
      if i < |inputs| { assert inputs[i] == all[i] && r.log[|c.log| + i].packet == inputs[i].packet; }
    }
  }

  /** Plain blocks stand behind whole ones. */
  lemma PlainBehindWhole(c: Client, r: Client, inputs: seq<Input>)
    requires Good(r) && WentOut(c, r, inputs)
    ensures forall i :: |c.log| <= i < |r.log| - 1 ==> Whole(r.log[i])
  {
    hide Whole, LogOk, InSync;
    assert Recovers(r.log);
    forall i | |c.log| <= i < |r.log| - 1 ensures Whole(r.log[i]) {
      var j := i + 1 - |c.log|;
      assert r.log[|c.log| + j].packet == inputs[j].packet;
      assert !r.log[i + 1].recovery;
    }
  }

  /**
    Behind a recovery nothing is skipped: as long as the connection keeps up, every packet published
    is the next block, plain, and all but perhaps the last have arrived whole.
   */
  lemma EveryPacketGoesOut(cfg: Config, c: Client, inputs: seq<Input>)
    requires Good(c) && !c.needIdr && AllKeepUp(cfg, Live(c), inputs)
    ensures PublishAll(cfg, Live(c), inputs).Live?
    ensures var r := PublishAll(cfg, Live(c), inputs).c;
      && Good(r) && !r.needIdr && WentOut(c, r, inputs)
      && forall i :: |c.log| <= i < |r.log| - 1 ==> Whole(r.log[i])
  {
    InSyncThroughout(cfg, c, inputs);
    hide AllKeepUp, PublishAll, Good, WentOut, Whole;
    PlainBehindWhole(c, PublishAll(cfg, Live(c), inputs).c, inputs);
  }

  /** A client in sync to which the packets went out. */
  ghost predicate InSyncWith(c: Client, slot: Slot, inputs: seq<Input>) {
    slot.Live? && Good(slot.c) && !slot.c.needIdr && WentOut(c, slot.c, inputs)
  }

  lemma {:induction false} InSyncThroughout(cfg: Config, c: Client, inputs: seq<Input>)
    requires Good(c) && !c.needIdr && AllKeepUp(cfg, Live(c), inputs)
    ensures InSyncWith(c, PublishAll(cfg, Live(c), inputs), inputs)
  {
    hide *;
    GoodIsLogged(c);
    if inputs == [] {
      NothingWentOut(cfg, c);
    } else {
      var front := inputs[..|inputs| - 1];
      var last := inputs[|inputs| - 1];
      LastKeepsUp(cfg, Live(c), inputs);
      InSyncThroughout(cfg, c, front);
      assert inputs == front + [last];
      OneMoreInSync(cfg, c, PublishAll(cfg, Live(c), front), front, last);
    }
  }

  lemma GoodIsLogged(c: Client)
    requires Good(c)
    ensures LogOk(c)
  {
  }

  lemma OneMoreInSync(cfg: Config, c: Client, slot: Slot, inputs: seq<Input>, last: Input)
    requires InSyncWith(c, slot, inputs) && (slot.Live? ==> LogOk(slot.c))
    requires KeepsUp(cfg, slot, last.packet, last.io)
    ensures InSyncWith(c, Publish(cfg, slot, last.packet, last.io), inputs + [last])
  {
    assert Publish(cfg, slot, last.packet, last.io).Live?;
    PacketGoesOut(cfg, slot.c, last.packet, last.io);
    hide Publish, KeepsUp, Good, LogOk, WentOut, Extended;
    OneMoreWentOut(c, slot.c, Publish(cfg, slot, last.packet, last.io).c, inputs, last);
  }

  lemma NothingWentOut(cfg: Config, c: Client)
    requires Good(c) && !c.needIdr
    ensures InSyncWith(c, PublishAll(cfg, Live(c), []), [])
  {
    hide Good;
  }

  lemma LastKeepsUp(cfg: Config, slot: Slot, inputs: seq<Input>)
    requires (slot.Live? ==> LogOk(slot.c)) && inputs != [] && AllKeepUp(cfg, slot, inputs)
    ensures var front := inputs[..|inputs| - 1];
      var last := inputs[|inputs| - 1];
      var before := PublishAll(cfg, slot, front);
      && AllKeepUp(cfg, slot, front)
      && KeepsUp(cfg, before, last.packet, last.io)
      && PublishAll(cfg, slot, inputs) == Publish(cfg, before, last.packet, last.io)
      && before.Live? && PublishAll(cfg, slot, inputs).Live?
  {
    hide Publish, Stalled, Drains;
  }

  // ---------- one slot, one connection after the other ----------

  datatype SlotEvent =
    | Place(sps: seq<byte>, pps: seq<byte>)     // a new subscriber, if the slot is free
    | Deliver(packet: seq<byte>, io: Io)
    | Prune(gone: bool)                         // the check whether the peer has left

  predicate Reusable(slot: Slot) {
    (slot.Live? ==> LogOk(slot.c)) && (slot.Free? && slot.stale != [] ==> StartsWithCode(slot.stale))
  }

  function After(cfg: Config, slot: Slot, e: SlotEvent): (r: Slot)
    requires Reusable(slot)
    ensures Reusable(r)
  {
    match e
    case Place(sps, pps) => if slot.Free? then Accept(slot, sps, pps) else slot
    case Deliver(p, io) => Publish(cfg, slot, p, io)
    case Prune(gone) => if slot.Live? && gone then Free([], 0, slot.c.log) else slot
  }

  function SlotAfter(cfg: Config, events: seq<SlotEvent>): (r: Slot)
    ensures Reusable(r)
  {
    if events == [] then Free([], 0, [])
    else After(cfg, SlotAfter(cfg, events[..|events| - 1]), events[|events| - 1])
  }

  /** The connection dies in the first flush of this publish. */
  predicate DiesInFirstFlush(cfg: Config, slot: Slot, e: SlotEvent)
    requires Reusable(slot)
  {
    && slot.Live? && e.Deliver? && e.packet != []
    && var c := Unstalled(cfg, Cached(slot.c, e.packet), e.io.now);
       c.pending && Flushed(c, e.io.first).1 == Dead
  }

  /** How the last connection ended, for a slot that is free. */
  predicate EndedInFirstFlush(cfg: Config, events: seq<SlotEvent>) {
    events != [] &&
    (var front := events[..|events| - 1];
     var before := SlotAfter(cfg, front);
     if before.Live? then DiesInFirstFlush(cfg, before, events[|events| - 1])
     else EndedInFirstFlush(cfg, front))
  }

  lemma StaleAfterDeath(cfg: Config, slot: Slot, e: SlotEvent)
    requires slot.Live? && Reusable(slot) && After(cfg, slot, e).Free?
    ensures After(cfg, slot, e).stale != [] <==> DiesInFirstFlush(cfg, slot, e)
  {
    hide Flush, Framed4, Flushed, Cached, Unstalled, Assembled, Contains;
    if e.Deliver? && e.packet != [] { FramedNotEmpty(e.packet); }
  }

  lemma FramedNotEmpty(p: seq<byte>)
    requires p != []
    ensures Framed4(p) != []
  {
  }

  lemma {:induction false} StaleIff(cfg: Config, events: seq<SlotEvent>)
    requires SlotAfter(cfg, events).Free?
    ensures SlotAfter(cfg, events).stale != [] <==> EndedInFirstFlush(cfg, events)
  {
    if events != [] {
      var front := events[..|events| - 1];
      var before := SlotAfter(cfg, front);
      var e := events[|events| - 1];
      if before.Live? {
        StaleAfterDeath(cfg, before, e);
      } else {
        StaleIff(cfg, front);
        hide DiesInFirstFlush;
      }
    }
  }

  /**
    Over every history of a slot: a subscriber placed in it starts well exactly when the connection
    before it, if there was one, did not die in the first flush of a publish.
   */
  lemma PlacementStartsWellIff(cfg: Config, events: seq<SlotEvent>, sps: seq<byte>, pps: seq<byte>)
    requires SlotAfter(cfg, events).Free?
    ensures var r := SlotAfter(cfg, events + [Place(sps, pps)]);
      r.Live? && (Good(r.c) <==> !EndedInFirstFlush(cfg, events))
  {
    var all := events + [Place(sps, pps)];
    assert all[..|all| - 1] == events && all[|all| - 1] == Place(sps, pps);
    StaleIff(cfg, events);
    hide EndedInFirstFlush, Good;
    StartsWellIff(SlotAfter(cfg, events), sps, pps);
  }

  // ---------- a run that leaves a packet behind ----------

  function IdrPacket(): seq<byte> {
    [0, 0, 0, 1, 0x65, 1]
  }

  function PlainPacket(): seq<byte> {
    [0, 0, 0, 1, 0x41, 1]
  }

  const NOTHING_TAKEN := Io(1, 1, [], [])
  const FAILED_AT_ONCE := Io(1, 1, [Failed], [])

  lemma SlotAfterOne(cfg: Config, events: seq<SlotEvent>, e: SlotEvent)
    ensures SlotAfter(cfg, events + [e]) == After(cfg, SlotAfter(cfg, events), e)
  {
    assert (events + [e])[..|events|] == events;
  }

  lemma IdrIsFound()
    ensures Contains(IdrPacket(), IDR)
  {
    assert CodeLen(IdrPacket(), 0) == 4;
  }

  lemma BlockedAtOnce(c: Client, p: seq<byte>)
    requires LogOk(c) && !c.pending && c.needIdr && c.published > 0 && p != [] && Contains(p, IDR)
    ensures Sent(c, p, NOTHING_TAKEN) == Live(Assembled(c, p, 1))
  {
    hide BytesOf, Contains;
    var a := Assembled(c, p, 1);
    var last := LastBlock(a);
    assert a.log[|a.log| - 1 := last.(sent := 0)] == a.log;
  }

  /** A new subscriber whose socket takes nothing of its first block. */
  lemma FirstBlockWaits(cfg: Config)
    ensures var r := Publish(cfg, Accept(Free([], 0, []), [], []), IdrPacket(), NOTHING_TAKEN);
      r.Live? && r.c.pending && r.c.start == 1 && r.c.log != []
      && LastBlock(r.c).sent == 0 && BytesOf(LastBlock(r.c)) != []
  {
    IdrIsFound();
    var c := Cached(Accept(Free([], 0, []), [], []).c, IdrPacket());
    assert c == Client(true, false, [], [], 1, [], false, 0);
    hide Contains, Sent, BytesOf, Cached;
    BlockedAtOnce(c, IdrPacket());
    BlockBytes(LastBlock(Assembled(c, IdrPacket(), 1)));
  }

  lemma BlockBytes(b: Block)
    requires b.packet != []
    ensures BytesOf(b) != []
  {
  }

  /** The connection fails at the next publish, and the packet stays behind. */
  lemma FailureLeaves(cfg: Config, c: Client)
    requires c.pending && c.start == 1 && c.log != [] && LastBlock(c).sent == 0 && BytesOf(LastBlock(c)) != []
    ensures LogOk(c)
    ensures Publish(cfg, Live(c), PlainPacket(), FAILED_AT_ONCE) == Free(PlainPacket(), 1, c.log)
  {
    hide BytesOf;
    var next := Cached(c, PlainPacket());
    assert next == c.(published := c.published + 1);
    assert !Stalled(cfg, next, 1);
    var last := LastBlock(c);
    assert Flush(|BytesOf(last)|, [Failed]) == (0, Dead);
    assert c.log[|c.log| - 1 := last.(sent := 0)] == c.log;
  }

  /** A subscriber whose socket blocks on its first block and fails at the second publish. */
  function LeavingRun(): seq<SlotEvent> {
    [Place([], [])] + [Deliver(IdrPacket(), NOTHING_TAKEN)] + [Deliver(PlainPacket(), FAILED_AT_ONCE)]
  }

  lemma LeavingRunLeaves(cfg: Config)
    ensures SlotAfter(cfg, LeavingRun()).Free? && SlotAfter(cfg, LeavingRun()).stale == PlainPacket()
  {
    var place := [Place([], [])];
    var waiting := place + [Deliver(IdrPacket(), NOTHING_TAKEN)];
    assert [] + place == place;
    assert SlotAfter(cfg, []) == Free([], 0, []);
    hide SlotAfter, Publish, IdrPacket, PlainPacket, Accept;
    SlotAfterOne(cfg, [], place[0]);
    SlotAfterOne(cfg, place, Deliver(IdrPacket(), NOTHING_TAKEN));
    SlotAfterOne(cfg, waiting, Deliver(PlainPacket(), FAILED_AT_ONCE));
    FirstBlockWaits(cfg);
    hide BytesOf;
    FailureLeaves(cfg, SlotAfter(cfg, waiting).c);
  }

  /** The next subscriber is sent a plain packet that was published for the one before. */
  lemma PacketLeftBehind(cfg: Config)
    ensures SlotAfter(cfg, LeavingRun()).Free? && SlotAfter(cfg, LeavingRun()).stale == PlainPacket()
    ensures var r := SlotAfter(cfg, LeavingRun() + [Place([], [])]);
      r.Live? && !Good(r.c) && r.c.pending && BytesOf(LastBlock(r.c)) == PlainPacket()
  {
    LeavingRunLeaves(cfg);
    assert PlainPacket() != [] && StartsWithCode(PlainPacket());
    hide SlotAfter, LeavingRun, PlainPacket, Good, BytesOf, StartsWithCode;
    SlotAfterOne(cfg, LeavingRun(), Place([], []));
    StartsWellIff(SlotAfter(cfg, LeavingRun()), [], []);
    StaleIsSent(SlotAfter(cfg, LeavingRun()));
  }

  lemma StaleIsSent(slot: Slot)
    requires slot.Free? && slot.stale != [] && StartsWithCode(slot.stale)
    ensures var r := Accept(slot, [], []).c;
      r.pending && BytesOf(LastBlock(r)) == slot.stale
  {
    assert [] + slot.stale == slot.stale;
  }
}
