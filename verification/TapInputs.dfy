/**
  What a subscriber of the tap must receive, told from the packets, the clock readings and what its
  socket answers (strem_agent_server/src/h264_tap.c, 383-540).
 */
module TapInputs {
  import opened Bytes
  import opened ParamSets
  import opened TapScan
  import opened Sockets
  import opened TapSpec
  import opened TapRuns

  // ---------- what a socket takes ----------

  function Least(a: nat, b: nat): nat {
    if a <= b then a else b
  }

  /**
    The flush loop sends on through takes and interruptions: it puts out the bytes that they accept
    together, at most all, and ends the client exactly if they are too few and a close or a failure
    comes behind them. A socket that would block, or is not asked again, keeps the client.
   */
  lemma {:induction false} FlushTakes(room: nat, answers: seq<Answer>)
    ensures var f := Flush(room, answers);
      && f.0 == Least(room, Accepts(answers))
      && (f.1 == Emptied <==> room <= Accepts(answers))
      && (f.1 == Dead <==> Accepts(answers) < room && Ends(answers))
    decreases |answers|
  {
    if answers != [] { EndsUnfold(answers); }
    hide Ends;
    if room != 0 && answers != [] {
      match answers[0]
      case Took(n) =>
        FlushTakes(room - Taken(n, room), answers[1..]);
      case Interrupted =>
        FlushTakes(room, answers[1..]);
      case _ =>
    }
  }

  // ---------- parameter sets are told by the first NAL ----------

  /** A packet is cached by the type in the header of its first NAL, and not at all if it starts with none. */
  lemma FirstTypeIs(nal: seq<byte>, p: seq<byte>)
    requires nal != []
    ensures FirstType(START_CODE + nal) == FirstType([0, 0, 1] + nal) == (nal[0] % 32) as int
    ensures !StartsWithCode(p) || p == START_CODE || p == [0, 0, 1] ==> FirstType(p) == -1
  {
    var short: seq<byte> := [0, 0, 1];
    assert (START_CODE + nal)[4] == nal[0] && (short + nal)[3] == nal[0];
  }

  // ---------- what one publish does ----------

  /** The block in the buffer has been there for longer than the limit. */
  predicate TooLong(cfg: Config, c: Client, now: nat) {
    c.pending && c.start != 0 && now > c.start + cfg.stallMs * 1_000_000
  }

  function Left(c: Client): nat
    requires LogOk(c) && c.pending
  {
    |BytesOf(LastBlock(c))| - LastBlock(c).sent
  }

  /** No earlier block keeps the buffer: there is none, it is given up, or its rest goes out now. */
  predicate Clears(cfg: Config, c: Client, io: Io)
    requires LogOk(c)
  {
    !c.pending || TooLong(cfg, c, io.now) || Left(c) <= Accepts(io.first)
  }

  /** The packet would follow a gap: recovery goes on, or a block has just been given up. */
  predicate BehindGap(cfg: Config, c: Client, io: Io) {
    if TooLong(cfg, c, io.now) then c.needIdr || cfg.dropToIdr else c.needIdr && !(c.pending && c.pendingIdr)
  }

  predicate GoesOut(cfg: Config, c: Client, p: seq<byte>, io: Io)
    requires LogOk(c)
  {
    Clears(cfg, c, io) && (BehindGap(cfg, c, io) ==> Contains(p, IDR))
  }

  /** The newest of the packets published so far and this one whose first NAL has the type. */
  function Newest(p: seq<byte>, t: int, before: seq<byte>): seq<byte> {
    if FirstType(p) == t then p else before
  }

  /** The packet as a block, as far as the socket takes it. */
  function BlockOf(index: nat, sets: seq<byte>, p: seq<byte>, gap: bool, answers: seq<Answer>): Block {
    var ahead := if gap then sets else [];
    Block(index, ahead, p, gap, Least(|ahead| + |Framed4(p)|, Accepts(answers)))
  }

  function NewBlock(cfg: Config, c: Client, p: seq<byte>, io: Io): Block {
    BlockOf(c.published, Newest(p, 7, c.sps) + Newest(p, 8, c.pps), p, BehindGap(cfg, c, io), io.second)
  }

  function LogOf(slot: Slot): seq<Block> {
    if slot.Live? then slot.c.log else slot.ended
  }

  function Advanced(log: seq<Block>, n: nat): seq<Block>
    requires log != []
  {
    log[|log| - 1 := log[|log| - 1].(sent := log[|log| - 1].sent + n)]
  }

  /** The blocks sent before; one that was waiting has gone on from where it stopped. */
  function Older(cfg: Config, c: Client, io: Io): seq<Block>
    requires LogOk(c)
  {
    if c.pending && !TooLong(cfg, c, io.now) then Advanced(c.log, Least(Left(c), Accepts(io.first))) else c.log
  }

  /** The connection ends in the middle of a block. */
  predicate ConnectionEnds(cfg: Config, c: Client, p: seq<byte>, io: Io)
    requires LogOk(c)
  {
    if !Clears(cfg, c, io) then Ends(io.first)
    else GoesOut(cfg, c, p, io) && !Whole(NewBlock(cfg, c, p, io)) && Ends(io.second)
  }

  lemma StalledIsTooLong(cfg: Config, c: Client, now: nat)
    requires c.start <= now < TWO_TO_THE_64
    ensures Stalled(cfg, c, now) <==> TooLong(cfg, c, now)
  {
  }

  /** The client after the flush of the block in its buffer. */
  lemma FlushedTo(c: Client, answers: seq<Answer>)
    requires LogOk(c) && c.pending
    ensures var (r, end) := Flushed(c, answers);
      && r.log == Advanced(c.log, Least(Left(c), Accepts(answers)))
      && (end == Emptied <==> Left(c) <= Accepts(answers))
      && (end == Dead <==> Left(c) > Accepts(answers) && Ends(answers))
      && r.sps == c.sps && r.pps == c.pps && r.published == c.published
      && (end == Emptied ==> !r.pending && r.needIdr == (c.needIdr && !c.pendingIdr))
  {
    hide BytesOf, Flush, Accepts, Ends, LogOk, Least;
    FlushTakes(Left(c), answers);
    FlushedFlags(c, answers);
  }

  lemma FlushedFlags(c: Client, answers: seq<Answer>)
    requires LogOk(c) && c.pending
    ensures var (r, end) := Flushed(c, answers);
      && r.sps == c.sps && r.pps == c.pps
      && (end == Emptied ==>
           !r.pending && r.start == 0 && !r.pendingIdr && r.needIdr == (c.needIdr && !c.pendingIdr))
      && (end != Emptied ==>
           r.pending && r.start == c.start && r.pendingIdr == c.pendingIdr && r.needIdr == c.needIdr)
  {
    hide BytesOf, Flush, LogOk;
  }

  /** What the packet meets: caches and buffer of the client once the stall check is done. */
  lemma ReadyTo(cfg: Config, c: Client, p: seq<byte>, now: nat)
    requires LogOk(c) && c.start <= now < TWO_TO_THE_64
    ensures var r := Unstalled(cfg, Cached(c, p), now);
      && LogOk(r) && r.log == c.log && r.published == c.published + 1
      && r.sps == Newest(p, 7, c.sps) && r.pps == Newest(p, 8, c.pps)
      && r.pending == (c.pending && !TooLong(cfg, c, now)) && r.pendingIdr == c.pendingIdr
      && r.needIdr == (c.needIdr || (TooLong(cfg, c, now) && cfg.dropToIdr))
      && r.start == (if TooLong(cfg, c, now) then 0 else c.start)
  {
    StalledIsTooLong(cfg, Cached(c, p), now);
    hide BytesOf, FirstType, Stalled;
  }

  lemma SentTo(c: Client, p: seq<byte>, io: Io)
    requires LogOk(c) && !c.pending && p != [] && c.published > 0
    ensures var b := BlockOf(c.published - 1, c.sps + c.pps, p, c.needIdr, io.second);
      if c.needIdr && !Contains(p, IDR) then Sent(c, p, io) == Live(c)
      else (LogOf(Sent(c, p, io)) == c.log + [b] && (Sent(c, p, io).Free? <==> !Whole(b) && Ends(io.second)))
  {
    if !(c.needIdr && !Contains(p, IDR)) {
      AssembledTo(c, p, io);
      FlushedTo(Assembled(c, p, io.start), io.second);
      hide Flushed, Assembled, Contains, Framed4, Accepts, Ends, BlockOf, Whole, LogOk, Advanced, Left;
    }
  }

  lemma AssembledTo(c: Client, p: seq<byte>, io: Io)
    requires LogOk(c) && !c.pending && p != [] && c.published > 0
    ensures var a := Assembled(c, p, io.start);
      var b := BlockOf(c.published - 1, c.sps + c.pps, p, c.needIdr, io.second);
      && Advanced(a.log, Least(Left(a), Accepts(io.second))) == c.log + [b]
      && (Left(a) <= Accepts(io.second) <==> Whole(b))
  {
    hide Framed4, Accepts;
  }

  /**
    One publish to a connected subscriber, whatever state it is in: which blocks there are afterwards,
    how far each has got, and whether the connection lives on.
   */
  lemma PublishDoes(cfg: Config, c: Client, p: seq<byte>, io: Io)
    requires LogOk(c) && p != [] && c.start <= io.now < TWO_TO_THE_64
    ensures DoesAsTold(cfg, c, p, io, Publish(cfg, Live(c), p, io))
  {
    if c.pending && !TooLong(cfg, c, io.now) {
      PublishBehind(cfg, c, p, io);
    } else {
      PublishFreely(cfg, c, p, io);
    }
    hide *;
  }

  predicate DoesAsTold(cfg: Config, c: Client, p: seq<byte>, io: Io, r: Slot)
    requires LogOk(c)
  {
    && LogOf(r) == Older(cfg, c, io) + (if GoesOut(cfg, c, p, io) then [NewBlock(cfg, c, p, io)] else [])
    && (r.Free? <==> ConnectionEnds(cfg, c, p, io))
  }

  lemma PublishWhenFree(cfg: Config, c: Client, p: seq<byte>, io: Io)
    requires LogOk(c) && p != [] && !Unstalled(cfg, Cached(c, p), io.now).pending
    ensures Publish(cfg, Live(c), p, io) == Sent(Unstalled(cfg, Cached(c, p), io.now), p, io)
  {
    hide Sent, Unstalled, Cached, Flushed;
  }

  lemma PublishFreely(cfg: Config, c: Client, p: seq<byte>, io: Io)
    requires LogOk(c) && p != [] && c.start <= io.now < TWO_TO_THE_64
    requires !c.pending || TooLong(cfg, c, io.now)
    ensures DoesAsTold(cfg, c, p, io, Publish(cfg, Live(c), p, io))
  {
    ReadyTo(cfg, c, p, io.now);
    var d := Unstalled(cfg, Cached(c, p), io.now);
    hide Sent, Unstalled, Cached, Whole, BlockOf, Accepts, Ends, Newest, Contains, LogOk, Left, Publish;
    PublishWhenFree(cfg, c, p, io);
    SentTo(d, p, io);
    hide TooLong;
  }

  lemma PublishBehind(cfg: Config, c: Client, p: seq<byte>, io: Io)
    requires LogOk(c) && p != [] && c.start <= io.now < TWO_TO_THE_64
    requires c.pending && !TooLong(cfg, c, io.now)
    ensures DoesAsTold(cfg, c, p, io, Publish(cfg, Live(c), p, io))
  {
    ReadyTo(cfg, c, p, io.now);
    var d := Unstalled(cfg, Cached(c, p), io.now);
    SameRest(c, d);
    hide Flushed, Sent, Unstalled, Cached, Whole, BlockOf, Accepts, Ends, Newest, TooLong, Contains, LogOk, Left;
    FlushedTo(d, io.first);
    if Flushed(d, io.first).1 == Emptied {
      SentTo(Flushed(d, io.first).0, p, io);
    }
  }

  lemma SameRest(c: Client, d: Client)
    requires LogOk(c) && LogOk(d) && c.log == d.log && (d.pending ==> c.pending)
    ensures d.pending ==> Left(c) == Left(d)
  {
  }

  /** A clock reading belongs to a block in the buffer, and only a client in recovery sends to end one. */
  predicate Settled(c: Client) {
    (c.pendingIdr ==> c.needIdr) && (!c.pending ==> c.start == 0)
  }

  /** What the client knows after the publish. */
  predicate KnowsAfter(cfg: Config, c: Client, p: seq<byte>, io: Io, r: Client)
    requires LogOk(c)
  {
    var out := GoesOut(cfg, c, p, io);
    && r.published == c.published + 1
    && r.sps == Newest(p, 7, c.sps) && r.pps == Newest(p, 8, c.pps)
    && (r.pending <==> if out then !Whole(NewBlock(cfg, c, p, io)) else !Clears(cfg, c, io))
    && (r.pending ==> r.start == (if out then io.start else c.start))
    && (r.pending ==> r.pendingIdr == (if out then BehindGap(cfg, c, io) else c.pendingIdr))
    && r.needIdr ==
         (if !Clears(cfg, c, io) then c.needIdr
          else BehindGap(cfg, c, io) && !(out && Whole(NewBlock(cfg, c, p, io))))
  }

  /** The client the packet is sent to, once nothing is left in the buffer. */
  predicate FreeFor(cfg: Config, c: Client, p: seq<byte>, io: Io, d: Client)
    requires LogOk(c)
  {
    && LogOk(d) && !d.pending && Settled(d)
    && d.published == c.published + 1
    && d.sps == Newest(p, 7, c.sps) && d.pps == Newest(p, 8, c.pps)
    && Clears(cfg, c, io) && d.needIdr == BehindGap(cfg, c, io)
  }

  lemma SentKnows(cfg: Config, c: Client, p: seq<byte>, io: Io, d: Client)
    requires LogOk(c) && p != [] && FreeFor(cfg, c, p, io, d)
    ensures var r := Sent(d, p, io);
      r.Live? ==> KnowsAfter(cfg, c, p, io, r.c) && Settled(r.c)
  {
    if !(d.needIdr && !Contains(p, IDR)) {
      AssembledTo(d, p, io);
      FlushedTo(Assembled(d, p, io.start), io.second);
      FlushedFlags(Assembled(d, p, io.start), io.second);
      hide Flushed, Framed4, Accepts, Ends, BlockOf, Whole, LogOk, Advanced, Left, Contains, Clears, BehindGap, Newest;
    }
  }

  /**
    Together with the blocks that is all there is to a publish: how the client goes on follows from
    the packet, the clock and what the socket accepts.
   */
  lemma PublishKnows(cfg: Config, c: Client, p: seq<byte>, io: Io)
    requires LogOk(c) && Settled(c) && p != [] && c.start <= io.now < TWO_TO_THE_64
    requires Publish(cfg, Live(c), p, io).Live?
    ensures KnowsAfter(cfg, c, p, io, Publish(cfg, Live(c), p, io).c)
    ensures Settled(Publish(cfg, Live(c), p, io).c)
  {
    ReadyTo(cfg, c, p, io.now);
    var d := Unstalled(cfg, Cached(c, p), io.now);
    hide Sent, Unstalled, Cached, Whole, Accepts, Newest, TooLong, Contains, LogOk, Left, KnowsAfter, Publish;
    SameRest(c, d);
    if !d.pending {
      PublishWhenFree(cfg, c, p, io);
      SentKnows(cfg, c, p, io, d);
    } else {
      BehindKnows(cfg, c, p, io);
    }
  }

  lemma BehindKnows(cfg: Config, c: Client, p: seq<byte>, io: Io)
    requires LogOk(c) && Settled(c) && p != [] && c.start <= io.now < TWO_TO_THE_64
    requires c.pending && !TooLong(cfg, c, io.now)
    requires Publish(cfg, Live(c), p, io).Live?
    ensures KnowsAfter(cfg, c, p, io, Publish(cfg, Live(c), p, io).c)
    ensures Settled(Publish(cfg, Live(c), p, io).c)
  {
    ReadyTo(cfg, c, p, io.now);
    var d := Unstalled(cfg, Cached(c, p), io.now);
    hide Flushed, Sent, Unstalled, Cached, Whole, BlockOf, Accepts, Ends, Newest, TooLong, Contains, LogOk, Left;
    SameRest(c, d);
    FlushedTo(d, io.first);
    FlushedFlags(d, io.first);
    if Flushed(d, io.first).1 == Emptied {
      hide KnowsAfter;
      SentKnows(cfg, c, p, io, Flushed(d, io.first).0);
    }
  }

  // ---------- over runs ----------

  /** The peer does not close, and nothing fails. */
  predicate NoEnd(answers: seq<Answer>) {
    forall k :: 0 <= k < |answers| ==> !answers[k].Closed? && !answers[k].Failed?
  }

  predicate PeerStays(inputs: seq<Input>) {
    forall i :: 0 <= i < |inputs| ==> NoEnd(inputs[i].io.first) && NoEnd(inputs[i].io.second)
  }

  lemma NoEndNeverDead(c: Client, answers: seq<Answer>)
    requires LogOk(c) && c.pending && NoEnd(answers)
    ensures Flushed(c, answers).1 != Dead
  {
    FlushTakes(Left(c), answers);
  }

  lemma PublishKeepsPeer(cfg: Config, slot: Slot, p: seq<byte>, io: Io)
    requires slot.Live? && LogOk(slot.c) && NoEnd(io.first) && NoEnd(io.second)
    ensures Publish(cfg, slot, p, io).Live?
  {
    hide Flushed, NoEnd, Cached, Unstalled, Contains, LogOk;
    if p != [] {
      var c := Unstalled(cfg, Cached(slot.c, p), io.now);
      Counted(cfg, slot.c, p, io.now);
      if c.pending {
        NoEndNeverDead(c, io.first);
        if Flushed(c, io.first).1 == Emptied {
          NoEndNeverDead(Assembled(Flushed(c, io.first).0, p, io.start), io.second);
        }
      } else {
        NoEndNeverDead(Assembled(c, p, io.start), io.second);
      }
    }
  }

  /** However slowly the socket takes it: a subscriber whose peer stays is connected at every point of the run. */
  lemma {:induction false} PeerStaysConnected(cfg: Config, sps: seq<byte>, pps: seq<byte>, inputs: seq<Input>, n: nat)
    requires PeerStays(inputs) && n <= |inputs|
    ensures Run(cfg, sps, pps, inputs[..n]).Live?
  {
    if n > 0 {
      PeerStaysConnected(cfg, sps, pps, inputs, n - 1);
      assert inputs[..n][..n - 1] == inputs[..n - 1];
      hide Publish, NoEnd;
      PublishKeepsPeer(cfg, Run(cfg, sps, pps, inputs[..n - 1]), inputs[n - 1].packet, inputs[n - 1].io);
    }
  }

  /** The readings of a clock of 64 bits that never steps back; every publish has a packet. */
  predicate Clocked(inputs: seq<Input>) {
    && (forall i :: 0 <= i < |inputs| ==> ClockedOnce(inputs[i]))
    && (forall i :: 0 < i < |inputs| ==> inputs[i - 1].io.start <= inputs[i].io.now)
  }

  predicate ClockedOnce(i: Input) {
    i.packet != [] && i.io.now <= i.io.start < TWO_TO_THE_64
  }

  lemma ClockedFront(inputs: seq<Input>)
    requires Clocked(inputs) && inputs != []
    ensures Clocked(inputs[..|inputs| - 1])
  {
  }

  lemma {:induction false} SettledInRun(cfg: Config, sps: seq<byte>, pps: seq<byte>, inputs: seq<Input>)
    requires Clocked(inputs) && Run(cfg, sps, pps, inputs).Live?
    ensures var c := Run(cfg, sps, pps, inputs).c;
      && Settled(c)
      && c.start <= (if inputs == [] then 0 else inputs[|inputs| - 1].io.start)
  {
    if inputs != [] {
      var front := inputs[..|inputs| - 1];
      var last := inputs[|inputs| - 1];
      ClockedFront(inputs);
      hide Publish, Settled, KnowsAfter;
      assert Run(cfg, sps, pps, inputs) == Publish(cfg, Run(cfg, sps, pps, front), last.packet, last.io);
      FreeStaysFree(cfg, Run(cfg, sps, pps, front), last.packet, last.io);
      SettledInRun(cfg, sps, pps, front);
      StartKept(cfg, Run(cfg, sps, pps, front).c, last.packet, last.io);
    }
  }

  lemma FreeStaysFree(cfg: Config, slot: Slot, p: seq<byte>, io: Io)
    requires slot.Live? ==> LogOk(slot.c)
    ensures slot.Free? ==> Publish(cfg, slot, p, io) == slot
  {
  }

  lemma StartKept(cfg: Config, c: Client, p: seq<byte>, io: Io)
    requires LogOk(c) && Settled(c) && p != [] && c.start <= io.now <= io.start < TWO_TO_THE_64
    requires Publish(cfg, Live(c), p, io).Live?
    ensures Settled(Publish(cfg, Live(c), p, io).c)
    ensures Publish(cfg, Live(c), p, io).c.start <= io.start
  {
    hide Publish, GoesOut, Clears, BehindGap, Newest, NewBlock, Whole;
    PublishKnows(cfg, c, p, io);
  }

  /** Each publish of a run does as told, under a clock that never steps back. */
  lemma EveryPublishDoes(cfg: Config, sps: seq<byte>, pps: seq<byte>, inputs: seq<Input>, i: nat)
    requires Clocked(inputs) && i < |inputs| && Run(cfg, sps, pps, inputs[..i]).Live?
    ensures var c := Run(cfg, sps, pps, inputs[..i]).c;
      var r := Run(cfg, sps, pps, inputs[..i + 1]);
      && DoesAsTold(cfg, c, inputs[i].packet, inputs[i].io, r)
      && (r.Live? ==> KnowsAfter(cfg, c, inputs[i].packet, inputs[i].io, r.c))
  {
    hide Publish, Run, Settled, KnowsAfter, DoesAsTold, LogOk;
    ClockedSoFar(inputs, i);
    SettledInRun(cfg, sps, pps, inputs[..i]);
    var c := Run(cfg, sps, pps, inputs[..i]).c;
    RunNext(cfg, sps, pps, inputs, i);
    PublishDoes(cfg, c, inputs[i].packet, inputs[i].io);
    if Publish(cfg, Live(c), inputs[i].packet, inputs[i].io).Live? {
      PublishKnows(cfg, c, inputs[i].packet, inputs[i].io);
    }
  }

  lemma ClockedSoFar(inputs: seq<Input>, i: nat)
    requires Clocked(inputs) && i < |inputs|
    ensures Clocked(inputs[..i]) && ClockedOnce(inputs[i])
    ensures (if i == 0 then 0 else inputs[..i][i - 1].io.start) <= inputs[i].io.now
  {
  }

  lemma RunNext(cfg: Config, sps: seq<byte>, pps: seq<byte>, inputs: seq<Input>, i: nat)
    requires i < |inputs|
    ensures Run(cfg, sps, pps, inputs[..i + 1]) ==
      Publish(cfg, Run(cfg, sps, pps, inputs[..i]), inputs[i].packet, inputs[i].io)
  {
    assert inputs[..i + 1][..i] == inputs[..i];
    hide Publish;
  }

  // ---------- a subscriber that is served well ----------

  /** From the first packet with an IDR unit on, all that was published, behind the newest parameter sets by then. */
  function Expected(sps: seq<byte>, pps: seq<byte>, inputs: seq<Input>): seq<byte> {
    if inputs == [] then []
    else
      var p := inputs[|inputs| - 1].packet;
      var before := Expected(sps, pps, inputs[..|inputs| - 1]);
      if before != [] then before + Framed4(p)
      else if Contains(p, IDR) then Latest(inputs, 7, sps) + Latest(inputs, 8, pps) + Framed4(p)
      else []
  }

  /** Each time the socket takes the packet and the parameter sets at once. */
  predicate WellServed(sps: seq<byte>, pps: seq<byte>, inputs: seq<Input>) {
    inputs == [] ||
    (var last := inputs[|inputs| - 1];
     && WellServed(sps, pps, inputs[..|inputs| - 1])
     && last.packet != [] && last.io.now < TWO_TO_THE_64
     && |Latest(inputs, 7, sps)| + |Latest(inputs, 8, pps)| + |Framed4(last.packet)| <= Accepts(last.io.second))
  }

  predicate UpToDate(c: Client, sps: seq<byte>, pps: seq<byte>, inputs: seq<Input>) {
    && LogOk(c) && Settled(c) && !c.pending
    && c.sps == Latest(inputs, 7, sps) && c.pps == Latest(inputs, 8, pps)
    && c.needIdr == (Expected(sps, pps, inputs) == [])
    && Wire(c.log) == Expected(sps, pps, inputs)
  }

  lemma LatestUnfold(inputs: seq<Input>, t: int, before: seq<byte>)
    requires inputs != []
    ensures Latest(inputs, t, before) ==
      Newest(inputs[|inputs| - 1].packet, t, Latest(inputs[..|inputs| - 1], t, before))
  {
  }

  lemma WireSnoc(log: seq<Block>, b: Block)
    requires Whole(b)
    ensures Wire(log + [b]) == Wire(log) + (b.sets + Framed4(b.packet))
  {
    assert (log + [b])[..|log|] == log;
  }

  /** Such a subscriber has received just that, whatever the other settings. */
  lemma {:induction false} WellServedGetsAll(cfg: Config, sps: seq<byte>, pps: seq<byte>, inputs: seq<Input>)
    requires WellServed(sps, pps, inputs)
    ensures var r := Run(cfg, sps, pps, inputs);
      r.Live? && UpToDate(r.c, sps, pps, inputs)
  {
    if inputs != [] {
      var front := inputs[..|inputs| - 1];
      var last := inputs[|inputs| - 1];
      WellServedGetsAll(cfg, sps, pps, front);
      hide Publish, UpToDate, Latest, LogOk, Framed4;
      ServedOneMore(cfg, Run(cfg, sps, pps, front).c, sps, pps, inputs);
    }
  }

  lemma ServedOneMore(cfg: Config, c: Client, sps: seq<byte>, pps: seq<byte>, inputs: seq<Input>)
    requires inputs != [] && WellServed(sps, pps, inputs) && LogOk(c)
    requires UpToDate(c, sps, pps, inputs[..|inputs| - 1])
    ensures var r := Publish(cfg, Live(c), inputs[|inputs| - 1].packet, inputs[|inputs| - 1].io);
      r.Live? && LogOk(r.c) && UpToDate(r.c, sps, pps, inputs)
  {
    var last := inputs[|inputs| - 1];
    LatestUnfold(inputs, 7, sps);
    LatestUnfold(inputs, 8, pps);
    ExpectedUnfold(sps, pps, inputs);
    FramedSome(last.packet);
    hide Publish, Latest, Newest, Framed4, LogOk, Settled, NewBlock, Whole, Contains, Accepts, Expected, Wire;
    ServedOnce(cfg, c, last.packet, last.io);
    hide WellServed;
    var b := NewBlock(cfg, c, last.packet, last.io);
    WireSnoc(c.log, b);
    NextBytes(Wire(c.log), Wire(c.log + [b]), b.sets, Framed4(last.packet), c.needIdr);
    hide *;
  }

  lemma NextBytes(before: seq<byte>, after: seq<byte>, sets: seq<byte>, f: seq<byte>, gap: bool)
    requires f != [] && gap == (before == []) && after == before + (sets + f) && (!gap ==> sets == [])
    ensures after != [] && after == if gap then sets + f else before + f
  {
  }

  lemma FramedSome(p: seq<byte>)
    requires p != []
    ensures Framed4(p) != []
  {
  }

  lemma ExpectedUnfold(sps: seq<byte>, pps: seq<byte>, inputs: seq<Input>)
    requires inputs != []
    ensures var p := inputs[|inputs| - 1].packet;
      var before := Expected(sps, pps, inputs[..|inputs| - 1]);
      Expected(sps, pps, inputs) ==
        if before != [] then before + Framed4(p)
        else if Contains(p, IDR) then Latest(inputs, 7, sps) + Latest(inputs, 8, pps) + Framed4(p)
        else []
  {
  }

  lemma ServedOnce(cfg: Config, c: Client, p: seq<byte>, io: Io)
    requires LogOk(c) && Settled(c) && !c.pending && p != [] && io.now < TWO_TO_THE_64
    requires |Newest(p, 7, c.sps)| + |Newest(p, 8, c.pps)| + |Framed4(p)| <= Accepts(io.second)
    ensures var b := NewBlock(cfg, c, p, io);
      var out := c.needIdr ==> Contains(p, IDR);
      var r := Publish(cfg, Live(c), p, io);
      && Whole(b) && b.packet == p && b.recovery == c.needIdr
      && b.sets == (if c.needIdr then Newest(p, 7, c.sps) + Newest(p, 8, c.pps) else [])
      && r.Live? && LogOk(r.c) && Settled(r.c) && !r.c.pending
      && r.c.sps == Newest(p, 7, c.sps) && r.c.pps == Newest(p, 8, c.pps)
      && r.c.log == (if out then c.log + [b] else c.log)
      && r.c.needIdr == (c.needIdr && !out)
  {
    hide Publish, Newest, Framed4, Accepts, Ends, Contains;
    PublishDoes(cfg, c, p, io);
    PublishKnows(cfg, c, p, io);
  }
}
