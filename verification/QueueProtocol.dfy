/**
  The event queue between the network threads and the writer thread, as interleaved atomic
  steps (stream_server/src/compressed_recorder.c, 853-898, 1038-1069 and 1075-1111). Each step is
  one critical section, or the writer's work on the event it has taken out.
 */
module QueueProtocol {
  import opened Bytes
  import opened SegmentSpec
  import opened SegmentRuns
  import opened Directory
  import opened SegmentInputs

  datatype Item = Item(streamId: nat, ev: Event)

  /** Bytes an item holds in the queue; only video counts. */
  function SizeOf(item: Item): nat {
    if item.ev.Video? then |item.ev.data| else 0
  }

  function TotalSize(items: seq<Item>): nat {
    if items == [] then 0 else SizeOf(items[0]) + TotalSize(items[1..])
  }

  lemma {:induction false} TotalSizeAppend(xs: seq<Item>, ys: seq<Item>)
    ensures TotalSize(xs + ys) == TotalSize(xs) + TotalSize(ys)
  {
    if xs == [] {
      assert xs + ys == ys;
    } else {
      assert (xs + ys)[1..] == xs[1..] + ys;
      TotalSizeAppend(xs[1..], ys);
    }
  }

  lemma TotalSizeSnoc(xs: seq<Item>, x: Item)
    ensures TotalSize(xs + [x]) == TotalSize(xs) + SizeOf(x)
  {
    TotalSizeAppend(xs, [x]);
  }

  /** What the lock protects. */
  datatype Queue = Queue(items: seq<Item>, accepting: bool, running: bool, droppedPackets: nat, droppedBytes: nat)

  datatype Verdict = Accepted | Dropped | Refused

  predicate Fits(q: Queue, limit: nat, item: Item) {
    !item.ev.Video? || TotalSize(q.items) + SizeOf(item) <= limit
  }

  function Judge(q: Queue, limit: nat, item: Item): Verdict {
    if !q.accepting then Refused else if Fits(q, limit, item) then Accepted else Dropped
  }

  function Enqueued(q: Queue, limit: nat, item: Item): Queue {
    match Judge(q, limit, item)
    case Refused => q
    case Accepted => q.(items := q.items + [item])
    case Dropped => q.(droppedPackets := q.droppedPackets + 1, droppedBytes := q.droppedBytes + SizeOf(item))
  }

  // ---------- all threads ----------

  /** The writer thread: between events, working on one, or gone. */
  datatype Writer = Idle | Busy(item: Item) | Done

  datatype System = System(
    q: Queue,
    writer: Writer,
    offered: seq<(Item, Verdict)>,
    processed: seq<Item>)

  const START := System(Queue([], true, true, 0, 0), Idle, [], [])

  datatype Action =
    | Offer(item: Item)   // a producer's critical section
    | Shutdown            // the critical section of compressed_recorder_stop
    | Turn                // the writer's critical section: take an event, leave, or wait
    | Work                // the writer has processed the event in hand

  function Next(s: System, limit: nat, a: Action): System {
    match a
    case Offer(item) =>
      s.(q := Enqueued(s.q, limit, item), offered := s.offered + [(item, Judge(s.q, limit, item))])
    case Shutdown => s.(q := s.q.(accepting := false, running := false))
    case Turn =>
      if !s.writer.Idle? then s
      else if s.q.items != [] then s.(q := s.q.(items := s.q.items[1..]), writer := Busy(s.q.items[0]))
      else if !s.q.running then s.(writer := Done)
      else s
    case Work =>
      if s.writer.Busy? then s.(writer := Idle, processed := s.processed + [s.writer.item]) else s
  }

  function RunAll(limit: nat, actions: seq<Action>): System {
    if actions == [] then START
    else Next(RunAll(limit, actions[..|actions| - 1]), limit, actions[|actions| - 1])
  }

  /** The offers that met a verdict, in order. */
  function With(offered: seq<(Item, Verdict)>, v: Verdict): seq<Item> {
    if offered == [] then []
    else
      var last := offered[|offered| - 1];
      With(offered[..|offered| - 1], v) + if last.1 == v then [last.0] else []
  }

  lemma WithSnoc(offered: seq<(Item, Verdict)>, v: Verdict, o: (Item, Verdict))
    ensures With(offered + [o], v) == With(offered, v) + if o.1 == v then [o.0] else []
  {
    assert (offered + [o])[..|offered|] == offered;
  }

  function InHand(w: Writer): seq<Item> {
    if w.Busy? then [w.item] else []
  }

  /** What every interleaving keeps. */
  ghost predicate Consistent(s: System, limit: nat) {
    && TotalSize(s.q.items) <= limit
    && s.processed + InHand(s.writer) + s.q.items == With(s.offered, Accepted)
    && s.q.droppedPackets == |With(s.offered, Dropped)|
    && s.q.droppedBytes == TotalSize(With(s.offered, Dropped))
    && (s.q.accepting ==> s.q.running && With(s.offered, Refused) == [])
    && (s.q.running ==> s.q.accepting)
    && (s.writer.Done? ==> !s.q.accepting && s.q.items == [])
  }

  lemma OfferKeeps(s: System, limit: nat, item: Item)
    requires Consistent(s, limit)
    ensures Consistent(Next(s, limit, Offer(item)), limit)
  {
    var v := Judge(s.q, limit, item);
    WithSnoc(s.offered, Accepted, (item, v));
    WithSnoc(s.offered, Dropped, (item, v));
    WithSnoc(s.offered, Refused, (item, v));
    TotalSizeSnoc(s.q.items, item);
    TotalSizeSnoc(With(s.offered, Dropped), item);
    hide With, TotalSize;
    NoneAdded(With(s.offered, Accepted));
    NoneAdded(With(s.offered, Dropped));
    NoneAdded(With(s.offered, Refused));
    Associate(s.processed + InHand(s.writer), s.q.items, [item]);
  }

  lemma NoneAdded(items: seq<Item>)
    ensures items + [] == items
  {
  }

  lemma TurnKeeps(s: System, limit: nat)
    requires Consistent(s, limit)
    ensures Consistent(Next(s, limit, Turn), limit)
  {
    if s.writer.Idle? && s.q.items != [] {
      hide With;
      assert s.q.items == [s.q.items[0]] + s.q.items[1..];
      Associate(s.processed, [s.q.items[0]], s.q.items[1..]);
      assert s.processed + [] == s.processed;
    }
  }

  lemma WorkKeeps(s: System, limit: nat)
    requires Consistent(s, limit)
    ensures Consistent(Next(s, limit, Work), limit)
  {
    hide With;
    if s.writer.Busy? {
      assert s.processed + [s.writer.item] + [] == s.processed + [s.writer.item];
    }
  }

  /**
    In every interleaving of producers, writer and stop: the queue never holds more video bytes
    than the limit, events leave in the order in which they were accepted and none is lost, the
    counters count exactly the drops, and nothing is refused before the stop.
   */
  lemma {:induction false} EveryInterleavingIsConsistent(limit: nat, actions: seq<Action>)
    ensures Consistent(RunAll(limit, actions), limit)
  {
    if actions != [] {
      var n := |actions| - 1;
      var s := RunAll(limit, actions[..n]);
      EveryInterleavingIsConsistent(limit, actions[..n]);
      match actions[n]
      case Offer(item) => OfferKeeps(s, limit, item);
      case Shutdown =>
      case Turn => TurnKeeps(s, limit);
      case Work => WorkKeeps(s, limit);
    }
  }

  /** Once the writer is gone every accepted event has been processed and none is left to free. */
  lemma WriterLeavesNothing(limit: nat, actions: seq<Action>)
    requires RunAll(limit, actions).writer.Done?
    ensures var s := RunAll(limit, actions);
      s.q.items == [] && s.processed == With(s.offered, Accepted)
  {
    EveryInterleavingIsConsistent(limit, actions);
    var s := RunAll(limit, actions);
    hide RunAll, With;
    assert s.processed + [] + [] == s.processed;
  }

  /** STREAM_START and STREAM_STOP are never dropped, and every offer before the stop is accepted or dropped. */
  lemma {:induction false} OnlyVideoIsDropped(limit: nat, actions: seq<Action>, i: nat)
    requires i < |RunAll(limit, actions).offered|
    ensures var s := RunAll(limit, actions);
      && (s.offered[i].1 == Dropped ==> s.offered[i].0.ev.Video?)
      && (s.q.accepting ==> s.offered[i].1 != Refused)
  {
    var n := |actions| - 1;
    var before := RunAll(limit, actions[..n]);
    if i < |before.offered| {
      OnlyVideoIsDropped(limit, actions[..n], i);
    }
  }

  // ---------- which offers are dropped ----------

  function VideoBytes(items: seq<Item>): nat {
    if items == [] then 0
    else
      var last := items[|items| - 1];
      VideoBytes(items[..|items| - 1]) + match last.ev case Video(data, _) => |data| case _ => 0
  }

  function AcceptedIn(limit: nat, actions: seq<Action>): seq<Item> {
    With(RunAll(limit, actions).offered, Accepted)
  }

  /**
    How many accepted items the writer has taken out, and whether it still works on the last of them:
    a turn takes one if there is one left and the writer has none in hand.
   */
  function Taken(limit: nat, actions: seq<Action>): (r: (nat, bool)) {
    if actions == [] then (0, false)
    else
      var before := actions[..|actions| - 1];
      var (n, working) := Taken(limit, before);
      match actions[|actions| - 1]
      case Turn => if !working && n < |AcceptedIn(limit, before)| then (n + 1, true) else (n, working)
      case Work => (n, false)
      case _ => (n, working)
  }

  /** The items accepted and not yet taken out. */
  function Waiting(limit: nat, actions: seq<Action>): seq<Item> {
    if Taken(limit, actions).0 <= |AcceptedIn(limit, actions)|
    then AcceptedIn(limit, actions)[Taken(limit, actions).0..] else []
  }

  /** What becomes of an offer made after these actions. */
  function Expected(limit: nat, actions: seq<Action>, item: Item): Verdict {
    if Shutdown in actions then Refused
    else if item.ev.Video? && VideoBytes(Waiting(limit, actions)) + |item.ev.data| > limit then Dropped
    else Accepted
  }

  lemma {:induction false} VideoBytesIsTotalSize(items: seq<Item>)
    ensures VideoBytes(items) == TotalSize(items)
  {
    if items != [] {
      var n := |items| - 1;
      VideoBytesIsTotalSize(items[..n]);
      TotalSizeSnoc(items[..n], items[n]);
      assert items[..n] + [items[n]] == items;
    }
  }

  lemma {:induction false} StopClosesQueue(limit: nat, actions: seq<Action>)
    ensures RunAll(limit, actions).q.accepting <==> Shutdown !in actions
  {
    if actions != [] {
      StopClosesQueue(limit, actions[..|actions| - 1]);
      assert actions == actions[..|actions| - 1] + [actions[|actions| - 1]];
    }
  }

  /** What is left of the accepted items, behind those taken out. */
  lemma RestIsWaiting(s: System, limit: nat)
    requires Consistent(s, limit)
    ensures var out := |s.processed + InHand(s.writer)|;
      var accepted := With(s.offered, Accepted);
      out <= |accepted| && accepted[out..] == s.q.items && (out < |accepted| <==> s.q.items != [])
  {
    hide With, TotalSize;
    assert (s.processed + InHand(s.writer) + s.q.items)[|s.processed + InHand(s.writer)|..] == s.q.items;
  }

  lemma OutAfter(s: System, limit: nat, a: Action)
    ensures var t := Next(s, limit, a);
      && |t.processed| + |InHand(t.writer)| == |s.processed| + |InHand(s.writer)|
           + (if a.Turn? && s.writer.Idle? && s.q.items != [] then 1 else 0)
      && t.writer.Busy? ==
           (if a.Turn? then s.writer.Busy? || (s.writer.Idle? && s.q.items != []) else s.writer.Busy? && !a.Work?)
  {
    hide Enqueued, Judge;
  }

  /** A writer that is gone has left nothing behind. */
  lemma GoneLeavesNothing(s: System, limit: nat)
    requires Consistent(s, limit)
    ensures s.writer.Done? ==> s.q.items == []
  {
  }

  lemma {:induction false} TakenIsOut(limit: nat, actions: seq<Action>)
    ensures var s := RunAll(limit, actions);
      Taken(limit, actions) == (|s.processed| + |InHand(s.writer)|, s.writer.Busy?)
  {
    if actions != [] {
      var before := actions[..|actions| - 1];
      EveryInterleavingIsConsistent(limit, before);
      TakenIsOut(limit, before);
      RestIsWaiting(RunAll(limit, before), limit);
      OutAfter(RunAll(limit, before), limit, actions[|actions| - 1]);
      GoneLeavesNothing(RunAll(limit, before), limit);
      assert RunAll(limit, actions) == Next(RunAll(limit, before), limit, actions[|actions| - 1]);
      hide With, Consistent, Next, RunAll, InHand;
    }
  }

  lemma WaitingIsQueued(limit: nat, actions: seq<Action>)
    ensures Waiting(limit, actions) == RunAll(limit, actions).q.items
  {
    EveryInterleavingIsConsistent(limit, actions);
    TakenIsOut(limit, actions);
    RestIsWaiting(RunAll(limit, actions), limit);
    hide With, Consistent, RunAll, Taken;
  }

  /**
    In every interleaving: an offer made after the stop is refused; one made before it is dropped
    exactly if it is video and its bytes, with those accepted and not yet taken out, exceed the
    limit; every other offer is accepted, and no verdict changes afterwards.
   */
  lemma {:induction false} DroppedIff(limit: nat, actions: seq<Action>, i: nat)
    requires i < |actions| && actions[i].Offer?
    ensures var k := |RunAll(limit, actions[..i]).offered|;
      var offered := RunAll(limit, actions).offered;
      k < |offered| && offered[k] == (actions[i].item, Expected(limit, actions[..i], actions[i].item))
  {
    var n := |actions| - 1;
    if i < n {
      DroppedIff(limit, actions[..n], i);
      assert actions[..n][..i] == actions[..i];
    } else {
      var item := actions[i].item;
      StopClosesQueue(limit, actions[..i]);
      WaitingIsQueued(limit, actions[..i]);
      VideoBytesIsTotalSize(Waiting(limit, actions[..i]));
      assert RunAll(limit, actions) == Next(RunAll(limit, actions[..i]), limit, Offer(item));
      hide Waiting, TotalSize, VideoBytes, RunAll, Taken, With;
    }
  }

  function Offers(actions: seq<Action>): seq<Item> {
    if actions == [] then []
    else
      var last := actions[|actions| - 1];
      Offers(actions[..|actions| - 1]) + if last.Offer? then [last.item] else []
  }

  /** Every offer made meets a verdict, in the order in which they were made. */
  lemma {:induction false} EveryOfferIsJudged(limit: nat, actions: seq<Action>)
    ensures var offered := RunAll(limit, actions).offered;
      |offered| == |Offers(actions)| && forall i :: 0 <= i < |offered| ==> offered[i].0 == Offers(actions)[i]
  {
    if actions != [] {
      EveryOfferIsJudged(limit, actions[..|actions| - 1]);
    }
  }

  /** `n` rounds of the writer: a turn, then the work on what it took. */
  function Rounds(s: System, limit: nat, n: nat): System {
    if n == 0 then s else Next(Next(Rounds(s, limit, n - 1), limit, Turn), limit, Work)
  }

  lemma {:induction false} RoundsTakeInOrder(s: System, limit: nat, n: nat)
    requires s.writer.Idle? && n <= |s.q.items|
    ensures var r := Rounds(s, limit, n);
      r == s.(q := s.q.(items := s.q.items[n..]), processed := s.processed + s.q.items[..n])
  {
    if n == 0 {
      assert s.q.items[0..] == s.q.items && s.processed + s.q.items[..0] == s.processed;
    } else {
      RoundsTakeInOrder(s, limit, n - 1);
      hide Rounds;
      assert s.q.items[n - 1..][1..] == s.q.items[n..];
      assert s.q.items[..n] == s.q.items[..n - 1] + [s.q.items[n - 1]];
      Associate(s.processed, s.q.items[..n - 1], [s.q.items[n - 1]]);
    }
  }

  /** Stopping ends: one round per queued event and one more turn, and the writer is gone with all processed. */
  lemma WriterDrains(s: System, limit: nat)
    requires s.writer.Idle? && !s.q.running
    ensures var r := Next(Rounds(s, limit, |s.q.items|), limit, Turn);
      r.writer.Done? && r.q.items == [] && r.processed == s.processed + s.q.items
  {
    RoundsTakeInOrder(s, limit, |s.q.items|);
    hide Rounds;
    assert s.q.items[..|s.q.items|] == s.q.items;
  }

  // ---------- with the recorder ----------

  /** Events of one stream, in order, with the outcomes its file operations meet. */
  function InputsOf(items: seq<Item>, id: nat, io: Io): seq<Input> {
    if items == [] then []
    else
      var last := items[|items| - 1];
      InputsOf(items[..|items| - 1], id, io) + if last.streamId == id then [Input(last.ev, io)] else []
  }

  lemma {:induction false} InputsHaveIo(items: seq<Item>, id: nat, io: Io)
    ensures forall i :: 0 <= i < |InputsOf(items, id, io)| ==> InputsOf(items, id, io)[i].io == io
  {
    if items != [] {
      InputsHaveIo(items[..|items| - 1], id, io);
    }
  }

  /**
    From the network threads to the disk: if no file operation failed, then once the writer is gone
    the files finalised in every epoch of a stream hold exactly the packets accepted in that session
    from the first that may start a file on, whatever the interleaving was; and all of them are in
    the directory exactly when no two had the same name.
   */
  lemma ShutdownSavesEverything(limit: nat, actions: seq<Action>, cfg: Config)
    requires RunAll(limit, actions).writer.Done?
    ensures var s := RunAll(limit, actions);
      var inputs := InputsOf(With(s.offered, Accepted), cfg.streamId, ALL_OK);
      var es := FinalEpochs(Run(cfg, inputs), true);
      && s.processed == With(s.offered, Accepted)
      && AllRecorded(es, Sessions(cfg, inputs))
      && (OnDisk(Renamed(FilesOfAll(es)), FilesOfAll(es)) <==> Distinct(FilesOfAll(es)))
  {
    WriterLeavesNothing(limit, actions);
    var accepted := With(RunAll(limit, actions).offered, Accepted);
    hide RunAll, With, FilesOfAll;
    var inputs := InputsOf(accepted, cfg.streamId, ALL_OK);
    InputsHaveIo(accepted, cfg.streamId, ALL_OK);
    hide Run, Sessions, Records, CloseAll, InputsOf;
    SessionsAreRecorded(cfg, inputs);
    OnDiskIff(FilesOfAll(FinalEpochs(Run(cfg, inputs), true)));
  }
}
