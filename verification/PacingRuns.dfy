/**
  Time stamps of files, for a wall clock that never steps back, and pacing of IDR requests, for any
  wall clock (stream_server/src/compressed_recorder.c, 564-694 and 747-842).
 */
module PacingRuns {
  import opened Bytes
  import opened AnnexB
  import opened ParamSets
  import opened IdrSchedule
  import opened SegmentSpec
  import opened SegmentRuns
  import opened Directory

  /** The wall clock never steps back. */
  predicate WallClocked(inputs: seq<Input>) {
    inputs == [] ||
    (var last := Last(inputs).ev.at;
     && WallClocked(Front(inputs))
     && Now(Front(inputs)).wall <= last.wall < TWO_TO_THE_64)
  }

  /** The monotonic clock: it never steps back and is past its first nanosecond. */
  predicate MonoClocked(inputs: seq<Input>) {
    inputs == [] ||
    (var last := Last(inputs).ev.at;
     && MonoClocked(Front(inputs))
     && Now(Front(inputs)).mono <= last.mono
     && 0 < last.mono < CLOCK_LIMIT)
  }

  function Now(inputs: seq<Input>): Stamp {
    if inputs == [] then Stamp(0, 0) else Last(inputs).ev.at
  }

  lemma ElapsedIsDifference(a: nat, b: nat)
    requires b <= a < TWO_TO_THE_64
    ensures Sub64(a, b) == a - b
  {
  }

  // ---------- file names ----------

  function SegmentMs(cfg: Config): nat {
    cfg.segmentSec * 1000
  }

  /** Consecutive finalised files start at least a segment length apart. */
  ghost predicate Spaced(cfg: Config, closed: seq<Segment>) {
    forall i, j :: 0 <= i < j < |closed| ==> closed[i].start + SegmentMs(cfg) <= closed[j].start
  }

  /** A file opened at `t` would keep the distance from all finalised ones. */
  ghost predicate After(cfg: Config, closed: seq<Segment>, t: nat) {
    forall i :: 0 <= i < |closed| ==> closed[i].start + SegmentMs(cfg) <= t
  }

  ghost predicate AllSpaced(cfg: Config, es: seq<Epoch>) {
    forall i :: 0 <= i < |es| ==> Spaced(cfg, es[i].closed)
  }

  ghost predicate StampsOk(cfg: Config, st: State, now: nat) {
    && AllSpaced(cfg, st.past)
    && Spaced(cfg, st.cur.closed)
    && match st.mode
       case Off => st.cur.closed == []
       case Waiting => After(cfg, st.cur.closed, now)
       case Stranded(seg) => After(cfg, st.cur.closed, seg.start) && seg.start <= now
       case Recording(seg, rollover) =>
         && After(cfg, st.cur.closed, seg.start)
         && seg.start <= now
         && (rollover ==> seg.start + SegmentMs(cfg) <= now)
  }

  lemma CloseKeepsSpacing(cfg: Config, closed: seq<Segment>, seg: Segment, renameOk: bool, now: nat)
    requires Spaced(cfg, closed) && After(cfg, closed, seg.start)
    ensures Spaced(cfg, Finalise(closed, seg, renameOk))
    ensures seg.start + SegmentMs(cfg) <= now ==> After(cfg, Finalise(closed, seg, renameOk), now)
  {
  }

  lemma CloseAllSpaced(cfg: Config, st: State, io: Io, now: nat)
    requires StampsOk(cfg, st, now)
    ensures AllSpaced(cfg, st.past + [CloseAll(st, io)])
  {
    match st.mode
    case Recording(seg, _) => CloseKeepsSpacing(cfg, st.cur.closed, seg, io.renameOk, now);
    case Stranded(seg) => CloseKeepsSpacing(cfg, st.cur.closed, seg, io.renameOk, now);
    case _ =>
  }

  lemma AfterLater(cfg: Config, closed: seq<Segment>, t: nat, u: nat)
    requires After(cfg, closed, t) && t <= u
    ensures After(cfg, closed, u)
  {
  }

  lemma VideoKeepsStamps(cfg: Config, st: State, data: seq<byte>, at: Stamp, io: Io, now: nat)
    requires |st.params| == 3 && StampsOk(cfg, st, now) && now <= at.wall < TWO_TO_THE_64
    ensures StampsOk(cfg, OnVideo(cfg, st, data, at, io), at.wall)
  {
    hide After, Spaced, AllSpaced, AbsorbAll, Nals, HasKeyframe, Ready, WhileRecording, PlanFrom, PacedRequest;
    if st.mode.Off? || data == [] || !StorageOk(cfg, io) {
      if st.mode.Waiting? { AfterLater(cfg, st.cur.closed, now, at.wall); }
    } else if st.mode.Recording? {
      var seg := st.mode.seg;
      var a := Analysed(st, data);
      RecordingShape(cfg, a, data, at, io);
      ElapsedIsDifference(at.wall, seg.start);
      CloseKeepsSpacing(cfg, st.cur.closed, seg, io.renameOk, at.wall);
      AfterLater(cfg, st.cur.closed, seg.start, at.wall);
    } else {
      AfterLater(cfg, st.cur.closed, if st.mode.Stranded? then st.mode.seg.start else now, at.wall);
    }
  }

  lemma {:induction false} StampsInRun(cfg: Config, inputs: seq<Input>)
    requires WallClocked(inputs)
    ensures StampsOk(cfg, Run(cfg, inputs), Now(inputs).wall)
  {
    if inputs != [] {
      var st := Run(cfg, Front(inputs));
      var now := Now(Front(inputs)).wall;
      var io := Last(inputs).io;
      StampsInRun(cfg, Front(inputs));
      hide Run, After, Spaced, AllSpaced, OnVideo, SendRequest, CloseAll;
      assert Run(cfg, inputs) == Step(cfg, st, Last(inputs).ev, io) by { RunStep(cfg, inputs); }
      NothingClosed(cfg, Now(inputs).wall);
      match Last(inputs).ev
      case Video(data, at) => VideoKeepsStamps(cfg, st, data, at, io, now);
      case Start(_, at) => CloseAllSpaced(cfg, st, io, now);
      case Stop(at) => CloseAllSpaced(cfg, st, io, now);
    }
  }

  lemma NothingClosed(cfg: Config, now: nat)
    ensures Spaced(cfg, []) && After(cfg, [], now)
  {
  }

  lemma RunStep(cfg: Config, inputs: seq<Input>)
    requires inputs != []
    ensures Run(cfg, inputs) == Step(cfg, Run(cfg, Front(inputs)), Last(inputs).ev, Last(inputs).io)
  {
  }

  /**
    Whatever fails in between, finalised files of one epoch start at least `segment_sec` apart,
    so their names, one second fine, strictly increase and none replaces another of its epoch.
   */
  lemma FileNamesIncrease(cfg: Config, inputs: seq<Input>, e: Epoch, i: nat, j: nat)
    requires cfg.Valid() && WallClocked(inputs)
    requires e == Run(cfg, inputs).cur || e in Run(cfg, inputs).past
    requires i < j < |e.closed|
    ensures e.closed[i].start + cfg.segmentSec * 1000 <= e.closed[j].start
    ensures NameFor(e.codec, e.closed[i]).second + cfg.segmentSec <= NameFor(e.codec, e.closed[j]).second
  {
    StampsInRun(cfg, inputs);
    hide Run;
    assert Spaced(cfg, e.closed);
    assert (e.closed[i].start + cfg.segmentSec * 1000) / 1000 == e.closed[i].start / 1000 + cfg.segmentSec;
  }

  // ---------- IDR requests ----------

  /** A periodic request comes at least two seconds after the one before it. */
  ghost predicate PeriodicApart(log: seq<Request>) {
    forall k :: 0 < k < |log| && log[k].reason == Periodic ==> log[k - 1].time + MIN_GAP <= log[k].time
  }

  ghost predicate LogOk(idr: Idr, now: nat) {
    && (idr.log == [] ==> idr.last == 0)
    && (idr.log != [] ==> 0 < idr.last == idr.log[|idr.log| - 1].time <= now)
    && PeriodicApart(idr.log)
  }

  /** A planned periodic request lies on the stream's slots. */
  predicate OnSlot(cfg: Config, next: nat) {
    next == 0 || (cfg.idrIntervalSec > 0 && next % IntervalNs(cfg.idrIntervalSec) == OffsetOf(cfg))
  }

  ghost predicate IdrOk(cfg: Config, idr: Idr, now: nat) {
    LogOk(idr, now) && OnSlot(cfg, idr.next)
  }

  lemma SendKeepsIdr(cfg: Config, idr: Idr, reason: Reason, now: nat, before: nat)
    requires IdrOk(cfg, idr, before) && before <= now < CLOCK_LIMIT && now > 0
    requires reason == Periodic ==> !Recent(idr, now)
    ensures IdrOk(cfg, SendRequest(cfg, idr, reason, now), now)
  {
    hide OnSlot;
    if idr.log != [] { ElapsedIsDifference(now, idr.last); }
  }

  lemma PlanOnSlot(cfg: Config, now: nat)
    requires cfg.Valid()
    ensures OnSlot(cfg, PlanFrom(cfg, now))
    ensures cfg.idrIntervalSec > 0 ==> PlanFrom(cfg, now) >= now + MIN_GAP
  {
    if cfg.idrIntervalSec > 0 {
      OffsetInInterval(IntervalNs(cfg.idrIntervalSec), cfg.maxStreams, cfg.streamId);
      hide Offset, IntervalNs;
      SlotHolds(IntervalNs(cfg.idrIntervalSec), OffsetOf(cfg), now + MIN_GAP);
    }
  }

  lemma PeriodicKeepsIdr(cfg: Config, idr: Idr, now: nat, before: nat)
    requires cfg.Valid() && IdrOk(cfg, idr, before) && before <= now < CLOCK_LIMIT && now > 0
    ensures IdrOk(cfg, PeriodicRequest(cfg, idr, now), now)
  {
    if cfg.idrIntervalSec == 0 { return; }
    var interval := IntervalNs(cfg.idrIntervalSec);
    PlanOnSlot(cfg, now);
    hide PlanFrom, PeriodicApart;
    var planned := if idr.next == 0 then idr.(next := PlanFrom(cfg, now)) else idr;
    if planned.next <= now {
      CatchUpHolds(interval, planned.next, now);
      if !Recent(planned, now) { SendKeepsIdr(cfg, planned, Periodic, now, before); }
    }
  }

  lemma VideoKeepsIdr(cfg: Config, st: State, data: seq<byte>, at: Stamp, io: Io, before: nat)
    requires cfg.Valid() && |st.params| == 3 && IdrOk(cfg, st.idr, before)
    requires before <= at.mono < CLOCK_LIMIT && at.mono > 0
    ensures IdrOk(cfg, OnVideo(cfg, st, data, at, io).idr, at.mono)
  {
    PlanOnSlot(cfg, at.mono);
    hide AbsorbAll, Nals, HasKeyframe, Ready, Due, PlanFrom, PeriodicApart, OffsetOf, IntervalNs, WhileRecording,
         SendRequest, Recent, Sub64, Backoff;
    if st.mode.Off? || data == [] || !StorageOk(cfg, io) {
    } else if st.mode.Recording? {
      RecordingKeepsIdr(cfg, Analysed(st, data), data, at, io, before);
    } else {
      SendKeepsIdr(cfg, st.idr, WaitKeyframe, at.mono, before);
      SendKeepsIdr(cfg, st.idr, WaitParams, at.mono, before);
    }
  }

  lemma RecordingKeepsIdr(cfg: Config, st: State, data: seq<byte>, at: Stamp, io: Io, before: nat)
    requires cfg.Valid() && st.mode.Recording? && st.cur.seen != [] && |st.params| == 3 && IdrOk(cfg, st.idr, before)
    requires before <= at.mono < CLOCK_LIMIT && at.mono > 0
    ensures IdrOk(cfg, WhileRecording(cfg, st, data, at, io).idr, at.mono)
  {
    hide HasKeyframe, Ready, Due, PlanFrom, LogOk, OnSlot, SendRequest, PacedRequest, Recent, PeriodicRequest, Nals;
    var now := at.mono;
    var ready := Ready(st.cur.codec, st.params);
    var cut := HasKeyframe(st.cur.codec, Nals(data)) && ready;
    var turn := !st.mode.rollover && Due(cfg, st.mode.seg, at.wall);
    var ask := turn && !cut && !Recent(st.idr, now);
    var idr1 := if ask then SendRequest(cfg, st.idr, Rollover, now) else st.idr;
    PlanOnSlot(cfg, now);
    IdrLater(cfg, st.idr, before, now);
    SendKeepsIdr(cfg, st.idr, Rollover, now, before);
    var rollover := st.mode.rollover || turn;
    var reason := if ready then WaitRolloverKeyframe else WaitRolloverParams;
    PacedKeepsIdr(cfg, idr1, reason, now);
    PeriodicKeepsIdr(cfg, idr1, now, now);
    var idr2 := if rollover then PacedRequest(cfg, idr1, reason, now) else PeriodicRequest(cfg, idr1, now);
    IdrLater(cfg, idr2, now, now);
    SendKeepsIdr(cfg, idr2.(next := 0), WriteError, now, now);
  }

  lemma IdrLater(cfg: Config, idr: Idr, before: nat, now: nat)
    requires IdrOk(cfg, idr, before) && before <= now
    ensures IdrOk(cfg, idr, now)
    ensures IdrOk(cfg, idr.(next := 0), now)
    ensures forall n: nat :: IdrOk(cfg, idr.(count := n), now) && IdrOk(cfg, idr.(count := n, next := 0), now)
    ensures forall n: nat, m: nat :: OnSlot(cfg, n) ==> IdrOk(cfg, idr.(count := m, next := n), now)
  {
    hide PeriodicApart;
  }

  lemma PacedKeepsIdr(cfg: Config, idr: Idr, reason: Reason, now: nat)
    requires IdrOk(cfg, idr, now) && 0 < now < CLOCK_LIMIT && reason != Periodic
    ensures IdrOk(cfg, PacedRequest(cfg, idr, reason, now), now)
  {
    hide IdrOk;
    SendKeepsIdr(cfg, idr, reason, now, now);
  }

  lemma {:induction false} IdrInRun(cfg: Config, inputs: seq<Input>)
    requires cfg.Valid() && MonoClocked(inputs)
    ensures IdrOk(cfg, Run(cfg, inputs).idr, Now(inputs).mono)
  {
    if inputs != [] {
      var st := Run(cfg, Front(inputs));
      var before := Now(Front(inputs)).mono;
      IdrInRun(cfg, Front(inputs));
      RunStep(cfg, inputs);
      hide Run, OnVideo;
      match Last(inputs).ev
      case Video(data, at) => VideoKeepsIdr(cfg, st, data, at, Last(inputs).io, before);
      case Start(_, at) => SendKeepsIdr(cfg, NO_IDR, RecordStart, at.mono, 0);
      case Stop(at) =>
    }
  }

  /** Whatever state the stream is in, no periodic request follows another request within two seconds. */
  lemma PeriodicKeepsDistance(cfg: Config, inputs: seq<Input>, k: nat)
    requires cfg.Valid() && MonoClocked(inputs)
    requires 0 < k < |Run(cfg, inputs).idr.log| && Run(cfg, inputs).idr.log[k].reason == Periodic
    ensures Run(cfg, inputs).idr.log[k - 1].time + MIN_GAP <= Run(cfg, inputs).idr.log[k].time
  {
    IdrInRun(cfg, inputs);
    hide Run;
  }

  /**
    The periodic requests of two streams never meet: at any point of any run of the one and of
    any run of the other, the times planned are at least interval / maxStreams apart.
   */
  lemma PlansOfStreamsApart(cfg1: Config, cfg2: Config, inputs1: seq<Input>, inputs2: seq<Input>)
    requires cfg1.Valid() && cfg2.Valid() && MonoClocked(inputs1) && MonoClocked(inputs2)
    requires cfg1.maxStreams == cfg2.maxStreams && cfg1.idrIntervalSec == cfg2.idrIntervalSec
    requires cfg1.streamId != cfg2.streamId
    requires OffsetsExact(IntervalNs(cfg1.idrIntervalSec), cfg1.maxStreams)
    ensures var t := Run(cfg1, inputs1).idr.next;
      var u := Run(cfg2, inputs2).idr.next;
      t != 0 && u != 0 ==> Distance(t, u) >= IntervalNs(cfg1.idrIntervalSec) / cfg1.maxStreams
  {
    IdrInRun(cfg1, inputs1);
    IdrInRun(cfg2, inputs2);
    var t := Run(cfg1, inputs1).idr.next;
    var u := Run(cfg2, inputs2).idr.next;
    hide Run, Offset, OffsetsExact, LogOk;
    if t != 0 && u != 0 {
      if cfg1.streamId < cfg2.streamId {
        SlotsApart(IntervalNs(cfg1.idrIntervalSec), cfg1.maxStreams, cfg1.streamId, cfg2.streamId, t, u);
      } else {
        SlotsApart(IntervalNs(cfg1.idrIntervalSec), cfg1.maxStreams, cfg2.streamId, cfg1.streamId, u, t);
      }
    }
  }

  // ---------- backoff until the first file ----------

  /** Request `k` waited out the backoff that `k` predecessors demand. */
  ghost predicate BackedOff(log: seq<Request>) {
    forall k :: 0 < k < |log| ==> log[k - 1].time + Backoff(k) <= log[k].time
  }

  /** Until a file has been opened, the request counter counts every request since STREAM_START. */
  ghost predicate PacedOk(st: State) {
    && (st.mode.Recording? || st.mode.Stranded? ==> st.opens > 0)
    && (st.opens == 0 ==> st.idr.count == |st.idr.log| && BackedOff(st.idr.log))
  }

  lemma PacedRequestBacksOff(cfg: Config, idr: Idr, reason: Reason, now: nat, before: nat)
    requires LogOk(idr, before) && before <= now < CLOCK_LIMIT
    requires idr.count == |idr.log| && BackedOff(idr.log)
    ensures var r := PacedRequest(cfg, idr, reason, now);
      r.count == |r.log| && BackedOff(r.log)
  {
    hide PeriodicApart;
    if idr.log != [] { ElapsedIsDifference(now, idr.last); }
  }

  lemma VideoKeepsPaced(cfg: Config, st: State, data: seq<byte>, at: Stamp, io: Io, before: nat)
    requires |st.params| == 3 && PacedOk(st) && LogOk(st.idr, before) && before <= at.mono < CLOCK_LIMIT
    ensures PacedOk(OnVideo(cfg, st, data, at, io))
  {
    hide AbsorbAll, Nals, HasKeyframe, Ready, PlanFrom, WhileRecording, PacedRequest, BackedOff;
    if st.mode.Off? || data == [] || !StorageOk(cfg, io) {
    } else if st.mode.Recording? {
      RecordingShape(cfg, Analysed(st, data), data, at, io);
      hide TurnsOver;
    } else if st.opens == 0 {
      PacedRequestBacksOff(cfg, st.idr, WaitKeyframe, at.mono, before);
      PacedRequestBacksOff(cfg, st.idr, WaitParams, at.mono, before);
    }
  }

  lemma {:induction false} PacedInRun(cfg: Config, inputs: seq<Input>)
    requires cfg.Valid() && MonoClocked(inputs)
    ensures PacedOk(Run(cfg, inputs))
  {
    if inputs != [] {
      var st := Run(cfg, Front(inputs));
      PacedInRun(cfg, Front(inputs));
      IdrInRun(cfg, Front(inputs));
      RunStep(cfg, inputs);
      hide Run, OnVideo, LogOk;
      match Last(inputs).ev
      case Video(data, at) => VideoKeepsPaced(cfg, st, data, at, Last(inputs).io, Now(Front(inputs)).mono);
      case Start(_, at) =>
      case Stop(at) =>
    }
  }

  lemma {:induction false} BackoffSum(log: seq<Request>)
    requires BackedOff(log) && |log| >= 3
    ensures log[0].time + 7 * NS + 10 * NS * (|log| - 3) <= log[|log| - 1].time
  {
    if |log| == 3 {
      assert log[0].time + Backoff(1) <= log[1].time && log[1].time + Backoff(2) <= log[2].time;
    } else {
      var front := log[..|log| - 1];
      BackoffSum(front);
      assert log[|log| - 2].time + Backoff(|log| - 1) <= log[|log| - 1].time;
    }
  }

  /** From STREAM_START until a file is first opened, n >= 3 requests take at least 7 + 10(n - 3) seconds. */
  lemma RequestsBackOff(cfg: Config, inputs: seq<Input>)
    requires cfg.Valid() && MonoClocked(inputs)
    ensures var st := Run(cfg, inputs);
      var n := |st.idr.log|;
      st.opens == 0 && n >= 3 ==>
        st.idr.log[0].time + 7 * NS + 10 * NS * (n - 3) <= st.idr.log[n - 1].time
  {
    PacedInRun(cfg, inputs);
    var st := Run(cfg, inputs);
    if st.opens == 0 && |st.idr.log| >= 3 {
      hide Run, BackedOff;
      BackoffSum(st.idr.log);
    }
  }
}
