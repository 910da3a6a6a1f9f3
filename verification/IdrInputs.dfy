/**
  When IDR requests are sent, and not only how far apart (stream_server/src/compressed_recorder.c,
  564-665, 747 and 786-843): told from the clock, the requests sent so far, and the packet.
 */
module IdrInputs {
  import opened Bytes
  import opened AnnexB
  import opened ParamSets
  import opened IdrSchedule
  import opened SegmentSpec
  import opened SegmentRuns
  import opened PacingRuns
  import opened SegmentInputs

  /** How long a request waits for the one before it, after `n` requests. */
  function Gap(n: nat): nat {
    if n == 0 then 0 else if n == 1 then 2_000_000_000 else if n == 2 then 5_000_000_000 else 10_000_000_000
  }

  /** The last request lies at least `gap` back, or there is none. */
  predicate Quiet(log: seq<Request>, now: nat, gap: nat) {
    log == [] || now >= log[|log| - 1].time + gap
  }

  lemma PacedSends(cfg: Config, idr: Idr, reason: Reason, now: nat)
    requires LogOk(idr, now) && now < CLOCK_LIMIT
    ensures PacedRequest(cfg, idr, reason, now).log ==
      if cfg.canRequestIdr && Quiet(idr.log, now, Gap(idr.count)) then idr.log + [Request(now, reason)] else idr.log
  {
    hide PeriodicApart;
    if idr.log != [] { ElapsedIsDifference(now, idr.last); }
  }

  lemma RecentIff(idr: Idr, now: nat)
    requires LogOk(idr, now) && now < CLOCK_LIMIT
    ensures Recent(idr, now) <==> !Quiet(idr.log, now, 2_000_000_000)
  {
    hide PeriodicApart;
    if idr.log != [] { ElapsedIsDifference(now, idr.last); }
  }

  // ---------- until a file opens ----------

  /** A START that arms asks for a keyframe at once. */
  lemma StartAsks(cfg: Config, inputs: seq<Input>, codec: nat, at: Stamp, io: Io)
    ensures var all := inputs + [Input(Start(codec, at), io)];
      Run(cfg, all).idr.log ==
        if Armed(cfg, all) && cfg.canRequestIdr then [Request(at.mono, RecordStart)] else []
  {
    var all := inputs + [Input(Start(codec, at), io)];
    assert Front(all) == inputs && Last(all) == Input(Start(codec, at), io);
    RunStep(cfg, all);
    hide Run, CloseAll;
  }

  /**
    From then until a file opens, a packet that cannot start one asks again exactly when the last
    request lies 0, 2, 5 or 10 seconds back, after none, one, two or more requests.
   */
  lemma WaitingAsksIff(cfg: Config, inputs: seq<Input>, data: seq<byte>, at: Stamp, io: Io)
    requires cfg.Valid() && Armed(cfg, inputs) && data != [] && StorageOk(cfg, io)
    requires MonoClocked(inputs + [Input(Video(data, at), io)])
    requires Run(cfg, inputs).opens == 0 && !Cuts(Current(cfg, inputs), data)
    ensures var log := Run(cfg, inputs).idr.log;
      var after := Run(cfg, inputs + [Input(Video(data, at), io)]);
      after.idr.log ==
        if cfg.canRequestIdr && Quiet(log, at.mono, Gap(|log|))
        then log + [Request(at.mono, if Ready(after.cur.codec, after.params) then WaitKeyframe else WaitParams)]
        else log
  {
    var all := inputs + [Input(Video(data, at), io)];
    var st := Run(cfg, inputs);
    assert Front(all) == inputs && Last(all) == Input(Video(data, at), io);
    RunStep(cfg, all);
    EpochsAreSessions(cfg, inputs);
    SameSession(st.past, st.cur, st.cur, Ended(cfg, inputs), Current(cfg, inputs), Current(cfg, inputs));
    EveryFileIsAKeyframeRun(cfg, inputs);
    CutInState(cfg, st, data);
    IdrInRun(cfg, inputs);
    PacedInRun(cfg, inputs);
    LaterLog(st.idr, Now(inputs).mono, at.mono);
    hide Run, Current, Ended, FilesOk, CutAt, AbsorbAll, Nals, HasKeyframe, Ready, WhileRecording, PacedRequest, LogOk,
         BackedOff;
    PacedSends(cfg, st.idr, WaitKeyframe, at.mono);
    PacedSends(cfg, st.idr, WaitParams, at.mono);
  }

  lemma LaterLog(idr: Idr, before: nat, now: nat)
    requires LogOk(idr, before) && before <= now
    ensures LogOk(idr, now)
  {
    hide PeriodicApart;
  }

  // ---------- while a file is open ----------

  /** The requests of a packet that is appended. */
  lemma IdrOfAppended(cfg: Config, st: State, data: seq<byte>, at: Stamp)
    requires st.mode.Recording? && st.cur.seen != [] && |st.params| == 3 && !TurnsOver(cfg, st, data, at)
    ensures var cut := HasKeyframe(st.cur.codec, Nals(data)) && Ready(st.cur.codec, st.params);
      var asks := !st.mode.rollover && RollsOver(cfg, st, at) && !cut && !Recent(st.idr, at.mono);
      var reason := if Ready(st.cur.codec, st.params) then WaitRolloverKeyframe else WaitRolloverParams;
      WhileRecording(cfg, st, data, at, ALL_OK).idr ==
        if RollsOver(cfg, st, at)
        then PacedRequest(cfg, if asks then SendRequest(cfg, st.idr, Rollover, at.mono) else st.idr, reason, at.mono)
        else PeriodicRequest(cfg, st.idr, at.mono)
  {
    hide Due, PacedRequest, PeriodicRequest, SendRequest, Open, HasKeyframe, Ready, Nals, Recent;
  }

  /** A request just sent silences the paced one behind it. */
  lemma OneRequestOnly(cfg: Config, idr: Idr, reason: Reason, now: nat)
    requires LogOk(idr, now) && 0 < now < CLOCK_LIMIT
    ensures PacedRequest(cfg, SendRequest(cfg, idr, Rollover, now), reason, now).log ==
      if cfg.canRequestIdr then idr.log + [Request(now, Rollover)] else idr.log
  {
    ElapsedIsDifference(now, now);
    hide PeriodicApart;
  }

  /**
    A file is full and the packet cannot start the next: when that is first seen a keyframe is asked
    for, unless a request lies less than two seconds back; and then, and from then on, whenever the
    backoff allows it. `count` requests have been sent since the file opened.
   */
  lemma FullFileAsksIff(cfg: Config, st: State, data: seq<byte>, at: Stamp)
    requires st.mode.Recording? && st.cur.seen != [] && |st.params| == 3
    requires RollsOver(cfg, st, at) && !TurnsOver(cfg, st, data, at)
    requires LogOk(st.idr, at.mono) && 0 < at.mono < CLOCK_LIMIT
    ensures var log := st.idr.log;
      var after := WhileRecording(cfg, st, data, at, ALL_OK).idr.log;
      var first := !st.mode.rollover && Quiet(log, at.mono, 2_000_000_000);
      && (|after| == |log| + 1 <==> cfg.canRequestIdr && (first || Quiet(log, at.mono, Gap(st.idr.count))))
      && (after == log || (|after| == |log| + 1 && after[..|log|] == log && after[|log|].time == at.mono))
  {
    IdrOfAppended(cfg, st, data, at);
    RecentIff(st.idr, at.mono);
    var reason := if Ready(st.cur.codec, st.params) then WaitRolloverKeyframe else WaitRolloverParams;
    OneRequestOnly(cfg, st.idr, reason, at.mono);
    PacedSends(cfg, st.idr, reason, at.mono);
    hide WhileRecording, PacedRequest, SendRequest, Ready, HasKeyframe, Nals, Recent, LogOk, Due;
  }

  /** The slot planned: beyond now, and no further than the gap and one interval. */
  predicate Near(cfg: Config, next: nat, now: nat) {
    0 < next <= now + MIN_GAP + IntervalNs(cfg.idrIntervalSec)
  }

  /**
    While a file is open and not full, a periodic request is sent exactly when its slot has come and
    no request lies less than two seconds back; and the next slot is planned, beyond now and near.
   */
  lemma PeriodicSentIff(cfg: Config, idr: Idr, now: nat)
    requires cfg.Valid() && cfg.idrIntervalSec > 0 && IdrOk(cfg, idr, now) && 0 < now < CLOCK_LIMIT
    requires idr.next != 0 ==> Near(cfg, idr.next, now)
    ensures var after := PeriodicRequest(cfg, idr, now);
      && after.log == (if cfg.canRequestIdr && 0 < idr.next <= now && Quiet(idr.log, now, 2_000_000_000)
                       then idr.log + [Request(now, Periodic)] else idr.log)
      && now < after.next && Near(cfg, after.next, now) && OnSlot(cfg, after.next)
  {
    var interval := IntervalNs(cfg.idrIntervalSec);
    PeriodicKeepsIdr(cfg, idr, now, now);
    PlanIsNear(cfg, now);
    RecentIff(idr, now);
    if 0 < idr.next <= now { CatchUpHolds(interval, idr.next, now); }
    hide PlanFrom, LogOk, OnSlot, Recent, CatchUp;
  }

  lemma PlanIsNear(cfg: Config, now: nat)
    requires cfg.Valid() && cfg.idrIntervalSec > 0
    ensures now < PlanFrom(cfg, now) && Near(cfg, PlanFrom(cfg, now), now)
  {
    OffsetInInterval(IntervalNs(cfg.idrIntervalSec), cfg.maxStreams, cfg.streamId);
    hide Offset, IntervalNs;
    SlotHolds(IntervalNs(cfg.idrIntervalSec), OffsetOf(cfg), now + MIN_GAP);
  }

  lemma NearLater(cfg: Config, next: nat, now: nat, later: nat)
    requires Near(cfg, next, now) && now <= later
    ensures Near(cfg, next, later)
  {
  }

  /** In every run an open file has a slot planned, and near. */
  lemma {:induction false} PlannedWhileRecording(cfg: Config, inputs: seq<Input>)
    requires cfg.Valid() && cfg.idrIntervalSec > 0 && MonoClocked(inputs)
    ensures Run(cfg, inputs).mode.Recording? ==> Near(cfg, Run(cfg, inputs).idr.next, Now(inputs).mono)
  {
    if inputs != [] {
      var st := Run(cfg, Front(inputs));
      var last := Last(inputs);
      PlannedWhileRecording(cfg, Front(inputs));
      IdrInRun(cfg, Front(inputs));
      RunStep(cfg, inputs);
      hide Run, OnVideo, Near;
      if last.ev.Video? {
        VideoKeepsPlan(cfg, st, last.ev.data, last.ev.at, last.io, Now(Front(inputs)).mono);
      }
    }
  }

  lemma VideoKeepsPlan(cfg: Config, st: State, data: seq<byte>, at: Stamp, io: Io, before: nat)
    requires cfg.Valid() && cfg.idrIntervalSec > 0 && |st.params| == 3 && IdrOk(cfg, st.idr, before)
    requires before <= at.mono && 0 < at.mono < CLOCK_LIMIT
    requires st.mode.Recording? ==> Near(cfg, st.idr.next, before)
    ensures var r := OnVideo(cfg, st, data, at, io);
      r.mode.Recording? ==> Near(cfg, r.idr.next, at.mono)
  {
    PlanIsNear(cfg, at.mono);
    if st.mode.Recording? {
      NearLater(cfg, st.idr.next, before, at.mono);
      PlanWhileRecording(cfg, Analysed(st, data), data, at, io, before);
    }
    hide AbsorbAll, Nals, HasKeyframe, Ready, PlanFrom, WhileRecording, PacedRequest, Near, IdrOk;
  }

  lemma PlanWhileRecording(cfg: Config, st: State, data: seq<byte>, at: Stamp, io: Io, before: nat)
    requires cfg.Valid() && cfg.idrIntervalSec > 0 && |st.params| == 3 && IdrOk(cfg, st.idr, before)
    requires st.mode.Recording? && st.cur.seen != [] && before <= at.mono && 0 < at.mono < CLOCK_LIMIT
    requires Near(cfg, st.idr.next, at.mono)
    ensures var r := WhileRecording(cfg, st, data, at, io);
      r.mode.Recording? ==> Near(cfg, r.idr.next, at.mono)
  {
    var now := at.mono;
    var ready := Ready(st.cur.codec, st.params);
    var cut := HasKeyframe(st.cur.codec, Nals(data)) && ready;
    var turn := !st.mode.rollover && Due(cfg, st.mode.seg, at.wall);
    var idr1 := if turn && !cut && !Recent(st.idr, now) then SendRequest(cfg, st.idr, Rollover, now) else st.idr;
    PlanIsNear(cfg, now);
    IdrLater(cfg, st.idr, before, now);
    if !turn { PeriodicSentIff(cfg, st.idr, now); }
    PacedKeepsPlan(cfg, idr1, WaitRolloverKeyframe, now);
    PacedKeepsPlan(cfg, idr1, WaitRolloverParams, now);
    hide HasKeyframe, Ready, Due, PlanFrom, IdrOk, PacedRequest, Recent, PeriodicRequest, Nals, Near;
  }

  lemma PacedKeepsPlan(cfg: Config, idr: Idr, reason: Reason, now: nat)
    ensures PacedRequest(cfg, idr, reason, now).next == idr.next
  {
  }

  /**
    Over every clocked run: a packet appended to a file that is not full yet sends the periodic
    request exactly when the slot planned has come and the last request lies two seconds back.
   */
  lemma PeriodicInRunIff(cfg: Config, inputs: seq<Input>, data: seq<byte>, at: Stamp)
    requires cfg.Valid() && cfg.idrIntervalSec > 0 && Armed(cfg, inputs) && data != []
    requires Run(cfg, inputs).mode.Recording?
    requires var all := inputs + [Input(Video(data, at), ALL_OK)];
      WallClocked(all) && MonoClocked(all)
    requires var seg := Run(cfg, inputs).mode.seg;
      seg.start == 0 || at.wall < seg.start + cfg.segmentSec * 1000
    ensures var idr := Run(cfg, inputs).idr;
      var after := Run(cfg, inputs + [Input(Video(data, at), ALL_OK)]).idr;
      && 0 < idr.next
      && after.log == (if cfg.canRequestIdr && idr.next <= at.mono && Quiet(idr.log, at.mono, 2_000_000_000)
                       then idr.log + [Request(at.mono, Periodic)] else idr.log)
  {
    var all := inputs + [Input(Video(data, at), ALL_OK)];
    var st := Run(cfg, inputs);
    assert Front(all) == inputs && Last(all) == Input(Video(data, at), ALL_OK);
    RunStep(cfg, all);
    StampsInRun(cfg, inputs);
    RolloverHasStarted(cfg, inputs);
    ElapsedIsDifference(at.wall, st.mode.seg.start);
    IdrInRun(cfg, inputs);
    PlannedWhileRecording(cfg, inputs);
    IdrLater(cfg, st.idr, Now(inputs).mono, at.mono);
    NearLater(cfg, st.idr.next, Now(inputs).mono, at.mono);
    hide Run, Armed, AbsorbAll, Nals, HasKeyframe, Ready, WhileRecording, Spaced, AllSpaced, After;
    hide IdrOk, PeriodicRequest;
    NotFull(cfg, st, data, at);
    IdrOfAppended(cfg, Analysed(st, data), data, at);
    PeriodicSentIff(cfg, st.idr, at.mono);
  }

  lemma NotFull(cfg: Config, st: State, data: seq<byte>, at: Stamp)
    requires st.mode.Recording? && |st.params| == 3 && !st.mode.rollover && !Due(cfg, st.mode.seg, at.wall)
    ensures !RollsOver(cfg, Analysed(st, data), at) && !TurnsOver(cfg, Analysed(st, data), data, at)
  {
    hide AbsorbAll, Nals, HasKeyframe, Ready;
  }
}
