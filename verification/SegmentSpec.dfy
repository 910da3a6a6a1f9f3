/**
  What one recorded stream does with its events, as a transition system
  (stream_server/src/compressed_recorder.c, 523-845). A segment is the list of packets it holds;
  the outcomes of file operations are part of the input. `Recorder.dfy` shows that the code's
  flags, counters and file bytes follow this system; `SegmentRuns.dfy` proves what every run keeps.
 */
module SegmentSpec {
  import opened Bytes
  import opened AnnexB
  import opened ParamSets
  import opened IdrSchedule

  const NS := NS_PER_SEC

  datatype Config = Config(
    maxStreams: nat,
    streamId: nat,
    enabled: bool,
    segmentSec: nat,
    idrIntervalSec: nat,
    canRequestIdr: bool,
    requireMount: bool)
  {
    predicate Valid() {
      && 1 <= streamId <= maxStreams <= 256
      && 0 < segmentSec < UINT32_LIMIT
      && idrIntervalSec < UINT32_LIMIT
    }
  }

  datatype Stamp = Stamp(wall: nat, mono: nat)

  datatype Event =
    | Start(codec: nat, at: Stamp)
    | Video(data: seq<byte>, at: Stamp)
    | Stop(at: Stamp)

  /** Outcomes of the mount probe and of the file operations one event may perform. */
  datatype Io = Io(
    mounted: bool, mkdirOk: bool, openOk: bool, headerOk: bool, packetOk: bool, renameOk: bool)

  const ALL_OK := Io(true, true, true, true, true, true)

  datatype Reason =
    | RecordStart | WaitKeyframe | WaitParams | Rollover
    | WaitRolloverKeyframe | WaitRolloverParams | Periodic | WriteError

  datatype Request = Request(time: nat, reason: Reason)

  /** IDR pacing since STREAM_START. `next` is 0 when no periodic request is planned. */
  datatype Idr = Idr(last: nat, count: nat, next: nat, log: seq<Request>)

  const NO_IDR := Idr(0, 0, 0, [])

  /** A file: opened at `start`, holding `packets`, the first being packet `first` of the epoch. */
  datatype Segment = Segment(start: nat, sets: seq<seq<byte>>, first: nat, packets: seq<seq<byte>>)

  /** From one STREAM_START to the next START or STOP: the packets processed and the files finalised. */
  datatype Epoch = Epoch(codec: nat, seen: seq<seq<byte>>, closed: seq<Segment>)

  datatype Mode =
    | Off
    | Waiting
    | Recording(seg: Segment, rollover: bool)
    /** The storage check failed while a file was open: the code waits for a keyframe, file still open. */
    | Stranded(seg: Segment)

  datatype State = State(past: seq<Epoch>, cur: Epoch, params: seq<seq<byte>>, mode: Mode, idr: Idr, opens: nat)

  const INITIAL := State([], Epoch(0, [], []), NO_PARAMS, Off, NO_IDR, 0)

  function FileOf(codec: nat, seg: Segment): seq<byte> {
    FileBytes(Header(codec, seg.sets), seg.packets)
  }

  // ---------- IDR requests ----------

  function Backoff(count: nat): nat {
    if count == 0 then 0 else if count == 1 then 2 * NS else if count == 2 then 5 * NS else 10 * NS
  }

  function SendRequest(cfg: Config, idr: Idr, reason: Reason, now: nat): Idr {
    if cfg.canRequestIdr then Idr(now, idr.count + 1, idr.next, idr.log + [Request(now, reason)]) else idr
  }

  /** A request that waits out the backoff of its predecessors. */
  function PacedRequest(cfg: Config, idr: Idr, reason: Reason, now: nat): Idr {
    if idr.last != 0 && Sub64(now, idr.last) < Backoff(idr.count) then idr
    else SendRequest(cfg, idr, reason, now)
  }

  predicate Recent(idr: Idr, now: nat) {
    idr.last != 0 && now >= idr.last && Sub64(now, idr.last) < MIN_GAP
  }

  function OffsetOf(cfg: Config): nat {
    Offset(IntervalNs(cfg.idrIntervalSec), cfg.maxStreams, cfg.streamId)
  }

  function PlanFrom(cfg: Config, now: nat): nat {
    if cfg.idrIntervalSec == 0 then 0
    else Slot(IntervalNs(cfg.idrIntervalSec), OffsetOf(cfg), now + MIN_GAP)
  }

  /** The periodic request of a stream that is recording and not about to roll over. */
  function PeriodicRequest(cfg: Config, idr: Idr, now: nat): Idr {
    if cfg.idrIntervalSec == 0 then idr
    else
      var planned := if idr.next == 0 then idr.(next := PlanFrom(cfg, now)) else idr;
      if now < planned.next then planned
      else if Recent(planned, now) then planned.(next := PlanFrom(cfg, now))
      else
        var sent := SendRequest(cfg, planned, Periodic, now);
        sent.(next := CatchUp(IntervalNs(cfg.idrIntervalSec), planned.next, now))
  }

  // ---------- segments ----------

  /** Finalising keeps the file only if the rename succeeds. */
  function Finalise(closed: seq<Segment>, seg: Segment, renameOk: bool): seq<Segment> {
    if renameOk then closed + [seg] else closed
  }

  function CloseAll(st: State, io: Io): Epoch {
    match st.mode
    case Recording(seg, _) => st.cur.(closed := Finalise(st.cur.closed, seg, io.renameOk))
    case Stranded(seg) => st.cur.(closed := Finalise(st.cur.closed, seg, io.renameOk))
    case _ => st.cur
  }

  /**
    Opening a file for the packet just seen; `failed` is the mode left behind when the directory
    cannot be made. A file that was still open is forgotten once the new one has been tried.
   */
  function Open(cfg: Config, st: State, data: seq<byte>, at: Stamp, io: Io, failed: Mode): State
    requires |st.cur.seen| > 0
  {
    if !io.mkdirOk then st.(mode := failed)
    else if !io.openOk then st.(mode := Waiting)
    else
      var idr := st.idr.(count := 0);
      if io.headerOk && io.packetOk then
        st.(mode := Recording(Segment(at.wall, st.params, |st.cur.seen| - 1, [data]), false),
            idr := idr.(next := PlanFrom(cfg, at.mono)),
            opens := st.opens + 1)
      else
        st.(mode := Waiting, idr := idr.(next := 0), opens := st.opens + 1)
  }

  predicate Due(cfg: Config, seg: Segment, wall: nat) {
    seg.start != 0 && Sub64(wall, seg.start) >= cfg.segmentSec * 1000
  }

  function OnStart(cfg: Config, st: State, codec: nat, at: Stamp, io: Io): State {
    var armed := State(st.past + [CloseAll(st, io)], Epoch(codec, [], []), NO_PARAMS, Off, NO_IDR, 0);
    if cfg.enabled && Supported(codec)
    then armed.(mode := Waiting, idr := SendRequest(cfg, NO_IDR, RecordStart, at.mono))
    else armed
  }

  function OnStop(st: State, io: Io): State {
    State(st.past + [CloseAll(st, io)], Epoch(0, [], []), NO_PARAMS, Off, NO_IDR, 0)
  }

  /** The packet has been analysed: the cache follows its NALs whatever happens to the packet. */
  function Analysed(st: State, data: seq<byte>): State
    requires |st.params| == 3
  {
    st.(params := AbsorbAll(st.cur.codec, st.params, Nals(data)), cur := st.cur.(seen := st.cur.seen + [data]))
  }

  function WhileWaiting(cfg: Config, st: State, data: seq<byte>, at: Stamp, io: Io): State
    requires |st.params| == 3 && |st.cur.seen| > 0
  {
    var ready := Ready(st.cur.codec, st.params);
    if HasKeyframe(st.cur.codec, Nals(data)) && ready
    then Open(cfg, st, data, at, io, st.mode)
    else st.(idr := PacedRequest(cfg, st.idr, if ready then WaitKeyframe else WaitParams, at.mono))
  }

  function WhileRecording(cfg: Config, st: State, data: seq<byte>, at: Stamp, io: Io): State
    requires |st.params| == 3 && |st.cur.seen| > 0 && st.mode.Recording?
  {
    var seg := st.mode.seg;
    var ready := Ready(st.cur.codec, st.params);
    var cut := HasKeyframe(st.cur.codec, Nals(data)) && ready;
    var turn := !st.mode.rollover && Due(cfg, seg, at.wall);
    var rollover := st.mode.rollover || turn;
    var idr1 := if turn && !cut && !Recent(st.idr, at.mono)
                then SendRequest(cfg, st.idr, Rollover, at.mono) else st.idr;
    if rollover && cut then
      var closed := st.cur.(closed := Finalise(st.cur.closed, seg, io.renameOk));
      Open(cfg, st.(cur := closed, idr := st.idr.(next := 0)), data, at, io, Waiting)
    else
      var idr2 := if rollover
                  then PacedRequest(cfg, idr1, if ready then WaitRolloverKeyframe else WaitRolloverParams, at.mono)
                  else PeriodicRequest(cfg, idr1, at.mono);
      if io.packetOk
      then st.(mode := Recording(seg.(packets := seg.packets + [data]), rollover), idr := idr2)
      else st.(mode := Waiting, idr := SendRequest(cfg, idr2.(next := 0), WriteError, at.mono))
  }

  /** The storage check: the mount counts only if it is required. */
  predicate StorageOk(cfg: Config, io: Io) {
    cfg.requireMount ==> io.mounted
  }

  function OnVideo(cfg: Config, st: State, data: seq<byte>, at: Stamp, io: Io): State
    requires |st.params| == 3
  {
    if st.mode.Off? || data == [] then st
    else
      var now := Analysed(st, data);
      if !StorageOk(cfg, io) then now.(mode := if st.mode.Recording? then Stranded(st.mode.seg) else st.mode)
      else if st.mode.Recording? then WhileRecording(cfg, now, data, at, io)
      else WhileWaiting(cfg, now, data, at, io)
  }

  function Step(cfg: Config, st: State, ev: Event, io: Io): (r: State)
    requires |st.params| == 3
    ensures |r.params| == 3
  {
    match ev
    case Start(codec, at) => OnStart(cfg, st, codec, at, io)
    case Video(data, at) => OnVideo(cfg, st, data, at, io)
    case Stop(at) => OnStop(st, io)
  }

  datatype Input = Input(ev: Event, io: Io)

  /** The state after a whole run, one event at a time. */
  function Run(cfg: Config, inputs: seq<Input>): (st: State)
    ensures |st.params| == 3
  {
    if inputs == [] then INITIAL
    else
      var last := inputs[|inputs| - 1];
      Step(cfg, Run(cfg, inputs[..|inputs| - 1]), last.ev, last.io)
  }

  /** All epochs once the thread has left its loop and finalised the open file. */
  function FinalEpochs(st: State, renameOk: bool): seq<Epoch> {
    st.past + [CloseAll(st, ALL_OK.(renameOk := renameOk))]
  }
}
