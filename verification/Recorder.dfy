/**
  The code of one recorded stream (stream_server/src/compressed_recorder.c, 328-845): fields
  updated in place, loops over start codes and slots, and files written piece by piece. Every
  handler is proved to make exactly the step of `SegmentSpec`, for all outcomes of file operations.
 */
module Recorder {
  import opened Bytes
  import opened AnnexB
  import opened ParamSets
  import opened IdrSchedule
  import opened SegmentSpec
  import opened Directory

  /** Bytes of the packets of a file, start codes included, parameter sets not. */
  function StoredLength(packets: seq<seq<byte>>): nat {
    if packets == [] then 0 else StoredLength(packets[..|packets| - 1]) + |Stored(packets[|packets| - 1])|
  }

  lemma StoredLengthSnoc(packets: seq<seq<byte>>, p: seq<byte>)
    ensures StoredLength(packets + [p]) == StoredLength(packets) + |Stored(p)|
  {
    assert (packets + [p])[..|packets|] == packets;
  }

  class RecorderStream {
    const cfg: Config

    var enabled: bool
    var active: bool
    var codec: nat
    var waitingKeyframe: bool
    var rolloverPending: bool
    var fileOpen: bool                // fp != NULL
    var tmp: seq<byte>                // what has been written to the open file
    var segmentStartWall: nat
    var bytesWritten: nat
    var packetsWritten: nat
    var params: seq<seq<byte>>
    var lastIdr: nat
    var nextPeriodic: nat
    var idrCount: nat

    var finals: map<Name, seq<byte>>  // the directory of the finalised files
    var requests: seq<Request>        // calls of the IDR callback
    var segmentsClosed: nat
    var writeErrors: nat

    ghost var past: seq<Epoch>
    ghost var seen: seq<seq<byte>>
    ghost var closed: seq<Segment>
    ghost var seg: Segment
    ghost var opens: nat
    ghost var epochStart: nat         // requests from here on belong to the current epoch

    ghost function IdrView(): Idr
      requires epochStart <= |requests|
      reads `lastIdr, `idrCount, `nextPeriodic, `requests, `epochStart
    {
      Idr(lastIdr, idrCount, nextPeriodic, requests[epochStart..])
    }

    ghost function ModeView(): Mode
      reads `active, `fileOpen, `waitingKeyframe, `seg, `rolloverPending
    {
      if !active then Off
      else if !fileOpen then Waiting
      else if waitingKeyframe then Stranded(seg)
      else Recording(seg, rolloverPending)
    }

    ghost function View(): State
      requires epochStart <= |requests|
      reads this
    {
      State(past, Epoch(codec, seen, closed), params, ModeView(), IdrView(), opens)
    }

    /** The open file holds the segment, and the counters count it. */
    ghost predicate HoldsSegment()
      reads `tmp, `codec, `seg, `segmentStartWall, `packetsWritten, `bytesWritten
    {
      && tmp == FileOf(codec, seg)
      && segmentStartWall == seg.start
      && packetsWritten == |seg.packets|
      && bytesWritten == StoredLength(seg.packets)
    }

    /** The files finalised so far, in order. */
    ghost function Finalised(): seq<File>
      reads `past, `codec, `closed
    {
      FilesOfAll(past) + FilesOf(codec, closed)
    }

    /** The directory is what renaming the files of all closed segments, in order, has left. */
    ghost predicate FilesMatch()
      reads `finals, `past, `codec, `closed, `segmentsClosed
    {
      finals == Renamed(Finalised()) && segmentsClosed == |Finalised()|
    }

    ghost predicate Base()
      reads `params, `epochStart, `requests, `finals, `past, `codec, `closed, `segmentsClosed
    {
      cfg.Valid() && |params| == 3 && epochStart <= |requests| && FilesMatch()
    }

    ghost predicate Valid()
      reads this
    {
      && Base()
      && (active ==> enabled && Supported(codec))
      && (active && !fileOpen ==> waitingKeyframe)
      && (fileOpen ==> active && HoldsSegment())
    }

    constructor (cfg: Config)
      requires cfg.Valid()
      ensures Valid() && View() == INITIAL && this.cfg == cfg && finals == map[]
    {
      this.cfg := cfg;
      enabled, active, codec := false, false, 0;
      waitingKeyframe, rolloverPending, fileOpen, tmp := false, false, false, [];
      segmentStartWall, bytesWritten, packetsWritten := 0, 0, 0;
      params, lastIdr, nextPeriodic, idrCount := NO_PARAMS, 0, 0, 0;
      finals, requests, segmentsClosed, writeErrors := map[], [], 0, 0;
      past, seen, closed, opens, epochStart := [], [], [], 0, 0;
      seg := Segment(0, [], 0, []);
    }

    // ---------- analysis ----------

    /** `cache_param_set`: a set that is already there is left alone. */
    method CacheParamSet(index: nat, nal: seq<byte>)
      requires |params| == 3 && index < 3 && nal != []
      modifies `params
      ensures params == if |nal| <= PARAM_SET_LIMIT then old(params)[index := START_CODE + nal] else old(params)
    {
      if |nal| > PARAM_SET_LIMIT {
        return;
      }
      var stored := params[index];
      if |stored| == 4 + |nal| && stored[..4] == START_CODE && stored[4..] == nal {
        assert stored == START_CODE + nal;
        return;
      }
      params := params[index := START_CODE + nal];
    }

    method AnalyzeNal(nal: seq<byte>) returns (key: bool)
      requires |params| == 3 && nal != []
      modifies `params
      ensures params == Absorb(codec, old(params), nal)
      ensures key == (KindOf(codec, nal) == Keyframe)
    {
      key := false;
      if codec == 0 {
        var nalType := nal[0] % 32;
        if nalType == 7 {
          CacheParamSet(0, nal);
        } else if nalType == 8 {
          CacheParamSet(1, nal);
        } else if nalType == 5 {
          key := true;
        }
        return;
      }
      if codec == 1 && |nal| >= 2 {
        var nalType := (nal[0] / 2) % 64;
        if nalType == 32 {
          CacheParamSet(0, nal);
        } else if nalType == 33 {
          CacheParamSet(1, nal);
        } else if nalType == 34 {
          CacheParamSet(2, nal);
        } else if (16 <= nalType <= 18) || nalType == 19 || nalType == 20 || nalType == 21 {
          key := true;
        }
      }
    }

    /** `analyze_payload`: one scan over the payload, in place. */
    method AnalyzePayload(data: seq<byte>) returns (hasKeyframe: bool)
      requires |params| == 3
      modifies `params
      ensures params == AbsorbAll(codec, old(params), Nals(data))
      ensures hasKeyframe == HasKeyframe(codec, Nals(data))
    {
      hasKeyframe := false;
      if |data| == 0 {
        return;
      }
      var found := FindStartCode(data, 0);
      if found == NotFound {
        hasKeyframe := AnalyzeNal(data);
        AbsorbOne(codec, old(params), data);
        return;
      }
      ghost var done: seq<seq<byte>> := [];
      ghost var pos := found.pos;
      assert done + NalsFrom(data, pos) == Nals(data);
      while found != NotFound
        invariant AtCode(data, pos)
        invariant found == if pos == |data| then NotFound else At(pos, CodeLen(data, pos))
        invariant done + NalsFrom(data, pos) == Nals(data)
        invariant |params| == 3 && params == AbsorbAll(codec, old(params), done)
        invariant hasKeyframe == HasKeyframe(codec, done)
        decreases |data| - pos
      {
        var nalStart := found.pos + found.len;
        var next := FindStartCode(data, nalStart);
        var nalEnd := if next == NotFound then |data| else next.pos;
        assert nalEnd == Next(data, pos) && nalStart == BodyStart(data, pos);
        nalEnd := SkipZeros(data, nalStart, nalEnd);
        assert data[nalStart..nalEnd] == NalAt(data, pos);
        ReportStep(done, NalAt(data, pos), NalsFrom(data, Next(data, pos)));
        if nalEnd > nalStart {
          var nal := data[nalStart..nalEnd];
          AbsorbSnoc(codec, old(params), done, nal);
          HasKeyframeSnoc(codec, done, nal);
          var key := AnalyzeNal(nal);
          hasKeyframe := hasKeyframe || key;
          done := done + [nal];
        }
        pos := Next(data, pos);
        found := next;
      }
      assert done + [] == done;
    }

    /** The inner loop: the zeros before the next start code do not belong to the NAL. */
    method SkipZeros(data: seq<byte>, start: nat, end: nat) returns (nalEnd: nat)
      requires start <= end <= |data|
      ensures start <= nalEnd <= end && data[start..nalEnd] == TrimZeros(data[start..end])
    {
      nalEnd := end;
      while nalEnd > start && data[nalEnd - 1] == 0
        invariant start <= nalEnd <= end
        invariant forall i :: nalEnd <= i < end ==> data[i] == 0
      {
        nalEnd := nalEnd - 1;
      }
      assert data[start..nalEnd] == data[start..end][..nalEnd - start];
      TrimZerosUnique(data[start..end], data[start..nalEnd]);
    }

    // ---------- files ----------

    /** One `fwrite`: a failed one may leave any part of the bytes behind. */
    method WriteAll(bytes: seq<byte>, ok: bool)
      modifies `tmp
      ensures ok ==> tmp == old(tmp) + bytes
    {
      if ok {
        tmp := tmp + bytes;
      } else {
        var n :| 0 <= n <= |bytes|;
        tmp := tmp + bytes[..n];
      }
    }

    method WriteParamSets(ok: bool) returns (rc: bool)
      requires |params| == 3
      modifies `tmp
      ensures rc == ok && (ok ==> tmp == old(tmp) + Header(codec, params))
    {
      var count := if codec == 1 then 3 else 2;
      var i := 0;
      assert params[..0] == [];
      assert old(tmp) + Flatten(params[..0]) == tmp;
      while i < count
        invariant 0 <= i <= count
        invariant tmp == old(tmp) + Flatten(params[..i])
        invariant i > 0 ==> ok
      {
        if !ok {
          WriteAll(params[i], false);
          return false;
        }
        FlattenSnoc(params[..i], params[i]);
        assert params[..i + 1] == params[..i] + [params[i]];
        Associate(old(tmp), Flatten(params[..i]), params[i]);
        WriteAll(params[i], true);
        i := i + 1;
      }
      assert Header(codec, params) == Flatten(params[..i]);
      return true;
    }

    method WritePayloadAnnexB(data: seq<byte>, ok: bool) returns (rc: bool)
      modifies `tmp
      ensures rc == ok && (ok ==> tmp == old(tmp) + Stored(data))
    {
      var has := PayloadHasStartCode(data);
      if !has {
        WriteAll(START_CODE, ok);
        if !ok {
          return false;
        }
        Associate(old(tmp), START_CODE, data);
      }
      WriteAll(data, ok);
      return ok;
    }

    method WriteSegmentPacket(data: seq<byte>, ok: bool) returns (rc: bool)
      requires fileOpen
      modifies `tmp, `bytesWritten, `packetsWritten, `writeErrors
      ensures rc == ok
      ensures ok ==>
        && tmp == old(tmp) + Stored(data)
        && bytesWritten == old(bytesWritten) + |Stored(data)|
        && packetsWritten == old(packetsWritten) + 1
    {
      rc := WritePayloadAnnexB(data, ok);
      if !rc {
        writeErrors := writeErrors + 1;
        return;
      }
      bytesWritten := bytesWritten + |data|;
      var has := PayloadHasStartCode(data);
      if !has {
        bytesWritten := bytesWritten + 4;
      }
      packetsWritten := packetsWritten + 1;
    }

    method CloseSegment(finalize: bool, renameOk: bool)
      requires FilesMatch() && (fileOpen && finalize ==> HoldsSegment())
      modifies `fileOpen, `tmp, `finals, `segmentsClosed, `writeErrors, `segmentStartWall,
               `nextPeriodic, `bytesWritten, `packetsWritten, `closed
      ensures !fileOpen && FilesMatch()
      ensures !old(fileOpen) ==> closed == old(closed) && nextPeriodic == old(nextPeriodic)
      ensures old(fileOpen) ==> nextPeriodic == 0
      ensures old(fileOpen) && finalize ==> closed == Finalise(old(closed), seg, renameOk)
      ensures !finalize ==> closed == old(closed)
      ensures finals == if old(fileOpen) && finalize && renameOk
                        then old(finals)[Name(old(segmentStartWall) / 1000, codec) := old(tmp)] else old(finals)
    {
      hide FileBytes, Header, Stored, StoredLength, FilesOf, FilesOfAll, Renamed, Nals, PlanFrom, SendRequest,
           PacedRequest, PeriodicRequest;
      if !fileOpen {
        return;
      }
      fileOpen := false;
      if finalize {
        if !renameOk {
          writeErrors := writeErrors + 1;
        } else {
          finals := finals[Name(segmentStartWall / 1000, codec) := tmp];
          segmentsClosed := segmentsClosed + 1;
          FilesOfSnoc(codec, closed, seg);
          Associate(FilesOfAll(past), FilesOf(codec, closed), [FileFor(codec, seg)]);
          RenamedSnoc(Finalised(), FileFor(codec, seg));
          closed := closed + [seg];
        }
      }
      tmp := [];
      segmentStartWall, nextPeriodic, bytesWritten, packetsWritten := 0, 0, 0, 0;
    }

    // ---------- IDR requests ----------

    method RequestIdr(reason: Reason, now: nat, force: bool)
      requires epochStart <= |requests|
      modifies `lastIdr, `idrCount, `requests
      ensures epochStart <= |requests|
      ensures IdrView() == if force then SendRequest(cfg, old(IdrView()), reason, now)
                           else PacedRequest(cfg, old(IdrView()), reason, now)
    {
      if !cfg.canRequestIdr {
        return;
      }
      var backoff := 0;
      if !force {
        if idrCount == 0 {
          backoff := 0;
        } else if idrCount == 1 {
          backoff := 2 * NS;
        } else if idrCount == 2 {
          backoff := 5 * NS;
        } else {
          backoff := 10 * NS;
        }
      }
      if !force && lastIdr != 0 && Sub64(now, lastIdr) < backoff {
        return;
      }
      assert (requests + [Request(now, reason)])[epochStart..] == requests[epochStart..] + [Request(now, reason)];
      requests := requests + [Request(now, reason)];
      lastIdr := now;
      idrCount := idrCount + 1;
    }

    method IdrRequestRecent(now: nat) returns (recent: bool)
      requires epochStart <= |requests|
      ensures recent == Recent(IdrView(), now)
    {
      recent := lastIdr != 0 && now >= lastIdr && Sub64(now, lastIdr) < MIN_GAP;
    }

    method PlanPeriodic(now: nat) returns (next: nat)
      requires cfg.Valid() && now < CLOCK_LIMIT
      ensures next == PlanFrom(cfg, now)
    {
      next := 0;
      if cfg.idrIntervalSec != 0 {
        next := NextPeriodicIdr(cfg.idrIntervalSec, cfg.maxStreams, cfg.streamId, now);
      }
    }

    method MaybeRequestPeriodicIdr(now: nat)
      requires cfg.Valid() && epochStart <= |requests| && now < CLOCK_LIMIT
      requires fileOpen && !waitingKeyframe
      modifies `lastIdr, `idrCount, `requests, `nextPeriodic
      ensures epochStart <= |requests|
      ensures IdrView() == if rolloverPending then old(IdrView()) else PeriodicRequest(cfg, old(IdrView()), now)
    {
      if cfg.idrIntervalSec == 0 || rolloverPending {
        return;
      }
      if nextPeriodic == 0 {
        nextPeriodic := PlanPeriodic(now);
      }
      if nextPeriodic == 0 || now < nextPeriodic {
        SlotIsPositive(cfg, now);
        return;
      }
      var recent := IdrRequestRecent(now);
      if recent {
        nextPeriodic := PlanPeriodic(now);
        return;
      }
      RequestIdr(Periodic, now, true);
      nextPeriodic := StepPast(cfg.idrIntervalSec, nextPeriodic, now);
    }

    // ---------- handlers ----------

    method OpenSegment(at: Stamp, io: Io) returns (ok: bool)
      requires cfg.Valid() && |params| == 3 && at.mono < CLOCK_LIMIT && seen != []
      modifies `fileOpen, `tmp, `segmentStartWall, `bytesWritten, `packetsWritten, `waitingKeyframe,
               `rolloverPending, `nextPeriodic, `idrCount, `writeErrors, `seg, `opens
      ensures ok == (io.mkdirOk && io.openOk)
      ensures !ok ==>
        && fileOpen == (!io.mkdirOk && old(fileOpen))
        && unchanged(`tmp, `segmentStartWall, `bytesWritten, `packetsWritten, `waitingKeyframe,
                     `rolloverPending, `nextPeriodic, `idrCount, `seg, `opens)
      ensures ok ==>
        && fileOpen && !waitingKeyframe && !rolloverPending && tmp == []
        && segmentStartWall == at.wall && bytesWritten == 0 && packetsWritten == 0
        && nextPeriodic == PlanFrom(cfg, at.mono) && idrCount == 0
        && seg == Segment(at.wall, params, |seen| - 1, []) && opens == old(opens) + 1
    {
      hide PlanFrom;
      if !io.mkdirOk {
        writeErrors := writeErrors + 1;
        return false;
      }
      fileOpen := io.openOk;
      if !fileOpen {
        writeErrors := writeErrors + 1;
        return false;
      }
      InitSegment(at);
      return true;
    }

    /** The fields of a segment that has just been opened. */
    method InitSegment(at: Stamp)
      requires cfg.Valid() && |params| == 3 && at.mono < CLOCK_LIMIT && seen != []
      modifies `tmp, `segmentStartWall, `bytesWritten, `packetsWritten, `waitingKeyframe,
               `rolloverPending, `nextPeriodic, `idrCount, `seg, `opens
      ensures !waitingKeyframe && !rolloverPending && tmp == []
      ensures segmentStartWall == at.wall && bytesWritten == 0 && packetsWritten == 0
      ensures nextPeriodic == PlanFrom(cfg, at.mono) && idrCount == 0
      ensures seg == Segment(at.wall, params, |seen| - 1, []) && opens == old(opens) + 1
    {
      hide PlanFrom;
      tmp := [];
      segmentStartWall := at.wall;
      bytesWritten, packetsWritten := 0, 0;
      waitingKeyframe, rolloverPending := false, false;
      nextPeriodic := PlanPeriodic(at.mono);
      idrCount := 0;
      seg := Segment(at.wall, params, |seen| - 1, []);
      opens := opens + 1;
    }

    /** Opens a file for the packet at hand and writes its header and the packet. */
    method StartFile(data: seq<byte>, at: Stamp, io: Io)
      requires Base() && active && enabled && Supported(codec) && at.mono < CLOCK_LIMIT
      requires seen != [] && (fileOpen ==> waitingKeyframe && HoldsSegment())
      modifies this
      ensures Valid()
      ensures View() == Open(cfg, old(View()), data, at, io, if old(fileOpen) then Stranded(old(seg)) else Waiting)
    {
      hide FileBytes, Header, Stored, StoredLength, FilesOf, FilesOfAll, Renamed, PlanFrom, FilesMatch, HoldsSegment;
      var ok := OpenFor(at, io);
      if ok {
        FillFile(data, io);
      }
    }

    /** Opens the file, or leaves the stream waiting, with whatever file was open before. */
    method OpenFor(at: Stamp, io: Io) returns (ok: bool)
      requires Base() && active && enabled && Supported(codec) && at.mono < CLOCK_LIMIT
      requires seen != [] && (fileOpen ==> waitingKeyframe && HoldsSegment())
      modifies `fileOpen, `tmp, `segmentStartWall, `bytesWritten, `packetsWritten, `waitingKeyframe,
               `rolloverPending, `nextPeriodic, `idrCount, `writeErrors, `seg, `opens
      ensures ok == (io.mkdirOk && io.openOk) && Base()
      ensures !ok ==> Valid()
      ensures !ok ==>
        View() == old(View()).(mode := if old(fileOpen) && !io.mkdirOk then Stranded(old(seg)) else Waiting)
      ensures ok ==>
        && fileOpen && !waitingKeyframe && tmp == [] && bytesWritten == packetsWritten == 0
        && seg == Segment(at.wall, params, |seen| - 1, []) && segmentStartWall == at.wall
        && View() == old(View()).(mode := Recording(seg, false), opens := old(opens) + 1,
                                  idr := old(IdrView()).(count := 0, next := PlanFrom(cfg, at.mono)))
    {
      hide FileBytes, Header, Stored, StoredLength, PlanFrom, FilesMatch, HoldsSegment;
      ok := OpenSegment(at, io);
      if !ok {
        waitingKeyframe := true;
      }
    }

    /** Writes to the file just opened; on a failure the file is removed and the stream waits again. */
    method FillFile(data: seq<byte>, io: Io)
      requires Base() && active && enabled && Supported(codec)
      requires fileOpen && !waitingKeyframe && tmp == [] && bytesWritten == packetsWritten == 0
      requires seg == Segment(segmentStartWall, params, seg.first, [])
      modifies this
      ensures Valid()
      ensures View() ==
        if io.headerOk && io.packetOk
        then old(View()).(mode := Recording(old(seg).(packets := [data]), old(rolloverPending)))
        else old(View()).(mode := Waiting, idr := old(IdrView()).(next := 0))
    {
      hide FileBytes, Header, Stored, StoredLength, FilesOf, FilesOfAll, Renamed, FilesMatch;
      var rc := WriteFirst(data, io);
      if !rc {
        DropFile();
      } else {
        FirstPacket(Header(codec, params), data);
        seg := seg.(packets := [data]);
      }
    }

    /** The header and the first packet; any part of them may be in the file when this fails. */
    method WriteFirst(data: seq<byte>, io: Io) returns (rc: bool)
      requires |params| == 3 && fileOpen && tmp == [] && bytesWritten == packetsWritten == 0
      modifies `tmp, `bytesWritten, `packetsWritten, `writeErrors
      ensures rc == (io.headerOk && io.packetOk)
      ensures rc ==>
        tmp == Header(codec, params) + Stored(data) && bytesWritten == |Stored(data)| && packetsWritten == 1
    {
      hide Header, Stored;
      rc := WriteParamSets(io.headerOk);
      assert [] + Header(codec, params) == Header(codec, params);
      if rc {
        rc := WriteSegmentPacket(data, io.packetOk);
      }
    }

    /** A write error: the file is removed and the stream waits for the next keyframe. */
    method DropFile()
      requires Base() && fileOpen && active && enabled && Supported(codec)
      modifies `fileOpen, `tmp, `finals, `segmentsClosed, `writeErrors, `segmentStartWall,
               `nextPeriodic, `bytesWritten, `packetsWritten, `closed, `waitingKeyframe
      ensures Valid() && !fileOpen
      ensures View() == old(View()).(mode := Waiting, idr := old(IdrView()).(next := 0))
    {
      hide FileBytes, Header, Stored, StoredLength, FilesOf, FilesOfAll, Renamed, FilesMatch;
      CloseSegment(false, false);
      waitingKeyframe := true;
    }

    /** What START and STOP do first: finalise the open file, forget the sets, clear the fields. */
    method EndEpoch(newCodec: nat, io: Io)
      requires Valid()
      modifies this
      ensures Valid() && View() == OnStop(old(View()), io).(cur := Epoch(newCodec, [], []))
      ensures waitingKeyframe
    {
      hide FileBytes, Header, Stored, StoredLength, FilesOf, FilesOfAll, Renamed;
      CloseSegment(true, io.renameOk);
      assert Epoch(codec, seen, closed) == CloseAll(old(View()), io);
      ClearFields(newCodec);
    }

    method ClearFields(newCodec: nat)
      requires Base() && !fileOpen
      modifies this
      ensures Valid() && waitingKeyframe && !active && !fileOpen
      ensures View() == State(old(past) + [Epoch(old(codec), old(seen), old(closed))], Epoch(newCodec, [], []),
                              NO_PARAMS, Off, NO_IDR, 0)
    {
      hide FileBytes, Header, Stored, StoredLength, FilesOf, FilesOfAll, Renamed;
      NextEpoch(past, Epoch(codec, seen, closed), newCodec);
      NewHistory();
      enabled, active, codec, params := false, false, newCodec, NO_PARAMS;
      ResetFileState();
      assert IdrView() == NO_IDR;
    }

    ghost method NewHistory()
      modifies `past, `seen, `closed, `opens, `epochStart
      ensures past == old(past) + [Epoch(codec, old(seen), old(closed))]
      ensures seen == [] && closed == [] && opens == 0 && epochStart == |requests|
    {
      past := past + [Epoch(codec, seen, closed)];
      seen, closed, opens, epochStart := [], [], 0, |requests|;
    }

    method ResetFileState()
      modifies `tmp, `segmentStartWall, `bytesWritten, `packetsWritten, `waitingKeyframe,
               `rolloverPending, `lastIdr, `nextPeriodic, `idrCount
      ensures waitingKeyframe && !rolloverPending && lastIdr == nextPeriodic == idrCount == 0
    {
      tmp, segmentStartWall, bytesWritten, packetsWritten := [], 0, 0, 0;
      waitingKeyframe, rolloverPending := true, false;
      lastIdr, nextPeriodic, idrCount := 0, 0, 0;
    }

    method ProcessStart(newCodec: nat, at: Stamp, io: Io)
      requires Valid()
      modifies this
      ensures Valid() && View() == OnStart(cfg, old(View()), newCodec, at, io)
    {
      hide FileBytes, Header, Stored, StoredLength, FilesOf, FilesOfAll, Renamed, CloseAll, FilesMatch, HoldsSegment;
      EndEpoch(newCodec, io);
      enabled := cfg.enabled;
      if !enabled {
        return;
      }
      if !(codec == 0 || codec == 1) {
        enabled := false;
        return;
      }
      active := true;
      RequestIdr(RecordStart, at.mono, true);
    }

    method ProcessStop(io: Io)
      requires Valid()
      modifies this
      ensures Valid() && View() == OnStop(old(View()), io)
    {
      EndEpoch(0, io);
      waitingKeyframe := false;
    }

    method ShouldRollover(wall: nat) returns (due: bool)
      requires cfg.Valid() && (fileOpen ==> HoldsSegment())
      ensures due == (fileOpen && Due(cfg, seg, wall))
    {
      if !fileOpen || segmentStartWall == 0 {
        return false;
      }
      due := Sub64(wall, segmentStartWall) >= cfg.segmentSec * 1000;
    }

    method ProcessVideo(data: seq<byte>, at: Stamp, io: Io)
      requires Valid() && at.mono < CLOCK_LIMIT
      modifies this
      ensures Valid() && View() == OnVideo(cfg, old(View()), data, at, io)
    {
      hide FileBytes, Header, Stored, StoredLength, FilesOf, FilesOfAll, Renamed, Nals, PlanFrom, SendRequest,
           PacedRequest, PeriodicRequest, FilesMatch, HoldsSegment;
      if |data| == 0 || !active || !enabled {
        return;
      }
      var hasKeyframe, ready := Analyse(data);
      hide Analysed, AbsorbAll, HasKeyframe, Ready, Open, WhileRecording;
      if !StorageOk(cfg, io) {
        waitingKeyframe, rolloverPending := true, false;
      } else if waitingKeyframe {
        Wait(data, at, io, hasKeyframe, ready);
      } else {
        Record(data, at, io, hasKeyframe, ready);
      }
    }

    /** Analyses the packet, which counts as processed from then on. */
    method Analyse(data: seq<byte>) returns (hasKeyframe: bool, ready: bool)
      requires Valid()
      modifies `params, `seen
      ensures Valid() && View() == Analysed(old(View()), data)
      ensures hasKeyframe == HasKeyframe(codec, Nals(data)) && ready == Ready(codec, params)
    {
      hide FileBytes, Header, Stored, StoredLength, FilesOf, FilesOfAll, Renamed, Nals, HasKeyframe, AbsorbAll,
           FilesMatch, HoldsSegment;
      hasKeyframe := AnalyzePayload(data);
      seen := seen + [data];
      ready := ParamsReady();
    }

    /** The part of `process_video` for a stream that waits for a keyframe. */
    method Wait(data: seq<byte>, at: Stamp, io: Io, hasKeyframe: bool, ready: bool)
      requires Valid() && at.mono < CLOCK_LIMIT && active && waitingKeyframe && seen != []
      requires hasKeyframe == HasKeyframe(codec, Nals(data)) && ready == Ready(codec, params)
      modifies this
      ensures Valid() && View() == WhileWaiting(cfg, old(View()), data, at, io)
    {
      hide FileBytes, Header, Stored, StoredLength, FilesOf, FilesOfAll, Renamed, HasKeyframe, Ready, Nals, Open,
           PacedRequest, FilesMatch, HoldsSegment;
      if !hasKeyframe || !ready {
        RequestIdr(if ready then WaitKeyframe else WaitParams, at.mono, false);
      } else {
        StartFile(data, at, io);
      }
    }

    method ParamsReady() returns (ready: bool)
      requires |params| == 3
      ensures ready == Ready(codec, params)
    {
      if codec == 0 {
        return |params[0]| > 0 && |params[1]| > 0;
      }
      if codec == 1 {
        return |params[0]| > 0 && |params[1]| > 0 && |params[2]| > 0;
      }
      return false;
    }

    /** The first sight of a due rollover asks for a keyframe, unless this packet is one. */
    method CheckRollover(at: Stamp, cut: bool)
      requires Base() && fileOpen && HoldsSegment()
      modifies `rolloverPending, `lastIdr, `idrCount, `requests
      ensures epochStart <= |requests|
      ensures rolloverPending == (old(rolloverPending) || Due(cfg, seg, at.wall))
      ensures IdrView() ==
        if !old(rolloverPending) && rolloverPending && !cut && !Recent(old(IdrView()), at.mono)
        then SendRequest(cfg, old(IdrView()), Rollover, at.mono) else old(IdrView())
    {
      hide SendRequest;
      if !rolloverPending {
        var due := ShouldRollover(at.wall);
        if due {
          rolloverPending := true;
          if !cut {
            var recent := IdrRequestRecent(at.mono);
            if !recent {
              RequestIdr(Rollover, at.mono, true);
            }
          }
        }
      }
    }

    /** Appends to the open file; when that fails the file is removed and the stream waits again. */
    method Append(data: seq<byte>, at: Stamp, io: Io)
      requires Valid() && fileOpen && !waitingKeyframe
      modifies this
      ensures Valid()
      ensures View() ==
        if io.packetOk
        then old(View()).(mode := Recording(old(seg).(packets := old(seg).packets + [data]), old(rolloverPending)))
        else old(View()).(mode := Waiting,
                          idr := SendRequest(cfg, old(IdrView()).(next := 0), WriteError, at.mono))
    {
      hide FileBytes, Header, Stored, StoredLength, FilesOf, FilesOfAll, Renamed, SendRequest, FilesMatch;
      FileBytesSnoc(Header(codec, seg.sets), seg.packets, data);
      StoredLengthSnoc(seg.packets, data);
      var rc := WriteSegmentPacket(data, io.packetOk);
      if !rc {
        FailWrite(at);
      } else {
        seg := seg.(packets := seg.packets + [data]);
      }
    }

    /** A failed write of a running segment: the file goes, and a keyframe is asked for at once. */
    method FailWrite(at: Stamp)
      requires Base() && fileOpen && active && enabled && Supported(codec)
      modifies this
      ensures Valid()
      ensures View() == old(View()).(mode := Waiting,
                                     idr := SendRequest(cfg, old(IdrView()).(next := 0), WriteError, at.mono))
    {
      hide FileBytes, Header, Stored, StoredLength, FilesOf, FilesOfAll, Renamed, SendRequest, FilesMatch;
      DropFile();
      RequestIdr(WriteError, at.mono, true);
    }

    /** A due segment is finalised and the packet at hand opens the next one. */
    method TurnOver(data: seq<byte>, at: Stamp, io: Io)
      requires Valid() && fileOpen && !waitingKeyframe && at.mono < CLOCK_LIMIT && seen != []
      modifies this
      ensures Valid() && View() == Open(cfg, Closed(old(View()), io), data, at, io, Waiting)
    {
      hide FileBytes, Header, Stored, StoredLength, FilesOf, FilesOfAll, Renamed, PlanFrom, FilesMatch;
      ghost var st := View();
      CloseSegment(true, io.renameOk);
      OpenIgnoresMode(cfg, View(), Closed(st, io), data, at, io);
      hide Open;
      StartFile(data, at, io);
    }

    /** The rest of `process_video`, for a stream that is not waiting. */
    method Record(data: seq<byte>, at: Stamp, io: Io, hasKeyframe: bool, ready: bool)
      requires Valid() && at.mono < CLOCK_LIMIT && active && !waitingKeyframe && seen != []
      requires hasKeyframe == HasKeyframe(codec, Nals(data)) && ready == Ready(codec, params)
      modifies this
      ensures Valid() && View() == WhileRecording(cfg, old(View()), data, at, io)
    {
      hide FileBytes, Header, Stored, StoredLength, FilesOf, FilesOfAll, Renamed, SendRequest, PacedRequest,
           PeriodicRequest,
           HasKeyframe, Ready, Nals, Recent, Due, Open, FilesMatch, HoldsSegment;
      CheckRollover(at, hasKeyframe && ready);
      if rolloverPending && hasKeyframe && ready {
        OpenIgnoresMode(cfg, Closed(View(), io), Closed(old(View()), io), data, at, io);
        TurnOver(data, at, io);
      } else {
        AskForKeyframe(at, ready);
        Append(data, at, io);
      }
    }

    /** The request that goes with a packet that is appended: for the rollover, or periodic. */
    method AskForKeyframe(at: Stamp, ready: bool)
      requires Base() && fileOpen && !waitingKeyframe && at.mono < CLOCK_LIMIT
      modifies `lastIdr, `idrCount, `requests, `nextPeriodic
      ensures epochStart <= |requests|
      ensures IdrView() ==
        if rolloverPending
        then PacedRequest(cfg, old(IdrView()), if ready then WaitRolloverKeyframe else WaitRolloverParams, at.mono)
        else PeriodicRequest(cfg, old(IdrView()), at.mono)
    {
      hide PacedRequest, PeriodicRequest, FilesMatch;
      if rolloverPending {
        RequestIdr(if ready then WaitRolloverKeyframe else WaitRolloverParams, at.mono, false);
      }
      MaybeRequestPeriodicIdr(at.mono);
    }

    method Process(input: Input)
      requires Valid() && input.ev.at.mono < CLOCK_LIMIT
      modifies this
      ensures Valid() && View() == Step(cfg, old(View()), input.ev, input.io)
    {
      hide Valid, OnStart, OnVideo, OnStop;
      match input.ev
      case Start(newCodec, at) => { ProcessStart(newCodec, at, input.io); }
      case Video(data, at) => { ProcessVideo(data, at, input.io); }
      case Stop(at) => { ProcessStop(input.io); }
    }

    /** The event loop of the writer thread, then the close of the open file when it ends. */
    method RunThread(inputs: seq<Input>, renameOk: bool)
      requires Valid() && View() == INITIAL
      requires forall i :: 0 <= i < |inputs| ==> inputs[i].ev.at.mono < CLOCK_LIMIT
      modifies this
      ensures !fileOpen
      ensures past + [Epoch(codec, seen, closed)] == FinalEpochs(Run(cfg, inputs), renameOk)
      ensures finals == Renamed(FilesOfAll(FinalEpochs(Run(cfg, inputs), renameOk)))
      ensures segmentsClosed == |FilesOfAll(FinalEpochs(Run(cfg, inputs), renameOk))|
    {
      hide Step, FileBytes, Header, FilesOf, FilesOfAll, Renamed;
      var i := 0;
      assert inputs[..0] == [];
      while i < |inputs|
        invariant 0 <= i <= |inputs|
        invariant Valid() && View() == Run(cfg, inputs[..i])
      {
        assert inputs[..i + 1][..i] == inputs[..i];
        Process(inputs[i]);
        i := i + 1;
      }
      assert inputs[..i] == inputs;
      CloseSegment(true, renameOk);
      FilesOfAllSnoc(past, Epoch(codec, seen, closed));
    }
  }

  /** The state behind the close of a due segment. */
  ghost function Closed(st: State, io: Io): State {
    if st.mode.Recording?
    then st.(cur := st.cur.(closed := Finalise(st.cur.closed, st.mode.seg, io.renameOk)), idr := st.idr.(next := 0))
    else st
  }

  lemma OpenIgnoresMode(cfg: Config, st: State, other: State, data: seq<byte>, at: Stamp, io: Io)
    requires st.cur.seen != [] && st == other.(mode := st.mode)
    ensures Open(cfg, st, data, at, io, Waiting) == Open(cfg, other, data, at, io, Waiting)
  {
  }

  lemma NextEpoch(past: seq<Epoch>, e: Epoch, newCodec: nat)
    ensures FilesOfAll(past + [e]) + FilesOf(newCodec, []) == FilesOfAll(past) + FilesOf(e.codec, e.closed)
  {
    FilesOfAllSnoc(past, e);
  }

  lemma SlotIsPositive(cfg: Config, now: nat)
    requires cfg.Valid() && cfg.idrIntervalSec > 0
    ensures PlanFrom(cfg, now) > 0
  {
    OffsetInInterval(IntervalNs(cfg.idrIntervalSec), cfg.maxStreams, cfg.streamId);
    hide Offset, IntervalNs;
    SlotHolds(IntervalNs(cfg.idrIntervalSec), OffsetOf(cfg), now + MIN_GAP);
  }

  lemma AbsorbOne(codec: nat, params: seq<seq<byte>>, nal: seq<byte>)
    requires |params| == 3
    ensures AbsorbAll(codec, params, [nal]) == Absorb(codec, params, nal)
    ensures HasKeyframe(codec, [nal]) == (KindOf(codec, nal) == Keyframe)
  {
    AbsorbSnoc(codec, params, [], nal);
    HasKeyframeSnoc(codec, [], nal);
    assert [] + [nal] == [nal];
  }

  lemma ReportStep(done: seq<seq<byte>>, nal: seq<byte>, rest: seq<seq<byte>>)
    ensures done + Report(nal, rest) == (if nal == [] then done else done + [nal]) + rest
  {
    if nal != [] {
      Associate(done, [nal], rest);
    }
  }

  lemma FirstPacket(header: seq<byte>, data: seq<byte>)
    ensures FileBytes(header, [data]) == header + Stored(data)
    ensures StoredLength([data]) == |Stored(data)|
  {
    FileBytesSnoc(header, [], data);
    StoredLengthSnoc([], data);
    assert [] + [data] == [data];
  }
}
