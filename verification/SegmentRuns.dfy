/**
  What every run of one recorded stream keeps, whatever file operations fail
  (stream_server/src/compressed_recorder.c, 523-845).
 */
module SegmentRuns {
  import opened Bytes
  import opened AnnexB
  import opened ParamSets
  import opened IdrSchedule
  import opened SegmentSpec

  function Front(inputs: seq<Input>): seq<Input>
    requires inputs != []
  {
    inputs[..|inputs| - 1]
  }

  function Last(inputs: seq<Input>): Input
    requires inputs != []
  {
    inputs[|inputs| - 1]
  }

  // ---------- every file is a keyframe run behind its parameter sets ----------

  /** Packet `k` may start a file: it holds a keyframe and by then every parameter set is known. */
  predicate CutAt(codec: nat, seen: seq<seq<byte>>, k: nat)
    requires k < |seen|
  {
    HasKeyframe(codec, Nals(seen[k])) && Ready(codec, SetsAt(codec, seen, k))
  }

  /** The parameter sets in force once packet `k` has been analysed. */
  function SetsAt(codec: nat, seen: seq<seq<byte>>, k: nat): (sets: seq<seq<byte>>)
    requires k < |seen|
    ensures |sets| == 3
  {
    AbsorbAll(codec, NO_PARAMS, AllNals(seen[..k + 1]))
  }

  /** The packets of the segment are a run of those processed, from one that may start a file. */
  ghost predicate SegmentOk(codec: nat, seen: seq<seq<byte>>, seg: Segment) {
    && seg.packets != []
    && seg.first + |seg.packets| <= |seen|
    && seg.packets == seen[seg.first..seg.first + |seg.packets|]
    && CutAt(codec, seen, seg.first)
    && seg.sets == SetsAt(codec, seen, seg.first)
  }

  function End(seg: Segment): nat {
    seg.first + |seg.packets|
  }

  /** All finalised files are such runs, in the order of the packets and without overlap. */
  ghost predicate EpochOk(e: Epoch) {
    && (forall i :: 0 <= i < |e.closed| ==> SegmentOk(e.codec, e.seen, e.closed[i]))
    && (forall i, j :: 0 <= i < j < |e.closed| ==> End(e.closed[i]) <= e.closed[j].first)
  }

  ghost predicate OpenOk(e: Epoch, seg: Segment) {
    && SegmentOk(e.codec, e.seen, seg)
    && forall i :: 0 <= i < |e.closed| ==> End(e.closed[i]) <= seg.first
  }

  ghost predicate EpochsOk(es: seq<Epoch>) {
    forall i :: 0 <= i < |es| ==> EpochOk(es[i])
  }

  ghost predicate FilesOk(st: State) {
    && |st.params| == 3
    && EpochsOk(st.past)
    && EpochOk(st.cur)
    && (!st.mode.Off? ==> st.params == AbsorbAll(st.cur.codec, NO_PARAMS, AllNals(st.cur.seen)))
    && (st.mode.Recording? ==> OpenOk(st.cur, st.mode.seg) && End(st.mode.seg) == |st.cur.seen|)
    && (st.mode.Stranded? ==> OpenOk(st.cur, st.mode.seg))
  }

  lemma SegmentGrows(codec: nat, seen: seq<seq<byte>>, p: seq<byte>, seg: Segment)
    requires SegmentOk(codec, seen, seg)
    ensures SegmentOk(codec, seen + [p], seg)
  {
    hide CutAt, SetsAt;
    CutAtFront(codec, seen + [p], seg.first);
    assert (seen + [p])[..|seen|] == seen;
    assert (seen + [p])[seg.first..End(seg)] == seen[seg.first..End(seg)];
  }

  lemma CutAtFront(codec: nat, seen: seq<seq<byte>>, i: nat)
    requires i < |seen| - 1
    ensures CutAt(codec, seen, i) == CutAt(codec, seen[..|seen| - 1], i)
    ensures SetsAt(codec, seen, i) == SetsAt(codec, seen[..|seen| - 1], i)
  {
    hide AbsorbAll, AllNals, HasKeyframe, Nals, Ready;
    assert seen[..i + 1] == seen[..|seen| - 1][..i + 1];
  }

  lemma EpochGrows(e: Epoch, p: seq<byte>)
    requires EpochOk(e)
    ensures EpochOk(e.(seen := e.seen + [p]))
  {
    forall i | 0 <= i < |e.closed| ensures SegmentOk(e.codec, e.seen + [p], e.closed[i]) {
      SegmentGrows(e.codec, e.seen, p, e.closed[i]);
    }
  }

  lemma EpochCloses(e: Epoch, seg: Segment, renameOk: bool)
    requires EpochOk(e) && OpenOk(e, seg)
    ensures EpochOk(e.(closed := Finalise(e.closed, seg, renameOk)))
    ensures forall i :: 0 <= i < |Finalise(e.closed, seg, renameOk)| ==>
              End(Finalise(e.closed, seg, renameOk)[i]) <= End(seg)
  {
    hide SegmentOk;
  }

  lemma CloseAllOk(st: State, io: Io)
    requires FilesOk(st)
    ensures EpochOk(CloseAll(st, io))
  {
    hide EpochOk, OpenOk;
    match st.mode
    case Recording(seg, _) => EpochCloses(st.cur, seg, io.renameOk);
    case Stranded(seg) => EpochCloses(st.cur, seg, io.renameOk);
    case _ =>
  }

  lemma AnalysedOk(st: State, data: seq<byte>)
    requires FilesOk(st) && !st.mode.Off?
    ensures var now := Analysed(st, data);
      && EpochOk(now.cur)
      && now.params == AbsorbAll(now.cur.codec, NO_PARAMS, AllNals(now.cur.seen))
      && now.params == SetsAt(now.cur.codec, now.cur.seen, |st.cur.seen|)
      && (st.mode.Recording? || st.mode.Stranded? ==> OpenOk(now.cur, st.mode.seg))
  {
    EpochGrows(st.cur, data);
    AllNalsSnoc(st.cur.seen, data);
    AbsorbAppend(st.cur.codec, NO_PARAMS, AllNals(st.cur.seen), Nals(data));
    assert (st.cur.seen + [data])[..|st.cur.seen| + 1] == st.cur.seen + [data];
    if st.mode.Recording? || st.mode.Stranded? {
      SegmentGrows(st.cur.codec, st.cur.seen, data, st.mode.seg);
    }
  }

  /** A file opened for the packet just analysed is a run of one. */
  lemma OpenKeepsFiles(cfg: Config, st: State, data: seq<byte>, at: Stamp, io: Io, failed: Mode)
    requires st.cur.seen != [] && st.cur.seen[|st.cur.seen| - 1] == data
    requires FilesOk(st.(mode := failed)) && (failed.Waiting? || failed.Stranded?)
    requires st.params == SetsAt(st.cur.codec, st.cur.seen, |st.cur.seen| - 1)
    requires CutAt(st.cur.codec, st.cur.seen, |st.cur.seen| - 1)
    requires forall i :: 0 <= i < |st.cur.closed| ==> End(st.cur.closed[i]) <= |st.cur.seen| - 1
    ensures FilesOk(Open(cfg, st, data, at, io, failed))
  {
    hide CutAt, SetsAt, AbsorbAll, AllNals, PlanFrom, EpochOk, EpochsOk;
    var n := |st.cur.seen|;
    assert st.cur.seen[n - 1..n] == [data];
  }

  lemma EndsInSeen(e: Epoch)
    requires EpochOk(e)
    ensures forall i :: 0 <= i < |e.closed| ==> End(e.closed[i]) <= |e.seen|
  {
  }

  lemma VideoKeepsFiles(cfg: Config, st: State, data: seq<byte>, at: Stamp, io: Io)
    requires FilesOk(st)
    ensures FilesOk(OnVideo(cfg, st, data, at, io))
  {
    hide EpochsOk, EpochOk, OpenOk, SetsAt, CutAt, AbsorbAll, AllNals, Open, HasKeyframe, Ready, Nals, WhileRecording;
    if st.mode.Off? || data == [] { return; }
    var now := Analysed(st, data);
    AnalysedOk(st, data);
    EndsInSeen(st.cur);
    CutWhen(now, data);
    if !StorageOk(cfg, io) {
    } else if st.mode.Recording? {
      RecordingKeepsFiles(cfg, now, data, at, io);
    } else if CutAt(now.cur.codec, now.cur.seen, |now.cur.seen| - 1) {
      OpenKeepsFiles(cfg, now, data, at, io, now.mode);
    }
  }

  lemma CutWhen(st: State, data: seq<byte>)
    requires |st.params| == 3 && st.cur.seen != [] && st.cur.seen[|st.cur.seen| - 1] == data
    requires st.params == SetsAt(st.cur.codec, st.cur.seen, |st.cur.seen| - 1)
    ensures CutAt(st.cur.codec, st.cur.seen, |st.cur.seen| - 1)
        <==> HasKeyframe(st.cur.codec, Nals(data)) && Ready(st.cur.codec, st.params)
  {
  }

  lemma RecordingKeepsFiles(cfg: Config, st: State, data: seq<byte>, at: Stamp, io: Io)
    requires st.mode.Recording? && st.cur.seen != [] && |st.params| == 3
    requires st.cur.seen[|st.cur.seen| - 1] == data
    requires FilesOk(st.(mode := Stranded(st.mode.seg)))
    requires End(st.mode.seg) == |st.cur.seen| - 1
    requires st.params == SetsAt(st.cur.codec, st.cur.seen, |st.cur.seen| - 1)
    ensures FilesOk(WhileRecording(cfg, st, data, at, io))
  {
    hide EpochsOk, EpochOk, OpenOk, CutAt, SetsAt, AbsorbAll, AllNals, HasKeyframe, Ready, Nals, WhileRecording, Open;
    CutWhen(st, data);
    RecordingShape(cfg, st, data, at, io);
    if TurnsOver(cfg, st, data, at) {
      EpochCloses(st.cur, st.mode.seg, io.renameOk);
      OpenKeepsFiles(cfg, Turned(st, io), data, at, io, Waiting);
    } else {
      SegmentExtends(st.cur, st.mode.seg);
    }
  }

  predicate RollsOver(cfg: Config, st: State, at: Stamp)
    requires st.mode.Recording?
  {
    st.mode.rollover || Due(cfg, st.mode.seg, at.wall)
  }

  /** The segment is due and the packet may start the next one. */
  predicate TurnsOver(cfg: Config, st: State, data: seq<byte>, at: Stamp)
    requires st.mode.Recording? && |st.params| == 3
  {
    RollsOver(cfg, st, at) && HasKeyframe(st.cur.codec, Nals(data)) && Ready(st.cur.codec, st.params)
  }

  /** The state in which a rollover opens the next file: the old one is closed. */
  function Turned(st: State, io: Io): State
    requires st.mode.Recording?
  {
    st.(cur := st.cur.(closed := Finalise(st.cur.closed, st.mode.seg, io.renameOk)), idr := st.idr.(next := 0))
  }

  /** A packet met while recording is appended, lost to a write error, or starts the next file. */
  lemma RecordingShape(cfg: Config, st: State, data: seq<byte>, at: Stamp, io: Io)
    requires st.mode.Recording? && st.cur.seen != [] && |st.params| == 3
    ensures var r := WhileRecording(cfg, st, data, at, io);
      var seg := st.mode.seg;
      if TurnsOver(cfg, st, data, at) then
        r == Open(cfg, Turned(st, io), data, at, io, Waiting)
      else
        && r.past == st.past && r.cur == st.cur && r.params == st.params && r.opens == st.opens
        && r.mode == if io.packetOk
                     then Recording(seg.(packets := seg.packets + [data]), RollsOver(cfg, st, at)) else Waiting
  {
    hide Due, PacedRequest, PeriodicRequest, SendRequest, Open, HasKeyframe, Ready, Nals, Recent;
  }

  lemma SegmentExtends(e: Epoch, seg: Segment)
    requires OpenOk(e, seg) && End(seg) + 1 == |e.seen|
    ensures OpenOk(e, seg.(packets := seg.packets + [e.seen[End(seg)]]))
  {
    hide CutAt, SetsAt;
    assert seg.packets + [e.seen[End(seg)]] == e.seen[seg.first..End(seg) + 1];
  }

  lemma StepKeepsFiles(cfg: Config, st: State, ev: Event, io: Io)
    requires FilesOk(st)
    ensures FilesOk(Step(cfg, st, ev, io))
  {
    match ev
    case Video(data, at) => VideoKeepsFiles(cfg, st, data, at, io);
    case Start(_, _) =>
      CloseAllOk(st, io);
    case Stop(_) =>
      CloseAllOk(st, io);
  }

  /**
    Every run, with any failures: each finalised file of each epoch, and the open one, holds a
    run of processed packets behind the parameter sets in force at its first packet, which has a
    keyframe; files follow each other without overlap.
   */
  lemma {:induction false} EveryFileIsAKeyframeRun(cfg: Config, inputs: seq<Input>)
    ensures FilesOk(Run(cfg, inputs))
  {
    if inputs != [] {
      EveryFileIsAKeyframeRun(cfg, Front(inputs));
      hide FilesOk, Step;
      StepKeepsFiles(cfg, Run(cfg, Front(inputs)), Last(inputs).ev, Last(inputs).io);
    }
  }

  // ---------- without failures nothing is lost ----------

  /** Index of the first packet that may start a file; the number of packets if there is none. */
  function FirstCut(codec: nat, seen: seq<seq<byte>>): (k: nat)
    ensures k <= |seen|
  {
    if seen == [] then 0
    else
      var k := FirstCut(codec, seen[..|seen| - 1]);
      if k < |seen| - 1 || CutAt(codec, seen, |seen| - 1) then k else |seen|
  }

  lemma {:induction false} FirstCutIsFirst(codec: nat, seen: seq<seq<byte>>, j: nat)
    requires j < |seen|
    ensures FirstCut(codec, seen) < |seen| ==> CutAt(codec, seen, FirstCut(codec, seen))
    ensures j < FirstCut(codec, seen) ==> !CutAt(codec, seen, j)
  {
    hide CutAt;
    if |seen| > 1 {
      var front := seen[..|seen| - 1];
      var k := FirstCut(codec, front);
      FirstCutIsFirst(codec, front, if j < |front| then j else 0);
      if k < |front| { CutAtFront(codec, seen, k); }
      if j < |front| { CutAtFront(codec, seen, j); }
    }
  }

  lemma FirstCutSnoc(codec: nat, seen: seq<seq<byte>>, p: seq<byte>)
    ensures FirstCut(codec, seen + [p]) ==
      if FirstCut(codec, seen) < |seen| || CutAt(codec, seen + [p], |seen|) then FirstCut(codec, seen) else |seen| + 1
  {
    assert (seen + [p])[..|seen|] == seen;
  }

  function PacketsOf(segs: seq<Segment>): seq<seq<byte>> {
    if segs == [] then [] else PacketsOf(segs[..|segs| - 1]) + segs[|segs| - 1].packets
  }

  lemma PacketsSnoc(segs: seq<Segment>, seg: Segment)
    ensures PacketsOf(segs + [seg]) == PacketsOf(segs) + seg.packets
  {
    assert (segs + [seg])[..|segs|] == segs;
  }

  /** The packets of an epoch from the first that may start a file. */
  function Recordable(e: Epoch): seq<seq<byte>> {
    e.seen[FirstCut(e.codec, e.seen)..]
  }

  /** All of them are in the finalised files, once each and in order. */
  predicate Complete(e: Epoch) {
    PacketsOf(e.closed) == Recordable(e)
  }

  predicate NothingLost(st: State) {
    match st.mode
    case Off => Complete(st.cur)
    case Waiting => st.cur.closed == [] && FirstCut(st.cur.codec, st.cur.seen) == |st.cur.seen|
    case Recording(seg, _) =>
      && FirstCut(st.cur.codec, st.cur.seen) < |st.cur.seen|
      && PacketsOf(st.cur.closed) + seg.packets == Recordable(st.cur)
    case Stranded(_) => false
  }

  predicate AllOk(inputs: seq<Input>) {
    forall i :: 0 <= i < |inputs| ==> inputs[i].io == ALL_OK
  }

  lemma CloseIsComplete(st: State)
    requires NothingLost(st)
    ensures Complete(CloseAll(st, ALL_OK))
  {
    hide FirstCut, PacketsOf;
    match st.mode
    case Recording(seg, _) => PacketsSnoc(st.cur.closed, seg);
    case _ =>
      NoPackets();
  }

  lemma NoPackets()
    ensures PacketsOf([]) == []
  {
  }

  lemma RecordableSnoc(e: Epoch, p: seq<byte>)
    requires FirstCut(e.codec, e.seen) < |e.seen|
    ensures var e' := e.(seen := e.seen + [p]);
      FirstCut(e'.codec, e'.seen) < |e'.seen| && Recordable(e') == Recordable(e) + [p]
  {
    FirstCutSnoc(e.codec, e.seen, p);
  }

  lemma VideoLosesNothing(cfg: Config, st: State, data: seq<byte>, at: Stamp)
    requires FilesOk(st) && NothingLost(st)
    ensures NothingLost(OnVideo(cfg, st, data, at, ALL_OK))
  {
    hide EpochsOk, EpochOk, OpenOk, FirstCut, PacketsOf, CutAt, SetsAt, HasKeyframe, Ready, Nals, WhileRecording,
         AbsorbAll;
    if st.mode.Off? || data == [] { return; }
    var now := Analysed(st, data);
    AnalysedOk(st, data);
    CutWhen(now, data);
    FirstCutSnoc(st.cur.codec, st.cur.seen, data);
    if st.mode.Recording? {
      RecordingShape(cfg, now, data, at, ALL_OK);
      RecordableSnoc(st.cur, data);
      PacketsSnoc(st.cur.closed, st.mode.seg);
      Associate(PacketsOf(st.cur.closed), st.mode.seg.packets, [data]);
    } else {
      NoPackets();
      assert now.cur.seen[|st.cur.seen|..] == [data] == [] + [data];
    }
  }

  /**
    Without failures, the finalised files of every past epoch hold exactly the packets processed
    since the first keyframe with parameter sets known, and so do the finalised files plus the
    open one of the current epoch: rolling over loses, doubles and reorders nothing.
   */
  lemma {:induction false} RolloverLosesNothing(cfg: Config, inputs: seq<Input>)
    requires AllOk(inputs)
    ensures NothingLost(Run(cfg, inputs))
    ensures forall i :: 0 <= i < |Run(cfg, inputs).past| ==> Complete(Run(cfg, inputs).past[i])
  {
    if inputs == [] {
      assert FirstCut(0, []) == 0 && PacketsOf([]) == [];
    } else {
      var st := Run(cfg, Front(inputs));
      RolloverLosesNothing(cfg, Front(inputs));
      EveryFileIsAKeyframeRun(cfg, Front(inputs));
      assert Last(inputs).io == ALL_OK;
      StepLosesNothing(cfg, st, Last(inputs).ev);
      hide *;
    }
  }

  lemma StepLosesNothing(cfg: Config, st: State, ev: Event)
    requires FilesOk(st) && NothingLost(st)
    requires forall i :: 0 <= i < |st.past| ==> Complete(st.past[i])
    ensures var r := Step(cfg, st, ev, ALL_OK);
      && NothingLost(r)
      && forall i :: 0 <= i < |r.past| ==> Complete(r.past[i])
  {
    match ev
    case Video(data, at) =>
      VideoLosesNothing(cfg, st, data, at);
      PastUnchanged(cfg, st, data, at, ALL_OK);
    case Start(codec, _) =>
      NewEpoch(st, codec);
    case Stop(_) =>
      NewEpoch(st, 0);
  }

  lemma NewEpoch(st: State, codec: nat)
    requires NothingLost(st)
    ensures Complete(CloseAll(st, ALL_OK))
    ensures FirstCut(codec, []) == 0 && Complete(Epoch(codec, [], []))
  {
    CloseIsComplete(st);
    NoPackets();
  }

  lemma PastUnchanged(cfg: Config, st: State, data: seq<byte>, at: Stamp, io: Io)
    requires |st.params| == 3
    ensures OnVideo(cfg, st, data, at, io).past == st.past
  {
    if !st.mode.Off? && data != [] && st.mode.Recording? {
      RecordingShape(cfg, Analysed(st, data), data, at, io);
    }
    hide AbsorbAll, Nals, WhileRecording, HasKeyframe, Ready, PacedRequest, PlanFrom;
  }

  // ---------- when a file is open while the stream waits ----------

  /** The code's `fp != NULL` and `waiting_keyframe` for an active stream. */
  predicate FileOpen(st: State) {
    st.mode.Recording? || st.mode.Stranded?
  }

  predicate IsWaiting(st: State) {
    st.mode.Waiting? || st.mode.Stranded?
  }

  /** An active stream has a file open exactly when it is not waiting for a keyframe. */
  predicate InStep(st: State) {
    !st.mode.Off? ==> (FileOpen(st) <==> !IsWaiting(st))
  }

  /** The storage check fails for a packet that comes while a file is being recorded. */
  predicate Strands(cfg: Config, st: State, ev: Event, io: Io) {
    st.mode.Recording? && ev.Video? && ev.data != [] && !StorageOk(cfg, io)
  }

  /** One event keeps that exactly when it is not such a packet. */
  lemma FileOpenIffNotWaiting(cfg: Config, st: State, ev: Event, io: Io)
    requires |st.params| == 3 && InStep(st)
    ensures InStep(Step(cfg, st, ev, io)) <==> !Strands(cfg, st, ev, io)
  {
    hide AbsorbAll, Nals, HasKeyframe, Ready, PacedRequest, PlanFrom, PeriodicRequest, SendRequest, Recent, Due;
  }

  /** In step at every point of the run. */
  predicate AlwaysInStep(cfg: Config, inputs: seq<Input>) {
    InStep(Run(cfg, inputs)) && (inputs != [] ==> AlwaysInStep(cfg, Front(inputs)))
  }

  /** No event of the run is such a packet at the point where it comes. */
  predicate NeverStrands(cfg: Config, inputs: seq<Input>) {
    inputs == [] ||
    (NeverStrands(cfg, Front(inputs)) && !Strands(cfg, Run(cfg, Front(inputs)), Last(inputs).ev, Last(inputs).io))
  }

  /** A whole run is in step from beginning to end exactly when no packet of it strands a file. */
  lemma {:induction false} FileOpenInRunIff(cfg: Config, inputs: seq<Input>)
    ensures AlwaysInStep(cfg, inputs) <==> NeverStrands(cfg, inputs)
  {
    if inputs != [] {
      FileOpenInRunIff(cfg, Front(inputs));
      var st := Run(cfg, Front(inputs));
      assert Run(cfg, inputs) == Step(cfg, st, Last(inputs).ev, Last(inputs).io);
      hide InStep, Strands, Run, Step;
      if InStep(st) {
        FileOpenIffNotWaiting(cfg, st, Last(inputs).ev, Last(inputs).io);
      }
    }
  }

  /** Where no mount is required, no run ever leaves that. */
  lemma {:induction false} InStepWithoutMount(cfg: Config, inputs: seq<Input>)
    requires !cfg.requireMount
    ensures AlwaysInStep(cfg, inputs)
  {
    NothingStrandsWithoutMount(cfg, inputs);
    FileOpenInRunIff(cfg, inputs);
  }

  lemma {:induction false} NothingStrandsWithoutMount(cfg: Config, inputs: seq<Input>)
    requires !cfg.requireMount
    ensures NeverStrands(cfg, inputs)
  {
    hide Run;
    if inputs != [] {
      NothingStrandsWithoutMount(cfg, Front(inputs));
    }
  }

  /**
    What the exception costs: once the storage comes back and a packet may start a file, the file
    left open is in neither the finalised files nor the open one, whatever happens later to those.
   */
  lemma StrandedFileIsForgotten(cfg: Config, st: State, lost: seq<byte>, cut: seq<byte>, at: Stamp, io: Io)
    requires |st.params| == 3 && st.mode.Recording? && lost != [] && cut != [] && !StorageOk(cfg, io)
    requires var now := Analysed(Analysed(st, lost), cut);
      HasKeyframe(now.cur.codec, Nals(cut)) && Ready(now.cur.codec, now.params)
    ensures var r := OnVideo(cfg, OnVideo(cfg, st, lost, at, io), cut, at, ALL_OK);
      && r.cur.closed == st.cur.closed
      && r.mode.Recording? && r.mode.seg.first == |st.cur.seen| + 1 && r.mode.seg.packets == [cut]
  {
    hide AbsorbAll, Nals, HasKeyframe, Ready, PlanFrom;
  }

  // ---------- the bytes of a finalised file ----------

  lemma {:induction false} UnitNalsAreCodeFree(us: seq<Unit>, nal: seq<byte>)
    requires AllWellFormed(us) && nal in NalsOf(us)
    ensures nal != [] && !HasCode(nal)
  {
    hide HasCode;
    if nal != us[0].nal || us[0].nal == [] {
      UnitNalsAreCodeFree(us[1..], nal);
    }
  }

  lemma NalsAreCodeFree(d: seq<byte>, nal: seq<byte>)
    requires nal in Nals(d)
    ensures nal != [] && !HasCode(nal)
  {
    if HasCode(d) {
      ScanIsLossless(d);
      hide *;
      UnitNalsAreCodeFree(UnitsFrom(d, NextCode(d, 0)), nal);
    }
  }

  lemma {:induction false} AllNalsAreCodeFree(packets: seq<seq<byte>>, nal: seq<byte>)
    requires nal in AllNals(packets)
    ensures nal != [] && !HasCode(nal)
  {
    hide Nals, HasCode;
    var front := packets[..|packets| - 1];
    if nal in AllNals(front) {
      AllNalsAreCodeFree(front, nal);
    } else {
      NalsAreCodeFree(packets[|packets| - 1], nal);
    }
  }

  /** A cached set is a start code and a NAL without start code that does not begin with a zero. */
  lemma CachedSetShape(codec: nat, packets: seq<seq<byte>>, i: nat)
    requires i < 3 && AbsorbAll(codec, NO_PARAMS, AllNals(packets))[i] != []
    ensures var cached := AbsorbAll(codec, NO_PARAMS, AllNals(packets))[i];
      && |cached| > 4 && cached == START_CODE + cached[4..]
      && !HasCode(cached[4..]) && cached[4] != 0
  {
    var nals := AllNals(packets);
    CacheHoldsLatest(codec, nals, i);
    hide AbsorbAll, AllNals, HasCode, Keeps;
    var cached := AbsorbAll(codec, NO_PARAMS, nals)[i];
    var k :| 0 <= k < |nals| && Keeps(codec, i, nals[k]) && cached == START_CODE + nals[k];
    AllNalsAreCodeFree(packets, nals[k]);
    KeptNal(codec, i, nals[k]);
    hide *;
    assert cached[4..] == nals[k];
  }

  lemma KeptNal(codec: nat, i: nat, nal: seq<byte>)
    requires Keeps(codec, i, nal)
    ensures nal != [] && nal[0] != 0
  {
  }

  /** The cached sets a file starts with, as the scanner reports them. */
  function SetNals(codec: nat, sets: seq<seq<byte>>): seq<seq<byte>>
    requires |sets| == 3 && Ready(codec, sets) && forall i :: 0 <= i < 3 && sets[i] != [] ==> |sets[i]| > 4
  {
    seq(SetCount(codec), i requires 0 <= i < SetCount(codec) => TrimZeros(sets[i][4..]))
  }

  lemma HeaderOf(codec: nat, seen: seq<seq<byte>>, seg: Segment)
    requires SegmentOk(codec, seen, seg)
    ensures forall i :: 0 <= i < 3 && seg.sets[i] != [] ==>
              |seg.sets[i]| > 4 && seg.sets[i] == START_CODE + seg.sets[i][4..]
              && !HasCode(seg.sets[i][4..]) && seg.sets[i][4] != 0
    ensures Ready(codec, seg.sets)
  {
    hide HasKeyframe, HasCode;
    forall i | 0 <= i < 3 && seg.sets[i] != []
      ensures |seg.sets[i]| > 4 && seg.sets[i] == START_CODE + seg.sets[i][4..]
           && !HasCode(seg.sets[i][4..]) && seg.sets[i][4] != 0
    {
      CachedSetShape(codec, seen[..seg.first + 1], i);
    }
  }

  /**
    Reading a recorded file back: the recorder's own scanner returns its parameter sets in order
    and then the NALs of each packet in order, exactly when each packet can be appended to what
    the file holds before it; packets without start code, and those with only zeros before their
    first, always can.
   */
  lemma {:induction false} FileReadsBack(codec: nat, seen: seq<seq<byte>>, seg: Segment)
    requires SegmentOk(codec, seen, seg)
    ensures Ready(codec, seg.sets) && forall i :: 0 <= i < 3 && seg.sets[i] != [] ==> |seg.sets[i]| > 4
    ensures Nals(FileOf(codec, seg)) == SetNals(codec, seg.sets) + StoredNals(seg.packets)
        <==> AllAppendable(Header(codec, seg.sets), seg.packets)
    ensures (forall k :: 0 <= k < |seg.packets| ==> Clean(seg.packets[k])) ==>
              AllAppendable(Header(codec, seg.sets), seg.packets)
  {
    HeaderOf(codec, seen, seg);
    var n := SetCount(codec);
    var sets := seg.sets[..n];
    var nals := seq(n, i requires 0 <= i < n => seg.sets[i][4..]);
    assert forall i :: 0 <= i < n ==> seg.sets[i] != [];
    hide HasCode, Nals, Flatten, TrimZeros, StoredNals, FileBytes, Clean, AllAppendable, SegmentOk;
    HeaderSplits(sets, nals);
    assert SetNals(codec, seg.sets) == Trimmed(nals);
    FileSplitsIff(Header(codec, seg.sets), seg.packets);
    if forall k :: 0 <= k < |seg.packets| ==> Clean(seg.packets[k]) {
      CleanPacketsAppend(Header(codec, seg.sets), seg.packets);
    }
  }
}
