/**
  What one recorded stream must do with its events, told from the events alone
  (stream_server/src/compressed_recorder.c, 564-665 and 718-845).
 */
module SegmentInputs {
  import opened Bytes
  import opened AnnexB
  import opened ParamSets
  import opened IdrSchedule
  import opened SegmentSpec
  import opened SegmentRuns
  import opened PacingRuns

  // ---------- sessions: which packets there are to record ----------

  /** The packets from one START on, and the codec it announced. */
  datatype Session = Session(codec: nat, payloads: seq<seq<byte>>)

  /** The last START or STOP is a START, of an enabled stream and with a codec that can be recorded. */
  predicate Armed(cfg: Config, inputs: seq<Input>) {
    inputs != [] &&
    match Last(inputs).ev
    case Start(codec, _) => cfg.enabled && (codec == 0 || codec == 1)
    case Stop(_) => false
    case Video(_, _) => Armed(cfg, Front(inputs))
  }

  /** The session going on: the non-empty payloads since the last START, if that one arms. */
  function Current(cfg: Config, inputs: seq<Input>): Session {
    if inputs == [] then Session(0, [])
    else
      match Last(inputs).ev
      case Start(codec, _) => Session(codec, [])
      case Stop(_) => Session(0, [])
      case Video(data, _) =>
        var before := Current(cfg, Front(inputs));
        if Armed(cfg, Front(inputs)) && data != [] then Session(before.codec, before.payloads + [data]) else before
  }

  /** The sessions that a START or STOP has ended. */
  function Ended(cfg: Config, inputs: seq<Input>): seq<Session> {
    if inputs == [] then []
    else if Last(inputs).ev.Video? then Ended(cfg, Front(inputs))
    else Ended(cfg, Front(inputs)) + [Current(cfg, Front(inputs))]
  }

  function Sessions(cfg: Config, inputs: seq<Input>): seq<Session> {
    Ended(cfg, inputs) + [Current(cfg, inputs)]
  }

  predicate Matches(e: Epoch, s: Session) {
    e.codec == s.codec && e.seen == s.payloads
  }

  predicate AllMatch(es: seq<Epoch>, ss: seq<Session>) {
    |es| == |ss| && forall i :: 0 <= i < |es| ==> Matches(es[i], ss[i])
  }

  lemma VideoIsSeen(cfg: Config, st: State, data: seq<byte>, at: Stamp, io: Io)
    requires |st.params| == 3
    ensures var r := OnVideo(cfg, st, data, at, io);
      && r.past == st.past && r.mode.Off? == st.mode.Off? && r.cur.codec == st.cur.codec
      && r.cur.seen == if st.mode.Off? || data == [] then st.cur.seen else st.cur.seen + [data]
  {
    if !st.mode.Off? && data != [] && st.mode.Recording? {
      RecordingShape(cfg, Analysed(st, data), data, at, io);
    }
    hide AbsorbAll, Nals, WhileRecording, HasKeyframe, Ready, PacedRequest, PlanFrom, TurnsOver;
  }

  /**
    In every run, with any failures, the packets processed are those of the sessions: none is passed
    over, whatever state its stream is in, and a stream is off exactly when no START has armed it.
   */
  lemma {:induction false} EpochsAreSessions(cfg: Config, inputs: seq<Input>)
    ensures var st := Run(cfg, inputs);
      && (st.mode.Off? <==> !Armed(cfg, inputs))
      && AllMatch(st.past + [st.cur], Sessions(cfg, inputs))
  {
    if inputs != [] {
      var st := Run(cfg, Front(inputs));
      EpochsAreSessions(cfg, Front(inputs));
      RunStep(cfg, inputs);
      hide Run, OnVideo, SendRequest;
      var last := Last(inputs);
      SessionsUnfold(cfg, inputs);
      match last.ev
      case Video(data, at) =>
        VideoIsSeen(cfg, st, data, at, last.io);
        SameSession(st.past, st.cur, OnVideo(cfg, st, data, at, last.io).cur,
                    Ended(cfg, inputs), Current(cfg, Front(inputs)), Current(cfg, inputs));
      case Start(codec, _) => NextSession(st, last.io, codec, Ended(cfg, Front(inputs)), Current(cfg, Front(inputs)));
      case Stop(_) => NextSession(st, last.io, 0, Ended(cfg, Front(inputs)), Current(cfg, Front(inputs)));
    }
  }

  lemma SessionsUnfold(cfg: Config, inputs: seq<Input>)
    requires inputs != []
    ensures Last(inputs).ev.Video? ==> Ended(cfg, inputs) == Ended(cfg, Front(inputs))
    ensures !Last(inputs).ev.Video? ==> Ended(cfg, inputs) == Ended(cfg, Front(inputs)) + [Current(cfg, Front(inputs))]
  {
  }

  lemma NextSession(st: State, io: Io, codec: nat, ended: seq<Session>, current: Session)
    requires AllMatch(st.past + [st.cur], ended + [current])
    ensures AllMatch(st.past + [CloseAll(st, io)] + [Epoch(codec, [], [])], ended + [current] + [Session(codec, [])])
  {
    var es, ss := st.past + [st.cur], ended + [current];
    assert es[|es| - 1] == st.cur && ss[|ss| - 1] == current;
    forall i | 0 <= i < |st.past| ensures Matches(st.past[i], ended[i]) {
      assert es[i] == st.past[i] && ss[i] == ended[i];
    }
  }

  lemma SameSession(past: seq<Epoch>, e: Epoch, f: Epoch, ended: seq<Session>, s: Session, t: Session)
    requires AllMatch(past + [e], ended + [s])
    ensures Matches(e, s) && |past| == |ended|
    ensures Matches(f, t) ==> AllMatch(past + [f], ended + [t])
  {
    var es, ss := past + [e], ended + [s];
    assert es[|es| - 1] == e && ss[|ss| - 1] == s;
    forall i | 0 <= i < |past| ensures Matches(past[i], ended[i]) {
      assert es[i] == past[i] && ss[i] == ended[i];
    }
  }

  /** The payloads of a session from the first that may start a file. */
  function FromFirstCut(s: Session): seq<seq<byte>> {
    s.payloads[FirstCut(s.codec, s.payloads)..]
  }

  /** The files of an epoch hold exactly the payloads of the session from there on. */
  predicate Records(e: Epoch, s: Session) {
    e.codec == s.codec && PacketsOf(e.closed) == FromFirstCut(s)
  }

  predicate AllRecorded(es: seq<Epoch>, ss: seq<Session>) {
    |es| == |ss| && forall i :: 0 <= i < |es| ==> Records(es[i], ss[i])
  }

  /**
    Without failures, at the end of the run: session by session, the files hold exactly the payloads
    received, from the first with a keyframe at which all parameter sets are known.
   */
  lemma SessionsAreRecorded(cfg: Config, inputs: seq<Input>)
    requires AllOk(inputs)
    ensures AllRecorded(FinalEpochs(Run(cfg, inputs), true), Sessions(cfg, inputs))
  {
    var st := Run(cfg, inputs);
    var es, ss := FinalEpochs(st, true), Sessions(cfg, inputs);
    RolloverLosesNothing(cfg, inputs);
    CloseIsComplete(st);
    EpochsAreSessions(cfg, inputs);
    SameSession(st.past, st.cur, CloseAll(st, ALL_OK), Ended(cfg, inputs), Current(cfg, inputs), Current(cfg, inputs));
    assert CloseAll(st, ALL_OK).seen == st.cur.seen && CloseAll(st, ALL_OK).codec == st.cur.codec;
    hide Run, Sessions, PacketsOf, CloseAll, FirstCut;
    forall i | 0 <= i < |es| ensures Records(es[i], ss[i]) {
      assert Complete(es[i]) && Matches(es[i], ss[i]);
    }
  }

  // ---------- which file a packet goes to ----------

  /** The packet may start a file: it holds a keyframe, and with it all parameter sets are known. */
  predicate Cuts(s: Session, data: seq<byte>) {
    CutAt(s.codec, s.payloads + [data], |s.payloads|)
  }

  /** Told from NAL types: it holds a keyframe, and each set the codec needs has come, in it or before. */
  lemma CutsIff(s: Session, data: seq<byte>)
    ensures Cuts(s, data) <==>
      && (s.codec == 0 || s.codec == 1)
      && (exists k :: 0 <= k < |Nals(data)| && KindOf(s.codec, Nals(data)[k]) == Keyframe)
      && (forall i :: 0 <= i < (if s.codec == 1 then 3 else 2) ==> HasCome(s.codec, i, s.payloads + [data]))
  {
    var seen := s.payloads + [data];
    var nals := AllNals(seen);
    assert seen[..|s.payloads| + 1] == seen && seen[|s.payloads|] == data;
    hide Nals, AllNals, KindOf, AbsorbAll;
    CacheHoldsLatest(s.codec, nals, 0);
    CacheHoldsLatest(s.codec, nals, 1);
    CacheHoldsLatest(s.codec, nals, 2);
    hide Keeps;
    forall i | 0 <= i < 3 ensures HasCome(s.codec, i, seen) <==> SetsAt(s.codec, seen, |s.payloads|)[i] != [] {
    }
  }

  /** A NAL of this kind that fits the limit is among those of the payloads. */
  predicate HasCome(codec: nat, i: nat, payloads: seq<seq<byte>>) {
    exists k :: 0 <= k < |AllNals(payloads)| && Keeps(codec, i, AllNals(payloads)[k])
  }

  lemma CutInState(cfg: Config, st: State, data: seq<byte>)
    requires FilesOk(st) && !st.mode.Off?
    ensures var now := Analysed(st, data);
      CutAt(st.cur.codec, st.cur.seen + [data], |st.cur.seen|) <==>
        HasKeyframe(st.cur.codec, Nals(data)) && Ready(st.cur.codec, now.params)
  {
    AnalysedOk(st, data);
    CutWhen(Analysed(st, data), data);
    hide AbsorbAll, Nals, HasKeyframe, Ready, CutAt, SetsAt, OpenOk, EpochOk;
  }

  lemma RecordingAfter(cfg: Config, st: State, data: seq<byte>, at: Stamp)
    requires FilesOk(st) && !st.mode.Off? && data != []
    ensures OnVideo(cfg, st, data, at, ALL_OK).mode.Recording? <==>
      st.mode.Recording? || CutAt(st.cur.codec, st.cur.seen + [data], |st.cur.seen|)
  {
    CutInState(cfg, st, data);
    hide AbsorbAll, Nals, HasKeyframe, Ready, CutAt, FilesOk, PacedRequest, PlanFrom, WhileRecording;
    if st.mode.Recording? {
      RecordingShape(cfg, Analysed(st, data), data, at, ALL_OK);
      hide TurnsOver;
    }
  }

  /**
    A packet of an armed stream, whatever has failed before it: when its own operations succeed it is
    the last packet of the open file exactly if a file was open or it may start one.
   */
  lemma PacketIsRecorded(cfg: Config, inputs: seq<Input>, data: seq<byte>, at: Stamp)
    requires Armed(cfg, inputs) && data != []
    ensures var before := Run(cfg, inputs).mode;
      var after := Run(cfg, inputs + [Input(Video(data, at), ALL_OK)]).mode;
      && (after.Recording? <==> before.Recording? || Cuts(Current(cfg, inputs), data))
      && (after.Recording? ==>
           && after.seg.packets != [] && after.seg.packets[|after.seg.packets| - 1] == data
           && End(after.seg) == |Current(cfg, inputs).payloads| + 1)
  {
    var all := inputs + [Input(Video(data, at), ALL_OK)];
    assert Front(all) == inputs && Last(all) == Input(Video(data, at), ALL_OK);
    RunStep(cfg, all);
    EpochsAreSessions(cfg, inputs);
    SameSession(Run(cfg, inputs).past, Run(cfg, inputs).cur, Run(cfg, inputs).cur,
                Ended(cfg, inputs), Current(cfg, inputs), Current(cfg, inputs));
    EveryFileIsAKeyframeRun(cfg, inputs);
    EveryFileIsAKeyframeRun(cfg, all);
    hide Run, Current, Ended, OnVideo, FilesOk;
    RecordingAfter(cfg, Run(cfg, inputs), data, at);
    VideoIsSeen(cfg, Run(cfg, inputs), data, at, ALL_OK);
    LastOfOpen(Run(cfg, all));
  }

  lemma LastOfOpen(st: State)
    requires FilesOk(st)
    ensures st.mode.Recording? ==>
      var seg := st.mode.seg;
      && seg.packets != [] && End(seg) == |st.cur.seen|
      && seg.packets[|seg.packets| - 1] == st.cur.seen[|st.cur.seen| - 1]
  {
    hide CutAt, SetsAt, EpochOk, EpochsOk;
  }

  // ---------- when a file is full ----------

  lemma {:induction false} RolloverHasStarted(cfg: Config, inputs: seq<Input>)
    ensures var m := Run(cfg, inputs).mode;
      m.Recording? && m.rollover ==> m.seg.start != 0
  {
    if inputs != [] {
      var st := Run(cfg, Front(inputs));
      var last := Last(inputs);
      RolloverHasStarted(cfg, Front(inputs));
      RunStep(cfg, inputs);
      hide Run;
      if last.ev.Video? && !st.mode.Off? && last.ev.data != [] {
        if st.mode.Recording? {
          RecordingShape(cfg, Analysed(st, last.ev.data), last.ev.data, last.ev.at, last.io);
          hide TurnsOver;
        }
        hide AbsorbAll, Nals, HasKeyframe, Ready, PacedRequest, PlanFrom, WhileRecording;
      }
    }
  }

  /** The packet may start a file, and `segment_sec` have passed since the open one was started. */
  predicate NextFileDue(cfg: Config, before: Mode, cuts: bool, wall: nat) {
    && cuts && before.Recording? && before.seg.start != 0
    && wall >= before.seg.start + cfg.segmentSec * 1000
  }

  /** What is left of a state behind a packet, by the outcomes of its file operations. */
  predicate Outcome(cfg: Config, before: State, cuts: bool, data: seq<byte>, at: Stamp, io: Io, after: State) {
    var stored := cfg.requireMount ==> io.mounted;
    var due := NextFileDue(cfg, before.mode, cuts, at.wall);
    var opens := if before.mode.Recording? then due else cuts;
    && (after.mode.Recording? <==>
          stored && (if opens then io.mkdirOk && io.openOk && io.headerOk && io.packetOk
                     else before.mode.Recording? && io.packetOk))
    && (after.mode.Recording? ==>
          if opens then after.mode.seg.start == at.wall && after.mode.seg.packets == [data]
          else after.mode.seg == before.mode.seg.(packets := before.mode.seg.packets + [data]))
    && after.cur.closed == before.cur.closed + (if stored && due && io.renameOk then [before.mode.seg] else [])
  }

  /**
    With a wall clock that never steps back, whatever fails before or now: which packets open a file,
    which are appended to the open one, when a file is kept as finished and when none is open.
   */
  lemma EveryOutcome(cfg: Config, inputs: seq<Input>, data: seq<byte>, at: Stamp, io: Io)
    requires Armed(cfg, inputs) && data != []
    requires WallClocked(inputs + [Input(Video(data, at), io)])
    ensures Outcome(cfg, Run(cfg, inputs), Cuts(Current(cfg, inputs), data), data, at, io,
                    Run(cfg, inputs + [Input(Video(data, at), io)]))
  {
    var all := inputs + [Input(Video(data, at), io)];
    var st := Run(cfg, inputs);
    assert Front(all) == inputs && Last(all) == Input(Video(data, at), io);
    RunStep(cfg, all);
    EpochsAreSessions(cfg, inputs);
    SameSession(st.past, st.cur, st.cur, Ended(cfg, inputs), Current(cfg, inputs), Current(cfg, inputs));
    EveryFileIsAKeyframeRun(cfg, inputs);
    StampsInRun(cfg, inputs);
    RolloverHasStarted(cfg, inputs);
    hide Run, Current, Ended, FilesOk, CutAt, WallClocked, OnVideo, Outcome, Spaced, AllSpaced, After;
    OutcomeInState(cfg, st, data, at, io);
  }

  lemma OutcomeInState(cfg: Config, st: State, data: seq<byte>, at: Stamp, io: Io)
    requires FilesOk(st) && !st.mode.Off? && data != []
    requires st.mode.Recording? ==> st.mode.seg.start <= at.wall < TWO_TO_THE_64
    requires st.mode.Recording? && st.mode.rollover ==>
      st.mode.seg.start != 0 && at.wall >= st.mode.seg.start + cfg.segmentSec * 1000
    ensures Outcome(cfg, st, CutAt(st.cur.codec, st.cur.seen + [data], |st.cur.seen|), data, at, io,
                    OnVideo(cfg, st, data, at, io))
  {
    CutInState(cfg, st, data);
    var now := Analysed(st, data);
    hide FilesOk, CutAt, AbsorbAll, Nals, HasKeyframe, Ready, WhileRecording, PacedRequest, PlanFrom;
    if st.mode.Recording? {
      ElapsedIsDifference(at.wall, st.mode.seg.start);
      RecordingShape(cfg, now, data, at, io);
    }
  }
}
