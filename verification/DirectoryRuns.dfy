/**
  Which finalised files of a run are still in the directory at its end
  (stream_server/src/compressed_recorder.c, 484-562 and 853-898).
 */
module DirectoryRuns {
  import opened Bytes
  import opened AnnexB
  import opened ParamSets
  import opened SegmentSpec
  import opened SegmentRuns
  import opened PacingRuns
  import opened SegmentInputs
  import opened Directory

  // ---------- starts of files over a run ----------

  ghost predicate Before(e: Epoch, t: nat) {
    forall k :: 0 <= k < |e.closed| ==> e.closed[k].start <= t
  }

  ghost predicate AllBefore(es: seq<Epoch>, t: nat) {
    forall i :: 0 <= i < |es| ==> Before(es[i], t)
  }

  /** Files of a later epoch start no earlier than those of an earlier one. */
  ghost predicate InOrder(es: seq<Epoch>) {
    forall i, j, k :: 0 <= i < j < |es| && 0 <= k < |es[j].closed| ==> Before(es[i], es[j].closed[k].start)
  }

  ghost predicate TimesOk(st: State, now: nat) {
    && InOrder(st.past + [st.cur])
    && AllBefore(st.past + [st.cur], now)
    && (FileOpen(st) ==> AllBefore(st.past, st.mode.seg.start) && st.mode.seg.start <= now)
  }

  lemma InOrderSnoc(es: seq<Epoch>, e: Epoch)
    ensures InOrder(es + [e]) <==> InOrder(es) && forall k :: 0 <= k < |e.closed| ==> AllBefore(es, e.closed[k].start)
  {
    var all := es + [e];
    assert all[|es|] == e;
    assert forall i :: 0 <= i < |es| ==> all[i] == es[i];
    hide Before;
  }

  lemma AllBeforeSnoc(es: seq<Epoch>, e: Epoch, t: nat)
    ensures AllBefore(es + [e], t) <==> AllBefore(es, t) && Before(e, t)
  {
    var all := es + [e];
    assert all[|es|] == e;
    assert forall i :: 0 <= i < |es| ==> all[i] == es[i];
    hide Before;
  }

  lemma AllBeforeLater(es: seq<Epoch>, t: nat, u: nat)
    requires AllBefore(es, t) && t <= u
    ensures AllBefore(es, u)
  {
  }

  /** A segment that was open joins its epoch and keeps the order. */
  lemma CloseKeepsTimes(st: State, io: Io, now: nat)
    requires TimesOk(st, now)
    ensures InOrder(st.past + [CloseAll(st, io)]) && AllBefore(st.past + [CloseAll(st, io)], now)
  {
    var e := CloseAll(st, io);
    InOrderSnoc(st.past, st.cur);
    InOrderSnoc(st.past, e);
    AllBeforeSnoc(st.past, st.cur, now);
    AllBeforeSnoc(st.past, e, now);
    hide InOrder, AllBefore;
  }

  lemma EmptyEpochKeepsTimes(es: seq<Epoch>, codec: nat, now: nat)
    requires InOrder(es) && AllBefore(es, now)
    ensures InOrder(es + [Epoch(codec, [], [])]) && AllBefore(es + [Epoch(codec, [], [])], now)
  {
    InOrderSnoc(es, Epoch(codec, [], []));
    AllBeforeSnoc(es, Epoch(codec, [], []), now);
    hide InOrder, AllBefore;
  }

  /** What a video packet can do to the files of the epoch and to the open one. */
  lemma VideoShape(cfg: Config, st: State, data: seq<byte>, at: Stamp, io: Io)
    requires |st.params| == 3
    ensures var r := OnVideo(cfg, st, data, at, io);
      && r.past == st.past
      && (r.cur.closed == st.cur.closed || (st.mode.Recording? && r.cur.closed == st.cur.closed + [st.mode.seg]))
      && (FileOpen(r) ==> r.mode.seg.start == at.wall || (FileOpen(st) && r.mode.seg.start == st.mode.seg.start))
  {
    PastUnchanged(cfg, st, data, at, io);
    if !st.mode.Off? && data != [] && st.mode.Recording? {
      RecordingShape(cfg, Analysed(st, data), data, at, io);
    }
    hide AbsorbAll, Nals, WhileRecording, HasKeyframe, Ready, PacedRequest, PlanFrom, TurnsOver;
  }

  lemma VideoKeepsTimes(cfg: Config, st: State, data: seq<byte>, at: Stamp, io: Io, now: nat)
    requires |st.params| == 3 && TimesOk(st, now) && now <= at.wall
    ensures TimesOk(OnVideo(cfg, st, data, at, io), at.wall)
  {
    VideoShape(cfg, st, data, at, io);
    var r := OnVideo(cfg, st, data, at, io);
    hide OnVideo;
    InOrderSnoc(st.past, st.cur);
    InOrderSnoc(st.past, r.cur);
    AllBeforeSnoc(st.past, st.cur, now);
    AllBeforeSnoc(st.past, r.cur, at.wall);
    AllBeforeLater(st.past, now, at.wall);
    hide InOrder, AllBefore;
  }

  lemma {:induction false} TimesInRun(cfg: Config, inputs: seq<Input>)
    requires WallClocked(inputs)
    ensures TimesOk(Run(cfg, inputs), Now(inputs).wall)
  {
    if inputs != [] {
      var st := Run(cfg, Front(inputs));
      var now := Now(Front(inputs)).wall;
      var io := Last(inputs).io;
      var wall := Now(inputs).wall;
      TimesInRun(cfg, Front(inputs));
      RunStep(cfg, inputs);
      hide Run, OnVideo, SendRequest;
      match Last(inputs).ev
      case Video(data, at) => VideoKeepsTimes(cfg, st, data, at, io, now);
      case Start(codec, _) => NextEpochKeepsTimes(st, io, codec, now, wall);
      case Stop(_) => NextEpochKeepsTimes(st, io, 0, now, wall);
    }
  }

  lemma NextEpochKeepsTimes(st: State, io: Io, codec: nat, now: nat, wall: nat)
    requires TimesOk(st, now) && now <= wall
    ensures var es := st.past + [CloseAll(st, io)] + [Epoch(codec, [], [])];
      InOrder(es) && AllBefore(es, wall)
  {
    CloseKeepsTimes(st, io, now);
    hide *;
    AllBeforeLater(st.past + [CloseAll(st, io)], now, wall);
    EmptyEpochKeepsTimes(st.past + [CloseAll(st, io)], codec, wall);
  }

  // ---------- names over a run ----------

  function LastOf(e: Epoch): Segment
    requires e.closed != []
  {
    e.closed[|e.closed| - 1]
  }

  /** No epoch's first file has the name of an earlier epoch's last file. */
  ghost predicate EpochsApart(es: seq<Epoch>) {
    forall i, j :: 0 <= i < j < |es| && es[i].closed != [] && es[j].closed != [] ==>
      NameFor(es[i].codec, LastOf(es[i])) != NameFor(es[j].codec, es[j].closed[0])
  }

  lemma {:induction false} FilesOfAt(codec: nat, closed: seq<Segment>, k: nat)
    ensures |FilesOf(codec, closed)| == |closed|
    ensures k < |closed| ==> FilesOf(codec, closed)[k] == FileFor(codec, closed[k])
  {
    if closed != [] {
      FilesOfAt(codec, closed[..|closed| - 1], k);
    }
  }

  /** The files of two series are distinct together exactly when each is and they share no name. */
  lemma DistinctAppend(xs: seq<File>, ys: seq<File>)
    ensures Distinct(xs + ys) <==>
      Distinct(xs) && Distinct(ys) && NamesApart(xs, ys)
  {
    var all := xs + ys;
    assert forall i :: 0 <= i < |xs| ==> all[i] == xs[i];
    assert forall j :: 0 <= j < |ys| ==> all[|xs| + j] == ys[j];
    assert forall j :: |xs| <= j < |all| ==> all[j] == ys[j - |xs|];
  }

  ghost predicate HasName(es: seq<Epoch>, name: Name) {
    exists i, k :: 0 <= i < |es| && 0 <= k < |es[i].closed| && NameFor(es[i].codec, es[i].closed[k]) == name
  }

  ghost predicate Listed(files: seq<File>, name: Name) {
    exists n :: 0 <= n < |files| && files[n].name == name
  }

  lemma ListedAppend(xs: seq<File>, ys: seq<File>, name: Name)
    ensures Listed(xs + ys, name) <==> Listed(xs, name) || Listed(ys, name)
  {
    var all := xs + ys;
    assert forall i :: 0 <= i < |xs| ==> all[i] == xs[i];
    assert forall j :: 0 <= j < |ys| ==> all[|xs| + j] == ys[j];
  }

  lemma HasNameSnoc(es: seq<Epoch>, e: Epoch, name: Name)
    ensures HasName(es + [e], name) <==>
      HasName(es, name) || exists k :: 0 <= k < |e.closed| && NameFor(e.codec, e.closed[k]) == name
  {
    var all := es + [e];
    assert all[|es|] == e;
    assert forall i :: 0 <= i < |es| ==> all[i] == es[i];
  }

  lemma {:induction false} ListedIff(es: seq<Epoch>, name: Name)
    ensures Listed(FilesOfAll(es), name) <==> HasName(es, name)
  {
    if es != [] {
      var front := es[..|es| - 1];
      var last := es[|es| - 1];
      assert es == front + [last];
      ListedIff(front, name);
      ListedAppend(FilesOfAll(front), FilesOf(last.codec, last.closed), name);
      HasNameSnoc(front, last, name);
      hide HasName;
      forall k ensures |FilesOf(last.codec, last.closed)| == |last.closed| &&
        (0 <= k < |last.closed| ==> FilesOf(last.codec, last.closed)[k] == FileFor(last.codec, last.closed[k]))
      {
        FilesOfAt(last.codec, last.closed, if k >= 0 then k else 0);
      }
    }
  }

  /** Within an epoch the last file is in a later second than the others, the first in an earlier one. */
  lemma EndsAreExtreme(cfg: Config, closed: seq<Segment>, k: nat)
    requires cfg.Valid() && Spaced(cfg, closed) && k < |closed|
    ensures k == |closed| - 1 || closed[k].start / 1000 < closed[|closed| - 1].start / 1000
    ensures k == 0 || closed[0].start / 1000 < closed[k].start / 1000
  {
    assert k < |closed| - 1 ==> closed[k].start + SegmentMs(cfg) <= closed[|closed| - 1].start;
    assert 0 < k ==> closed[0].start + SegmentMs(cfg) <= closed[k].start;
  }

  /** Files of two epochs have the same name only if they are the last of the one and the first of the other. */
  lemma OnlyNeighboursClash(cfg: Config, e: Epoch, f: Epoch, k: nat, m: nat)
    requires cfg.Valid() && Spaced(cfg, e.closed) && Spaced(cfg, f.closed)
    requires k < |e.closed| && m < |f.closed|
    requires forall n :: 0 <= n < |f.closed| ==> Before(e, f.closed[n].start)
    requires NameFor(e.codec, e.closed[k]) == NameFor(f.codec, f.closed[m])
    ensures NameFor(e.codec, LastOf(e)) == NameFor(f.codec, f.closed[0])
  {
    EndsAreExtreme(cfg, e.closed, k);
    EndsAreExtreme(cfg, f.closed, m);
    assert Before(e, f.closed[0].start);
    assert LastOf(e).start <= f.closed[0].start;
  }

  lemma SpacedAreDistinct(cfg: Config, codec: nat, closed: seq<Segment>)
    requires cfg.Valid() && Spaced(cfg, closed)
    ensures Distinct(FilesOf(codec, closed))
  {
    FilesOfAt(codec, closed, 0);
    forall i, j | 0 <= i < j < |closed|
      ensures FilesOf(codec, closed)[i].name != FilesOf(codec, closed)[j].name
    {
      FilesOfAt(codec, closed, i);
      FilesOfAt(codec, closed, j);
      assert closed[i].start + SegmentMs(cfg) <= closed[j].start;
    }
  }

  lemma InOrderFront(es: seq<Epoch>)
    requires es != [] && InOrder(es)
    ensures InOrder(es[..|es| - 1])
  {
    hide Before;
  }

  ghost predicate ApartFrom(es: seq<Epoch>, e: Epoch) {
    forall i :: 0 <= i < |es| && es[i].closed != [] && e.closed != [] ==>
      NameFor(es[i].codec, LastOf(es[i])) != NameFor(e.codec, e.closed[0])
  }

  lemma EpochsApartSnoc(es: seq<Epoch>, e: Epoch)
    ensures EpochsApart(es + [e]) <==> EpochsApart(es) && ApartFrom(es, e)
  {
    var all := es + [e];
    assert all[|es|] == e;
    assert forall i :: 0 <= i < |es| ==> all[i] == es[i];
    hide NameFor, LastOf;
  }

  ghost predicate SharesNoName(es: seq<Epoch>, e: Epoch) {
    forall m :: 0 <= m < |e.closed| ==> !HasName(es, NameFor(e.codec, e.closed[m]))
  }

  /** The last epoch's files share no name with earlier ones exactly when its first has no earlier last one's name. */
  lemma SharedNameIff(cfg: Config, es: seq<Epoch>, e: Epoch)
    requires cfg.Valid() && AllSpaced(cfg, es) && Spaced(cfg, e.closed) && InOrder(es + [e])
    ensures SharesNoName(es, e) <==> ApartFrom(es, e)
  {
    InOrderSnoc(es, e);
    hide InOrder, NameFor;
    forall i, k, m | 0 <= i < |es| && 0 <= k < |es[i].closed| && 0 <= m < |e.closed|
      && NameFor(es[i].codec, es[i].closed[k]) == NameFor(e.codec, e.closed[m])
      ensures NameFor(es[i].codec, LastOf(es[i])) == NameFor(e.codec, e.closed[0])
    {
      assert forall n :: 0 <= n < |e.closed| ==> AllBefore(es, e.closed[n].start);
      OnlyNeighboursClash(cfg, es[i], e, k, m);
    }
    forall i | 0 <= i < |es| && es[i].closed != [] && e.closed != []
      && NameFor(es[i].codec, LastOf(es[i])) == NameFor(e.codec, e.closed[0])
      ensures HasName(es, NameFor(e.codec, e.closed[0]))
    {
      var k := |es[i].closed| - 1;
      assert NameFor(es[i].codec, es[i].closed[k]) == NameFor(e.codec, e.closed[0]);
    }
  }

  lemma {:induction false} DistinctIffApart(cfg: Config, es: seq<Epoch>)
    requires cfg.Valid() && AllSpaced(cfg, es) && InOrder(es)
    ensures Distinct(FilesOfAll(es)) <==> EpochsApart(es)
  {
    if es != [] {
      var front := es[..|es| - 1];
      var e := es[|es| - 1];
      assert es == front + [e];
      InOrderFront(es);
      DistinctIffApart(cfg, front);
      EpochsApartSnoc(front, e);
      SharedNameIff(cfg, front, e);
      SpacedAreDistinct(cfg, e.codec, e.closed);
      SharedFiles(front, e);
      hide EpochsApart, Distinct, InOrder, HasName, AllSpaced, Spaced, SharesNoName, NamesApart, ApartFrom,
           FilesOfAll, FilesOf;
      FilesOfAllSnoc(front, e);
      DistinctAppend(FilesOfAll(front), FilesOf(e.codec, e.closed));
    }
  }

  ghost predicate NamesApart(xs: seq<File>, ys: seq<File>) {
    forall i, j :: 0 <= i < |xs| && 0 <= j < |ys| ==> xs[i].name != ys[j].name
  }

  lemma NamesApartIff(xs: seq<File>, ys: seq<File>)
    ensures NamesApart(xs, ys) <==> forall j :: 0 <= j < |ys| ==> !Listed(xs, ys[j].name)
  {
  }

  lemma SharedFiles(es: seq<Epoch>, e: Epoch)
    ensures NamesApart(FilesOfAll(es), FilesOf(e.codec, e.closed)) <==> SharesNoName(es, e)
  {
    var xs := FilesOfAll(es);
    var ys := FilesOf(e.codec, e.closed);
    NamesApartIff(xs, ys);
    FilesOfAt(e.codec, e.closed, 0);
    hide HasName, Listed, NamesApart, FilesOf, FilesOfAll;
    forall m | 0 <= m < |e.closed|
      ensures Listed(xs, ys[m].name) <==> HasName(es, NameFor(e.codec, e.closed[m]))
    {
      FilesOfAt(e.codec, e.closed, m);
      ListedIff(es, NameFor(e.codec, e.closed[m]));
    }
  }

  /**
    With a wall clock that never steps back, and any failures: every file finalised in the run is in
    the directory with its own bytes exactly when no epoch's first file has the name (the second and
    the codec) of an earlier epoch's last one.
   */
  lemma FilesSurviveIff(cfg: Config, inputs: seq<Input>, renameOk: bool)
    requires cfg.Valid() && WallClocked(inputs)
    ensures var es := FinalEpochs(Run(cfg, inputs), renameOk);
      OnDisk(Renamed(FilesOfAll(es)), FilesOfAll(es)) <==> EpochsApart(es)
  {
    var st := Run(cfg, inputs);
    var es := FinalEpochs(st, renameOk);
    TimesInRun(cfg, inputs);
    StampsInRun(cfg, inputs);
    CloseKeepsTimes(st, ALL_OK.(renameOk := renameOk), Now(inputs).wall);
    CloseAllSpaced(cfg, st, ALL_OK.(renameOk := renameOk), Now(inputs).wall);
    hide Run, CloseAll, TimesOk, StampsOk, InOrder, AllSpaced, FilesOfAll;
    DistinctIffApart(cfg, es);
    OnDiskIff(FilesOfAll(es));
  }

  /**
    Without failures the files of each session hold exactly the payloads received, from the first that
    may start a file, and all these files are in the directory exactly under the same condition.
   */
  lemma EveryPacketOnDiskIff(cfg: Config, inputs: seq<Input>)
    requires cfg.Valid() && WallClocked(inputs) && AllOk(inputs)
    ensures var es := FinalEpochs(Run(cfg, inputs), true);
      && AllRecorded(es, Sessions(cfg, inputs))
      && (OnDisk(Renamed(FilesOfAll(es)), FilesOfAll(es)) <==> EpochsApart(es))
  {
    FilesSurviveIff(cfg, inputs, true);
    hide Run, EpochsApart, OnDisk, AllRecorded;
    SessionsAreRecorded(cfg, inputs);
  }

  // ---------- an input on which a file is lost ----------

  function KeyUnits(x: byte): seq<Unit> {
    [Unit(4, [0x67, 1], 0), Unit(4, [0x68, 1], 0), Unit(4, [0x65, x], 0)]
  }

  /** A packet that may start a file: both parameter sets and an IDR unit. */
  function KeyPacket(x: byte): seq<byte> {
    Join(KeyUnits(x))
  }

  const KEY_SETS: seq<seq<byte>> := [START_CODE + [0x67, 1], START_CODE + [0x68, 1], []]

  lemma KeyPacketNals(x: byte)
    requires x != 0
    ensures Nals(KeyPacket(x)) == [[0x67, 1], [0x68, 1], [0x65, x]]
  {
    var us := KeyUnits(x);
    forall i | 0 <= i < |us| ensures WellFormed(us[i]) {
      assert |us[i].nal| == 2;
    }
    ScanOfJoin(us);
    hide Join, WellFormed;
    assert us[1..] == [us[1], us[2]] && us[1..][1..] == [us[2]] && us[1..][1..][1..] == [];
    assert NalsOf(us[1..][1..]) == [us[2].nal];
    assert NalsOf(us[1..]) == [us[1].nal] + [us[2].nal];
  }

  lemma KeyframeAmong(codec: nat, nals: seq<seq<byte>>, k: nat)
    requires k < |nals| && KindOf(codec, nals[k]) == Keyframe
    ensures HasKeyframe(codec, nals)
  {
  }

  lemma KeyPacketCuts(x: byte)
    requires x != 0
    ensures HasKeyframe(H264, Nals(KeyPacket(x)))
    ensures AbsorbAll(H264, NO_PARAMS, Nals(KeyPacket(x))) == KEY_SETS
    ensures Ready(H264, KEY_SETS)
  {
    KeyPacketNals(x);
    var nals: seq<seq<byte>> := [[0x67, 1], [0x68, 1], [0x65, x]];
    assert KindOf(H264, nals[2]) == Keyframe;
    assert AbsorbAll(H264, NO_PARAMS, []) == NO_PARAMS;
    hide Nals, KeyPacket, AbsorbAll, HasKeyframe;
    assert HasKeyframe(H264, nals) by { KeyframeAmong(H264, nals, 2); }
    AbsorbSnoc(H264, NO_PARAMS, [], nals[0]);
    AbsorbSnoc(H264, NO_PARAMS, [nals[0]], nals[1]);
    AbsorbSnoc(H264, NO_PARAMS, [nals[0], nals[1]], nals[2]);
    assert [] + [nals[0]] == [nals[0]];
    assert [nals[0]] + [nals[1]] == [nals[0], nals[1]];
    assert [nals[0], nals[1]] + [nals[2]] == nals;
  }

  function KeySegment(x: byte, at: Stamp): Segment {
    Segment(at.wall, KEY_SETS, 0, [KeyPacket(x)])
  }

  lemma KeyPacketOpens(cfg: Config, st: State, x: byte, at: Stamp)
    requires st.mode.Waiting? && st.cur == Epoch(H264, [], []) && st.params == NO_PARAMS && x != 0
    ensures var r := OnVideo(cfg, st, KeyPacket(x), at, ALL_OK);
      && r.past == st.past && r.cur == Epoch(H264, [KeyPacket(x)], [])
      && r.mode == Recording(KeySegment(x, at), false)
  {
    KeyPacketCuts(x);
    assert KeyPacket(x) != [] && [] + [KeyPacket(x)] == [KeyPacket(x)];
    hide KeyPacket, Nals, AbsorbAll, HasKeyframe, Ready, PlanFrom, WhileRecording;
  }

  /** START, one such packet and STOP leave an epoch with one file. */
  lemma OneFileEpoch(cfg: Config, st: State, x: byte, at: Stamp)
    requires cfg.enabled && st.mode.Off? && |st.params| == 3 && x != 0
    ensures var r1 := Step(cfg, st, Start(H264, at), ALL_OK);
      var r2 := Step(cfg, r1, Video(KeyPacket(x), at), ALL_OK);
      Step(cfg, r2, Stop(at), ALL_OK) ==
        State(st.past + [st.cur] + [Epoch(H264, [KeyPacket(x)], [KeySegment(x, at)])],
              Epoch(0, [], []), NO_PARAMS, Off, NO_IDR, 0)
  {
    hide OnVideo, KeyPacket, SendRequest;
    KeyPacketOpens(cfg, Step(cfg, st, Start(H264, at), ALL_OK), x, at);
    assert [] + [KeySegment(x, at)] == [KeySegment(x, at)];
  }

  function SecondInput(x: byte, at: Stamp): seq<Input> {
    [Input(Start(H264, at), ALL_OK), Input(Video(KeyPacket(x), at), ALL_OK), Input(Stop(at), ALL_OK)]
  }

  lemma RunThree(cfg: Config, inputs: seq<Input>, a: Input, b: Input, c: Input)
    ensures Run(cfg, inputs + [a, b, c]) ==
      Step(cfg, Step(cfg, Step(cfg, Run(cfg, inputs), a.ev, a.io), b.ev, b.io), c.ev, c.io)
  {
    var one, two, three := inputs + [a], inputs + [a, b], inputs + [a, b, c];
    assert Front(one) == inputs && Front(two) == one && Front(three) == two;
    RunStep(cfg, one);
    RunStep(cfg, two);
    RunStep(cfg, three);
    hide Run, Step;
  }

  /**
    Two epochs within one second, everything succeeding: the first file is replaced. Each epoch is
    complete on its own, but of the two files only the second is in the directory.
   */
  lemma FileReplacedInOneSecond(cfg: Config, at: Stamp)
    requires cfg.enabled
    ensures var inputs := SecondInput(1, at) + SecondInput(2, at);
      var es := FinalEpochs(Run(cfg, inputs), true);
      var files := FilesOfAll(es);
      && |files| == 2
      && files[0] == FileFor(H264, KeySegment(1, at)) && files[1] == FileFor(H264, KeySegment(2, at))
      && !OnDisk(Renamed(files), files)
      && Renamed(files) == map[files[1].name := files[1].bytes]
  {
    var first := SecondInput(1, at);
    var second := SecondInput(2, at);
    assert first == [] + [first[0], first[1], first[2]];
    RunThree(cfg, [], first[0], first[1], first[2]);
    OneFileEpoch(cfg, INITIAL, 1, at);
    assert second == [second[0], second[1], second[2]];
    RunThree(cfg, first, second[0], second[1], second[2]);
    OneFileEpoch(cfg, Run(cfg, first), 2, at);
    hide Run, Step, KeyPacket, KeySegment;
    TwoFiles(KeySegment(1, at), KeySegment(2, at), FinalEpochs(Run(cfg, first + second), true));
  }

  lemma FilesUpTo(es: seq<Epoch>, k: nat)
    requires k < |es|
    ensures es[k].closed == [] ==> FilesOfAll(es[..k + 1]) == FilesOfAll(es[..k])
    ensures |es[k].closed| == 1 ==>
      FilesOfAll(es[..k + 1]) == FilesOfAll(es[..k]) + [FileFor(es[k].codec, es[k].closed[0])]
  {
    var e := es[k];
    assert es[..k + 1][..k] == es[..k];
    hide FilesOf, FileFor;
    assert FilesOfAll(es[..k + 1]) == FilesOfAll(es[..k]) + FilesOf(e.codec, e.closed);
    hide FilesOfAll;
    if |e.closed| == 1 {
      FilesOfSnoc(e.codec, [], e.closed[0]);
      assert [] + [e.closed[0]] == e.closed;
    }
    NoFiles(e.codec);
  }

  lemma NoFiles(codec: nat)
    ensures FilesOf(codec, []) == [] && FilesOfAll([]) == []
  {
  }

  lemma TwoFilesListed(s: Segment, t: Segment, es: seq<Epoch>)
    requires |es| == 5 && es[0].closed == es[2].closed == es[4].closed == []
    requires es[1].codec == es[3].codec == H264 && es[1].closed == [s] && es[3].closed == [t]
    ensures FilesOfAll(es) == [FileFor(H264, s), FileFor(H264, t)]
  {
    hide FilesOfAll, FileFor;
    var none: seq<File> := [];
    assert FilesOfAll(es[..0]) == none by { NoFiles(H264); assert es[..0] == []; }
    FilesUpTo(es, 0);
    FilesUpTo(es, 1);
    assert FilesOfAll(es[..2]) == [FileFor(H264, s)];
    FilesUpTo(es, 2);
    FilesUpTo(es, 3);
    FilesUpTo(es, 4);
    assert es[..5] == es;
  }

  lemma TwoFiles(s: Segment, t: Segment, es: seq<Epoch>)
    requires |es| == 5 && es[0].closed == es[2].closed == es[4].closed == []
    requires es[1].codec == es[3].codec == H264 && es[1].closed == [s] && es[3].closed == [t]
    requires s.start == t.start
    ensures var files := FilesOfAll(es);
      && files == [FileFor(H264, s), FileFor(H264, t)]
      && !OnDisk(Renamed(files), files)
      && Renamed(files) == map[files[1].name := files[1].bytes]
  {
    TwoFilesListed(s, t, es);
    assert FileFor(H264, s).name == FileFor(H264, t).name;
    hide FilesOfAll, FileFor, Renamed, OnDisk;
    LastReplaces(FileFor(H264, s), FileFor(H264, t));
  }

  lemma LastReplaces(f: File, g: File)
    requires f.name == g.name
    ensures Renamed([f, g]) == map[g.name := g.bytes] && !OnDisk(Renamed([f, g]), [f, g])
  {
    RenamedSnoc([], f);
    RenamedSnoc([f], g);
    assert [] + [f] == [f] && [f] + [g] == [f, g];
  }
}
