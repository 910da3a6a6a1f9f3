/**
  Which picture a request for the last frame shows (stream_server/src/stream.c, 364-520,
  stream_server/src/decoder.c, 650-655 and 940-1072, stream_server/src/zmq_bridge.c, 394-521).
  Decoders come and go with STREAM_START and STREAM_STOP, each counting its packets from zero; the
  cache of converted frames outlives them and compares counters, not decoders.
 */
module BgrPictures {
  import opened BgrFrames

  /** What a cached frame is compared by. */
  datatype Key = Key(
    streamId: nat, width: int, height: int, pts: nat, keyFrame: bool, space: nat, range: nat, format: nat)

  /** A decoded picture: its key, and what is not compared: its decoder, and which of all pictures it is. */
  datatype Picture = Picture(key: Key, decoder: nat, serial: nat)

  // ---------- the cache ----------

  /** The cache holds a frame that matches. */
  predicate Hits(cached: seq<Option<Picture>>, k: Key) {
    k.streamId < |cached| && cached[k.streamId].Some? && cached[k.streamId].value.key == k
  }

  predicate Decoded(last: Option<Picture>) {
    last.Some? && last.value.key.width > 0 && last.value.key.height > 0
  }

  /** The picture shown to a request that finds `last` as the last frame; `converts` is the outcome of a conversion. */
  function Shown(cached: seq<Option<Picture>>, last: Option<Picture>, converts: bool): Option<Picture> {
    if !Decoded(last) then None
    else if Hits(cached, last.value.key) then cached[last.value.key.streamId]
    else if converts then last
    else None
  }

  function Recached(cached: seq<Option<Picture>>, last: Option<Picture>, converts: bool): (r: seq<Option<Picture>>)
    ensures |r| == |cached|
  {
    if Decoded(last) && !Hits(cached, last.value.key) && converts && last.value.key.streamId < |cached|
    then cached[last.value.key.streamId := last]
    else cached
  }

  // ---------- streams and their decoders ----------

  /** A picture the decoder hands out: the packet it comes from, and what the frame says of itself. */
  datatype Output = Output(pts: nat, width: int, height: int, keyFrame: bool, format: nat)

  datatype Shot = Shot(out: Output, serial: nat)

  /** `packets` have been counted; `serials` says which picture each packet gave, so far. */
  datatype Decoder = Decoder(number: nat, packets: nat, serials: map<nat, nat>, first: nat)

  datatype Stream = Stream(space: nat, range: nat, decoder: Option<Decoder>, last: Option<Shot>)

  const IDLE := Stream(0, 0, None, None)

  datatype World = World(streams: seq<Stream>, cached: seq<Option<Picture>>, decoders: nat, serials: nat)

  datatype Event =
    | StreamStart(id: nat, space: nat, range: nat, created: bool)   // `created`: a decoder could be made
    | StreamStop(id: nat)
    | Video(id: nat, packets: nat, outputs: seq<Output>)
    | GetLatest(id: nat, converts: bool)

  /** One picture comes out; a decoder gives one for each packet at most. */
  function Emit(s: Stream, out: Output, serial: nat): Stream
    requires s.decoder.Some?
  {
    var d := s.decoder.value;
    if out.pts < d.packets && out.pts !in d.serials
    then s.(decoder := Some(d.(serials := d.serials[out.pts := serial])), last := Some(Shot(out, serial)))
    else s
  }

  /** All pictures of one call; only the last is kept. */
  function EmitAll(s: Stream, outputs: seq<Output>, serial: nat): (r: Stream)
    requires s.decoder.Some?
    ensures r.decoder.Some?
  {
    if outputs == [] then s
    else
      var n := |outputs| - 1;
      Emit(EmitAll(s, outputs[..n], serial), outputs[n], serial + n)
  }

  function StartStream(s: Stream, space: nat, range: nat, created: bool, number: nat, serial: nat): Stream {
    var informed := s.(space := space, range := range);
    if s.decoder.Some? || !created then informed
    else informed.(decoder := Some(Decoder(number, 0, map[], serial)))
  }

  function Decode(s: Stream, packets: nat, outputs: seq<Output>, serial: nat): Stream {
    if s.decoder.None? then s
    else
      var d := s.decoder.value;
      EmitAll(s.(decoder := Some(d.(packets := d.packets + packets))), outputs, serial)
  }

  /** The snapshot a request takes under the stream's lock. */
  function LastOf(w: World, id: nat): Option<Picture> {
    if id < |w.streams| && w.streams[id].last.Some? && w.streams[id].decoder.Some? then
      var s := w.streams[id];
      var out := s.last.value.out;
      Some(Picture(Key(id, out.width, out.height, out.pts, out.keyFrame, s.space, s.range, out.format),
                   s.decoder.value.number, s.last.value.serial))
    else None
  }

  function Step(w: World, e: Event): World {
    if e.id >= |w.streams| then w
    else
      var s := w.streams[e.id];
      match e
      case StreamStart(id, space, range, created) =>
        w.(streams := w.streams[id := StartStream(s, space, range, created, w.decoders, w.serials)],
           decoders := w.decoders + 1)
      case StreamStop(id) => w.(streams := w.streams[id := s.(decoder := None, last := None)])
      case Video(id, packets, outputs) =>
        w.(streams := w.streams[id := Decode(s, packets, outputs, w.serials)], serials := w.serials + |outputs|)
      case GetLatest(id, converts) => w.(cached := Recached(w.cached, LastOf(w, id), converts))
  }

  function IdleStreams(n: nat): (r: seq<Stream>)
    ensures |r| == n && forall i :: 0 <= i < n ==> r[i] == IDLE
  {
    seq(n, _ => IDLE)
  }

  function NoneCached(n: nat): (r: seq<Option<Picture>>)
    ensures |r| == n && forall i :: 0 <= i < n ==> r[i] == None
  {
    seq(n, _ => None)
  }

  function Run(streams: nat, slots: nat, events: seq<Event>): World {
    if events == [] then World(IdleStreams(streams), NoneCached(slots), 0, 0)
    else Step(Run(streams, slots, events[..|events| - 1]), events[|events| - 1])
  }

  // ---------- what every run keeps ----------

  /** Pictures of the decoder in use have the serials recorded, none older than the decoder; the last is one of them. */
  ghost predicate StreamOk(s: Stream, decoders: nat, serials: nat) {
    match s.decoder
    case None => s.last.None?
    case Some(d) =>
      && d.number < decoders && d.first <= serials
      && (forall p :: p in d.serials ==> p < d.packets && d.first <= d.serials[p] < serials)
      && (s.last.Some? ==> s.last.value.out.pts in d.serials
                           && d.serials[s.last.value.out.pts] == s.last.value.serial)
  }

  /** A cached picture of the decoder in use is that of its packet; any other is older than the decoder. */
  ghost predicate SlotOk(s: Stream, id: nat, c: Option<Picture>, decoders: nat, serials: nat) {
    c.Some? ==>
      && c.value.key.streamId == id && c.value.serial < serials && c.value.decoder < decoders
      && (s.decoder.Some? ==>
           if c.value.decoder == s.decoder.value.number
           then c.value.key.pts in s.decoder.value.serials
                && s.decoder.value.serials[c.value.key.pts] == c.value.serial
           else c.value.decoder < s.decoder.value.number && c.value.serial < s.decoder.value.first)
  }

  ghost predicate WorldOk(w: World) {
    && (forall id :: 0 <= id < |w.streams| ==> StreamOk(w.streams[id], w.decoders, w.serials))
    && (forall id :: 0 <= id < |w.streams| && id < |w.cached| ==>
          SlotOk(w.streams[id], id, w.cached[id], w.decoders, w.serials))
  }

  lemma LaterOk(s: Stream, id: nat, c: Option<Picture>, decoders: nat, serials: nat, moreDecoders: nat,
                moreSerials: nat)
    requires StreamOk(s, decoders, serials) && SlotOk(s, id, c, decoders, serials)
    requires decoders <= moreDecoders && serials <= moreSerials
    ensures StreamOk(s, moreDecoders, moreSerials) && SlotOk(s, id, c, moreDecoders, moreSerials)
  {
  }

  lemma EmitKeeps(s: Stream, id: nat, c: Option<Picture>, out: Output, decoders: nat, serial: nat)
    requires s.decoder.Some? && StreamOk(s, decoders, serial) && SlotOk(s, id, c, decoders, serial)
    ensures StreamOk(Emit(s, out, serial), decoders, serial + 1)
    ensures SlotOk(Emit(s, out, serial), id, c, decoders, serial + 1)
  {
  }

  lemma {:induction false} EmitAllKeeps(s: Stream, id: nat, c: Option<Picture>, outputs: seq<Output>, decoders: nat,
                                        serial: nat)
    requires s.decoder.Some? && StreamOk(s, decoders, serial) && SlotOk(s, id, c, decoders, serial)
    ensures StreamOk(EmitAll(s, outputs, serial), decoders, serial + |outputs|)
    ensures SlotOk(EmitAll(s, outputs, serial), id, c, decoders, serial + |outputs|)
  {
    hide StreamOk, SlotOk, Emit;
    if outputs != [] {
      var n := |outputs| - 1;
      EmitAllKeeps(s, id, c, outputs[..n], decoders, serial);
      EmitKeeps(EmitAll(s, outputs[..n], serial), id, c, outputs[n], decoders, serial + n);
    }
  }

  lemma DecodeKeeps(s: Stream, id: nat, c: Option<Picture>, packets: nat, outputs: seq<Output>, decoders: nat,
                    serial: nat)
    requires StreamOk(s, decoders, serial) && SlotOk(s, id, c, decoders, serial)
    ensures StreamOk(Decode(s, packets, outputs, serial), decoders, serial + |outputs|)
    ensures SlotOk(Decode(s, packets, outputs, serial), id, c, decoders, serial + |outputs|)
  {
    if s.decoder.None? {
      LaterOk(s, id, c, decoders, serial, decoders, serial + |outputs|);
    } else {
      var d := s.decoder.value;
      var more := s.(decoder := Some(d.(packets := d.packets + packets)));
      assert StreamOk(more, decoders, serial) && SlotOk(more, id, c, decoders, serial);
      hide StreamOk, SlotOk;
      EmitAllKeeps(more, id, c, outputs, decoders, serial);
    }
  }

  /** What happens to one stream, seen from its cache slot. */
  lemma StreamStepKeeps(w: World, e: Event, c: Option<Picture>)
    requires e.id < |w.streams| && StreamOk(w.streams[e.id], w.decoders, w.serials)
    requires SlotOk(w.streams[e.id], e.id, c, w.decoders, w.serials)
    ensures var r := Step(w, e);
      StreamOk(r.streams[e.id], r.decoders, r.serials) && SlotOk(r.streams[e.id], e.id, c, r.decoders, r.serials)
  {
    hide Decode;
    match e
    case Video(id, packets, outputs) =>
      DecodeKeeps(w.streams[id], id, c, packets, outputs, w.decoders, w.serials);
    case _ =>
  }

  lemma LastIsOk(w: World, id: nat)
    requires id < |w.streams| && StreamOk(w.streams[id], w.decoders, w.serials)
    ensures SlotOk(w.streams[id], id, LastOf(w, id), w.decoders, w.serials)
    ensures LastOf(w, id).Some? ==> LastOf(w, id).value.key.streamId == id
  {
  }

  lemma EmptySlotOk(s: Stream, id: nat, decoders: nat, serials: nat)
    ensures SlotOk(s, id, None, decoders, serials)
  {
  }

  lemma RequestKeeps(w: World, id: nat, converts: bool)
    requires WorldOk(w) && id < |w.streams|
    ensures WorldOk(w.(cached := Recached(w.cached, LastOf(w, id), converts)))
  {
    LastIsOk(w, id);
    hide StreamOk, SlotOk, LastOf, Decoded, Hits;
  }

  lemma WorldStepKeeps(w: World, e: Event)
    requires WorldOk(w)
    ensures WorldOk(Step(w, e))
  {
    if e.id >= |w.streams| {
    } else if e.GetLatest? {
      RequestKeeps(w, e.id, e.converts);
    } else {
      var r := Step(w, e);
      hide StreamOk, SlotOk, StartStream, Decode;
      forall id | 0 <= id < |w.streams|
        ensures StreamOk(r.streams[id], r.decoders, r.serials)
        ensures id < |w.cached| ==> SlotOk(r.streams[id], id, w.cached[id], r.decoders, r.serials)
      {
        var c := if id < |w.cached| then w.cached[id] else None;
        EmptySlotOk(w.streams[id], id, w.decoders, w.serials);
        if id == e.id {
          StreamStepKeeps(w, e, c);
        } else {
          LaterOk(w.streams[id], id, c, w.decoders, w.serials, r.decoders, r.serials);
        }
      }
    }
  }

  lemma {:induction false} EveryWorldIsOk(streams: nat, slots: nat, events: seq<Event>)
    ensures WorldOk(Run(streams, slots, events))
  {
    if events != [] {
      EveryWorldIsOk(streams, slots, events[..|events| - 1]);
      hide WorldOk, Step;
      WorldStepKeeps(Run(streams, slots, events[..|events| - 1]), events[|events| - 1]);
    }
  }

  // ---------- when the picture shown is the last one ----------

  /** The request finds a cached frame that matches and comes from an earlier decoder of the stream. */
  predicate MeetsOld(w: World, id: nat) {
    && Decoded(LastOf(w, id)) && Hits(w.cached, LastOf(w, id).value.key)
    && w.cached[id].value.decoder < LastOf(w, id).value.decoder
  }

  predicate ShowsLast(w: World, id: nat, converts: bool) {
    Shown(w.cached, LastOf(w, id), converts) == LastOf(w, id)
  }

  lemma ShowsLastIff(w: World, id: nat, converts: bool)
    requires WorldOk(w) && Shown(w.cached, LastOf(w, id), converts).Some?
    ensures ShowsLast(w, id, converts) <==> !MeetsOld(w, id)
    ensures MeetsOld(w, id) ==>
      Shown(w.cached, LastOf(w, id), converts).value.serial < LastOf(w, id).value.serial
  {
    LastIsOk(w, id);
    assert StreamOk(w.streams[id], w.decoders, w.serials);
    assert id < |w.cached| ==> SlotOk(w.streams[id], id, w.cached[id], w.decoders, w.serials);
  }

  /**
    In every run of decoders, pictures and requests, on any streams: a request that is answered is
    shown the picture decoded last exactly when it does not meet a cached frame of an earlier decoder
    with the same counter, flag, size, format and colours; when it does, it is shown an older picture.
   */
  lemma ReplyIsLastIff(streams: nat, slots: nat, events: seq<Event>, id: nat, converts: bool)
    requires Shown(Run(streams, slots, events).cached, LastOf(Run(streams, slots, events), id), converts).Some?
    ensures var w := Run(streams, slots, events);
      && (ShowsLast(w, id, converts) <==> !MeetsOld(w, id))
      && (MeetsOld(w, id) ==> Shown(w.cached, LastOf(w, id), converts).value.serial < LastOf(w, id).value.serial)
  {
    EveryWorldIsOk(streams, slots, events);
    hide Run, WorldOk, Shown, LastOf, ShowsLast, MeetsOld;
    ShowsLastIff(Run(streams, slots, events), id, converts);
  }

  /** Every request of the run that is answered is shown the last picture. */
  predicate AlwaysLast(streams: nat, slots: nat, events: seq<Event>) {
    events == [] ||
    (var front := events[..|events| - 1];
     var e := events[|events| - 1];
     var w := Run(streams, slots, front);
     && AlwaysLast(streams, slots, front)
     && (e.GetLatest? && Shown(w.cached, LastOf(w, e.id), e.converts).Some? ==> ShowsLast(w, e.id, e.converts)))
  }

  predicate NeverMeetsOld(streams: nat, slots: nat, events: seq<Event>) {
    events == [] ||
    (var front := events[..|events| - 1];
     var e := events[|events| - 1];
     && NeverMeetsOld(streams, slots, front)
     && (e.GetLatest? ==> !MeetsOld(Run(streams, slots, front), e.id)))
  }

  lemma MeetingIsAnswered(w: World, id: nat, converts: bool)
    requires MeetsOld(w, id)
    ensures Shown(w.cached, LastOf(w, id), converts).Some?
  {
  }

  /** Over whole runs: all answers are the last picture exactly when no request meets such a frame. */
  lemma {:induction false} AllRepliesLastIff(streams: nat, slots: nat, events: seq<Event>)
    ensures AlwaysLast(streams, slots, events) <==> NeverMeetsOld(streams, slots, events)
  {
    if events != [] {
      var front := events[..|events| - 1];
      var e := events[|events| - 1];
      AllRepliesLastIff(streams, slots, front);
      hide Run, Shown, LastOf, ShowsLast, MeetsOld;
      var w := Run(streams, slots, front);
      if e.GetLatest? {
        if MeetsOld(w, e.id) { MeetingIsAnswered(w, e.id, e.converts); }
        if Shown(w.cached, LastOf(w, e.id), e.converts).Some? {
          ReplyIsLastIff(streams, slots, front, e.id, e.converts);
        }
      }
    }
  }

  // ---------- one decoder ----------

  /** No decoder of the stream is ever stopped. */
  predicate NeverStopped(events: seq<Event>, id: nat) {
    forall i :: 0 <= i < |events| ==> !(events[i].StreamStop? && events[i].id == id)
  }

  /** All cached pictures of the stream come from its decoder in use. */
  predicate OneDecoder(w: World, id: nat) {
    id < |w.streams| && id < |w.cached| && w.cached[id].Some? ==>
      w.streams[id].decoder.Some? && w.cached[id].value.decoder == w.streams[id].decoder.value.number
  }

  lemma {:induction false} EmitAllKeepsNumber(s: Stream, outputs: seq<Output>, serial: nat)
    requires s.decoder.Some?
    ensures EmitAll(s, outputs, serial).decoder.value.number == s.decoder.value.number
  {
    if outputs != [] {
      EmitAllKeepsNumber(s, outputs[..|outputs| - 1], serial);
    }
  }

  lemma StepKeepsOneDecoder(w: World, e: Event, id: nat)
    requires WorldOk(w) && OneDecoder(w, id) && !(e.StreamStop? && e.id == id)
    ensures OneDecoder(Step(w, e), id)
  {
    if e.id < |w.streams| {
      LastIsOk(w, e.id);
      if e.Video? && w.streams[e.id].decoder.Some? {
        var s := w.streams[e.id];
        var d := s.decoder.value;
        EmitAllKeepsNumber(s.(decoder := Some(d.(packets := d.packets + e.packets))), e.outputs, w.serials);
      }
      hide EmitAll, WorldOk;
    }
  }

  /** Counters never repeat within a decoder: while a stream is not stopped its requests show the last picture. */
  lemma {:induction false} OneDecoderShowsLast(streams: nat, slots: nat, events: seq<Event>, id: nat)
    requires NeverStopped(events, id)
    ensures OneDecoder(Run(streams, slots, events), id) && !MeetsOld(Run(streams, slots, events), id)
  {
    if events != [] {
      var front := events[..|events| - 1];
      OneDecoderShowsLast(streams, slots, front, id);
      EveryWorldIsOk(streams, slots, front);
      hide WorldOk, MeetsOld, Step, OneDecoder;
      StepKeepsOneDecoder(Run(streams, slots, front), events[|events| - 1], id);
    }
    OneDecoderMeetsNone(Run(streams, slots, events), id);
  }

  lemma OneDecoderMeetsNone(w: World, id: nat)
    requires OneDecoder(w, id)
    ensures !MeetsOld(w, id)
  {
  }

  // ---------- a picture of an earlier decoder ----------

  const FIRST := Output(0, 64, 48, true, 1)

  /** A stream starts, one picture is decoded, requested, and the stream stops. */
  function OneStream(id: nat): seq<Event> {
    [StreamStart(id, 1, 0, true), Video(id, 1, [FIRST]), GetLatest(id, true), StreamStop(id)]
  }

  /** The same start again, and its first picture. */
  function Restart(id: nat): seq<Event> {
    [StreamStart(id, 1, 0, true), Video(id, 1, [FIRST])]
  }

  lemma RunSnoc(streams: nat, slots: nat, events: seq<Event>, e: Event)
    ensures Run(streams, slots, events + [e]) == Step(Run(streams, slots, events), e)
  {
    assert (events + [e])[..|events|] == events;
  }

  lemma FirstPicture(w: World, id: nat)
    requires id < |w.streams| && w.streams[id].decoder.None? && w.streams[id].last.None?
    ensures var r := Step(Step(w, StreamStart(id, 1, 0, true)), Video(id, 1, [FIRST]));
      && |r.streams| == |w.streams| && r.cached == w.cached
      && r.decoders == w.decoders + 1 && r.serials == w.serials + 1
      && LastOf(r, id) == Some(Picture(Key(id, 64, 48, 0, true, 1, 0, 1), w.decoders, w.serials))
  {
    var s := StartStream(w.streams[id], 1, 0, true, w.decoders, w.serials);
    EmitOne(s.(decoder := Some(s.decoder.value.(packets := 1))), FIRST, w.serials);
    hide EmitAll;
  }

  lemma EmitOne(s: Stream, out: Output, serial: nat)
    requires s.decoder.Some?
    ensures EmitAll(s, [out], serial) == Emit(s, out, serial)
  {
    assert [out][..0] == [];
  }

  /** The request after a restart is shown the picture from before it, although another one has been decoded. */
  lemma OldPictureShown(streams: nat, slots: nat, id: nat, converts: bool)
    requires id < streams && id < slots
    ensures var w := Run(streams, slots, OneStream(id) + Restart(id));
      && MeetsOld(w, id)
      && LastOf(w, id).Some? && LastOf(w, id).value.serial == 1
      && Shown(w.cached, LastOf(w, id), converts).Some?
      && Shown(w.cached, LastOf(w, id), converts).value.serial == 0
  {
    var a := OneStream(id);
    var b := Restart(id);
    var none: seq<Event> := [];
    assert a == none + [a[0]] + [a[1]] + [a[2]] + [a[3]];
    assert a + b == a + [b[0]] + [b[1]];
    RunSnoc(streams, slots, none, a[0]);
    RunSnoc(streams, slots, none + [a[0]], a[1]);
    RunSnoc(streams, slots, none + [a[0]] + [a[1]], a[2]);
    RunSnoc(streams, slots, none + [a[0]] + [a[1]] + [a[2]], a[3]);
    RunSnoc(streams, slots, a, b[0]);
    RunSnoc(streams, slots, a + [b[0]], b[1]);
    FirstPicture(Run(streams, slots, none), id);
    FirstPicture(Run(streams, slots, a), id);
  }
}
