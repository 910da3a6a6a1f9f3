/**
  Which picture a request must find, told from the events of its stream alone
  (stream_server/src/stream.c, 364-520, and stream_server/src/decoder.c, 940-1072).
 */
module PictureInputs {
  import opened BgrFrames
  import opened BgrPictures

  function Front(events: seq<Event>): seq<Event>
    requires events != []
  {
    events[..|events| - 1]
  }

  function Last(events: seq<Event>): Event
    requires events != []
  {
    events[|events| - 1]
  }

  /** A decoder could be made at a START since the last STOP. */
  predicate HasDecoder(events: seq<Event>, id: nat) {
    events != [] &&
    match Last(events)
    case StreamStart(i, _, _, created) => HasDecoder(Front(events), id) || (i == id && created)
    case StreamStop(i) => i != id && HasDecoder(Front(events), id)
    case _ => HasDecoder(Front(events), id)
  }

  /** Colour space and range of the last START; a STOP does not forget them. */
  function Colours(events: seq<Event>, id: nat): (nat, nat) {
    if events == [] then (0, 0)
    else
      match Last(events)
      case StreamStart(i, space, range, _) => if i == id then (space, range) else Colours(Front(events), id)
      case _ => Colours(Front(events), id)
  }

  /** Packets given to a decoder, and the pictures it has handed out, each with its place among all pictures. */
  datatype Outputs = Outputs(packets: nat, shots: seq<Shot>)

  /** The number of pictures that have come out of any stream. */
  function Serials(streams: nat, events: seq<Event>): nat {
    if events == [] then 0
    else
      Serials(streams, Front(events)) +
      match Last(events)
      case Video(i, _, outputs) => if i < streams then |outputs| else 0
      case _ => 0
  }

  function Numbered(outputs: seq<Output>, serial: nat): (shots: seq<Shot>)
    ensures |shots| == |outputs|
  {
    seq(|outputs|, k requires 0 <= k < |outputs| => Shot(outputs[k], serial + k))
  }

  /** What the decoder in use has been given and has handed out. */
  function Since(streams: nat, events: seq<Event>, id: nat): Outputs {
    if events == [] then Outputs(0, [])
    else
      var before := Since(streams, Front(events), id);
      match Last(events)
      case StreamStop(i) => if i == id then Outputs(0, []) else before
      case Video(i, packets, outputs) =>
        if i == id && HasDecoder(Front(events), id)
        then Outputs(before.packets + packets, before.shots + Numbered(outputs, Serials(streams, Front(events))))
        else before
      case _ => before
  }

  /** A decoder hands out one picture for each packet at most, and none before it has the packet. */
  predicate Plausible(o: Outputs) {
    && (forall k :: 0 <= k < |o.shots| ==> o.shots[k].out.pts < o.packets)
    && (forall j, k :: 0 <= j < k < |o.shots| ==> o.shots[j].out.pts != o.shots[k].out.pts)
  }

  predicate AlwaysPlausible(streams: nat, events: seq<Event>, id: nat) {
    Plausible(Since(streams, events, id)) && (events != [] ==> AlwaysPlausible(streams, Front(events), id))
  }

  /** The decoder knows exactly the pictures handed out, and the last of them is the last frame. */
  ghost predicate Follows(s: Stream, o: Outputs) {
    && s.decoder.Some?
    && s.decoder.value.packets == o.packets
    && (forall p :: p in s.decoder.value.serials <==> exists k :: 0 <= k < |o.shots| && o.shots[k].out.pts == p)
    && s.last == if o.shots == [] then None else Some(o.shots[|o.shots| - 1])
  }

  lemma EmitFollows(s: Stream, o: Outputs, out: Output, serial: nat)
    requires Follows(s, o)
    requires Plausible(Outputs(o.packets, o.shots + [Shot(out, serial)]))
    ensures Follows(Emit(s, out, serial), Outputs(o.packets, o.shots + [Shot(out, serial)]))
  {
    var more := o.shots + [Shot(out, serial)];
    assert more[|o.shots|].out == out;
    forall k | 0 <= k < |o.shots| ensures o.shots[k].out.pts != out.pts {
      assert more[k] == o.shots[k];
    }
    var r := Emit(s, out, serial);
    forall p ensures p in r.decoder.value.serials <==> exists k :: 0 <= k < |more| && more[k].out.pts == p {
      if exists k :: 0 <= k < |o.shots| && o.shots[k].out.pts == p {
        var k :| 0 <= k < |o.shots| && o.shots[k].out.pts == p;
        assert more[k].out.pts == p;
      }
    }
  }

  lemma {:induction false} EmitAllFollows(s: Stream, o: Outputs, outputs: seq<Output>, serial: nat)
    requires Follows(s, o)
    requires Plausible(Outputs(o.packets, o.shots + Numbered(outputs, serial)))
    ensures Follows(EmitAll(s, outputs, serial), Outputs(o.packets, o.shots + Numbered(outputs, serial)))
  {
    FollowsLast(s, o);
    hide Follows, Plausible, Emit;
    if outputs == [] {
      assert o.shots + Numbered(outputs, serial) == o.shots;
    } else {
      var n := |outputs| - 1;
      var most := o.shots + Numbered(outputs[..n], serial);
      var last := Shot(outputs[n], serial + n);
      NumberedSnoc(o.shots, outputs, serial);
      EmitAllLast(s, outputs, serial);
      hide Numbered, EmitAll;
      PlausiblePart(o.packets, most, last);
      EmitAllFollows(s, o, outputs[..n], serial);
      EmitFollows(EmitAll(s, outputs[..n], serial), Outputs(o.packets, most), outputs[n], serial + n);
    }
  }

  lemma EmitAllLast(s: Stream, outputs: seq<Output>, serial: nat)
    requires s.decoder.Some? && outputs != []
    ensures var n := |outputs| - 1;
      EmitAll(s, outputs, serial) == Emit(EmitAll(s, outputs[..n], serial), outputs[n], serial + n)
  {
    hide Emit;
  }

  lemma NumberedSnoc(shots: seq<Shot>, outputs: seq<Output>, serial: nat)
    requires outputs != []
    ensures var n := |outputs| - 1;
      shots + Numbered(outputs, serial)
        == shots + Numbered(outputs[..n], serial) + [Shot(outputs[n], serial + n)]
  {
  }

  lemma PlausiblePart(packets: nat, most: seq<Shot>, last: Shot)
    requires Plausible(Outputs(packets, most + [last]))
    ensures Plausible(Outputs(packets, most))
  {
    var all := most + [last];
    forall k | 0 <= k < |most| ensures most[k].out.pts < packets {
      assert all[k] == most[k];
    }
    forall j, k | 0 <= j < k < |most| ensures most[j].out.pts != most[k].out.pts {
      assert all[j] == most[j] && all[k] == most[k];
    }
  }

  /** The stream is in the state its events say. */
  ghost predicate AsTold(w: World, streams: nat, events: seq<Event>, id: nat) {
    && |w.streams| == streams && id < streams
    && w.serials == Serials(streams, events)
    && (w.streams[id].space, w.streams[id].range) == Colours(events, id)
    && (if HasDecoder(events, id) then Follows(w.streams[id], Since(streams, events, id))
        else w.streams[id].decoder.None? && w.streams[id].last.None? && Since(streams, events, id) == Outputs(0, []))
  }

  lemma {:induction false} StreamIsAsTold(streams: nat, slots: nat, events: seq<Event>, id: nat)
    requires id < streams && AlwaysPlausible(streams, events, id)
    ensures AsTold(Run(streams, slots, events), streams, events, id)
  {
    if events != [] {
      StreamIsAsTold(streams, slots, Front(events), id);
      hide Run, AsTold;
      StepAsTold(Run(streams, slots, Front(events)), streams, events, id);
    }
  }

  lemma StepAsTold(w: World, streams: nat, events: seq<Event>, id: nat)
    requires events != [] && AlwaysPlausible(streams, events, id)
    requires AsTold(w, streams, Front(events), id)
    ensures AsTold(Step(w, Last(events)), streams, events, id)
  {
    var e := Last(events);
    hide Follows, Plausible, Since, Colours, HasDecoder, Serials, AlwaysPlausible, Decode, StartStream, Recached;
    hide LastOf;
    if e.id != id {
      Elsewhere(streams, events, id);
    } else {
      match e
      case StreamStart(_, _, _, _) => StartAsTold(w, streams, events, id);
      case StreamStop(_) => StopTold(streams, events, id);
      case Video(_, _, _) => VideoAsTold(w, streams, events, id);
      case GetLatest(_, _) => RequestTold(streams, events, id);
    }
  }

  lemma Elsewhere(streams: nat, events: seq<Event>, id: nat)
    requires events != [] && Last(events).id != id
    ensures Since(streams, events, id) == Since(streams, Front(events), id)
    ensures HasDecoder(events, id) == HasDecoder(Front(events), id)
    ensures Colours(events, id) == Colours(Front(events), id)
    ensures Serials(streams, events) == Serials(streams, Front(events))
      + if Last(events).Video? && Last(events).id < streams then |Last(events).outputs| else 0
  {
  }

  lemma RequestTold(streams: nat, events: seq<Event>, id: nat)
    requires events != [] && Last(events).GetLatest?
    ensures Since(streams, events, id) == Since(streams, Front(events), id)
    ensures HasDecoder(events, id) == HasDecoder(Front(events), id)
    ensures Colours(events, id) == Colours(Front(events), id)
    ensures Serials(streams, events) == Serials(streams, Front(events))
  {
  }

  lemma StopTold(streams: nat, events: seq<Event>, id: nat)
    requires events != [] && Last(events) == StreamStop(id)
    ensures Since(streams, events, id) == Outputs(0, []) && !HasDecoder(events, id)
    ensures Colours(events, id) == Colours(Front(events), id)
    ensures Serials(streams, events) == Serials(streams, Front(events))
  {
  }

  lemma StartTold(streams: nat, events: seq<Event>, id: nat)
    requires events != [] && Last(events).StreamStart? && Last(events).id == id
    ensures Since(streams, events, id) == Since(streams, Front(events), id)
    ensures HasDecoder(events, id) == (HasDecoder(Front(events), id) || Last(events).created)
    ensures Colours(events, id) == (Last(events).space, Last(events).range)
    ensures Serials(streams, events) == Serials(streams, Front(events))
  {
  }

  lemma StartAsTold(w: World, streams: nat, events: seq<Event>, id: nat)
    requires events != [] && Last(events).StreamStart? && Last(events).id == id
    requires AsTold(w, streams, Front(events), id)
    ensures AsTold(Step(w, Last(events)), streams, events, id)
  {
    var e := Last(events);
    var s := w.streams[id];
    StartTold(streams, events, id);
    hide Follows, Since, Colours, HasDecoder, Serials;
    if HasDecoder(Front(events), id) {
      InformedFollows(s, Since(streams, Front(events), id), e.space, e.range);
    } else {
      MadeFollows(s, e.space, e.range, w);
    }
  }

  lemma VideoTold(streams: nat, events: seq<Event>, id: nat)
    requires events != [] && Last(events).Video? && Last(events).id == id < streams
    ensures HasDecoder(events, id) == HasDecoder(Front(events), id)
    ensures var before := Since(streams, Front(events), id);
      var e := Last(events);
      Since(streams, events, id) ==
        if HasDecoder(events, id)
        then Outputs(before.packets + e.packets,
                     before.shots + Numbered(e.outputs, Serials(streams, Front(events))))
        else before
    ensures Colours(events, id) == Colours(Front(events), id)
    ensures Serials(streams, events) == Serials(streams, Front(events)) + |Last(events).outputs|
  {
  }

  lemma VideoAsTold(w: World, streams: nat, events: seq<Event>, id: nat)
    requires events != [] && Last(events).Video? && Last(events).id == id
    requires AsTold(w, streams, Front(events), id) && AlwaysPlausible(streams, events, id)
    ensures AsTold(Step(w, Last(events)), streams, events, id)
  {
    var e := Last(events);
    var s := w.streams[id];
    assert Plausible(Since(streams, events, id));
    VideoTold(streams, events, id);
    hide Follows, Plausible, Since, Colours, HasDecoder, Serials, AlwaysPlausible, EmitAll;
    if HasDecoder(events, id) {
      FollowsLast(s, Since(streams, Front(events), id));
      DecodeFollows(s, Since(streams, Front(events), id), e.packets, e.outputs, w.serials);
      KeepsColours(s, e.packets, e.outputs, w.serials);
    }
  }

  lemma KeepsColours(s: Stream, packets: nat, outputs: seq<Output>, serial: nat)
    ensures var r := Decode(s, packets, outputs, serial);
      r.space == s.space && r.range == s.range
  {
    if s.decoder.Some? {
      var d := s.decoder.value;
      AllKeepColours(s.(decoder := Some(d.(packets := d.packets + packets))), outputs, serial);
    }
  }

  lemma {:induction false} AllKeepColours(s: Stream, outputs: seq<Output>, serial: nat)
    requires s.decoder.Some?
    ensures var r := EmitAll(s, outputs, serial);
      r.space == s.space && r.range == s.range
  {
    if outputs != [] {
      AllKeepColours(s, outputs[..|outputs| - 1], serial);
    }
  }

  lemma MadeFollows(s: Stream, space: nat, range: nat, w: World)
    ensures s.decoder.None? && s.last.None? ==>
      Follows(StartStream(s, space, range, true, w.decoders, w.serials), Outputs(0, []))
  {
  }

  lemma InformedFollows(s: Stream, o: Outputs, space: nat, range: nat)
    requires Follows(s, o)
    ensures s.decoder.Some? && Follows(s.(space := space, range := range), o)
  {
  }

  lemma DecodeFollows(s: Stream, o: Outputs, packets: nat, outputs: seq<Output>, serial: nat)
    requires Follows(s, o)
    requires Plausible(Outputs(o.packets + packets, o.shots + Numbered(outputs, serial)))
    ensures Follows(Decode(s, packets, outputs, serial),
                    Outputs(o.packets + packets, o.shots + Numbered(outputs, serial)))
  {
    var d := s.decoder.value;
    var fed := s.(decoder := Some(d.(packets := d.packets + packets)));
    assert Follows(fed, Outputs(o.packets + packets, o.shots));
    hide Follows, Plausible, Numbered;
    EmitAllFollows(fed, Outputs(o.packets + packets, o.shots), outputs, serial);
  }

  lemma FollowsLast(s: Stream, o: Outputs)
    requires Follows(s, o)
    ensures s.decoder.Some? && s.last == if o.shots == [] then None else Some(o.shots[|o.shots| - 1])
  {
  }

  /**
    In every run in which decoders behave plausibly: the frame a request finds is the one handed out
    last since the stream's decoder was made, under the colours of the last START; without such a
    picture it finds none.
   */
  lemma LastIsNewest(streams: nat, slots: nat, events: seq<Event>, id: nat)
    requires id < streams && AlwaysPlausible(streams, events, id)
    ensures var found := LastOf(Run(streams, slots, events), id);
      var shots := Since(streams, events, id).shots;
      && (found.Some? <==> HasDecoder(events, id) && shots != [])
      && (found.Some? ==>
           var newest := shots[|shots| - 1];
           var out := newest.out;
           && found.value.serial == newest.serial
           && found.value.key == Key(id, out.width, out.height, out.pts, out.keyFrame,
                                     Colours(events, id).0, Colours(events, id).1, out.format))
  {
    StreamIsAsTold(streams, slots, events, id);
    var w := Run(streams, slots, events);
    if HasDecoder(events, id) { FollowsLast(w.streams[id], Since(streams, events, id)); }
    hide Run, Since, Follows, HasDecoder, Colours;
  }

  /** Pictures are numbered in the order in which they come out: the newest has the highest number. */
  lemma {:induction false} NumbersIncrease(streams: nat, events: seq<Event>, id: nat)
    requires id < streams
    ensures var shots := Since(streams, events, id).shots;
      && (forall k :: 0 <= k < |shots| ==> shots[k].serial < Serials(streams, events))
      && (forall j, k :: 0 <= j < k < |shots| ==> shots[j].serial < shots[k].serial)
  {
    if events != [] {
      NumbersIncrease(streams, Front(events), id);
      SinceGrows(streams, events, id);
      hide HasDecoder, Since, Serials;
    }
  }

  lemma SinceGrows(streams: nat, events: seq<Event>, id: nat)
    requires id < streams && events != []
    ensures var before, after := Since(streams, Front(events), id).shots, Since(streams, events, id).shots;
      var first, next := Serials(streams, Front(events)), Serials(streams, events);
      && first <= next
      && (after == before || after == []
          || (Last(events).Video? && next == first + |Last(events).outputs|
              && after == before + Numbered(Last(events).outputs, first)))
  {
  }

  // ---------- what a request is answered ----------

  /** A frame to be shown has a size; it is shown if the cache has it or the conversion succeeds. */
  lemma AnsweredIff(w: World, id: nat, converts: bool)
    ensures var last := LastOf(w, id);
      Shown(w.cached, last, converts).Some? <==>
        && last.Some? && last.value.key.width > 0 && last.value.key.height > 0
        && (converts || Hits(w.cached, last.value.key))
    ensures var last := LastOf(w, id);
      last.Some? && !Hits(w.cached, last.value.key) && Shown(w.cached, last, converts).Some? ==>
        Shown(w.cached, last, converts) == last
  {
  }

  /** What a request has been shown, the next one is shown without a conversion; it touches no other slot. */
  lemma ShownAgain(w: World, id: nat, converts: bool, again: bool)
    requires id < |w.streams| && id < |w.cached| && Shown(w.cached, LastOf(w, id), converts).Some?
    ensures var r := Step(w, GetLatest(id, converts));
      && LastOf(r, id) == LastOf(w, id)
      && Shown(r.cached, LastOf(r, id), again) == Shown(w.cached, LastOf(w, id), converts)
      && |r.cached| == |w.cached| && forall i :: 0 <= i < |w.cached| && i != id ==> r.cached[i] == w.cached[i]
  {
  }
}
