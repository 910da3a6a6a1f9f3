/** The bridge's code over its own fields: each call is a run of the steps of BgrFrames, with ZMQ sending in between. */
module BgrBridge {
  import opened BgrFrames
  import opened BgrPictures
  import CropRegion

  /** What a converted frame says of itself: the part of a picture that it shows. */
  datatype Info = Info(picture: Picture, x: nat, y: nat, width: int, height: int, stride: int)

  function WholeOf(p: Picture, stride: int): Info {
    Info(p, 0, 0, p.key.width, p.key.height, stride)
  }

  predicate IsWhole(i: Info) {
    i == WholeOf(i.picture, i.stride)
  }

  /** The pictures that cached frames are of. */
  function PicturesOf(cache: seq<Option<Frame>>, infos: map<Frame, Info>): (r: seq<Option<Picture>>)
    ensures |r| == |cache|
    ensures forall i :: 0 <= i < |cache| ==>
              r[i] == if cache[i].Some? && cache[i].value in infos then Some(infos[cache[i].value].picture) else None
  {
    seq(|cache|, i requires 0 <= i < |cache| =>
          if cache[i].Some? && cache[i].value in infos then Some(infos[cache[i].value].picture) else None)
  }

  /** What is left of a request for a region of a picture of this key. */
  function RegionOf(k: Key, stride: int, req: CropRegion.Request): CropRegion.Resolved {
    CropRegion.ResolveRoi(k.width, k.height, stride, req)
  }

  class ZmqBridge {
    var counts: map<Frame, nat>
    var frees: seq<Frame>
    var next: Frame
    var cache: seq<Option<Frame>>
    var inFlight: multiset<Frame>
    var infos: map<Frame, Info>       // what each live frame holds beside its pixels
    ghost var thread: Thread    // where the request thread stands

    ghost function View(): Bridge
      reads this
    {
      Bridge(counts, frees, next, cache, thread, inFlight)
    }

    ghost predicate Valid()
      reads this
    {
      && Inv(View()) && infos.Keys == counts.Keys
      && CachedWhole()
    }

    ghost predicate CachedWhole()
      reads `cache, `infos
    {
      forall i :: 0 <= i < |cache| && cache[i].Some? && cache[i].value in infos ==> IsWhole(infos[cache[i].value])
    }

    /** The pictures in the cache. */
    ghost function Pictures(): (r: seq<Option<Picture>>)
      reads `cache, `infos
      ensures |r| == |cache|
    {
      PicturesOf(cache, infos)
    }

    /** The stride of the frame that a request for a picture of this key gets. */
    ghost function StrideFor(k: Key, stride: int): int
      reads `cache, `infos
    {
      if Hits(Pictures(), k) then infos[cache[k.streamId].value].stride else stride
    }

    constructor (slots: nat)
      ensures Valid() && View() == Start(slots) && Pictures() == NoneCached(slots)
    {
      counts, frees, next, inFlight := map[], [], 0, multiset{};
      cache := seq(slots, _ => Option.None);
      infos := map[];
      thread := Idle;
      new;
      assert cache == EmptyCache(slots);
      StartHolds(slots);
      assert Pictures() == NoneCached(slots);
    }

    method RetainBgrFrame(f: Frame)
      requires f in counts
      modifies `counts
      ensures View() == Retained1(old(View()), f)
    {
      counts := counts[f := counts[f] + 1];
    }

    /** The release that finds a count of one frees the frame. */
    method FreeBgrFrame(f: Frame)
      requires f in counts && counts[f] > 0
      modifies `counts, `frees, `infos
      ensures View() == Released(old(View()), f)
      ensures infos == if old(counts)[f] == 1 then old(infos) - {f} else old(infos)
    {
      var before := counts[f];
      if before != 1 {
        counts := counts[f := before - 1];
        return;
      }
      counts := counts - {f};
      frees := frees + [f];
      infos := infos - {f};
    }

    /** ZMQ sends some of the messages it holds and calls the free function of each. */
    method ZmqSends(sent: seq<Frame>)
      requires Valid()
      modifies `counts, `frees, `inFlight, `infos
      ensures Valid()
      ensures inFlight <= old(inFlight) && forall f :: f in infos ==> f in old(infos) && infos[f] == old(infos)[f]
    {
      for i := 0 to |sent|
        invariant Valid() && thread == old(thread) && cache == old(cache) && next == old(next)
        invariant inFlight <= old(inFlight) && forall f :: f in infos ==> f in old(infos) && infos[f] == old(infos)[f]
      {
        hide Valid;
        if sent[i] in inFlight {
          ZmqSent(sent[i]);
        }
      }
    }

    /** ZMQ has sent a message and calls its free function. */
    method ZmqSent(f: Frame)
      requires Valid() && f in inFlight
      modifies `counts, `frees, `inFlight, `infos
      ensures Valid() && inFlight <= old(inFlight)
      ensures forall g :: g in infos ==> g in old(infos) && infos[g] == old(infos)[g]
    {
      ghost var s := View();
      StepHolds(s, Sent(f));
      assert f in Touched(s, Sent(f));
      hide Inv;
      FreeBgrFrame(f);
      inFlight := inFlight - multiset{f};
      assert View() == Next(s, Sent(f));
    }

    /**
      The last decoded frame as BGR, from the cache if it holds a frame that matches. The frame
      returned is live, held by the caller, and shows the picture that `BgrPictures.Shown` says.
     */
    method ConvertLastFrame(last: Option<Picture>, converts: bool, stride: int, sent: seq<seq<Frame>>)
      returns (out: Option<Frame>)
      requires Valid() && thread.Idle? && |sent| == 3
      modifies `counts, `frees, `next, `cache, `inFlight, `thread, `infos
      ensures Valid()
      ensures out.Some? <==> Shown(old(Pictures()), last, converts).Some?
      ensures Pictures() == Recached(old(Pictures()), last, converts)
      ensures out.None? ==> thread.Idle? && next == old(next) && cache == old(cache)
      ensures out.Some? ==> thread == Holding(out.value) && out.value in counts && out.value in infos
      ensures out.Some? ==>
        infos[out.value]
          == WholeOf(Shown(old(Pictures()), last, converts).value, old(StrideFor(last.value.key, stride)))
      ensures out.Some? && Hits(old(Pictures()), last.value.key) ==>
        out == old(cache)[last.value.key.streamId] && next == old(next) && cache == old(cache)
      ensures out.Some? && !Hits(old(Pictures()), last.value.key) ==>
        && out == Some(old(next)) && next == old(next) + 1
        && cache == if last.value.key.streamId < |old(cache)|
                    then old(cache)[last.value.key.streamId := out] else old(cache)
    {
      if last.None? || last.value.key.width <= 0 || last.value.key.height <= 0 {
        return None;
      }
      SendSome(sent[0]);
      out := LookUp(last.value.key);
      if out.Some? || !converts {
        return;
      }
      out := ConvertNew(last.value, stride, sent[1..]);
    }

    /** Sending leaves the cache and its pictures as they are. */
    method SendSome(sent: seq<Frame>)
      requires Valid()
      modifies `counts, `frees, `inFlight, `infos
      ensures Valid() && inFlight <= old(inFlight) && Pictures() == old(Pictures())
      ensures forall f :: f in infos ==> f in old(infos) && infos[f] == old(infos)[f]
    {
      hide Inv;
      ghost var before := Pictures();
      assert AllCachedLive() by { CachedAreLive(); }
      ZmqSends(sent);
      assert AllCachedLive() by { CachedAreLive(); }
      assert Pictures() == before;
    }

    ghost predicate AllCachedLive()
      reads `cache, `infos
    {
      forall i :: 0 <= i < |cache| && cache[i].Some? ==> cache[i].value in infos
    }

    lemma CachedAreLive()
      requires Valid()
      ensures AllCachedLive()
    {
      forall i | 0 <= i < |cache| && cache[i].Some? ensures cache[i].value in infos {
        CachedIsLive(View(), i);
      }
    }

    /** The cached frame, if it matches, with a reference for the caller. */
    method LookUp(k: Key) returns (out: Option<Frame>)
      requires Valid() && thread.Idle?
      modifies `counts, `thread
      ensures Valid() && Pictures() == old(Pictures())
      ensures out == if Hits(Pictures(), k) then cache[k.streamId] else Option.None
      ensures out.None? ==> thread.Idle?
      ensures out.Some? ==> thread == Holding(out.value) && out.value in counts && out.value in infos
      ensures out.Some? ==> infos[out.value] == WholeOf(Pictures()[k.streamId].value, StrideFor(k, 0))
    {
      CachedAreLive();
      if k.streamId >= |cache| {
        return Option.None;
      }
      var cached := cache[k.streamId];
      if cached.None? || infos[cached.value].picture.key != k {
        return Option.None;
      }
      ghost var s := View();
      StepHolds(s, Hit(k.streamId));
      assert cached.value in Touched(s, Hit(k.streamId));
      hide Inv;
      RetainBgrFrame(cached.value);
      thread := Holding(cached.value);
      assert View() == Next(s, Hit(k.streamId));
      return cached;
    }

    /** A new frame of this picture, stored in its slot. */
    method ConvertNew(p: Picture, stride: int, sent: seq<seq<Frame>>) returns (out: Option<Frame>)
      requires Valid() && thread.Idle? && |sent| == 2
      modifies `counts, `frees, `next, `cache, `inFlight, `thread, `infos
      ensures Valid() && out == Some(old(next)) && next == old(next) + 1
      ensures thread == Holding(out.value) && out.value in infos && out.value in counts
      ensures infos[out.value] == WholeOf(p, stride)
      ensures cache == if p.key.streamId < |old(cache)| then old(cache)[p.key.streamId := out] else old(cache)
      ensures Pictures() ==
        if p.key.streamId < |old(cache)| then old(Pictures())[p.key.streamId := Some(p)] else old(Pictures())
    {
      hide Inv, Valid;
      var frame := BeginConvert(p, stride);
      SendSome(sent[0]);
      ConvertedLives(p.key.streamId, frame);
      StoreFrame(p.key.streamId, frame, sent[1]);
      out := Some(frame);
    }

    lemma ConvertedLives(slot: nat, frame: Frame)
      requires Valid() && thread == Converted(slot, frame)
      ensures frame in infos
    {
      ConvertedIsLive(View());
    }

    /** The new frame itself, in no slot yet. */
    method BeginConvert(p: Picture, stride: int) returns (frame: Frame)
      requires Valid() && thread.Idle?
      modifies `counts, `next, `thread, `infos
      ensures Valid() && thread == Converted(p.key.streamId, frame)
      ensures frame == old(next) && next == old(next) + 1
      ensures frame in infos && infos[frame] == WholeOf(p, stride) && Pictures() == old(Pictures())
    {
      ghost var before := Pictures();
      CachedAreLive();
      ghost var s := View();
      StepHolds(s, Convert(p.key.streamId));
      assert forall i :: 0 <= i < |cache| && cache[i].Some? ==> cache[i].value != next by { CachedAreOld(s); }
      hide Inv;
      frame := NewFrame(WholeOf(p, stride));
      thread := Converted(p.key.streamId, frame);
      assert View() == Next(s, Convert(p.key.streamId));
      assert Pictures() == before;
    }

    /** Puts a new frame into its slot, with a reference of its own, and lets go of the one it replaces. */
    method StoreFrame(slot: nat, frame: Frame, sent: seq<Frame>)
      requires Valid() && thread == Converted(slot, frame)
      requires frame in infos && IsWhole(infos[frame])
      modifies `counts, `frees, `cache, `inFlight, `thread, `infos
      ensures Valid() && thread == Holding(frame) && frame in infos && frame in counts
      ensures infos[frame] == old(infos)[frame]
      ensures cache == if slot < |old(cache)| then old(cache)[slot := Some(frame)] else old(cache)
      ensures Pictures() ==
        if slot < |old(cache)| then old(Pictures())[slot := Some(old(infos)[frame].picture)] else old(Pictures())
    {
      ghost var s := View();
      ghost var before := Pictures();
      StepHolds(s, Store);
      CachedAreLive();
      hide Inv;
      if slot < |cache| {
        var previous := cache[slot];
        cache := cache[slot := Some(frame)];
        thread := Stored(slot, frame, previous);
        assert View() == Next(s, Store);
        assert Pictures() == before[slot := Some(infos[frame].picture)];
        SendSome(sent);
        KeepStored(slot, frame, previous);
      } else {
        thread := Holding(frame);
        assert View() == Next(s, Store);
      }
      HeldIsLive(View());
    }

    /** The cache's own reference to the frame just stored. */
    method RetainStored(slot: nat, frame: Frame, previous: Option<Frame>)
      requires Valid() && thread == Stored(slot, frame, previous)
      modifies `counts, `thread
      ensures Valid() && thread == Retained(frame, previous)
    {
      ghost var s := View();
      StepHolds(s, Retain);
      assert frame in Touched(s, Retain);
      hide Inv;
      RetainBgrFrame(frame);
      thread := Retained(frame, previous);
      assert View() == Next(s, Retain);
    }

    /** That reference, and the release of the frame it replaces. */
    method KeepStored(slot: nat, frame: Frame, previous: Option<Frame>)
      requires Valid() && thread == Stored(slot, frame, previous)
      modifies `counts, `frees, `thread, `infos
      ensures Valid() && thread == Holding(frame) && Pictures() == old(Pictures())
      ensures forall f :: f in infos ==> f in old(infos) && infos[f] == old(infos)[f]
    {
      hide Inv, View, IsWhole;
      RetainStored(slot, frame, previous);
      ghost var before := Pictures();
      CachedAreLive();
      ReleaseReplaced(frame, previous);
      CachedAreLive();
      assert Pictures() == before;
    }

    method ReleaseReplaced(frame: Frame, previous: Option<Frame>)
      requires Valid() && thread == Retained(frame, previous)
      modifies `counts, `frees, `thread, `infos
      ensures Valid() && thread == Holding(frame)
      ensures forall f :: f in infos ==> f in old(infos) && infos[f] == old(infos)[f]
    {
      ghost var s := View();
      StepHolds(s, ReleaseOld);
      hide Inv;
      if previous.Some? {
        assert previous.value in Touched(s, ReleaseOld);
        FreeBgrFrame(previous.value);
      }
      thread := Holding(frame);
      assert View() == Next(s, ReleaseOld);
    }

    /** A frame just allocated, with its count at one. */
    method NewFrame(info: Info) returns (frame: Frame)
      modifies `counts, `next, `infos
      ensures frame == old(next) && View() == Born(old(View())) && infos == old(infos)[frame := info]
    {
      frame := next;
      infos := infos[frame := info];
      counts := counts[frame := 1];
      next := next + 1;
    }

    /** Lets go of the frame held, by the step `a`. */
    method LetGo(f: Frame, ghost a: Action)
      requires Valid() && ((a.Drop? && thread == Holding(f)) || (a.SendFails? && thread == Sending(f)))
      modifies `counts, `frees, `thread, `infos
      ensures Valid() && thread.Idle? && Pictures() == old(Pictures())
    {
      ghost var before := Pictures();
      CachedAreLive();
      ghost var s := View();
      StepHolds(s, a);
      assert f in Touched(s, a);
      hide Inv;
      FreeBgrFrame(f);
      thread := Idle;
      assert View() == Next(s, a);
      CachedAreLive();
      assert Pictures() == before;
    }

    /** The copy of a region of the frame held. */
    method CopyRegion(f: Frame, r: CropRegion.Region) returns (part: Frame)
      requires Valid() && thread == Holding(f) && f in infos
      modifies `counts, `next, `thread, `infos
      ensures Valid() && thread == Cropped(f, part) && part == old(next) && next == old(next) + 1
      ensures part in infos && Pictures() == old(Pictures())
      ensures infos[part] == Info(old(infos)[f].picture, r.x, r.y, r.w, r.h, r.w * 3)
    {
      ghost var before := Pictures();
      CachedAreLive();
      ghost var s := View();
      StepHolds(s, Crop);
      assert forall i :: 0 <= i < |cache| && cache[i].Some? ==> cache[i].value != next by { CachedAreOld(s); }
      hide Inv;
      part := NewFrame(Info(infos[f].picture, r.x, r.y, r.w, r.h, r.w * 3));
      thread := Cropped(f, part);
      assert View() == Next(s, Crop);
      assert Pictures() == before;
    }

    /** Replaces the frame held by a copy of a region of it. */
    method CropFrame(f: Frame, r: CropRegion.Region) returns (part: Frame)
      requires Valid() && thread == Holding(f) && f in infos
      modifies `counts, `frees, `next, `thread, `infos
      ensures Valid() && thread == Holding(part) && part == old(next) && next == old(next) + 1
      ensures part in infos && Pictures() == old(Pictures())
      ensures infos[part] == Info(old(infos)[f].picture, r.x, r.y, r.w, r.h, r.w * 3)
    {
      assert f != next by { HeldIsOld(View()); }
      part := CopyRegion(f, r);
      ghost var before := Pictures();
      CachedAreLive();
      ghost var s := View();
      StepHolds(s, ReleaseWhole);
      assert f in Touched(s, ReleaseWhole);
      hide Inv;
      FreeBgrFrame(f);
      thread := Holding(part);
      assert View() == Next(s, ReleaseWhole);
      CachedAreLive();
      assert Pictures() == before;
    }

    /** ZMQ takes the message. */
    method HandToZmq(f: Frame)
      requires Valid() && thread == Sending(f)
      modifies `inFlight, `thread
      ensures Valid() && thread.Idle? && f in inFlight && f in counts && f in infos
    {
      ghost var s := View();
      StepHolds(s, HandOver);
      hide Inv;
      inFlight := inFlight + multiset{f};
      thread := Idle;
      assert View() == Next(s, HandOver);
      FlyingIsLive(View(), f);
    }

    /** Gives the frame held to a message; the message's free function is its release. */
    method SendBgrFrameOwned(f: Frame, initialised: bool, accepted: bool, sent: seq<Frame>) returns (ok: bool)
      requires Valid() && thread == Holding(f)
      modifies `counts, `frees, `inFlight, `thread, `infos
      ensures Valid() && thread.Idle? && Pictures() == old(Pictures())
      ensures ok == (initialised && accepted)
      ensures !ok ==> inFlight <= old(inFlight)
      ensures ok ==> f in counts && f in inFlight && f in infos && f in old(infos) && infos[f] == old(infos)[f]
    {
      if !initialised {
        LetGo(f, Drop);
        return false;
      }
      ghost var s := View();
      StepHolds(s, MakeMessage);
      hide Inv;
      thread := Sending(f);
      assert View() == Next(s, MakeMessage);
      SendSome(sent);
      if !accepted {
        LetGo(f, SendFails);
        return false;
      }
      HandToZmq(f);
      ok := true;
    }

    /**
      One request, end to end. Each access it makes is to a live frame, and when it is over it holds
      nothing, however the conversion, the region, the crop and the message turned out. The frame
      sent shows exactly the region asked for of the picture that `BgrPictures.Shown` says.
     */
    method Request(last: Option<Picture>, converts: bool, stride: int, req: CropRegion.Request, copies: bool,
                   initialised: bool, accepted: bool, sent: seq<seq<Frame>>) returns (ok: bool, reply: Frame)
      requires Valid() && thread.Idle? && |sent| == 5
      modifies `counts, `frees, `next, `cache, `inFlight, `thread, `infos
      ensures Valid() && thread.Idle?
      ensures Pictures() == Recached(old(Pictures()), last, converts)
      ensures ok <==>
        && Shown(old(Pictures()), last, converts).Some?
        && var r := RegionOf(last.value.key, old(StrideFor(last.value.key, stride)), req);
           r.Resolved? && (r.region.applied ==> copies) && initialised && accepted
      ensures ok ==>
        && reply in inFlight && reply in infos
        && var rowBytes := old(StrideFor(last.value.key, stride));
           var r := RegionOf(last.value.key, rowBytes, req).region;
           infos[reply] == Info(Shown(old(Pictures()), last, converts).value, r.x, r.y, r.w, r.h,
                                if r.applied then r.w * 3 else rowBytes)
    {
      reply := 0;
      hide Valid;
      var out := ConvertLastFrame(last, converts, stride, sent[..3]);
      if out.None? {
        return false, 0;
      }
      var frame := out.value;
      var info := infos[frame];
      var resolved := CropRegion.ResolveRoi(info.width, info.height, info.stride, req);
      if resolved.Failed? || (resolved.region.applied && !copies) {
        LetGo(frame, Drop);
        return false, 0;
      }
      reply := frame;
      if resolved.region.applied {
        reply := CropFrame(frame, resolved.region);
      }
      ok := SendBgrFrameOwned(reply, initialised, accepted, sent[4]);
    }

    /** Clears the cache; with nothing in flight every frame is then freed. */
    method ClearCachedBgrFrames()
      requires Valid() && thread.Idle?
      modifies `counts, `frees, `cache, `infos
      ensures Valid()
      ensures |cache| == |old(cache)| && forall i :: 0 <= i < |cache| ==> cache[i] == None
      ensures inFlight == multiset{} ==> counts == map[]
    {
      for i := 0 to |cache|
        invariant Valid() && |cache| == |old(cache)|
        invariant forall k :: 0 <= k < i ==> cache[k] == None
      {
        ghost var s := View();
        StepHolds(s, Evict(i));
        hide Inv;
        var f := cache[i];
        if f.Some? {
          assert f.value in Touched(s, Evict(i));
          FreeBgrFrame(f.value);
        }
        cache := cache[i := None];
        assert View() == Next(s, Evict(i));
      }
      if inFlight == multiset{} {
        AllFreed(View());
      }
    }
  }

  lemma StepHolds(s: Bridge, a: Action)
    requires Inv(s) && Enabled(s, a)
    ensures Sound(s, a) && Inv(Next(s, a))
  {
    hide Inv, Enabled, Sound, Next;
    NothingUsedAfterFree(s, a);
    StepKeeps(s, a);
  }

  lemma HeldIsLive(s: Bridge)
    requires Inv(s) && s.thread.Holding?
    ensures s.thread.f in s.counts
  {
    assert Count(s, s.thread.f) == Refs(s, s.thread.f);
  }

  lemma ConvertedIsLive(s: Bridge)
    requires Inv(s) && s.thread.Converted?
    ensures s.thread.f in s.counts
  {
    assert Count(s, s.thread.f) == Refs(s, s.thread.f);
  }

  lemma CachedIsLive(s: Bridge, slot: nat)
    requires Inv(s) && slot < |s.cache| && s.cache[slot].Some?
    ensures s.cache[slot].value in s.counts
  {
    CachedIsReferred(s.cache, slot, s.cache[slot].value);
    assert Count(s, s.cache[slot].value) == Refs(s, s.cache[slot].value);
  }

  lemma CachedAreOld(s: Bridge)
    requires Inv(s)
    ensures forall i :: 0 <= i < |s.cache| && s.cache[i].Some? ==> s.cache[i].value < s.next
  {
    forall i | 0 <= i < |s.cache| && s.cache[i].Some? ensures s.cache[i].value < s.next {
      CachedIsLive(s, i);
    }
  }

  lemma HeldIsOld(s: Bridge)
    requires Inv(s) && s.thread.Holding?
    ensures s.thread.f < s.next
  {
    HeldIsLive(s);
  }

  lemma FlyingIsLive(s: Bridge, f: Frame)
    requires Inv(s) && f in s.inFlight
    ensures f in s.counts
  {
    assert Count(s, f) == Refs(s, f);
  }

  lemma AllFreed(s: Bridge)
    requires Inv(s) && s.thread.Idle? && s.inFlight == multiset{}
    requires forall i :: 0 <= i < |s.cache| ==> s.cache[i] == None
    ensures s.counts == map[]
  {
    forall f ensures f !in s.counts {
      NoRefsWithoutFrames(s.cache, f);
      hide CacheRefs;
      assert Count(s, f) == Refs(s, f);
    }
  }
}
