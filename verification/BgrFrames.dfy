/**
  Ownership of converted BGR frames in the ZMQ bridge (stream_server/src/zmq_bridge.c, 164-184,
  380-426, 457-521 and 776-826): one request thread, a cache slot per stream, and messages that
  ZMQ releases whenever it has sent them. Every atomic step of every interleaving is modelled.
 */
module BgrFrames {

  type Frame = nat

  datatype Option<T> = None | Some(value: T)

  /** Where the request thread stands, and which frames it refers to. */
  datatype Thread =
    | Idle
    | Converted(slot: nat, f: Frame)                     // a new frame, not in the cache yet
    | Stored(slot: nat, f: Frame, prev: Option<Frame>)    // put into its slot, not retained yet
    | Retained(f: Frame, prev: Option<Frame>)             // the frame it replaced is still to be released
    | Holding(f: Frame)                                  // the frame of the request
    | Cropped(f: Frame, part: Frame)                     // cropped, the whole frame still to be released
    | Sending(f: Frame)                                  // a message owns it, not handed over yet

  /** `counts` holds the reference counts of live frames; `frees` lists the frames freed, in order. */
  datatype Bridge = Bridge(
    counts: map<Frame, nat>,
    frees: seq<Frame>,
    next: Frame,
    cache: seq<Option<Frame>>,
    thread: Thread,
    inFlight: multiset<Frame>)

  datatype Action =
    | Hit(slot: nat)              // the cached frame matches: retain it
    | Convert(slot: nat)          // no match: a new frame with count 1
    | Store                       // overwrite the cache slot, if there is one
    | Retain                      // the cache's own reference
    | ReleaseOld
    | Crop                        // a new frame copied out of the one held
    | ReleaseWhole
    | Drop                        // bad region, failed crop, or no message could be made
    | MakeMessage
    | HandOver                    // ZMQ takes the message
    | SendFails                   // closing the message releases the frame
    | Sent(f: Frame)              // ZMQ has sent a message and calls the free function
    | Evict(slot: nat)            // the cache is cleared

  function Is(o: Option<Frame>, f: Frame): nat {
    if o == Some(f) then 1 else 0
  }

  function CacheRefs(cache: seq<Option<Frame>>, f: Frame): nat {
    if cache == [] then 0 else CacheRefs(cache[..|cache| - 1], f) + Is(cache[|cache| - 1], f)
  }

  function ThreadRefs(t: Thread, f: Frame): nat {
    match t
    case Idle => 0
    case Converted(_, g) => Is(Some(g), f)
    case Stored(_, _, prev) => Is(prev, f)    // its own reference is the cache's until it retains
    case Retained(g, prev) => Is(Some(g), f) + Is(prev, f)
    case Holding(g) => Is(Some(g), f)
    case Cropped(g, part) => Is(Some(g), f) + Is(Some(part), f)
    case Sending(g) => Is(Some(g), f)
  }

  /** The holders of a frame: its cache slots, the request thread, and messages on their way. */
  function Refs(s: Bridge, f: Frame): nat {
    CacheRefs(s.cache, f) + ThreadRefs(s.thread, f) + s.inFlight[f]
  }

  function Count(s: Bridge, f: Frame): nat {
    if f in s.counts then s.counts[f] else 0
  }

  // ---------- the two primitives ----------

  function Retained1(s: Bridge, f: Frame): (r: Bridge)
    requires f in s.counts
    ensures r.cache == s.cache && r.thread == s.thread && r.inFlight == s.inFlight
  {
    s.(counts := s.counts[f := s.counts[f] + 1])
  }

  /** `free_bgr_frame`: the last release frees the frame. */
  function Released(s: Bridge, f: Frame): (r: Bridge)
    requires f in s.counts && s.counts[f] > 0
    ensures r.cache == s.cache && r.thread == s.thread && r.inFlight == s.inFlight
  {
    if s.counts[f] == 1 then s.(counts := s.counts - {f}, frees := s.frees + [f])
    else s.(counts := s.counts[f := s.counts[f] - 1])
  }

  function ReleasedIf(s: Bridge, o: Option<Frame>): (r: Bridge)
    requires o.Some? ==> o.value in s.counts && s.counts[o.value] > 0
    ensures r.cache == s.cache && r.thread == s.thread && r.inFlight == s.inFlight
  {
    if o.Some? then Released(s, o.value) else s
  }

  function Born(s: Bridge): (r: Bridge)
    ensures r.cache == s.cache && r.thread == s.thread && r.inFlight == s.inFlight
  {
    s.(counts := s.counts[s.next := 1], next := s.next + 1)
  }

  // ---------- steps ----------

  predicate Enabled(s: Bridge, a: Action) {
    match a
    case Hit(slot) => s.thread.Idle? && slot < |s.cache| && s.cache[slot].Some?
    case Convert(slot) => s.thread.Idle?
    case Store => s.thread.Converted?
    case Retain => s.thread.Stored?
    case ReleaseOld => s.thread.Retained?
    case Crop => s.thread.Holding?
    case ReleaseWhole => s.thread.Cropped?
    case Drop => s.thread.Holding?
    case MakeMessage => s.thread.Holding?
    case HandOver => s.thread.Sending?
    case SendFails => s.thread.Sending?
    case Sent(f) => f in s.inFlight
    case Evict(slot) => s.thread.Idle? && slot < |s.cache|
  }

  /** Frames whose count or pixels the step touches. */
  function Touched(s: Bridge, a: Action): set<Frame>
    requires Enabled(s, a)
  {
    match a
    case Hit(slot) => {s.cache[slot].value}
    case Convert(slot) => if slot < |s.cache| && s.cache[slot].Some? then {s.cache[slot].value} else {}
    case Store => {s.thread.f}
    case Retain => {s.thread.f}
    case ReleaseOld => {s.thread.f} + (if s.thread.prev.Some? then {s.thread.prev.value} else {})
    case Crop => {s.thread.f}
    case ReleaseWhole => {s.thread.f, s.thread.part}
    case Drop => {s.thread.f}
    case MakeMessage => {s.thread.f}
    case HandOver => {s.thread.f}
    case SendFails => {s.thread.f}
    case Sent(f) => {f}
    case Evict(slot) => if s.cache[slot].Some? then {s.cache[slot].value} else {}
  }

  predicate Sound(s: Bridge, a: Action) {
    Enabled(s, a) && forall f :: f in Touched(s, a) ==> f in s.counts && s.counts[f] > 0
  }

  function Next(s: Bridge, a: Action): Bridge
    requires Sound(s, a)
  {
    match a
    case Hit(slot) =>
      var f := s.cache[slot].value;
      assert f in Touched(s, a);
      Retained1(s, f).(thread := Holding(f))
    case Convert(slot) => Born(s).(thread := Converted(slot, s.next))
    case Store =>
      var t := s.thread;
      if t.slot < |s.cache|
      then s.(cache := s.cache[t.slot := Some(t.f)], thread := Stored(t.slot, t.f, s.cache[t.slot]))
      else s.(thread := Holding(t.f))
    case Retain =>
      var t := s.thread;
      assert t.f in Touched(s, a);
      Retained1(s, t.f).(thread := Retained(t.f, t.prev))
    case ReleaseOld =>
      var t := s.thread;
      assert t.prev.Some? ==> t.prev.value in Touched(s, a);
      ReleasedIf(s, t.prev).(thread := Holding(t.f))
    case Crop => Born(s).(thread := Cropped(s.thread.f, s.next))
    case ReleaseWhole =>
      var t := s.thread;
      assert t.f in Touched(s, a);
      Released(s, t.f).(thread := Holding(t.part))
    case Drop =>
      assert s.thread.f in Touched(s, a);
      Released(s, s.thread.f).(thread := Idle)
    case MakeMessage => s.(thread := Sending(s.thread.f))
    case HandOver => s.(inFlight := s.inFlight + multiset{s.thread.f}, thread := Idle)
    case SendFails =>
      assert s.thread.f in Touched(s, a);
      Released(s, s.thread.f).(thread := Idle)
    case Sent(f) =>
      assert f in Touched(s, a);
      Released(s, f).(inFlight := s.inFlight - multiset{f})
    case Evict(slot) =>
      assert s.cache[slot].Some? ==> s.cache[slot].value in Touched(s, a);
      ReleasedIf(s, s.cache[slot]).(cache := s.cache[slot := None])
  }

  // ---------- the invariant ----------

  /** Each live frame's count is the number of its holders, and no other frame has one. */
  ghost predicate Accounted(s: Bridge) {
    forall f :: Count(s, f) == Refs(s, f)
  }

  ghost predicate AllPositive(s: Bridge) {
    forall f :: f in s.counts ==> s.counts[f] > 0
  }

  /** A frame is live or freed, never both, and freed at most once. */
  ghost predicate FreedOnce(s: Bridge) {
    && (forall f :: f in s.counts ==> f < s.next && f !in s.frees)
    && (forall f: Frame :: f < s.next ==> f in s.counts || f in s.frees)
    && (forall i, j :: 0 <= i < j < |s.frees| ==> s.frees[i] != s.frees[j])
    && (forall f :: f in s.frees ==> f < s.next)
  }

  /** A frame just stored is the one in its slot. */
  ghost predicate SlotOk(s: Bridge) {
    s.thread.Stored? ==> s.thread.slot < |s.cache| && s.cache[s.thread.slot] == Some(s.thread.f)
  }

  ghost predicate Inv(s: Bridge) {
    Accounted(s) && AllPositive(s) && FreedOnce(s) && SlotOk(s)
  }

  // ---------- cache slots ----------

  lemma {:induction false} CacheRefsUpdate(cache: seq<Option<Frame>>, i: nat, o: Option<Frame>, f: Frame)
    requires i < |cache|
    ensures CacheRefs(cache[i := o], f) == CacheRefs(cache, f) - Is(cache[i], f) + Is(o, f)
  {
    var n := |cache| - 1;
    if i == n {
      assert cache[i := o][..n] == cache[..n];
    } else {
      CacheRefsUpdate(cache[..n], i, o, f);
      assert cache[i := o][..n] == cache[..n][i := o];
    }
  }

  lemma {:induction false} CachedIsReferred(cache: seq<Option<Frame>>, i: nat, f: Frame)
    requires i < |cache| && cache[i] == Some(f)
    ensures CacheRefs(cache, f) > 0
  {
    if i < |cache| - 1 {
      CachedIsReferred(cache[..|cache| - 1], i, f);
    }
  }

  // ---------- every step keeps it ----------

  lemma TouchedIsReferred(s: Bridge, a: Action, f: Frame)
    requires SlotOk(s) && Enabled(s, a) && f in Touched(s, a)
    ensures Refs(s, f) > 0
  {
    hide CacheRefs;
    if a.Hit? || a.Convert? || a.Evict? {
      CachedIsReferred(s.cache, a.slot, f);
    } else if s.thread.Stored? && a.Retain? {
      CachedIsReferred(s.cache, s.thread.slot, f);
    }
  }

  /** What an enabled step touches has a holder, hence is alive: nothing is used after it was freed. */
  lemma NothingUsedAfterFree(s: Bridge, a: Action)
    requires Inv(s) && Enabled(s, a)
    ensures Sound(s, a)
  {
    forall f | f in Touched(s, a) ensures f in s.counts && s.counts[f] > 0 {
      TouchedIsReferred(s, a, f);
      hide Refs, Touched, Enabled;
      assert Count(s, f) == Refs(s, f);
    }
  }

  /** The frame a step adds a holder to, and the one it takes a holder from. */
  function Gained(s: Bridge, a: Action): Option<Frame>
    requires Enabled(s, a)
  {
    match a
    case Hit(slot) => s.cache[slot]
    case Convert(_) => Some(s.next)
    case Retain => Some(s.thread.f)
    case Crop => Some(s.next)
    case _ => None
  }

  function Lost(s: Bridge, a: Action): Option<Frame>
    requires Enabled(s, a)
  {
    match a
    case ReleaseOld => s.thread.prev
    case ReleaseWhole => Some(s.thread.f)
    case Drop => Some(s.thread.f)
    case SendFails => Some(s.thread.f)
    case Sent(f) => Some(f)
    case Evict(slot) => s.cache[slot]
    case _ => None
  }

  lemma NextRefs(s: Bridge, a: Action, f: Frame)
    requires Sound(s, a)
    ensures Refs(Next(s, a), f) == Refs(s, f) + Is(Gained(s, a), f) - Is(Lost(s, a), f)
  {
    hide CacheRefs;
    assert Enabled(s, a);
    hide Sound, Touched, Retained1, Released, ReleasedIf, Born;
    match a
    case Store => StoreRefs(s, f);
    case Evict(slot) => CacheRefsUpdate(s.cache, slot, None, f);
    case _ =>
  }

  /** A new frame takes its slot over from the one that was there; the thread still answers for that. */
  lemma StoreRefs(s: Bridge, f: Frame)
    requires Sound(s, Store)
    ensures Refs(Next(s, Store), f) == Refs(s, f)
  {
    hide CacheRefs;
    assert Enabled(s, Store);
    if s.thread.slot < |s.cache| {
      CacheRefsUpdate(s.cache, s.thread.slot, Some(s.thread.f), f);
    }
  }

  lemma NextCount(s: Bridge, a: Action, f: Frame)
    requires Sound(s, a) && s.next !in s.counts
    ensures Count(Next(s, a), f) == Count(s, f) + Is(Gained(s, a), f) - Is(Lost(s, a), f)
  {
    var v := Lost(s, a);
    assert v.Some? ==> v.value in Touched(s, a);
  }

  lemma NextPositive(s: Bridge, a: Action)
    requires AllPositive(s) && Sound(s, a)
    ensures AllPositive(Next(s, a))
  {
  }

  lemma BornFreedOnce(s: Bridge)
    requires FreedOnce(s)
    ensures FreedOnce(Born(s))
  {
  }

  lemma ReleasedFreedOnce(s: Bridge, f: Frame)
    requires FreedOnce(s) && f in s.counts && s.counts[f] > 0
    ensures FreedOnce(Released(s, f))
  {
  }

  lemma NextFreedOnce(s: Bridge, a: Action)
    requires FreedOnce(s) && Sound(s, a)
    ensures FreedOnce(Next(s, a))
  {
    BornFreedOnce(s);
    var v := Lost(s, a);
    if v.Some? {
      assert v.value in Touched(s, a);
      ReleasedFreedOnce(s, v.value);
      hide Released;
    }
    hide Born;
  }

  lemma StepKeeps(s: Bridge, a: Action)
    requires Inv(s) && Sound(s, a)
    ensures Inv(Next(s, a))
  {
    NextPositive(s, a);
    NextFreedOnce(s, a);
    assert SlotOk(Next(s, a));
    assert s.next !in s.counts;
    forall f ensures Count(Next(s, a), f) == Refs(Next(s, a), f) {
      NextRefs(s, a, f);
      NextCount(s, a, f);
      hide Count, Refs, Next, Gained, Lost, Sound, Enabled, Touched;
      assert Count(s, f) == Refs(s, f);
    }
  }

  // ---------- runs ----------

  function EmptyCache(slots: nat): (c: seq<Option<Frame>>)
    ensures |c| == slots && forall i :: 0 <= i < slots ==> c[i] == None
  {
    seq(slots, _ => None)
  }

  function Start(slots: nat): Bridge {
    Bridge(map[], [], 0, EmptyCache(slots), Idle, multiset{})
  }

  lemma {:induction false} NoRefsWithoutFrames(cache: seq<Option<Frame>>, f: Frame)
    requires forall i :: 0 <= i < |cache| ==> cache[i] == None
    ensures CacheRefs(cache, f) == 0
  {
    if cache != [] {
      NoRefsWithoutFrames(cache[..|cache| - 1], f);
    }
  }

  lemma StartHolds(slots: nat)
    ensures Inv(Start(slots))
  {
    forall f ensures Refs(Start(slots), f) == 0 {
      NoRefsWithoutFrames(EmptyCache(slots), f);
    }
  }

  /** A run: each action is enabled when it is taken. */
  ghost predicate Trace(slots: nat, states: seq<Bridge>, actions: seq<Action>) {
    && |states| == |actions| + 1
    && states[0] == Start(slots)
    && forall i :: 0 <= i < |actions| ==> Sound(states[i], actions[i]) && states[i + 1] == Next(states[i], actions[i])
  }

  lemma {:induction false} EveryTraceKeeps(slots: nat, states: seq<Bridge>, actions: seq<Action>, n: nat)
    requires Trace(slots, states, actions) && n <= |actions|
    ensures Inv(states[n])
  {
    if n == 0 {
      StartHolds(slots);
    } else {
      EveryTraceKeeps(slots, states, actions, n - 1);
      assert states[n] == Next(states[n - 1], actions[n - 1]);
      hide Inv, Sound, Next;
      StepKeeps(states[n - 1], actions[n - 1]);
    }
  }

  /** No frame is in two cache slots, and one not stored yet is in none. */
  ghost predicate OneSlot(s: Bridge) {
    && (forall f :: CacheRefs(s.cache, f) <= 1)
    && (s.thread.Converted? ==> CacheRefs(s.cache, s.thread.f) == 0)
  }

  lemma StepKeepsOneSlot(s: Bridge, a: Action)
    requires Inv(s) && OneSlot(s) && Sound(s, a)
    ensures OneSlot(Next(s, a))
  {
    hide CacheRefs, FreedOnce, AllPositive, SlotOk, Accounted;
    assert Enabled(s, a);
    match a
    case Store =>
      forall f ensures CacheRefs(Next(s, a).cache, f) <= 1 {
        if s.thread.slot < |s.cache| { CacheRefsUpdate(s.cache, s.thread.slot, Some(s.thread.f), f); }
      }
    case Evict(slot) =>
      forall f ensures CacheRefs(Next(s, a).cache, f) <= 1 {
        CacheRefsUpdate(s.cache, slot, None, f);
      }
    case Convert(_) => NewFrameIsNowhere(s);
    case _ =>
  }

  lemma NewFrameIsNowhere(s: Bridge)
    requires Accounted(s) && FreedOnce(s)
    ensures Refs(s, s.next) == 0
  {
    hide Refs;
    assert Count(s, s.next) == Refs(s, s.next);
  }

  lemma {:induction false} EveryTraceKeepsOneSlot(slots: nat, states: seq<Bridge>, actions: seq<Action>, n: nat)
    requires Trace(slots, states, actions) && n <= |actions|
    ensures OneSlot(states[n])
  {
    if n == 0 {
      forall f ensures CacheRefs(states[0].cache, f) == 0 {
        NoRefsWithoutFrames(EmptyCache(slots), f);
      }
    } else {
      EveryTraceKeepsOneSlot(slots, states, actions, n - 1);
      EveryTraceKeeps(slots, states, actions, n - 1);
      assert states[n] == Next(states[n - 1], actions[n - 1]);
      hide Inv, Sound, Next, OneSlot;
      StepKeepsOneSlot(states[n - 1], actions[n - 1]);
    }
  }

  /**
    In every run, with messages released at any time: a frame's count is its cache slot (none or
    one) plus the references of the request thread and of messages on their way; every frame made
    is live or was freed exactly once; and whatever any enabled step uses is live.
   */
  lemma FramesAreOwned(slots: nat, states: seq<Bridge>, actions: seq<Action>, n: nat, f: Frame)
    requires Trace(slots, states, actions) && n <= |actions|
    ensures var s := states[n];
      && Count(s, f) == CacheRefs(s.cache, f) + ThreadRefs(s.thread, f) + s.inFlight[f]
      && CacheRefs(s.cache, f) <= 1
      && (f < s.next <==> (f in s.counts && s.counts[f] > 0) || f in s.frees)
      && !(f in s.counts && f in s.frees)
      && (forall i, j :: 0 <= i < j < |s.frees| ==> s.frees[i] != s.frees[j])
      && (forall a :: Enabled(s, a) ==> Sound(s, a))
  {
    EveryTraceKeeps(slots, states, actions, n);
    EveryTraceKeepsOneSlot(slots, states, actions, n);
    var s := states[n];
    assert Count(s, f) == Refs(s, f);
    hide CacheRefs, ThreadRefs, Trace;
    forall a | Enabled(s, a) ensures Sound(s, a) {
      NothingUsedAfterFree(s, a);
    }
  }

  /** A frame with any holder left has not been freed, whatever has happened to its other holders. */
  lemma HolderKeepsFrame(slots: nat, states: seq<Bridge>, actions: seq<Action>, n: nat, f: Frame)
    requires Trace(slots, states, actions) && n <= |actions|
    ensures var s := states[n];
      f in s.counts <==> CacheRefs(s.cache, f) + ThreadRefs(s.thread, f) + s.inFlight[f] > 0
  {
    EveryTraceKeeps(slots, states, actions, n);
    var s := states[n];
    hide CacheRefs, ThreadRefs, Trace;
    assert Count(s, f) == Refs(s, f);
  }

  /** Once the cache is cleared, the thread idle and every message sent, every frame has been freed. */
  lemma NothingLeaks(slots: nat, states: seq<Bridge>, actions: seq<Action>, n: nat)
    requires Trace(slots, states, actions) && n <= |actions|
    requires states[n].thread.Idle? && states[n].inFlight == multiset{}
    requires forall i :: 0 <= i < |states[n].cache| ==> states[n].cache[i] == None
    ensures states[n].counts == map[] && forall f: Frame :: f < states[n].next ==> f in states[n].frees
  {
    EveryTraceKeeps(slots, states, actions, n);
    var s := states[n];
    hide Trace;
    forall f ensures f !in s.counts {
      NoRefsWithoutFrames(s.cache, f);
      hide CacheRefs;
      assert Count(s, f) == Refs(s, f);
    }
  }
}
