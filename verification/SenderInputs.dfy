/**
  What the server must get of a sender, told from the calls and what the sockets answer
  (src/tcp_sender.c, 73-104 and 144-490).
 */
module SenderInputs {
  import opened Bytes
  import opened Protocol
  import opened Sockets
  import opened SenderSpec

  // ---------- a send that is blocked is tried again ----------

  /** The bytes taken by the first `k` answers. */
  function TakenBefore(answers: seq<Answer>, k: nat): nat
    requires k <= |answers|
  {
    if k == 0 then 0
    else
      var last := match answers[k - 1] case Took(n) => if n == 0 then 1 else n case _ => 0;
      TakenBefore(answers, k - 1) + last
  }

  /** How often the socket has blocked since it last took something, interruptions aside. */
  function BlockedInARow(answers: seq<Answer>, k: nat): nat
    requires k <= |answers|
  {
    if k == 0 || answers[k - 1].Took? then 0
    else BlockedInARow(answers, k - 1) + if answers[k - 1].WouldBlock? then 1 else 0
  }

  /** Here the sender gives up: a hundred times blocked, the connection at its end, or never asked again. */
  predicate GivesUp(answers: seq<Answer>, k: nat)
    requires k <= |answers|
  {
    BlockedInARow(answers, k) >= 100 || k == |answers| || answers[k].Closed? || answers[k].Failed?
  }

  predicate FirstGivesUp(answers: seq<Answer>, k: nat)
    requires k <= |answers|
  {
    GivesUp(answers, k) && forall i :: 0 <= i < k ==> !GivesUp(answers, i)
  }

  function StopsAt(answers: seq<Answer>, from: nat): (k: nat)
    requires from <= |answers| && forall i :: 0 <= i < from ==> !GivesUp(answers, i)
    ensures k <= |answers| && FirstGivesUp(answers, k)
    decreases |answers| - from
  {
    if GivesUp(answers, from) then from else StopsAt(answers, from + 1)
  }

  /** All that the socket takes before the sender would give up. */
  function Patiently(answers: seq<Answer>): nat {
    TakenBefore(answers, StopsAt(answers, 0))
  }

  lemma {:induction false} TakenGrows(answers: seq<Answer>, i: nat, k: nat)
    requires i <= k <= |answers|
    ensures TakenBefore(answers, i) <= TakenBefore(answers, k)
  {
    if i < k {
      TakenGrows(answers, i, k - 1);
    }
  }

  lemma {:induction false} SendFrom(room: nat, answers: seq<Answer>, i: nat, k: nat)
    requires i <= k <= |answers| && FirstGivesUp(answers, k)
    requires TakenBefore(answers, i) <= room
    ensures var done := TakenBefore(answers, i);
      var all := TakenBefore(answers, k);
      SendAll(room - done, answers[i..], BlockedInARow(answers, i)) ==
        (if room <= all then (room - done, true) else (all - done, false))
    decreases k - i
  {
    var done := TakenBefore(answers, i);
    if done == room {
      TakenGrows(answers, i, k);
    } else if i < k {
      assert !GivesUp(answers, i);
      assert answers[i..][0] == answers[i] && answers[i..][1..] == answers[i + 1..];
      TakenGrows(answers, i + 1, k);
      if TakenBefore(answers, i + 1) <= room {
        SendFrom(room, answers, i + 1, k);
      }
    }
  }

  /** A send puts out all that the socket takes until it has blocked a hundred times in a row, closed or failed. */
  lemma SendsPatiently(room: nat, answers: seq<Answer>)
    ensures SendAll(room, answers, 0) ==
      (if room <= Patiently(answers) then (room, true) else (Patiently(answers), false))
  {
    SendFrom(room, answers, 0, StopsAt(answers, 0));
    assert answers[0..] == answers;
    hide SendAll;
  }

  // ---------- from the calls to the messages ----------

  /** Between a connect and the disconnect that follows it. */
  predicate InUse(ops: seq<Op>) {
    ops != [] &&
    match ops[|ops| - 1]
    case Connect(_, _) => true
    case Disconnect(_) => false
    case _ => InUse(ops[..|ops| - 1])
  }

  function Joined(sessions: seq<seq<Message>>, m: Message): (r: seq<seq<Message>>)
    ensures |r| == |sessions|
  {
    if sessions == [] then []
    else
      var n := |sessions| - 1;
      sessions[n := sessions[n] + [m]]
  }

  /** The messages of each connection: START, every packet and heartbeat asked for meanwhile, and STOP. */
  function Sessions(cfg: Config, ops: seq<Op>): seq<seq<Message>> {
    if ops == [] then []
    else
      var front := ops[..|ops| - 1];
      var before := Sessions(cfg, front);
      match ops[|ops| - 1]
      case Connect(_, _) =>
        if InUse(front) then before else before + [[Message(3, cfg.streamId, InfoBytes(cfg.info))]]
      case SendVideo(data, _) =>
        if InUse(front) && 0 < |data| <= 10_485_760 then Joined(before, Message(1, cfg.streamId, data)) else before
      case Heartbeat(_) => if InUse(front) then Joined(before, Message(2, cfg.streamId, [])) else before
      case Disconnect(_) => if InUse(front) then Joined(before, Message(4, cfg.streamId, [])) else before
  }

  /** Connects succeed, and each send gets all its bytes out before it gives up. */
  predicate Served(op: Op) {
    match op
    case Connect(outcome, answers) => outcome == Established && 47 <= Patiently(answers)
    case SendVideo(data, answers) => 7 + |data| <= Patiently(answers)
    case Heartbeat(answers) => 7 <= Patiently(answers)
    case Disconnect(answers) => 7 <= Patiently(answers)
  }

  predicate AllServed(ops: seq<Op>) {
    forall i :: 0 <= i < |ops| ==> Served(ops[i])
  }

  /** Messages, sent whole. */
  function Wholes(ms: seq<Message>): (r: seq<Sending>)
    ensures |r| == |ms|
  {
    seq(|ms|, i requires 0 <= i < |ms| => Sending(ms[i], 7 + |ms[i].payload|))
  }

  predicate Carries(conns: seq<seq<Sending>>, sessions: seq<seq<Message>>) {
    |conns| == |sessions| && forall i :: 0 <= i < |conns| ==> conns[i] == Wholes(sessions[i])
  }

  lemma PutServed(s: Sender, m: Message, answers: seq<Answer>, sessions: seq<seq<Message>>)
    requires s.conns != [] && Carries(s.conns, sessions) && 7 + |m.payload| <= Patiently(answers)
    ensures var r := Put(s, m, answers);
      r.1 && Carries(r.0.conns, Joined(sessions, m)) && r.0.phase == s.phase
  {
    SendsPatiently(|Encode(m)|, answers);
    hide SendAll, Encode, Patiently;
    var n := |sessions| - 1;
    assert Wholes(sessions[n] + [m]) == Wholes(sessions[n]) + [Sending(m, 7 + |m.payload|)];
  }

  lemma ConnectServed(cfg: Config, s: Sender, answers: seq<Answer>, sessions: seq<seq<Message>>)
    requires s.phase != Connected && Carries(s.conns, sessions) && 47 <= Patiently(answers)
    ensures var r := OnConnect(cfg, s, Established, answers);
      r.phase == Connected && Carries(r.conns, sessions + [[StartOf(cfg)]])
  {
    SendsPatiently(|Encode(StartOf(cfg))|, answers);
    hide SendAll, Encode, Patiently, InfoBytes;
    assert Wholes([StartOf(cfg)]) == [Sending(StartOf(cfg), 47)];
  }

  /** What the sender has put out so far is what the calls ask for. */
  predicate UpToDate(cfg: Config, s: Sender, ops: seq<Op>) {
    (s.phase == Connected <==> InUse(ops)) && Carries(s.conns, Sessions(cfg, ops))
  }

  lemma {:induction false} CallsAreSent(cfg: Config, ops: seq<Op>)
    requires AllServed(ops)
    ensures UpToDate(cfg, Run(cfg, ops), ops)
  {
    if ops != [] {
      var front := ops[..|ops| - 1];
      var op := ops[|ops| - 1];
      var s := Run(cfg, front);
      var before := Sessions(cfg, front);
      CallsAreSent(cfg, front);
      assert Served(op);
      hide Put, Carries, AllServed, InfoBytes, Patiently;
      match op
      case Connect(_, answers) => if s.phase != Connected { ConnectServed(cfg, s, answers, before); }
      case SendVideo(data, answers) => if s.phase == Connected { PutServed(s, VideoOf(cfg, data), answers, before); }
      case Heartbeat(answers) => if s.phase == Connected { PutServed(s, BeatOf(cfg), answers, before); }
      case Disconnect(answers) => if s.phase == Connected { PutServed(s, StopOf(cfg), answers, before); }
    }
  }

  /** The receiver admits every message of the calls. */
  predicate AllReceivable(sessions: seq<seq<Message>>) {
    forall i :: 0 <= i < |sessions| ==> Admitted(sessions[i])
  }

  predicate Admitted(ms: seq<Message>) {
    forall k :: 0 <= k < |ms| ==> Receivable(ms[k])
  }

  /** Packets stay seven bytes below the cap. */
  predicate Small(ops: seq<Op>) {
    forall i :: 0 <= i < |ops| ==> ops[i].SendVideo? ==> |ops[i].data| <= 10_485_753
  }

  lemma JoinedReceivable(sessions: seq<seq<Message>>, m: Message)
    requires AllReceivable(sessions) && Receivable(m)
    ensures AllReceivable(Joined(sessions, m))
  {
    hide Receivable;
    if sessions != [] {
      assert Admitted(sessions[|sessions| - 1]);
    }
  }

  lemma {:induction false} CallsAreReceivable(cfg: Config, ops: seq<Op>)
    requires cfg.Valid() && cfg.streamId <= 256 && Small(ops)
    ensures AllReceivable(Sessions(cfg, ops))
  {
    if ops != [] {
      var front := ops[..|ops| - 1];
      var before := Sessions(cfg, front);
      CallsAreReceivable(cfg, front);
      hide AllReceivable, Joined, InfoBytes;
      match ops[|ops| - 1]
      case Connect(_, _) => OneMoreSession(before, Message(3, cfg.streamId, InfoBytes(cfg.info)));
      case SendVideo(data, _) => if |data| > 0 { JoinedReceivable(before, Message(1, cfg.streamId, data)); }
      case Heartbeat(_) => JoinedReceivable(before, Message(2, cfg.streamId, []));
      case Disconnect(_) => JoinedReceivable(before, Message(4, cfg.streamId, []));
    }
  }

  lemma OneMoreSession(sessions: seq<seq<Message>>, m: Message)
    requires AllReceivable(sessions) && Receivable(m)
    ensures AllReceivable(sessions + [[m]])
  {
    hide Receivable;
    assert Admitted([m]);
  }

  lemma {:induction false} WholesAreReceived(ms: seq<Message>)
    requires Admitted(ms)
    ensures Received(Wholes(ms)) == ms
  {
    if ms != [] {
      assert Wholes(ms)[1..] == Wholes(ms[1..]);
      WholesAreReceived(ms[1..]);
      assert [ms[0]] + ms[1..] == ms;
    }
  }

  /**
    From the calls to the server: with connects that succeed and sockets that take everything before
    the sender gives up, each connection brings the server START, then every packet and heartbeat
    sent between this connect and its disconnect, in order and unchanged, then STOP.
   */
  lemma ServerGetsTheCalls(cfg: Config, ops: seq<Op>)
    requires cfg.Valid() && cfg.streamId <= 256 && Small(ops) && AllServed(ops)
    ensures var conns := Run(cfg, ops).conns;
      var sessions := Sessions(cfg, ops);
      |conns| == |sessions| && forall i :: 0 <= i < |conns| ==> Decode(WireOf(conns[i])) == sessions[i]
  {
    CallsAreSent(cfg, ops);
    CallsAreReceivable(cfg, ops);
    var conns := Run(cfg, ops).conns;
    var sessions := Sessions(cfg, ops);
    hide Run, Sessions, InUse, AllServed, Small, Wholes, Decode, WireOf, Received, Admitted;
    forall i | 0 <= i < |conns| ensures Decode(WireOf(conns[i])) == sessions[i] {
      ServerGetsWholePackets(cfg, ops, i);
      assert Admitted(sessions[i]);
      WholesAreReceived(sessions[i]);
    }
  }
}
