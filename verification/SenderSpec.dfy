/**
  The connection state machine of the TLV sender (src/tcp_sender.c, 73-104 and 144-490) and the
  bytes each of its connections carries, for every sequence of calls and every partial send.
 */
module SenderSpec {
  import opened Bytes
  import opened Protocol
  import opened Sockets

  const MAX_RETRIES := 100

  datatype Config = Config(streamId: nat, info: StreamInfo) {
    predicate Valid() {
      1 <= streamId < 0x1_0000 && info.Valid()
    }
  }

  /** A packet handed to `send_all`, and how many of its bytes went out. */
  datatype Sending = Sending(m: Message, sent: nat)

  datatype Phase = Disconnected | Connecting | Connected | Errored

  /** `conns` are the connections made so far, the current one last. */
  datatype Sender = Sender(phase: Phase, open: bool, conns: seq<seq<Sending>>, packetsSent: nat, bytesSent: nat)

  const NEW := Sender(Disconnected, false, [], 0, 0)

  datatype Outcome = NoSocket | NotConnected | Established

  datatype Op =
    | Connect(outcome: Outcome, answers: seq<Answer>)
    | SendVideo(data: seq<byte>, answers: seq<Answer>)
    | Heartbeat(answers: seq<Answer>)
    | Disconnect(answers: seq<Answer>)

  function StartOf(cfg: Config): Message {
    Message(STREAM_START, cfg.streamId, InfoBytes(cfg.info))
  }

  function VideoOf(cfg: Config, data: seq<byte>): Message {
    Message(VIDEO_DATA, cfg.streamId, data)
  }

  function BeatOf(cfg: Config): Message {
    Message(HEARTBEAT, cfg.streamId, [])
  }

  function StopOf(cfg: Config): Message {
    Message(STREAM_STOP, cfg.streamId, [])
  }

  /** `send_all`: gives up after 100 blocked attempts in a row. No answer left counts as giving up. */
  function SendAll(room: nat, answers: seq<Answer>, retries: nat): (r: (nat, bool))
    ensures r.0 <= room && (r.1 <==> r.0 == room)
    decreases |answers|
  {
    if room == 0 then (0, true)
    else if retries >= MAX_RETRIES || answers == [] then (0, false)
    else
      match answers[0]
      case Took(n) =>
        var k := Taken(n, room);
        var r := SendAll(room - k, answers[1..], 0);
        (k + r.0, r.1)
      case Interrupted => SendAll(room, answers[1..], retries)
      case WouldBlock => SendAll(room, answers[1..], retries + 1)
      case _ => (0, false)
  }

  /** The packet joins the current connection with what was sent of it. */
  function Put(s: Sender, m: Message, answers: seq<Answer>): (Sender, bool)
    requires s.conns != []
  {
    var r := SendAll(|Encode(m)|, answers, 0);
    var n := |s.conns| - 1;
    (s.(conns := s.conns[n := s.conns[n] + [Sending(m, r.0)]]), r.1)
  }

  predicate Usable(s: Sender) {
    s.phase == Connected ==> s.open && s.conns != []
  }

  function OnConnect(cfg: Config, s: Sender, outcome: Outcome, answers: seq<Answer>): Sender {
    if s.phase == Connected then s
    else if outcome != Established then s.(phase := Errored, open := false)
    else
      var up := Sender(Connected, true, s.conns + [[]], 0, 0);
      var r := Put(up, StartOf(cfg), answers);
      if r.1 then r.0 else r.0.(phase := Errored)
  }

  function OnVideo(cfg: Config, s: Sender, data: seq<byte>, answers: seq<Answer>): Sender
    requires Usable(s)
  {
    if s.phase != Connected || data == [] || |data| > MAX_PACKET_SIZE then s
    else
      var r := Put(s, VideoOf(cfg, data), answers);
      if r.1 then r.0.(packetsSent := s.packetsSent + 1, bytesSent := s.bytesSent + HEADER_SIZE + |data|)
      else r.0.(phase := Errored)
  }

  function OnHeartbeat(cfg: Config, s: Sender, answers: seq<Answer>): Sender
    requires Usable(s)
  {
    if s.phase != Connected then s
    else
      var r := Put(s, BeatOf(cfg), answers);
      if r.1 then r.0 else r.0.(phase := Errored)
  }

  /** `tcp_sender_send_stream_stop`: the one send whose failure leaves the state as it is. */
  function OnStop(cfg: Config, s: Sender, answers: seq<Answer>): Sender
    requires Usable(s)
  {
    if s.phase != Connected then s else Put(s, StopOf(cfg), answers).0
  }

  function OnDisconnect(cfg: Config, s: Sender, answers: seq<Answer>): Sender
    requires Usable(s)
  {
    OnStop(cfg, s, answers).(phase := Disconnected, open := false)
  }

  function Step(cfg: Config, s: Sender, op: Op): (r: Sender)
    requires Usable(s)
    ensures Usable(r)
  {
    match op
    case Connect(outcome, answers) => OnConnect(cfg, s, outcome, answers)
    case SendVideo(data, answers) => OnVideo(cfg, s, data, answers)
    case Heartbeat(answers) => OnHeartbeat(cfg, s, answers)
    case Disconnect(answers) => OnDisconnect(cfg, s, answers)
  }

  function Run(cfg: Config, ops: seq<Op>): (s: Sender)
    ensures Usable(s)
  {
    if ops == [] then NEW else Step(cfg, Run(cfg, ops[..|ops| - 1]), ops[|ops| - 1])
  }

  // ---------- framing ----------

  predicate Whole(p: Sending) {
    p.sent == |Encode(p.m)|
  }

  predicate OwnPacket(cfg: Config, m: Message) {
    || m == StartOf(cfg)
    || m == BeatOf(cfg)
    || m == StopOf(cfg)
    || (m == VideoOf(cfg, m.payload) && 0 < |m.payload| <= MAX_PACKET_SIZE)
  }

  /** One STREAM_START, first, then other packets of this stream; at most the last one is cut short. */
  ghost predicate Framed(cfg: Config, conn: seq<Sending>) {
    && conn != []
    && conn[0].m == StartOf(cfg)
    && (forall i :: 0 < i < |conn| ==> conn[i].m.msgType != STREAM_START)
    && (forall i :: 0 <= i < |conn| ==> OwnPacket(cfg, conn[i].m) && conn[i].sent <= |Encode(conn[i].m)|)
    && (forall i :: 0 <= i < |conn| - 1 ==> Whole(conn[i]))
  }

  function VideosIn(conn: seq<Sending>): nat {
    if conn == [] then 0
    else
      var last := conn[|conn| - 1];
      VideosIn(conn[..|conn| - 1]) + if last.m.msgType == VIDEO_DATA && Whole(last) then 1 else 0
  }

  function VideoBytesIn(conn: seq<Sending>): nat {
    if conn == [] then 0
    else
      var last := conn[|conn| - 1];
      VideoBytesIn(conn[..|conn| - 1]) + if last.m.msgType == VIDEO_DATA && Whole(last) then last.sent else 0
  }

  ghost predicate Good(cfg: Config, s: Sender) {
    && (s.conns == [] ==> s.phase != Connected)
    && (forall i :: 0 <= i < |s.conns| ==> Framed(cfg, s.conns[i]))
    && (s.phase == Connected ==> s.open && Whole(LastOf(s)))
    && (s.conns != [] ==> s.packetsSent == VideosIn(s.conns[|s.conns| - 1]))
    && (s.conns != [] ==> s.bytesSent == VideoBytesIn(s.conns[|s.conns| - 1]))
  }

  function LastOf(s: Sender): Sending
    requires s.conns != [] && s.conns[|s.conns| - 1] != []
  {
    var conn := s.conns[|s.conns| - 1];
    conn[|conn| - 1]
  }

  lemma CountsSnoc(conn: seq<Sending>, p: Sending)
    ensures VideosIn(conn + [p]) == VideosIn(conn) + if p.m.msgType == VIDEO_DATA && Whole(p) then 1 else 0
    ensures VideoBytesIn(conn + [p]) == VideoBytesIn(conn) + if p.m.msgType == VIDEO_DATA && Whole(p) then p.sent else 0
  {
    assert (conn + [p])[..|conn|] == conn;
  }

  lemma FramedGrows(cfg: Config, conn: seq<Sending>, p: Sending)
    requires Framed(cfg, conn) && Whole(conn[|conn| - 1])
    requires OwnPacket(cfg, p.m) && p.m.msgType != STREAM_START && p.sent <= |Encode(p.m)|
    ensures Framed(cfg, conn + [p])
  {
    hide Encode, OwnPacket, StartOf;
  }

  /** A packet sent in a good connected state keeps the framing; it is whole exactly if the send succeeded. */
  lemma PutKeeps(cfg: Config, s: Sender, m: Message, answers: seq<Answer>)
    requires Good(cfg, s) && s.phase == Connected && OwnPacket(cfg, m) && m.msgType != STREAM_START
    ensures var r := Put(s, m, answers);
      && (forall i :: 0 <= i < |r.0.conns| ==> Framed(cfg, r.0.conns[i]))
      && (r.1 <==> Whole(LastOf(r.0)))
      && VideosIn(r.0.conns[|s.conns| - 1]) == s.packetsSent + (if r.1 && m.msgType == VIDEO_DATA then 1 else 0)
      && VideoBytesIn(r.0.conns[|s.conns| - 1])
         == s.bytesSent + (if r.1 && m.msgType == VIDEO_DATA then |Encode(m)| else 0)
  {
    var sent := SendAll(|Encode(m)|, answers, 0).0;
    var conn := s.conns[|s.conns| - 1];
    hide Encode, SendAll, OwnPacket, VideosIn, VideoBytesIn;
    FramedGrows(cfg, conn, Sending(m, sent));
    CountsSnoc(conn, Sending(m, sent));
  }

  lemma ConnectKeeps(cfg: Config, s: Sender, outcome: Outcome, answers: seq<Answer>)
    requires Good(cfg, s)
    ensures Good(cfg, OnConnect(cfg, s, outcome, answers))
  {
    if s.phase != Connected && outcome == Established {
      var p := Sending(StartOf(cfg), SendAll(|Encode(StartOf(cfg))|, answers, 0).0);
      CountsSnoc([], p);
      assert [] + [p] == [p];
      assert Framed(cfg, [p]);
      hide Encode, SendAll, Framed, VideosIn, VideoBytesIn, StartOf;
    }
  }

  lemma StepKeeps(cfg: Config, s: Sender, op: Op)
    requires Good(cfg, s)
    ensures Good(cfg, Step(cfg, s, op))
  {
    hide Put, Encode, OnConnect, Framed, VideosIn, VideoBytesIn;
    match op
    case Connect(outcome, answers) => ConnectKeeps(cfg, s, outcome, answers);
    case SendVideo(data, answers) =>
      if s.phase == Connected && 0 < |data| <= MAX_PACKET_SIZE {
        PutKeeps(cfg, s, VideoOf(cfg, data), answers);
        PutShape(s, VideoOf(cfg, data), answers);
      }
    case Heartbeat(answers) =>
      if s.phase == Connected {
        PutKeeps(cfg, s, BeatOf(cfg), answers);
        PutShape(s, BeatOf(cfg), answers);
      }
    case Disconnect(answers) =>
      if s.phase == Connected {
        PutKeeps(cfg, s, StopOf(cfg), answers);
        PutShape(s, StopOf(cfg), answers);
      }
  }

  lemma PutShape(s: Sender, m: Message, answers: seq<Answer>)
    requires s.conns != []
    ensures var r := Put(s, m, answers).0;
      && |r.conns| == |s.conns|
      && r.phase == s.phase && r.open == s.open && r.packetsSent == s.packetsSent && r.bytesSent == s.bytesSent
  {
  }

  /**
    For every sequence of connect, send_video, heartbeat and disconnect, with any partial sends:
    each connection carries one STREAM_START, then whole packets, then at most one packet cut
    short (perhaps the STREAM_START itself); while connected nothing is cut, and the counters
    count the video packets of the current connection that went out whole.
   */
  lemma {:induction false} EveryConnectionIsFramed(cfg: Config, ops: seq<Op>)
    ensures Good(cfg, Run(cfg, ops))
  {
    if ops != [] {
      EveryConnectionIsFramed(cfg, ops[..|ops| - 1]);
      hide Good, Step;
      StepKeeps(cfg, Run(cfg, ops[..|ops| - 1]), ops[|ops| - 1]);
    }
  }

  // ---------- STREAM_STOP ----------

  /** On a connection in use nothing follows a STREAM_STOP, and none has been sent. */
  ghost predicate StopsLast(s: Sender) {
    && (forall c, i :: 0 <= c < |s.conns| && 0 <= i < |s.conns[c]| - 1 ==> s.conns[c][i].m.msgType != STREAM_STOP)
    && (s.phase == Connected && s.conns != [] ==> NoStop(s.conns[|s.conns| - 1]))
  }

  predicate NoStop(conn: seq<Sending>) {
    forall i :: 0 <= i < |conn| ==> conn[i].m.msgType != STREAM_STOP
  }

  lemma PutStopsLast(s: Sender, m: Message, answers: seq<Answer>)
    requires StopsLast(s) && s.phase == Connected && s.conns != []
    ensures var r := Put(s, m, answers).0;
      forall c, i :: 0 <= c < |r.conns| && 0 <= i < |r.conns[c]| - 1 ==> r.conns[c][i].m.msgType != STREAM_STOP
    ensures m.msgType != STREAM_STOP ==> StopsLast(Put(s, m, answers).0)
  {
    hide Encode, SendAll;
    assert NoStop(s.conns[|s.conns| - 1]);
  }

  lemma StepStopsLast(cfg: Config, s: Sender, op: Op)
    requires Usable(s) && StopsLast(s)
    ensures StopsLast(Step(cfg, s, op))
  {
    hide Encode, SendAll;
    match op
    case Connect(outcome, answers) =>
    case SendVideo(data, answers) =>
      if s.phase == Connected {
        PutStopsLast(s, VideoOf(cfg, data), answers);
        hide Put, StopsLast;
        PutKeepsRest(s, VideoOf(cfg, data), answers);
      }
    case Heartbeat(answers) =>
      if s.phase == Connected {
        PutStopsLast(s, BeatOf(cfg), answers);
        hide Put, StopsLast;
        PutKeepsRest(s, BeatOf(cfg), answers);
      }
    case Disconnect(answers) =>
      if s.phase == Connected {
        PutStopsLast(s, StopOf(cfg), answers);
        hide Put;
      }
  }

  /** What else a send changes, the counters and the phase, leaves this alone. */
  lemma PutKeepsRest(s: Sender, m: Message, answers: seq<Answer>)
    requires s.conns != []
    ensures var r := Put(s, m, answers).0;
      StopsLast(r) ==>
        && StopsLast(r.(phase := Errored))
        && forall p: nat, b: nat :: StopsLast(r.(packetsSent := p, bytesSent := b))
  {
    hide Put;
  }

  /** For every sequence of calls, a STREAM_STOP is only ever the last packet of a connection. */
  lemma {:induction false} StopIsLast(cfg: Config, ops: seq<Op>)
    ensures StopsLast(Run(cfg, ops))
  {
    if ops != [] {
      StopIsLast(cfg, ops[..|ops| - 1]);
      hide StopsLast, Step;
      StepStopsLast(cfg, Run(cfg, ops[..|ops| - 1]), ops[|ops| - 1]);
    }
  }

  /** A direct call of `tcp_sender_send_stream_start` puts a second STREAM_START on the connection. */
  lemma DirectStartBreaks(cfg: Config, s: Sender, answers: seq<Answer>)
    requires Good(cfg, s) && s.phase == Connected
    ensures !Good(cfg, Put(s, StartOf(cfg), answers).0)
  {
    hide Encode, SendAll, VideosIn, VideoBytesIn;
    var n := |s.conns| - 1;
    var conn := Put(s, StartOf(cfg), answers).0.conns[n];
    assert conn[|conn| - 1].m == StartOf(cfg);
    assert !Framed(cfg, conn);
  }

  /** A direct call of `tcp_sender_send_stream_stop` keeps this exactly when its send completes. */
  lemma DirectStopIff(cfg: Config, s: Sender, answers: seq<Answer>)
    requires Good(cfg, s) && s.phase == Connected
    ensures Good(cfg, OnStop(cfg, s, answers)) <==> SendAll(HEADER_SIZE, answers, 0).1
  {
    hide Framed, VideosIn, VideoBytesIn, SendAll;
    PutKeeps(cfg, s, StopOf(cfg), answers);
    PutShape(s, StopOf(cfg), answers);
    assert |Encode(StopOf(cfg))| == HEADER_SIZE;
    assert Put(s, StopOf(cfg), answers).1 == SendAll(HEADER_SIZE, answers, 0).1;
  }

  // ---------- end to end ----------

  function SentBytes(p: Sending): seq<byte>
  {
    if p.sent <= |Encode(p.m)| then Encode(p.m)[..p.sent] else Encode(p.m)
  }

  /** The bytes of a connection. */
  function WireOf(conn: seq<Sending>): seq<byte> {
    if conn == [] then [] else SentBytes(conn[0]) + WireOf(conn[1..])
  }

  /** The messages up to the first that is cut short or that the receiver does not admit. */
  function Received(conn: seq<Sending>): seq<Message> {
    if conn == [] || !Whole(conn[0]) || !Receivable(conn[0].m) then []
    else [conn[0].m] + Received(conn[1..])
  }

  /** Any tail of a framed connection. */
  ghost predicate Tail(conn: seq<Sending>) {
    && (forall i :: 0 <= i < |conn| ==> Representable(HeaderOf(conn[i].m)) && conn[i].sent <= |Encode(conn[i].m)|)
    && (forall i :: 0 <= i < |conn| - 1 ==> Whole(conn[i]))
  }

  lemma {:induction false} TailIsReceived(conn: seq<Sending>)
    requires Tail(conn)
    ensures Decode(WireOf(conn)) == Received(conn)
  {
    if conn != [] {
      var p := conn[0];
      assert Tail(conn[1..]);
      TailIsReceived(conn[1..]);
      TailStep(p, WireOf(conn[1..]), conn[1..]);
    }
  }

  lemma TailStep(p: Sending, rest: seq<byte>, conn: seq<Sending>)
    requires Representable(HeaderOf(p.m)) && p.sent <= |Encode(p.m)|
    requires !Whole(p) ==> conn == []
    requires rest == WireOf(conn)
    ensures Decode(SentBytes(p) + rest) == if Whole(p) && Receivable(p.m) then [p.m] + Decode(rest) else []
  {
    hide Encode, Decode, Representable, Receivable;
    if !Whole(p) {
      assert SentBytes(p) + [] == SentBytes(p);
      DecodeCut(p.m, p.sent);
    } else {
      assert SentBytes(p) == Encode(p.m);
      if Receivable(p.m) { DecodeOne(p.m, rest); } else { DecodeStops(p.m, rest); }
    }
  }

  lemma FramedIsTail(cfg: Config, conn: seq<Sending>)
    requires cfg.Valid() && Framed(cfg, conn)
    ensures Tail(conn)
  {
    hide InfoBytes, Encode;
  }

  /**
    From the sender's calls to the server's messages: on every connection of every run, the
    receive loop gets exactly the packets sent whole, in order, up to the first that it does not admit.
   */
  lemma ServerGetsWholePackets(cfg: Config, ops: seq<Op>, i: nat)
    requires cfg.Valid() && i < |Run(cfg, ops).conns|
    ensures var conn := Run(cfg, ops).conns[i];
      Decode(WireOf(conn)) == Received(conn)
  {
    EveryConnectionIsFramed(cfg, ops);
    var conn := Run(cfg, ops).conns[i];
    hide Run, Tail;
    FramedIsTail(cfg, conn);
    hide *;
    TailIsReceived(conn);
  }

  /** What the receiver admits of this sender: ids up to 256, and payloads seven bytes below the cap. */
  lemma OwnPacketReceivable(cfg: Config, m: Message)
    requires cfg.Valid() && OwnPacket(cfg, m)
    ensures Receivable(m) <==> cfg.streamId <= MAX_STREAMS && |m.payload| <= MAX_PACKET_SIZE - HEADER_SIZE
  {
    hide InfoBytes;
  }
}
