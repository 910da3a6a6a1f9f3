/**
  The code of the TLV sender (src/tcp_sender.c, 48-104 and 144-490): a state field, counters, a
  send buffer that grows, and a loop over partial sends. Each call makes the step of `SenderSpec`.
 */
module TcpSender {
  import opened Bytes
  import opened Protocol
  import opened Sockets
  import opened SenderSpec

  const FIRST_BUFFER := 2 * 1024 * 1024

  /** The bytes of every connection made so far. */
  function WiresOf(conns: seq<seq<Sending>>): seq<seq<byte>> {
    seq(|conns|, i requires 0 <= i < |conns| => WireOf(conns[i]))
  }

  lemma {:induction false} WireSnoc(conn: seq<Sending>, p: Sending)
    ensures WireOf(conn + [p]) == WireOf(conn) + SentBytes(p)
  {
    hide SentBytes;
    if conn == [] {
      assert [] + [p] == [p] && [p][1..] == [];
    } else {
      assert (conn + [p])[1..] == conn[1..] + [p];
      WireSnoc(conn[1..], p);
      Associate(SentBytes(conn[0]), WireOf(conn[1..]), SentBytes(p));
    }
  }

  class TcpSender {
    const config: Config
    var phase: Phase
    var open: bool                    // sock_fd >= 0
    var packetsSent: nat
    var bytesSent: nat
    var sendBuffer: array<byte>
    var wires: seq<seq<byte>>         // bytes taken by each connection, the current one last

    ghost var conns: seq<seq<Sending>>

    ghost function View(): Sender
      reads this
    {
      Sender(phase, open, conns, packetsSent, bytesSent)
    }

    ghost predicate Valid()
      reads this
    {
      config.Valid() && Usable(View()) && wires == WiresOf(conns)
    }

    constructor (config: Config)
      requires config.Valid()
      ensures Valid() && View() == NEW && this.config == config && fresh(sendBuffer)
    {
      this.config := config;
      phase, open, packetsSent, bytesSent := Disconnected, false, 0, 0;
      sendBuffer := new byte[FIRST_BUFFER];
      wires, conns := [], [];
    }

    /** `ensure_buffer_size`. */
    method EnsureBufferSize(needed: nat)
      modifies `sendBuffer
      ensures sendBuffer.Length >= needed && (sendBuffer == old(sendBuffer) || fresh(sendBuffer))
    {
      if sendBuffer.Length >= needed {
        return;
      }
      var newSize := if sendBuffer.Length == 0 then FIRST_BUFFER else sendBuffer.Length;
      while newSize < needed
        invariant newSize > 0
        decreases needed - newSize
      {
        newSize := newSize * 2;
      }
      sendBuffer := new byte[newSize];
    }

    /** `send_all` on the current connection. */
    method SendAllBytes(data: array<byte>, length: nat, answers: seq<Answer>) returns (sent: nat, ok: bool)
      requires length <= data.Length && wires != []
      modifies `wires
      ensures (sent, ok) == SendAll(length, answers, 0)
      ensures |wires| == |old(wires)| && wires == old(wires)[|wires| - 1 := old(wires)[|wires| - 1] + data[..sent]]
    {
      var retries, i := 0, 0;
      sent := 0;
      ghost var before := wires[|wires| - 1];
      assert data[..0] == [] && before + [] == before && answers[0..] == answers;
      while sent < length && retries < MAX_RETRIES && i < |answers|
        invariant 0 <= i <= |answers| && sent <= length && retries <= MAX_RETRIES
        invariant SendAll(length, answers, 0) == (sent + SendAll(length - sent, answers[i..], retries).0,
                                                  SendAll(length - sent, answers[i..], retries).1)
        invariant |wires| == |old(wires)| && wires == old(wires)[|wires| - 1 := before + data[..sent]]
        decreases |answers| - i
      {
        assert answers[i..][1..] == answers[i + 1..] && answers[i..][0] == answers[i];
        match answers[i] {
          case Took(n) =>
            var k := Taken(n, length - sent);
            assert data[..sent + k] == data[..sent] + data[sent..sent + k];
            Associate(before, data[..sent], data[sent..sent + k]);
            wires := wires[|wires| - 1 := wires[|wires| - 1] + data[sent..sent + k]];
            sent := sent + k;
            retries := 0;
          case Interrupted =>
          case WouldBlock =>
            retries := retries + 1;
          case _ =>
            return sent, false;
        }
        i := i + 1;
      }
      ok := sent >= length;
    }

    /** Sends a packet that stands in a buffer and records how far it got. */
    method SendPacket(buf: array<byte>, length: nat, ghost m: Message, answers: seq<Answer>) returns (ok: bool)
      requires Valid() && conns != [] && length == |Encode(m)| <= buf.Length && buf[..length] == Encode(m)
      modifies `wires, `conns
      ensures Valid()
      ensures (View(), ok) == Put(old(View()), m, answers)
    {
      hide Encode, SendAll, WireOf;
      var sent;
      ghost var conn := conns[|conns| - 1];
      sent, ok := SendAllBytes(buf, length, answers);
      WireSnoc(conn, Sending(m, sent));
      assert buf[..sent] == Encode(m)[..sent];
      conns := conns[|conns| - 1 := conn + [Sending(m, sent)]];
    }

    /** `tcp_sender_send_video`. */
    method SendVideoData(data: seq<byte>, answers: seq<Answer>) returns (ok: bool)
      requires Valid()
      modifies this, sendBuffer
      ensures Valid() && (sendBuffer == old(sendBuffer) || fresh(sendBuffer))
      ensures View() == OnVideo(config, old(View()), data, answers)
      ensures ok <==> packetsSent == old(packetsSent) + 1
    {
      hide Encode, SendAll, WiresOf;
      if |data| == 0 || phase != Connected || |data| > MAX_PACKET_SIZE {
        return false;
      }
      var total := HEADER_SIZE + |data|;
      EnsureBufferSize(total);
      ghost var m := VideoOf(config, data);
      WritePacket(sendBuffer, VIDEO_DATA, config.streamId, data);
      ok := SendPacket(sendBuffer, total, m, answers);
      if !ok {
        phase := Errored;
        return;
      }
      packetsSent := packetsSent + 1;
      bytesSent := bytesSent + total;
    }

    /** `tcp_sender_send_heartbeat`. */
    method SendHeartbeat(answers: seq<Answer>) returns (ok: bool)
      requires Valid()
      modifies this
      ensures Valid() && sendBuffer == old(sendBuffer)
      ensures View() == OnHeartbeat(config, old(View()), answers)
      ensures ok <==> phase == Connected
    {
      hide Encode, SendAll, WiresOf;
      if phase != Connected {
        return false;
      }
      var buf := new byte[HEADER_SIZE];
      WritePacket(buf, HEARTBEAT, config.streamId, []);
      ok := SendPacket(buf, HEADER_SIZE, BeatOf(config), answers);
      if !ok {
        phase := Errored;
      }
    }

    /** `tcp_sender_send_stream_stop`. */
    method SendStreamStop(answers: seq<Answer>) returns (ok: bool)
      requires Valid()
      modifies `wires, `conns
      ensures Valid()
      ensures View() == OnStop(config, old(View()), answers)
      ensures ok <==> phase == Connected && Put(old(View()), StopOf(config), answers).1
    {
      hide Encode, SendAll, WiresOf;
      if phase != Connected {
        return false;
      }
      var buf := new byte[HEADER_SIZE];
      WritePacket(buf, STREAM_STOP, config.streamId, []);
      ok := SendPacket(buf, HEADER_SIZE, StopOf(config), answers);
    }

    /** `tcp_sender_send_stream_start`. */
    method SendStreamStart(answers: seq<Answer>) returns (ok: bool)
      requires Valid()
      modifies this, sendBuffer
      ensures Valid() && (sendBuffer == old(sendBuffer) || fresh(sendBuffer))
      ensures old(phase) != Connected ==> !ok && View() == old(View())
      ensures old(phase) == Connected ==>
        var r := Put(old(View()), StartOf(config), answers);
        ok == r.1 && View() == if r.1 then r.0 else r.0.(phase := Errored)
    {
      hide Encode, SendAll, WiresOf, InfoBytes;
      if phase != Connected {
        return false;
      }
      var total := HEADER_SIZE + 40;
      EnsureBufferSize(total);
      WriteStart(sendBuffer, config.streamId, config.info);
      ok := SendPacket(sendBuffer, total, StartOf(config), answers);
      if !ok {
        phase := Errored;
      }
    }

    /** `tcp_sender_connect`: the failure of its STREAM_START only shows in the state. */
    method ConnectTo(outcome: Outcome, answers: seq<Answer>) returns (ok: bool)
      requires Valid()
      modifies this, sendBuffer
      ensures Valid() && (sendBuffer == old(sendBuffer) || fresh(sendBuffer))
      ensures View() == OnConnect(config, old(View()), outcome, answers)
      ensures ok <==> old(phase) == Connected || outcome == Established
    {
      hide Put, InfoBytes;
      if phase == Connected {
        return true;
      }
      open := false;
      phase := Connecting;
      if outcome != Established {
        phase := Errored;
        return false;
      }
      NewWire(conns);
      open := true;
      phase := Connected;
      packetsSent, bytesSent := 0, 0;
      wires := wires + [[]];
      conns := conns + [[]];
      var started := SendStreamStart(answers);
      return true;
    }

    /** `tcp_sender_disconnect`. */
    method DisconnectFrom(answers: seq<Answer>)
      requires Valid()
      modifies this
      ensures Valid() && sendBuffer == old(sendBuffer)
      ensures View() == OnDisconnect(config, old(View()), answers)
    {
      if phase == Connected {
        var ok := SendStreamStop(answers);
      }
      open := false;
      phase := Disconnected;
    }
  }

  lemma NewWire(conns: seq<seq<Sending>>)
    ensures WiresOf(conns + [[]]) == WiresOf(conns) + [[]]
  {
  }

  /** Header and payload, byte by byte. */
  method WritePacket(buf: array<byte>, msgType: nat, streamId: nat, payload: seq<byte>)
    requires HEADER_SIZE + |payload| <= buf.Length && |payload| <= MAX_PACKET_SIZE
    requires msgType < 256 && streamId < 0x1_0000
    modifies buf
    ensures buf[..HEADER_SIZE + |payload|] == Encode(Message(msgType, streamId, payload))
  {
    hide HeaderBytes;
    BuildHeader(buf, msgType, streamId, |payload|);
    forall i | 0 <= i < |payload| {
      buf[HEADER_SIZE + i] := payload[i];
    }
    assert buf[..HEADER_SIZE] == HeaderBytes(HeaderOf(Message(msgType, streamId, payload)));
    assert buf[HEADER_SIZE..HEADER_SIZE + |payload|] == payload;
  }

  method PutBe32(buf: array<byte>, off: nat, x: nat)
    requires off + 4 <= buf.Length
    modifies buf
    ensures buf[..off + 4] == old(buf[..off]) + Be32(x)
  {
    buf[off] := ((x / 0x100_0000) % 256) as byte;
    buf[off + 1] := ((x / 0x1_0000) % 256) as byte;
    buf[off + 2] := ((x / 0x100) % 256) as byte;
    buf[off + 3] := (x % 256) as byte;
  }

  lemma {:induction false} WordBytesSnoc(words: seq<nat>, w: nat)
    ensures WordBytes(words + [w]) == WordBytes(words) + Be32(w)
  {
    hide Be32;
    if words == [] {
      assert [] + [w] == [w] && [w][1..] == [];
    } else {
      assert (words + [w])[1..] == words[1..] + [w];
      WordBytesSnoc(words[1..], w);
      Associate(Be32(words[0]), WordBytes(words[1..]), Be32(w));
    }
  }

  /** Fields one behind the other. */
  method PutWords(buf: array<byte>, off: nat, words: seq<nat>)
    requires off + 4 * |words| <= buf.Length
    modifies buf
    ensures buf[..off + 4 * |words|] == old(buf[..off]) + WordBytes(words)
  {
    ghost var before := buf[..off];
    assert words[..0] == [] && before + [] == before;
    for k := 0 to |words|
      invariant buf[..off + 4 * k] == before + WordBytes(words[..k])
    {
      hide Be32, WordBytes;
      PutBe32(buf, off + 4 * k, words[k]);
      WordBytesSnoc(words[..k], words[k]);
      assert words[..k + 1] == words[..k] + [words[k]];
      Associate(before, WordBytes(words[..k]), Be32(words[k]));
    }
    assert words[..|words|] == words;
  }

  /** STREAM_START: the header and the ten fields of the stream information. */
  method WriteStart(buf: array<byte>, streamId: nat, info: StreamInfo)
    requires HEADER_SIZE + 40 <= buf.Length && streamId < 0x1_0000
    modifies buf
    ensures buf[..HEADER_SIZE + 40] == Encode(Message(STREAM_START, streamId, InfoBytes(info)))
  {
    hide HeaderBytes, WordBytes;
    BuildHeader(buf, STREAM_START, streamId, 40);
    PutWords(buf, HEADER_SIZE, Words(info));
  }
}
