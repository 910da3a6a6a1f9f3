/**
  The receive loop of the server (stream_server/src/server.c, 84-104 and 626-675): a header is
  read in full, checked, then its payload into a buffer that is reused and grows. The loop is
  proved to get the messages of `Protocol.Decode`, however the bytes are cut up on the way.
 */
module ReceiveLoop {
  import opened Bytes
  import opened Protocol
  import opened Sockets

  const FIRST_BUFFER := 1024 * 1024

  class Connection {
    var stream: seq<byte>             // bytes that will still arrive before the connection ends
    var answers: seq<Answer>          // how `recv` hands them out
    var recvBuf: array<byte>

    constructor (stream: seq<byte>, answers: seq<Answer>)
      ensures this.stream == stream && this.answers == answers && fresh(recvBuf)
      ensures recvBuf.Length == FIRST_BUFFER
    {
      this.stream := stream;
      this.answers := answers;
      recvBuf := new byte[FIRST_BUFFER];
    }

    /** One `recv`: some bytes, an interruption, or the end (closed, timed out or failed) once the stream is used up. */
    method Recv(buf: array<byte>, off: nat, room: nat) returns (got: Answer)
      requires off + room <= buf.Length && room > 0
      modifies `stream, `answers, buf
      ensures buf[..off] == old(buf[..off])
      ensures match got
              case Took(k) => 0 < k <= room && k <= |old(stream)|
                && buf[..off + k] == old(buf[..off]) + old(stream)[..k] && stream == old(stream)[k..]
              case Interrupted => stream == old(stream)
              case _ => old(stream) == [] && stream == []
      ensures |stream| < |old(stream)| || (stream == old(stream) && (|answers| < |old(answers)| || got.Closed?))
    {
      if |stream| == 0 {
        return Closed;
      }
      var wanted := room;
      if |answers| > 0 {
        var answer := answers[0];
        answers := answers[1..];
        if answer == Interrupted {
          return Interrupted;
        }
        if answer.Took? {
          wanted := answer.n;
        }
      }
      var k := Taken(wanted, if room < |stream| then room else |stream|);
      forall i | 0 <= i < k {
        buf[off + i] := stream[i];
      }
      assert buf[..off] == old(buf[..off]);
      assert buf[off..off + k] == stream[..k];
      stream := stream[k..];
      return Took(k);
    }

    /** `recv_exact`: reads on until `n` bytes are there, or fails when the connection ends first. */
    method RecvExact(buf: array<byte>, n: nat) returns (ok: bool)
      requires n <= buf.Length
      modifies `stream, `answers, buf
      ensures ok <==> n <= |old(stream)|
      ensures ok ==> buf[..n] == old(stream)[..n] && stream == old(stream)[n..]
    {
      var received := 0;
      assert buf[..0] == [];
      while received < n
        invariant received <= n && received <= |old(stream)|
        invariant stream == old(stream)[received..] && buf[..received] == old(stream)[..received]
        decreases |stream|, |answers|
      {
        var got := Recv(buf, received, n - received);
        match got {
          case Took(k) =>
            assert old(stream)[..received + k] == old(stream)[..received] + old(stream)[received..][..k];
            received := received + k;
          case Interrupted =>
          case _ =>
            return false;
        }
      }
      return true;
    }

    /** The buffer grows by doubling until the payload fits. */
    method EnsureRecvBuf(payloadLen: nat)
      requires recvBuf.Length > 0
      modifies `recvBuf
      ensures payloadLen <= recvBuf.Length && (recvBuf == old(recvBuf) || fresh(recvBuf))
    {
      if payloadLen > recvBuf.Length {
        var newSize := recvBuf.Length;
        while newSize < payloadLen
          invariant newSize > 0
          decreases payloadLen - newSize
        {
          newSize := newSize * 2;
        }
        recvBuf := new byte[newSize];
      }
    }

    /** One turn of the loop: the next message, or the end. */
    method ReceiveMessage() returns (r: Parsed<Message>)
      requires recvBuf.Length > 0
      modifies this`stream, this`answers, this`recvBuf, recvBuf
      ensures recvBuf.Length > 0 && (recvBuf == old(recvBuf) || fresh(recvBuf))
      ensures r.Ok? ==> Decode(old(stream)) == [r.value] + Decode(stream) && |stream| < |old(stream)|
      ensures r.Malformed? ==> Decode(old(stream)) == []
    {
      ghost var s := stream;
      var headerBuf := new byte[HEADER_SIZE];
      var ok := RecvExact(headerBuf, HEADER_SIZE);
      if !ok {
        return Malformed;
      }
      assert headerBuf[..] == headerBuf[..HEADER_SIZE];
      var parsed := ReadHeader(headerBuf);
      if parsed == Malformed {
        return Malformed;
      }
      var h := parsed.value;
      var payloadLen := h.length - HEADER_SIZE;
      if payloadLen == 0 {
        assert s[HEADER_SIZE..h.length] == [];
        return Ok(Message(h.msgType, h.streamId, []));
      }
      EnsureRecvBuf(payloadLen);
      ok := RecvExact(recvBuf, payloadLen);
      if !ok {
        return Malformed;
      }
      assert s[HEADER_SIZE..][..payloadLen] == s[HEADER_SIZE..h.length];
      assert s[HEADER_SIZE..][payloadLen..] == s[h.length..];
      return Ok(Message(h.msgType, h.streamId, recvBuf[..payloadLen]));
    }

    /** The loop of `client_handler`. */
    method HandleClient() returns (messages: seq<Message>)
      requires recvBuf.Length > 0
      modifies this`stream, this`answers, this`recvBuf, recvBuf
      ensures messages == Decode(old(stream))
    {
      hide Decode;
      messages := [];
      var going := true;
      ghost var s := stream;
      assert [] + Decode(stream) == Decode(s);
      while going
        invariant recvBuf.Length > 0 && (recvBuf == old(recvBuf) || fresh(recvBuf))
        invariant Decode(s) == if going then messages + Decode(stream) else messages
        decreases going, |stream|
      {
        ghost var before := stream;
        var r := ReceiveMessage();
        if r == Malformed {
          assert messages + [] == messages;
          going := false;
        } else {
          Associate(messages, [r.value], Decode(stream));
          messages := messages + [r.value];
        }
      }
    }
  }
}
