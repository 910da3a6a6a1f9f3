/**
  One subscriber of the agent's H.264 tap as a transition system
  (strem_agent_server/src/h264_tap.c, 383-540 and 566-588). What the socket accepts of each send
  is part of the input. A block is what one publish puts on the wire for the subscriber.
 */
module TapSpec {
  import opened Bytes
  import opened ParamSets
  import opened Sockets
  import opened TapScan

  const NS_PER_MS := 1_000_000

  datatype Config = Config(stallMs: nat, dropToIdr: bool)

  /** Outcomes of one publish: clock readings, and the answers to the two attempts to flush. */
  datatype Io = Io(now: nat, start: nat, first: seq<Answer>, second: seq<Answer>)

  /** Publish `index`: parameter sets sent ahead, the packet, and how many bytes the socket has taken. */
  datatype Block = Block(index: nat, sets: seq<byte>, packet: seq<byte>, recovery: bool, sent: nat)

  datatype Client = Client(
    needIdr: bool,
    pendingIdr: bool,
    sps: seq<byte>,
    pps: seq<byte>,
    published: nat,     // packets published since the subscriber was placed
    log: seq<Block>,
    pending: bool,      // the last block is still in the buffer
    start: nat)

  /** A slot of the client table: in use, or free with what its buffer still holds and its last connection's log. */
  datatype Slot = Free(stale: seq<byte>, staleStart: nat, ended: seq<Block>) | Live(c: Client)

  function Framed4(packet: seq<byte>): seq<byte> {
    if StartsWithCode(packet) then packet else START_CODE + packet
  }

  function BytesOf(b: Block): seq<byte> {
    b.sets + Framed4(b.packet)
  }

  predicate Whole(b: Block) {
    b.sent == |BytesOf(b)|
  }

  /** Everything the socket has taken so far. */
  function Wire(log: seq<Block>): seq<byte> {
    if log == [] then []
    else
      var last := log[|log| - 1];
      Wire(log[..|log| - 1]) + if last.sent <= |BytesOf(last)| then BytesOf(last)[..last.sent] else BytesOf(last)
  }

  // ---------- sending ----------

  datatype FlushEnd = Emptied | Blocked | Dead

  /** The flush loop: bytes sent, and how it ends. No answer left means the socket would block. */
  function Flush(room: nat, answers: seq<Answer>): (r: (nat, FlushEnd))
    ensures r.0 <= room && (r.1 == Emptied <==> r.0 == room)
    decreases |answers|
  {
    if room == 0 then (0, Emptied)
    else if answers == [] then (0, Blocked)
    else
      match answers[0]
      case Took(n) =>
        var k := Taken(n, room);
        var r := Flush(room - k, answers[1..]);
        (k + r.0, r.1)
      case Interrupted => Flush(room, answers[1..])
      case WouldBlock => (0, Blocked)
      case _ => (0, Dead)
  }

  function LastBlock(c: Client): Block
    requires c.log != []
  {
    c.log[|c.log| - 1]
  }

  /** A pending block is the last one, and not yet sent whole. */
  predicate LogOk(c: Client) {
    c.pending ==> c.log != [] && LastBlock(c).sent < |BytesOf(LastBlock(c))|
  }

  /** The client after the loop: the last block has advanced; done with it, recovery may end. */
  function Flushed(c: Client, answers: seq<Answer>): (r: (Client, FlushEnd))
    requires LogOk(c) && c.pending
    ensures LogOk(r.0) && r.0.pending == (r.1 != Emptied) && r.0.published == c.published
  {
    var last := LastBlock(c);
    var f := Flush(|BytesOf(last)| - last.sent, answers);
    var log := c.log[|c.log| - 1 := last.(sent := last.sent + f.0)];
    if f.1 == Emptied then
      (c.(log := log, pending := false, start := 0, needIdr := c.needIdr && !c.pendingIdr, pendingIdr := false),
       Emptied)
    else (c.(log := log), f.1)
  }

  // ---------- publishing ----------

  /** The type of the first NAL of a packet that starts with a start code. */
  function FirstType(p: seq<byte>): int {
    if |p| >= 5 && p[0] == 0 && p[1] == 0 && p[2] == 0 && p[3] == 1 then (p[4] % 32) as int
    else if |p| >= 4 && p[0] == 0 && p[1] == 0 && p[2] == 1 then (p[3] % 32) as int
    else -1
  }

  function Cached(c: Client, p: seq<byte>): (r: Client)
    ensures LogOk(c) ==> LogOk(r)
    ensures r.published == c.published + 1
  {
    var next := c.(published := c.published + 1);
    if FirstType(p) == 7 then next.(sps := p) else if FirstType(p) == 8 then next.(pps := p) else next
  }

  predicate Stalled(cfg: Config, c: Client, now: nat) {
    c.pending && c.start != 0 && Sub64(now, c.start) > cfg.stallMs * NS_PER_MS
  }

  /** A stalled block is cut where it stands. */
  function Unstalled(cfg: Config, c: Client, now: nat): (r: Client)
    ensures LogOk(c) ==> LogOk(r)
    ensures r.published == c.published
  {
    if Stalled(cfg, c, now) then c.(pending := false, start := 0, needIdr := c.needIdr || cfg.dropToIdr) else c
  }

  /** The packet becomes the next block, unless recovery still waits for an IDR unit. */
  function Sent(c: Client, p: seq<byte>, io: Io): (r: Slot)
    requires LogOk(c) && !c.pending && p != [] && c.published > 0
    ensures r.Live? ==> LogOk(r.c)
  {
    if c.needIdr && !Contains(p, IDR) then Live(c)
    else
      var f := Flushed(Assembled(c, p, io.start), io.second);
      if f.1 == Dead then Free([], 0, f.0.log) else Live(f.0)
  }

  /** The block in the buffer, behind the parameter sets if the client is recovering. */
  function Assembled(c: Client, p: seq<byte>, start: nat): (r: Client)
    requires LogOk(c) && !c.pending && p != [] && c.published > 0
    ensures LogOk(r) && r.pending
  {
    var b := Block(c.published - 1, if c.needIdr then c.sps + c.pps else [], p, c.needIdr, 0);
    c.(log := c.log + [b], pending := true, start := start, pendingIdr := c.pendingIdr || c.needIdr)
  }

  /**
    `h264_tap_publish` for one slot. When the first flush closes the client, the code goes on and
    leaves the packet in the buffer of the slot it has just freed.
   */
  function Publish(cfg: Config, slot: Slot, p: seq<byte>, io: Io): (r: Slot)
    requires slot.Live? ==> LogOk(slot.c)
    ensures r.Live? ==> LogOk(r.c)
  {
    if slot.Free? || p == [] then slot
    else
      var c := Unstalled(cfg, Cached(slot.c, p), io.now);
      if !c.pending then Sent(c, p, io)
      else
        var f := Flushed(c, io.first);
        match f.1
        case Blocked => Live(f.0)
        case Dead => Free(Framed4(p), io.start, f.0.log)
        case Emptied => Sent(f.0, p, io)
  }

  /** Client placement in `accept_loop`: the buffer of the slot is taken over as it is. */
  function Accept(slot: Slot, sps: seq<byte>, pps: seq<byte>): (r: Slot)
    requires slot.Free? && (slot.stale != [] ==> StartsWithCode(slot.stale))
    ensures r.Live? && LogOk(r.c)
  {
    if slot.stale == [] then Live(Client(true, false, sps, pps, 0, [], false, 0))
    else Live(Client(true, false, sps, pps, 0, [Block(0, [], slot.stale, false, 0)], true, slot.staleStart))
  }

  datatype Input = Input(packet: seq<byte>, io: Io)

  /** The slot after a subscriber was placed in an empty one and packets were published. */
  function Run(cfg: Config, sps: seq<byte>, pps: seq<byte>, inputs: seq<Input>): (r: Slot)
    ensures r.Live? ==> LogOk(r.c)
  {
    if inputs == [] then Accept(Free([], 0, []), sps, pps)
    else
      var last := inputs[|inputs| - 1];
      Publish(cfg, Run(cfg, sps, pps, inputs[..|inputs| - 1]), last.packet, last.io)
  }
}
