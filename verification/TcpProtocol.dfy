/** The TCP/HTTP client as a state machine on values: what one packet or one timer poll does to the connection, and
    what holds along every run, whatever the network loses, repeats or reorders. */
module TcpProtocol {
  import opened Bytes
  import opened Checksum

  /** A TCP packet as handle_ipv4 passes it on: addresses and the bytes of the segment. */
  datatype Packet = Packet(src: seq<byte>, dst: seq<byte>, bytes: seq<byte>)
  {
    predicate WellFormed() { |bytes| >= 20 && 20 <= bytes[12] / 16 * 4 <= |bytes| }

    function Word32(k: nat): nat
      requires k + 4 <= |bytes|
    {
      Word(bytes, k) * 0x1_0000 + Word(bytes, k + 2)
    }

    function Seq(): nat
      requires WellFormed()
    {
      Word32(4)
    }

    function Ack(): nat
      requires WellFormed()
    {
      Word32(8)
    }

    function Payload(): seq<byte>
      requires WellFormed()
    {
      bytes[bytes[12] / 16 * 4..]
    }

    predicate Fin() requires WellFormed() { bytes[13] % 2 == 1 }

    predicate Syn() requires WellFormed() { bytes[13] / 2 % 2 == 1 }

    predicate Rst() requires WellFormed() { bytes[13] / 4 % 2 == 1 }

    predicate HasAck() requires WellFormed() { bytes[13] / 16 % 2 == 1 }
  }

  datatype Event = Arrival(p: Packet) | Poll

  /** A segment sent: sequence and acknowledgement numbers, flags, payload length. */
  datatype Out = Out(seqNo: nat, ackNo: nat, flags: nat, len: nat)

  const SYN: nat := 2
  const ACK: nat := 16
  const PSH_ACK: nat := 24

  /** The connection: states 0 closed, 1 SYN sent, 3 request sent, 4 data seen, 5 reset, 6 finished, 7 given up. */
  datatype Conn = Conn(
    local: seq<byte>, remote: seq<byte>, hostLen: nat,
    state: nat, seqNo: nat, ackNo: nat, getSeq: nat, getLen: nat, ticks: nat, retries: nat,
    count: nat, chunks: nat, headersDone: bool, body: seq<byte>, ok: bool, sent: seq<Out>)

  function Add32(a: nat, b: nat): (r: nat)
    ensures r < 0x1_0000_0000
  {
    (a + b) % 0x1_0000_0000
  }

  function Send(c: Conn, o: Out): Conn { c.(sent := c.sent + [o]) }

  /** The packet is for this connection and passes the checks. */
  predicate Relevant(c: Conn, p: Packet)
  {
    && p.dst == c.local && p.src == c.remote && p.WellFormed()
    && Word(p.bytes, 0) == 80 && Word(p.bytes, 2) == 49154 && TcpChecksum(p.src, p.dst, p.bytes) == 0
  }

  // The response body

  predicate IsBreak(s: seq<byte>, i: nat)
    requires i + 4 <= |s|
  {
    s[i] == 13 && s[i + 1] == 10 && s[i + 2] == 13 && s[i + 3] == 10
  }

  /** Position of the first CR LF CR LF, or the length. */
  function FirstBreak(s: seq<byte>): (i: nat)
    ensures i <= |s| && (i < |s| ==> i + 4 <= |s| && IsBreak(s, i))
    ensures forall j :: 0 <= j < i && j + 4 <= |s| ==> !IsBreak(s, j)
  {
    if s == [] then 0 else if |s| >= 4 && IsBreak(s, 0) then 0 else
      var i := FirstBreak(s[1..]);
      assert forall j :: 0 < j < 1 + i && j + 4 <= |s| ==> IsBreak(s, j) == IsBreak(s[1..], j - 1);
      1 + i
  }

  /** What fits the 512-byte body buffer with its terminator. */
  function Capped(s: seq<byte>): seq<byte> { if |s| <= 511 then s else s[..511] }

  function Stored(body: seq<byte>, data: seq<byte>): seq<byte> { Capped(body + data) }

  function Processed(c: Conn, data: seq<byte>): Conn
  {
    if c.headersDone then c.(body := Stored(c.body, data))
    else if FirstBreak(data) < |data| then c.(headersDone := true, body := Stored(c.body, data[FirstBreak(data) + 4..]))
    else c
  }

  // Steps

  function GetLength(hostLen: nat): nat { 49 + Min(hostLen, 60) }

  /** `tcp_http_send_get` */
  function SentGet(c: Conn): Conn
  {
    var n := GetLength(c.hostLen);
    Send(c, Out(c.seqNo, c.ackNo, PSH_ACK, n)).(
      getSeq := c.seqNo, getLen := n, ticks := 0, retries := 0, seqNo := Add32(c.seqNo, n), state := 3)
  }

  function Established(c: Conn, p: Packet): Conn
    requires p.WellFormed()
  {
    var d := c.(seqNo := Add32(c.seqNo, 1), ackNo := Add32(p.Seq(), 1));
    SentGet(Send(d, Out(d.seqNo, d.ackNo, ACK, 0)))
  }

  predicate Accepts(c: Conn, p: Packet)
  {
    Relevant(c, p) && !p.Rst() && 3 <= c.state <= 4 && |p.Payload()| > 0 && p.Seq() == c.ackNo
  }

  function Taken(c: Conn, p: Packet): Conn
    requires p.WellFormed()
  {
    var n := |p.Payload()|;
    var d := Processed(c.(chunks := Add32(c.chunks, 1), count := Add32(c.count, n)), p.Payload());
    var e := d.(ackNo := Add32(p.Seq(), n), ok := true, state := 4);
    Send(e, Out(e.seqNo, e.ackNo, ACK, 0))
  }

  function Finished(c: Conn, p: Packet): Conn
    requires p.WellFormed()
  {
    if !p.Fin() then c else
      var d := c.(ackNo := Add32(p.Seq(), |p.Payload()| + 1), state := 6);
      Send(d, Out(d.seqNo, d.ackNo, ACK, 0))
  }

  /** `handle_tcp` */
  function Received(c: Conn, p: Packet): Conn
  {
    if !Relevant(c, p) then c
    else if p.Rst() then c.(state := 5)
    else if c.state == 1 && p.Syn() && p.HasAck() && p.Ack() == Add32(c.seqNo, 1) then Established(c, p)
    else if 3 <= c.state <= 4 && |p.Payload()| > 0 then
      if p.Seq() != c.ackNo then Send(c, Out(c.seqNo, c.ackNo, ACK, 0)) else Finished(Taken(c, p), p)
    else Finished(c, p)
  }

  /** The segment a waiting connection repeats: its SYN, or its request under the original sequence number. */
  function Waiting(c: Conn): Out
  {
    if c.state == 1 then Out(c.seqNo, 0, SYN, 0) else Out(c.getSeq, c.ackNo, PSH_ACK, GetLength(c.hostLen))
  }

  /** `tcp_poll_retransmit` */
  function Polled(c: Conn): Conn
  {
    if c.state != 1 && c.state != 3 then c
    else if c.ticks + 1 < 200000 then c.(ticks := c.ticks + 1)
    else if c.retries >= 3 then c.(ticks := 0, state := 7)
    else
      var d := c.(ticks := 0, retries := c.retries + 1);
      Send(d, Waiting(d))
  }

  function Step(c: Conn, e: Event): Conn
  {
    match e
    case Arrival(p) => Received(c, p)
    case Poll => Polled(c)
  }

  /** The state that tcp_http_start leaves in a connection that was closed. */
  function Started(c: Conn, dst: seq<byte>): Conn
  {
    Send(c.(remote := dst, seqNo := 0xE002_0000, ackNo := 0, getSeq := 0, getLen := 0, ticks := 0, retries := 0,
            count := 0, chunks := 0, state := 1), Out(0xE002_0000, 0, SYN, 0))
  }

  predicate Closed(c: Conn) { c.state == 0 && !c.headersDone && c.body == [] }

  // Runs

  function Flat(chunks: seq<seq<byte>>): seq<byte> { if chunks == [] then [] else chunks[0] + Flat(chunks[1..]) }

  /** The bytes after the first break that lies inside one chunk. */
  function BodyOf(chunks: seq<seq<byte>>): seq<byte>
  {
    if chunks == [] then []
    else if FirstBreak(chunks[0]) < |chunks[0]| then chunks[0][FirstBreak(chunks[0]) + 4..] + Flat(chunks[1..])
    else BodyOf(chunks[1..])
  }

  predicate HasBreak(chunks: seq<seq<byte>>) { exists k :: 0 <= k < |chunks| && FirstBreak(chunks[k]) < |chunks[k]| }

  lemma {:induction false} FlatSnoc(chunks: seq<seq<byte>>, s: seq<byte>)
    ensures Flat(chunks + [s]) == Flat(chunks) + s
    decreases |chunks|
  {
    if chunks == [] {
      assert [s][1..] == [];
    } else {
      assert (chunks + [s])[1..] == chunks[1..] + [s];
      FlatSnoc(chunks[1..], s);
    }
  }

  lemma {:induction false} BodySnoc(chunks: seq<seq<byte>>, s: seq<byte>)
    ensures HasBreak(chunks + [s]) == (HasBreak(chunks) || FirstBreak(s) < |s|)
    ensures BodyOf(chunks + [s]) == if HasBreak(chunks) then BodyOf(chunks) + s
                                    else if FirstBreak(s) < |s| then s[FirstBreak(s) + 4..] else []
    ensures !HasBreak(chunks) ==> BodyOf(chunks) == []
    decreases |chunks|
  {
    hide FirstBreak, HasBreak, Flat;
    var c := chunks + [s];
    HasBreakCons(c);
    if chunks == [] {
      assert c[1..] == [];
      NoChunks();
    } else {
      assert c[1..] == chunks[1..] + [s] && c[0] == chunks[0];
      BodySnoc(chunks[1..], s);
      FlatSnoc(chunks[1..], s);
      HasBreakCons(chunks);
      if FirstBreak(chunks[0]) < |chunks[0]| {
        var t := chunks[0][FirstBreak(chunks[0]) + 4..];
        assert t + (Flat(chunks[1..]) + s) == t + Flat(chunks[1..]) + s;
      }
    }
  }

  lemma NoChunks()
    ensures !HasBreak([]) && Flat([]) == []
  {
  }

  lemma HasBreakCons(c: seq<seq<byte>>)
    requires c != []
    ensures HasBreak(c) == (FirstBreak(c[0]) < |c[0]| || HasBreak(c[1..]))
  {
    hide FirstBreak;
    assert forall k :: 1 <= k < |c| ==> c[k] == c[1..][k - 1];
  }

  /** Filling the buffer piece by piece is filling it at once. */
  lemma StoredCapped(a: seq<byte>, b: seq<byte>)
    ensures Stored(Capped(a), b) == Capped(a + b)
  {
  }

  /** The packet's payload is the piece of the server's stream at `pos`, numbered as the server numbers it. */
  ghost predicate PieceAt(stream: seq<byte>, isn: nat, p: Packet, pos: nat)
    requires p.WellFormed()
  {
    && pos + |p.Payload()| <= |stream| && p.Payload() == stream[pos..pos + |p.Payload()|]
    && p.Seq() == Add32(isn, 1 + pos)
  }

  /** A packet that a server with this stream and initial sequence number may send. */
  ghost predicate Genuine(stream: seq<byte>, isn: nat, p: Packet)
    requires p.WellFormed()
  {
    && (p.Payload() != [] ==> exists pos: nat :: PieceAt(stream, isn, p, pos))
    && (p.Syn() ==> p.Seq() == isn)
    && (p.Fin() ==> Add32(p.Seq(), |p.Payload()|) == Add32(isn, 1 + |stream|))
  }

  /** Every packet that passes the checks is genuine; anything may be lost, repeated, reordered or corrupted. */
  ghost predicate FromServer(c: Conn, e: Event, stream: seq<byte>, isn: nat)
  {
    e.Arrival? && Relevant(c, e.p) ==> Genuine(stream, isn, e.p)
  }

  /** What is true of a connection that has accepted `chunks` so far. */
  ghost predicate Holds(c: Conn, chunks: seq<seq<byte>>, stream: seq<byte>, isn: nat)
  {
    var got := Flat(chunks);
    && |got| <= |stream| && got == stream[..|got|] && c.count == |got|
    && (3 <= c.state <= 4 ==> c.ackNo == Add32(isn, 1 + |got|))
    && c.headersDone == HasBreak(chunks) && c.body == Capped(BodyOf(chunks))
    && (c.state == 1 ==> chunks == []) && (c.state == 1 || 3 <= c.state <= 7)
  }

  function NewChunks(c: Conn, e: Event): seq<seq<byte>>
  {
    if e.Arrival? && Accepts(c, e.p) then [e.p.Payload()] else []
  }

  lemma SamePosition(isn: nat, a: nat, b: nat)
    requires a < 0x1_0000_0000 && b < 0x1_0000_0000 && Add32(isn, 1 + a) == Add32(isn, 1 + b)
    ensures a == b
  {
  }

  lemma Add32Small(a: nat, b: nat)
    ensures a + b < 0x1_0000_0000 ==> Add32(a, b) == a + b
  {
  }

  lemma Add32Twice(isn: nat, a: nat, b: nat)
    ensures Add32(Add32(isn, a), b) == Add32(isn, a + b)
  {
  }

  /** An accepted payload is the next piece of the stream. */
  lemma AcceptedIsNext(c: Conn, chunks: seq<seq<byte>>, p: Packet, stream: seq<byte>, isn: nat)
    requires |stream| < 0x1_0000_0000 && Holds(c, chunks, stream, isn) && Accepts(c, p) && Genuine(stream, isn, p)
    ensures var n := |Flat(chunks)|; PieceAt(stream, isn, p, n) && n + |p.Payload()| <= |stream|
    ensures Flat(chunks + [p.Payload()]) == stream[..|Flat(chunks)| + |p.Payload()|]
  {
    hide Add32, TcpChecksum, BodyOf, HasBreak, Capped;
    var n := |Flat(chunks)|;
    var pos :| PieceAt(stream, isn, p, pos);
    SamePosition(isn, pos, n);
    FlatSnoc(chunks, p.Payload());
  }

  lemma ProcessedHolds(c: Conn, chunks: seq<seq<byte>>, data: seq<byte>)
    requires c.headersDone == HasBreak(chunks) && c.body == Capped(BodyOf(chunks))
    ensures var d := Processed(c, data);
            d.headersDone == HasBreak(chunks + [data]) && d.body == Capped(BodyOf(chunks + [data]))
            && d == c.(headersDone := d.headersDone, body := d.body)
  {
    hide HasBreak, FirstBreak, BodyOf;
    BodySnoc(chunks, data);
    if HasBreak(chunks) {
      StoredCapped(BodyOf(chunks), data);
    } else if FirstBreak(data) < |data| {
      StoredCapped([], data[FirstBreak(data) + 4..]);
      assert [] + data[FirstBreak(data) + 4..] == data[FirstBreak(data) + 4..];
    }
  }

  lemma AcceptsWellFormed(c: Conn, p: Packet)
    requires Accepts(c, p)
    ensures p.WellFormed()
  {
  }

  lemma TakenHolds(c: Conn, chunks: seq<seq<byte>>, p: Packet, stream: seq<byte>, isn: nat)
    requires |stream| < 0x1_0000_0000 && Holds(c, chunks, stream, isn) && p.WellFormed() && Accepts(c, p) && Genuine(stream, isn, p)
    ensures Holds(Taken(c, p), chunks + [p.Payload()], stream, isn)
  {
    hide HasBreak, FirstBreak, BodyOf, Capped, TcpChecksum, Processed, Flat, Add32, Relevant, Genuine, PieceAt, Packet.WellFormed,
      Packet.Seq, Packet.Payload;
    AcceptsWellFormed(c, p);
    AcceptedIsNext(c, chunks, p, stream, isn);
    var n := |p.Payload()|;
    Add32Twice(isn, 1 + |Flat(chunks)|, n);
    Add32Small(c.count, n);
    ProcessedHolds(c.(chunks := Add32(c.chunks, 1), count := Add32(c.count, n)), chunks, p.Payload());
    assert Flat(chunks + [p.Payload()]) == stream[..|Flat(chunks)| + n];
  }

  /** Every step keeps what is true of the connection. */
  lemma StepHolds(c: Conn, chunks: seq<seq<byte>>, e: Event, stream: seq<byte>, isn: nat)
    requires |stream| < 0x1_0000_0000 && Holds(c, chunks, stream, isn) && FromServer(c, e, stream, isn)
    ensures Holds(Step(c, e), chunks + NewChunks(c, e), stream, isn)
  {
    hide HasBreak, FirstBreak, BodyOf, Capped, TcpChecksum, Processed, Flat;
    assert chunks + [] == chunks;
    if e.Arrival? && Accepts(c, e.p) {
      TakenHolds(c, chunks, e.p, stream, isn);
    } else if e.Arrival? && Relevant(c, e.p) && c.state == 1 {
      NoChunks();
    }
  }

  ghost predicate IsRun(states: seq<Conn>, events: seq<Event>)
  {
    && |states| == |events| + 1
    && forall k :: 0 <= k < |events| ==> states[k + 1] == Step(states[k], events[k])
  }

  /** The payloads accepted in the first `k` steps. */
  function AcceptedBy(states: seq<Conn>, events: seq<Event>, k: nat): seq<seq<byte>>
    requires |states| == |events| + 1 && k <= |events|
  {
    if k == 0 then [] else AcceptedBy(states, events, k - 1) + NewChunks(states[k - 1], events[k - 1])
  }

  /** Along every run of a freshly started connection the accepted payloads are an exact prefix of the server's
      stream, the byte counter is its length, the acknowledgement number is the server's initial number plus one plus
      that length, and the body buffer is the first 511 bytes at most after the first header break in a chunk. */
  lemma {:induction false} RunHolds(states: seq<Conn>, events: seq<Event>, stream: seq<byte>, isn: nat, k: nat)
    requires IsRun(states, events) && k <= |events|
    requires exists c, dst :: Closed(c) && states[0] == Started(c, dst)
    requires |stream| < 0x1_0000_0000
    requires forall j :: 0 <= j < |events| ==> FromServer(states[j], events[j], stream, isn)
    ensures Holds(states[k], AcceptedBy(states, events, k), stream, isn)
    decreases k
  {
    hide Holds, Step, Started;
    if k == 0 {
      var c, dst :| Closed(c) && states[0] == Started(c, dst);
      StartedHolds(c, dst, stream, isn);
    } else {
      RunHolds(states, events, stream, isn, k - 1);
      assert states[k] == Step(states[k - 1], events[k - 1]);
      StepHolds(states[k - 1], AcceptedBy(states, events, k - 1), events[k - 1], stream, isn);
    }
  }

  lemma StartedHolds(c: Conn, dst: seq<byte>, stream: seq<byte>, isn: nat)
    requires Closed(c)
    ensures Holds(Started(c, dst), [], stream, isn)
  {
  }

  /** In order delivery makes progress: a relevant piece starting where the accepted prefix ends is accepted, and
      nothing else is. */
  lemma AcceptedIff(c: Conn, chunks: seq<seq<byte>>, p: Packet, stream: seq<byte>, isn: nat, pos: nat)
    requires |stream| < 0x1_0000_0000 && Holds(c, chunks, stream, isn) && 3 <= c.state <= 4
    requires Relevant(c, p) && !p.Rst() && p.Payload() != [] && PieceAt(stream, isn, p, pos)
    ensures Accepts(c, p) <==> pos == |Flat(chunks)|
  {
    hide BodyOf, HasBreak, Capped, TcpChecksum, Flat;
    if Accepts(c, p) {
      SamePosition(isn, pos, |Flat(chunks)|);
    }
  }

  /** The end of the server's stream. A closing packet with payload takes effect only in order, and then everything
      was received; one without payload takes effect at once and acknowledges the whole stream, received or not. */
  lemma FinCloses(c: Conn, chunks: seq<seq<byte>>, p: Packet, stream: seq<byte>, isn: nat)
    requires |stream| < 0xFFFF_FFFF && Holds(c, chunks, stream, isn) && 3 <= c.state <= 4
    requires Relevant(c, p) && !p.Rst() && p.Fin() && Genuine(stream, isn, p)
    ensures var d := Received(c, p); var got := Flat(chunks + NewChunks(c, Arrival(p)));
            && (d.state == 6 <==> p.Payload() == [] || Accepts(c, p))
            && (d.state == 6 ==> d.ackNo == Add32(isn, 2 + |stream|))
            && (d.state == 6 ==> (got == stream <==> p.Payload() != [] || |Flat(chunks)| == |stream|))
  {
    hide BodyOf, HasBreak, Capped, TcpChecksum, Flat, Processed;
    var n := |Flat(chunks)|;
    assert chunks + [] == chunks;
    Add32Twice(p.Seq(), |p.Payload()|, 1);
    Add32Twice(isn, 1 + |stream|, 1);
    if Accepts(c, p) {
      AcceptedIsNext(c, chunks, p, stream, isn);
      Add32Twice(isn, 1 + n, |p.Payload()|);
      SamePosition(isn, n + |p.Payload()|, |stream|);
    }
  }

  /** A closing segment overtakes the one byte of the stream: the connection ends without it, and acknowledges it. */
  lemma FinOvertakes(local: seq<byte>, remote: seq<byte>, hostLen: nat)
    requires |local| == 4 && |remote| == 4
    ensures var c, p := OneExpected(local, remote, hostLen), Closing(local, remote);
            && Holds(c, [], [65], 0) && Relevant(c, p) && p.Payload() == [] && p.Fin() && Genuine([65], 0, p)
            && Received(c, p).state == 6 && Received(c, p).ackNo == 3 && Received(c, p).count == 0
  {
    hide TcpChecksum, Taken, Established, Accepts, BodyOf, HasBreak;
    NothingYet();
    SegmentVerifies(remote, local, CLOSING);
    var p := Closing(local, remote);
    assert p.bytes[12] == CLOSING[12] == 80 && p.bytes[13] == CLOSING[13] == 17;
    assert p.Fin() && !p.Syn() && !p.Rst();
  }

  lemma NothingYet()
    ensures !HasBreak([]) && BodyOf([]) == [] && Flat([]) == []
  {
  }

  /** A connection that waits for the byte behind sequence number 0. */
  function OneExpected(local: seq<byte>, remote: seq<byte>, hostLen: nat): Conn
  {
    Conn(local, remote, hostLen, 3, 1, 1, 0, 0, 0, 0, 0, 0, false, [], false, [])
  }

  /** FIN and ACK from port 80 under sequence number 2. */
  const CLOSING: seq<byte> := [0, 80, 192, 2, 0, 0, 0, 2, 0, 0, 0, 0, 80, 17, 0, 0, 0, 0, 0, 0]

  function Closing(local: seq<byte>, remote: seq<byte>): Packet
  {
    Packet(remote, local, WithWord(CLOSING, 16, TcpChecksum(remote, local, CLOSING)))
  }

  // The header break and the chunks

  /** Position, in all the bytes, of the first break that lies inside one chunk, or their number. */
  function Found(chunks: seq<seq<byte>>): nat
  {
    if chunks == [] then 0
    else if FirstBreak(chunks[0]) < |chunks[0]| then FirstBreak(chunks[0])
    else |chunks[0]| + Found(chunks[1..])
  }

  /** A break after three bytes of which the segment ends. */
  lemma BreakCut()
    ensures var chunks: seq<seq<byte>> := [[13, 10, 13], [10, 65]];
            Flat(chunks) == [13, 10, 13, 10, 65] && FirstBreak(Flat(chunks)) == 0 && !HasBreak(chunks) && BodyOf(chunks) == []
  {
    var chunks: seq<seq<byte>> := [[13, 10, 13], [10, 65]];
    assert chunks[1..] == [[10, 65]] && chunks[1..][1..] == [];
    assert Flat(chunks[1..]) == [10, 65];
    NoBreak([13, 10, 13]);
    NoBreak([10, 65]);
    assert BodyOf(chunks[1..]) == [];
  }

  lemma NoBreak(s: seq<byte>)
    requires |s| < 4
    ensures FirstBreak(s) == |s|
  {
  }

  /** The four bytes at `q` lie in one chunk. */
  predicate InOneChunk(chunks: seq<seq<byte>>, q: nat)
  {
    chunks != [] && (q + 4 <= |chunks[0]| || (q >= |chunks[0]| && InOneChunk(chunks[1..], q - |chunks[0]|)))
  }

  lemma {:induction false} BodyIsRest(chunks: seq<seq<byte>>)
    ensures Found(chunks) <= |Flat(chunks)|
    ensures Found(chunks) < |Flat(chunks)| ==> Found(chunks) + 4 <= |Flat(chunks)|
    ensures BodyOf(chunks) == if Found(chunks) < |Flat(chunks)| then Flat(chunks)[Found(chunks) + 4..] else []
    decreases |chunks|
  {
    hide FirstBreak, Flat, Found, BodyOf;
    if chunks == [] {
      ChunksNone();
    } else {
      ChunksOne(chunks);
      FlatIs(chunks);
      BodyIsRest(chunks[1..]);
      var first, rest := chunks[0], Flat(chunks[1..]);
      BehindBoth(first, rest, if FirstBreak(first) < |first| then FirstBreak(first) + 4 else |first| + Min(Found(chunks[1..]) + 4, |rest|));
    }
  }

  lemma ChunksNone()
    ensures Flat([]) == [] && Found([]) == 0 && BodyOf([]) == []
  {
  }

  lemma ChunksOne(chunks: seq<seq<byte>>)
    requires chunks != []
    ensures var i := FirstBreak(chunks[0]); i <= |chunks[0]| && (i < |chunks[0]| ==> i + 4 <= |chunks[0]|)
    ensures var i := FirstBreak(chunks[0]);
            if i < |chunks[0]| then Found(chunks) == i && BodyOf(chunks) == chunks[0][i + 4..] + Flat(chunks[1..])
            else Found(chunks) == |chunks[0]| + Found(chunks[1..]) && BodyOf(chunks) == BodyOf(chunks[1..])
  {
    hide FirstBreak, Flat;
  }

  lemma FlatIs(chunks: seq<seq<byte>>)
    requires chunks != []
    ensures Flat(chunks) == chunks[0] + Flat(chunks[1..])
  {
  }

  lemma BehindBoth(a: seq<byte>, b: seq<byte>, p: nat)
    requires p <= |a| + |b|
    ensures (a + b)[p..] == if p <= |a| then a[p..] + b else b[p - |a|..]
  {
  }

  lemma BreakInFirst(a: seq<byte>, b: seq<byte>)
    ensures FirstBreak(a) < |a| ==> FirstBreak(a + b) == FirstBreak(a)
    ensures FirstBreak(a) == |a| && FirstBreak(a + b) >= |a| ==> FirstBreak(a + b) == |a| + FirstBreak(b)
    ensures FirstBreak(a) == |a| && FirstBreak(a + b) < |a| ==> FirstBreak(a + b) + 4 > |a|
  {
    hide FirstBreak;
    var s, f, g, h := a + b, FirstBreak(a + b), FirstBreak(a), FirstBreak(b);
    assert forall j :: 0 <= j && j + 4 <= |a| ==> IsBreak(a, j) == IsBreak(s, j);
    assert forall j :: 0 <= j && j + 4 <= |b| ==> IsBreak(b, j) == IsBreak(s, |a| + j);
    assert h < |b| ==> IsBreak(s, |a| + h);
    assert |a| <= f < |s| ==> IsBreak(b, f - |a|);
  }

  /** The body starts where the stream's header really ends exactly if the first break was not cut by a chunk
      boundary. */
  lemma {:induction false} FoundIff(chunks: seq<seq<byte>>)
    ensures var q := FirstBreak(Flat(chunks));
            if q < |Flat(chunks)| then Found(chunks) == q <==> InOneChunk(chunks, q) else Found(chunks) == q
    decreases |chunks|
  {
    hide FirstBreak;
    if chunks != [] {
      BreakInFirst(chunks[0], Flat(chunks[1..]));
      FoundIff(chunks[1..]);
      BodyIsRest(chunks[1..]);
    } else {
      NoBreakInNothing();
    }
  }

  lemma NoBreakInNothing()
    ensures FirstBreak([]) == 0
  {
  }

  // The retransmission timer

  function Polls(c: Conn, n: nat): Conn
  {
    if n == 0 then c else Polled(Polls(c, n - 1))
  }

  /** `sent` is what `c` has sent, and its waiting segment `n` more times. */
  ghost predicate Repeated(c: Conn, sent: seq<Out>, n: nat)
  {
    && |sent| == |c.sent| + n && sent[..|c.sent|] == c.sent
    && forall j :: |c.sent| <= j < |sent| ==> sent[j] == Waiting(c)
  }

  lemma RepeatedNever(c: Conn)
    ensures Repeated(c, c.sent, 0)
  {
  }

  lemma WaitingSame(c: Conn, d: Conn)
    ensures d == c.(retries := d.retries, ticks := d.ticks, sent := d.sent) ==> Waiting(d) == Waiting(c)
  {
  }

  lemma RepeatedOnce(c: Conn, sent: seq<Out>, n: nat)
    requires Repeated(c, sent, n)
    ensures Repeated(c, sent + [Waiting(c)], n + 1)
  {
    assert (sent + [Waiting(c)])[..|c.sent|] == sent[..|c.sent|];
  }

  /** The waiting connection after `k` rounds of 200000 polls and `r` more. */
  ghost predicate InRound(c: Conn, d: Conn, k: nat, r: nat)
  {
    && d == c.(retries := k, ticks := r, sent := d.sent) && Repeated(c, d.sent, k)
  }

  lemma {:induction false} TimerRound(c: Conn, k: nat, r: nat)
    requires (c.state == 1 || c.state == 3) && c.ticks == 0 && c.retries == 0 && k <= 3 && r < 200000
    ensures InRound(c, Polls(c, 200000 * k + r), k, r)
    decreases k, r
  {
    hide Repeated, Waiting;
    if r > 0 {
      TimerRound(c, k, r - 1);
    } else if k > 0 {
      TimerRound(c, k - 1, 199999);
      var b := Polls(c, 200000 * (k - 1) + 199999);
      WaitingSame(c, b.(ticks := 0, retries := k));
      RepeatedOnce(c, b.sent, k - 1);
    } else {
      RepeatedNever(c);
    }
  }

  lemma {:induction false} TimerStops(c: Conn, n: nat)
    requires (c.state == 1 || c.state == 3) && c.ticks == 0 && c.retries == 0 && n >= 800000
    ensures Polls(c, n).state == 7 && Repeated(c, Polls(c, n).sent, 3)
    decreases n
  {
    hide Repeated, Waiting;
    if n == 800000 {
      TimerRound(c, 3, 199999);
    } else {
      TimerStops(c, n - 1);
    }
  }

  /** With no packets, a waiting connection sends its segment again after every 200000 polls, three times, and gives up
      at 800000 polls, no sooner and no later. */
  lemma TimerRuns(c: Conn, n: nat)
    requires (c.state == 1 || c.state == 3) && c.ticks == 0 && c.retries == 0
    ensures if n < 800000 then InRound(c, Polls(c, n), n / 200000, n % 200000)
            else Polls(c, n).state == 7 && Repeated(c, Polls(c, n).sent, 3)
  {
    hide Repeated, InRound, Polls;
    if n < 800000 {
      TimerRound(c, n / 200000, n % 200000);
    } else {
      TimerStops(c, n);
    }
  }
}
