/** The sequence and acknowledgement numbers of everything the client sends, along every run. */
module TcpNumbers {
  import opened Bytes
  import opened Checksum
  import opened TcpProtocol

  function RequestLength(host: nat): nat { 49 + if host < 60 then host else 60 }

  /** The request, numbered behind the SYN. */
  function Request(host: nat, isn: nat): Out { Out(0xE002_0001, Add32(isn, 1), 24, RequestLength(host)) }

  /** An acknowledgement sent behind the request, of the server's SYN and `n` numbers more. */
  function AckOf(host: nat, isn: nat, n: nat): Out { Out(0xE002_0001 + RequestLength(host), Add32(isn, 1 + n), 16, 0) }

  /** The client's own numbers: the initial one until the handshake, then the request's and the one behind it. */
  ghost predicate Numbered(c: Conn, host: nat, got: nat)
  {
    && c.hostLen == host
    && (if c.getLen == 0 then c.seqNo == 0xE002_0000
        else c.getSeq == 0xE002_0001 && c.getLen == RequestLength(host) && c.seqNo == 0xE002_0001 + RequestLength(host))
    && (c.state == 1 ==> c.getLen == 0) && (3 <= c.state <= 4 ==> c.getLen != 0) && (c.state == 3 ==> got == 0)
  }

  /** What a connection that has `got` bytes of the server's `all` sends on an event. A SYN is repeated until its answer
      comes, which is acknowledged and followed by the request; the request is repeated until data comes; data is
      acknowledged up to what is there; a closing segment is acknowledged with everything in front of it. */
  function Answer(c: Conn, e: Event, host: nat, isn: nat, all: nat, got: nat): seq<Out>
  {
    match e
    case Poll =>
      if c.ticks < 199999 || c.retries >= 3 then []
      else if c.state == 1 then [Out(0xE002_0000, 0, 2, 0)]
      else if c.state == 3 then [Request(host, isn)]
      else []
    case Arrival(p) =>
      if !Relevant(c, p) || p.Rst() then []
      else if c.state == 1 && p.Syn() && p.HasAck() && p.Ack() == 0xE002_0001 then
        [Out(0xE002_0001, Add32(isn, 1), 16, 0), Request(host, isn)]
      else if 3 <= c.state <= 4 && p.Payload() != [] then
        if p.Seq() != Add32(isn, 1 + got) then [AckOf(host, isn, got)]
        else if p.Fin() then [AckOf(host, isn, got + |p.Payload()|), AckOf(host, isn, all + 1)]
        else [AckOf(host, isn, got + |p.Payload()|)]
      else if !p.Fin() then []
      else if c.getLen == 0 then [Out(0xE002_0000, Add32(isn, 2 + all), 16, 0)]
      else [AckOf(host, isn, all + 1)]
  }

  /** The state an event leads to: 3 with the request sent, 4 with data, 5 reset, 6 closed by the server, 7 given up. */
  function NextState(c: Conn, e: Event, isn: nat, got: nat): nat
  {
    match e
    case Poll => if (c.state == 1 || c.state == 3) && c.ticks >= 199999 && c.retries >= 3 then 7 else c.state
    case Arrival(p) =>
      if !Relevant(c, p) then c.state
      else if p.Rst() then 5
      else if c.state == 1 && p.Syn() && p.HasAck() && p.Ack() == 0xE002_0001 then 3
      else if 3 <= c.state <= 4 && p.Payload() != [] then
        if p.Seq() != Add32(isn, 1 + got) then c.state else if p.Fin() then 6 else 4
      else if p.Fin() then 6
      else c.state
  }

  /** Where the events lead, that the handshake starts the timer again and no other packet touches it, and that success and the number of segments taken are what was accepted. */
  lemma StepMoves(c: Conn, chunks: seq<seq<byte>>, e: Event, stream: seq<byte>, isn: nat, host: nat)
    requires |stream| < 0x1_0000_0000
    requires Holds(c, chunks, stream, isn) && FromServer(c, e, stream, isn) && Numbered(c, host, |Flat(chunks)|)
    ensures Step(c, e).state == NextState(c, e, isn, |Flat(chunks)|)
    ensures e.Arrival? ==> var d := Step(c, e);
                           if c.state == 1 && d.state == 3 then d.ticks == 0 && d.retries == 0 else d.ticks == c.ticks && d.retries == c.retries
    ensures Step(c, e).ok == (c.ok || NewChunks(c, e) != []) && Step(c, e).chunks == if NewChunks(c, e) == [] then c.chunks else Add32(c.chunks, 1)
  {
    hide HasBreak, FirstBreak, BodyOf, Capped, TcpChecksum, Flat, Genuine, PieceAt, Packet.Syn, Packet.Fin, Packet.Rst, Packet.HasAck,
         Packet.Ack, Packet.Seq, Packet.Payload, Packet.WellFormed, Taken, Add32;
    FirstNumber();
    if e.Arrival? && Relevant(c, e.p) {
      TakenSends(c, e.p);
    }
  }

  /** The numbers and flags that a segment of the client's own making is read with. */
  lemma SegmentRead(p: Packet, seqNo: nat, ackNo: nat, flags: byte, payload: seq<byte>)
    requires |p.bytes| == 20 + |payload| && p.bytes[20..] == payload && p.bytes[12] == 0x50 && p.bytes[13] == flags
    requires Word(p.bytes, 4) * 0x1_0000 + Word(p.bytes, 6) == seqNo && Word(p.bytes, 8) * 0x1_0000 + Word(p.bytes, 10) == ackNo
    ensures p.WellFormed() && p.Seq() == seqNo && p.Ack() == ackNo && p.Payload() == payload
    ensures flags == 1 || flags == 17 || flags == 25 ==> p.Fin() && !p.Syn() && !p.Rst()
    ensures flags == 2 || flags == 18 ==> p.Syn() && !p.Fin() && !p.Rst()
    ensures flags == 4 || flags == 20 ==> p.Rst() && !p.Fin() && !p.Syn()
    ensures flags == 16 || flags == 24 ==> !p.Syn() && !p.Fin() && !p.Rst()
    ensures flags == 16 || flags == 17 || flags == 18 || flags == 20 || flags == 24 || flags == 25 ==> p.HasAck()
    ensures flags == 1 || flags == 2 || flags == 4 ==> !p.HasAck()
  {
    hide Word, Packet.WellFormed, Packet.Payload, Packet.Fin, Packet.Syn, Packet.Rst, Packet.HasAck;
    ShortHeader(p);
    assert p.Payload() == payload;
    FlagsRead(p);
  }

  lemma ShortHeader(p: Packet)
    requires |p.bytes| >= 20 && p.bytes[12] == 0x50
    ensures p.WellFormed() && p.Payload() == p.bytes[20..]
  {
  }

  lemma FlagsRead(p: Packet)
    requires p.WellFormed() && |p.bytes| >= 20
    ensures var flags := p.bytes[13];
            && (p.Fin() <==> flags % 2 == 1) && (p.Syn() <==> flags % 4 >= 2) && (p.Rst() <==> flags % 8 >= 4) && (p.HasAck() <==> flags % 32 >= 16)
  {
    HalvedBits(p.bytes[13]);
  }

  lemma HalvedBits(f: nat)
    ensures (f / 2 % 2 == 1 <==> f % 4 >= 2) && (f / 4 % 2 == 1 <==> f % 8 >= 4) && (f / 16 % 2 == 1 <==> f % 32 >= 16)
  {
    var a, b, c := f / 4, f / 8, f / 32;
    assert f == 4 * a + f % 4 && f == 8 * b + f % 8 && f == 32 * c + f % 32;
    Halves(a, f % 4);
    Quarters(b, f % 8);
    Sixteenths(c, f % 32);
  }

  lemma Halves(q: nat, r: nat)
    requires r < 4
    ensures (4 * q + r) / 2 % 2 == r / 2
  {
    assert (4 * q + r) / 2 == 2 * q + r / 2;
  }

  lemma Quarters(q: nat, r: nat)
    requires r < 8
    ensures (8 * q + r) / 4 % 2 == r / 4
  {
    assert (8 * q + r) / 4 == 2 * q + r / 4;
  }

  lemma Sixteenths(q: nat, r: nat)
    requires r < 32
    ensures (32 * q + r) / 16 % 2 == r / 16
  {
    assert (32 * q + r) / 16 == 2 * q + r / 16;
  }

  /** The body buffer holds the first 511 bytes at most of what follows the first break inside one segment. */
  lemma BodyKept(c: Conn, chunks: seq<seq<byte>>, stream: seq<byte>, isn: nat)
    requires Holds(c, chunks, stream, isn)
    ensures var got, i := stream[..|Flat(chunks)|], Found(chunks);
            && i <= |got| && (i < |got| ==> i + 4 <= |got|) && (c.headersDone <==> i < |got|)
            && c.body == if i == |got| then [] else if |got| - i - 4 <= 511 then got[i + 4..] else got[i + 4..i + 515]
  {
    hide HasBreak, FirstBreak, BodyOf, Found, Flat;
    BodyIsRest(chunks);
    BreakFound(chunks);
  }

  lemma {:induction false} BreakFound(chunks: seq<seq<byte>>)
    ensures HasBreak(chunks) <==> Found(chunks) < |Flat(chunks)|
    decreases |chunks|
  {
    hide FirstBreak, HasBreak;
    if chunks == [] {
      NoChunks();
    } else {
      HasBreakCons(chunks);
      BreakFound(chunks[1..]);
      BodyIsRest(chunks[1..]);
    }
  }

  lemma StepSends(c: Conn, chunks: seq<seq<byte>>, e: Event, stream: seq<byte>, isn: nat, host: nat)
    requires |stream| < 0x1_0000_0000
    requires Holds(c, chunks, stream, isn) && FromServer(c, e, stream, isn) && Numbered(c, host, |Flat(chunks)|)
    ensures Step(c, e).sent == c.sent + Answer(c, e, host, isn, |stream|, |Flat(chunks)|)
    ensures Numbered(Step(c, e), host, |Flat(chunks + NewChunks(c, e))|)
  {
    hide HasBreak, FirstBreak, BodyOf, Capped, TcpChecksum, Processed, Flat, Genuine, PieceAt;
    assert chunks + [] == chunks;
    if e.Poll? {
    } else if Relevant(c, e.p) {
      PacketSends(c, chunks, e.p, stream, isn, host);
    }
  }

  lemma PacketSends(c: Conn, chunks: seq<seq<byte>>, p: Packet, stream: seq<byte>, isn: nat, host: nat)
    requires |stream| < 0x1_0000_0000 && Relevant(c, p) && p.WellFormed()
    requires Holds(c, chunks, stream, isn) && Genuine(stream, isn, p) && Numbered(c, host, |Flat(chunks)|)
    ensures Received(c, p).sent == c.sent + Answer(c, Arrival(p), host, isn, |stream|, |Flat(chunks)|)
    ensures Numbered(Received(c, p), host, |Flat(chunks + NewChunks(c, Arrival(p)))|)
  {
    hide HasBreak, BodyOf, Capped, TcpChecksum, Flat, PieceAt, Processed, Taken, Finished, Established, Add32,
         Packet.Syn, Packet.Fin, Packet.Rst, Packet.HasAck, Packet.Ack, Packet.Seq, Packet.Payload, Packet.WellFormed;
    assert chunks + [] == chunks;
    NoChunks();
    FirstNumber();
    if !p.Rst() {
      if c.state == 1 && p.Syn() && p.HasAck() && p.Ack() == Add32(c.seqNo, 1) {
        HandshakeSends(c, p, host);
      } else if Accepts(c, p) {
        DataSends(c, chunks, p, stream, isn, host);
      } else {
        FinSends(c, p, stream, isn, host, |Flat(chunks)|);
      }
    }
  }

  lemma FirstNumber()
    ensures Add32(0xE002_0000, 1) == 0xE002_0001
  {
  }

  lemma HandshakeSends(c: Conn, p: Packet, host: nat)
    requires p.WellFormed() && c.getLen == 0 && c.seqNo == 0xE002_0000 && c.hostLen == host
    ensures var d := Established(c, p);
            && d.sent == c.sent + [Out(0xE002_0001, Add32(p.Seq(), 1), 16, 0), Request(host, p.Seq())] && d.state == 3
            && Numbered(d, host, 0)
  {
    hide Add32, Packet.Seq, Packet.WellFormed;
    FirstNumber();
    Add32Small(0xE002_0001, RequestLength(host));
  }

  lemma DataSends(c: Conn, chunks: seq<seq<byte>>, p: Packet, stream: seq<byte>, isn: nat, host: nat)
    requires |stream| < 0x1_0000_0000 && Accepts(c, p) && p.WellFormed()
    requires Holds(c, chunks, stream, isn) && Genuine(stream, isn, p) && Numbered(c, host, |Flat(chunks)|)
    ensures var d := Finished(Taken(c, p), p); var n := |Flat(chunks)| + |p.Payload()|;
            && d.sent == c.sent + (if p.Fin() then [AckOf(host, isn, n), AckOf(host, isn, |stream| + 1)] else [AckOf(host, isn, n)])
            && Numbered(d, host, |Flat(chunks + [p.Payload()])|)
  {
    hide HasBreak, BodyOf, Capped, TcpChecksum, Flat, PieceAt, Processed, Relevant, Taken, Finished, Add32, Packet.Payload, Packet.Seq, Packet.Fin;
    var n := |p.Payload()|;
    TakenSends(c, p);
    Add32Twice(isn, 1 + |Flat(chunks)|, n);
    FinSends(Taken(c, p), p, stream, isn, host, |Flat(chunks + [p.Payload()])|);
    assert c.sent + [AckOf(host, isn, |Flat(chunks)| + n)] + [AckOf(host, isn, |stream| + 1)]
        == c.sent + [AckOf(host, isn, |Flat(chunks)| + n), AckOf(host, isn, |stream| + 1)];
  }

  lemma TakenSends(c: Conn, p: Packet)
    requires p.WellFormed()
    ensures var d := Taken(c, p);
            && d.sent == c.sent + [Out(c.seqNo, Add32(p.Seq(), |p.Payload()|), 16, 0)] && d.state == 4
            && d.seqNo == c.seqNo && d.getSeq == c.getSeq && d.getLen == c.getLen && d.hostLen == c.hostLen
            && d.ok && d.chunks == Add32(c.chunks, 1) && d.ticks == c.ticks && d.retries == c.retries
  {
    hide FirstBreak, Capped, Add32, Packet.Seq, Packet.Payload, Packet.WellFormed;
  }

  lemma FinSends(c: Conn, p: Packet, stream: seq<byte>, isn: nat, host: nat, got: nat)
    requires p.WellFormed() && Genuine(stream, isn, p) && Numbered(c, host, got)
    ensures var d := Finished(c, p);
            && d.sent == c.sent + (if !p.Fin() then []
                 else if c.getLen == 0 then [Out(0xE002_0000, Add32(isn, 2 + |stream|), 16, 0)] else [AckOf(host, isn, |stream| + 1)])
            && Numbered(d, host, got)
  {
    hide PieceAt, Relevant, Add32, Packet.Payload, Packet.Seq, Packet.Fin, Packet.WellFormed;
    Add32Twice(p.Seq(), |p.Payload()|, 1);
    Add32Twice(isn, 1 + |stream|, 1);
  }

  /** Along every run of a freshly started connection: the first segment is the SYN, each event sends exactly its answer,
      and the numbers stay as they must be. */
  lemma {:induction false} RunNumbers(states: seq<Conn>, events: seq<Event>, stream: seq<byte>, isn: nat, old_c: Conn, dst: seq<byte>, k: nat)
    requires IsRun(states, events) && k <= |events|
    requires Closed(old_c) && states[0] == Started(old_c, dst) && |stream| < 0x1_0000_0000
    requires forall j :: 0 <= j < |events| ==> FromServer(states[j], events[j], stream, isn)
    ensures states[0].sent == old_c.sent + [Out(0xE002_0000, 0, 2, 0)] && states[0].ticks == 0 && states[0].retries == 0 && states[0].chunks == 0
    ensures Numbered(states[k], old_c.hostLen, |Flat(AcceptedBy(states, events, k))|)
    ensures k < |events| ==>
              states[k + 1].sent == states[k].sent
                + Answer(states[k], events[k], old_c.hostLen, isn, |stream|, |Flat(AcceptedBy(states, events, k))|)
    decreases k
  {
    hide Holds, Step, Numbered, Answer, Started, FromServer, Flat;
    StartNumbered(old_c, dst);
    if k > 0 {
      RunNumbers(states, events, stream, isn, old_c, dst, k - 1);
      RunHolds(states, events, stream, isn, k - 1);
      assert states[k] == Step(states[k - 1], events[k - 1]);
      StepSends(states[k - 1], AcceptedBy(states, events, k - 1), events[k - 1], stream, isn, old_c.hostLen);
    }
    if k < |events| {
      RunHolds(states, events, stream, isn, k);
      assert states[k + 1] == Step(states[k], events[k]);
      StepSends(states[k], AcceptedBy(states, events, k), events[k], stream, isn, old_c.hostLen);
    }
  }

  lemma StartNumbered(c: Conn, dst: seq<byte>)
    requires Closed(c)
    ensures Numbered(Started(c, dst), c.hostLen, |Flat([])|) && Started(c, dst).sent == c.sent + [Out(0xE002_0000, 0, 2, 0)]
    ensures Started(c, dst).ticks == 0 && Started(c, dst).retries == 0 && Started(c, dst).chunks == 0 && Started(c, dst).remote == dst
  {
  }

  /** Everything with data in it is the one request. */
  lemma {:induction false} OneRequest(states: seq<Conn>, events: seq<Event>, stream: seq<byte>, isn: nat, old_c: Conn, dst: seq<byte>, k: nat)
    requires IsRun(states, events) && k <= |events|
    requires Closed(old_c) && states[0] == Started(old_c, dst) && |stream| < 0x1_0000_0000
    requires forall j :: 0 <= j < |events| ==> FromServer(states[j], events[j], stream, isn)
    ensures |states[k].sent| > |old_c.sent| && states[k].sent[..|old_c.sent|] == old_c.sent
    ensures forall o :: o in states[k].sent[|old_c.sent|..] ==> if o.len > 0 then o == Request(old_c.hostLen, isn) else o.flags == 2 || o.flags == 16
    decreases k
  {
    hide Holds, Step, Numbered, Started, FromServer, Flat, Relevant;
    RunNumbers(states, events, stream, isn, old_c, dst, if k > 0 then k - 1 else 0);
    if k > 0 {
      OneRequest(states, events, stream, isn, old_c, dst, k - 1);
    }
  }
}
