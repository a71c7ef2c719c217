/** The TCP/HTTP client's variables and the routines that change them, each doing exactly what the state machine in
    TcpProtocol does. Segments sent are recorded in order. */
module HttpClient {
  import opened Bytes
  import opened Checksum
  import opened TcpProtocol

  class Client {
    var local: seq<byte>
    var remote: seq<byte>
    var hostLen: nat
    var state: nat
    var seqNo: nat
    var ackNo: nat
    var getSeq: nat
    var getLen: nat
    var waitTicks: nat
    var retries: nat
    var count: nat
    var chunks: nat
    var headersDone: bool
    const body: array<byte>
    var bodyLen: nat
    var ok: bool
    var sent: seq<Out>

    /** The 512-byte buffer holds the body and a terminating zero. */
    ghost predicate Valid()
      reads this, body
    {
      body.Length == 512 && bodyLen <= 511 && body[bodyLen] == 0 && |local| == 4 && |remote| == 4
    }

    ghost function Now(): Conn
      requires Valid()
      reads this, body
    {
      Conn(local, remote, hostLen, state, seqNo, ackNo, getSeq, getLen, waitTicks, retries,
           count, chunks, headersDone, Body(), ok, sent)
    }

    ghost function Body(): seq<byte>
      requires body.Length == 512 && bodyLen <= 511
      reads this`bodyLen, body
    {
      body[..bodyLen]
    }

    constructor (local: seq<byte>)
      requires |local| == 4
      ensures Valid() && fresh(body) && Closed(Now()) && this.local == local && sent == []
    {
      this.local, remote, hostLen, state := local, [0, 0, 0, 0], 0, 0;
      seqNo, ackNo, getSeq, getLen, waitTicks, retries := 0xE002_0000, 0, 0, 0, 0, 0;
      count, chunks, headersDone, bodyLen, ok, sent := 0, 0, false, 0, false, [];
      body := new byte[512](_ => 0);
    }

    method SendSegment(seqNo: nat, ackNo: nat, flags: nat, len: nat)
      requires Valid()
      modifies this`sent
      ensures Valid() && Now() == Send(old(Now()), Out(seqNo, ackNo, flags, len)) && sent == Now().sent
    {
      sent := sent + [Out(seqNo, ackNo, flags, len)];
    }

    /** Once there is a configuration and a gateway: forgets the last fetch and names the next host; only then can another
        one start. */
    method Fetch(configured: bool, gateway: bool, host: nat) returns (ret: int)
      requires Valid()
      modifies this, body
      ensures Valid() && ret == (if configured && gateway then 0 else -1) && sent == old(sent) && local == old(local)
      ensures ret == 0 ==> Closed(Now()) && hostLen == Min(host, 63)
      ensures ret != 0 ==> Now() == old(Now())
    {
      if !configured || !gateway {
        return -1;
      }
      ret := 0;
      body[0] := 0;
      ForgetTcp();
      state, headersDone, bodyLen := 0, false, 0;
      ok, count, chunks := false, 0, 0;
      hostLen := Min(host, 63);
    }

    method ForgetTcp()
      modifies this`retries, this`waitTicks, this`remote, this`seqNo, this`ackNo, this`getSeq, this`getLen
      ensures remote == [0, 0, 0, 0]
    {
      retries, waitTicks, remote, seqNo, ackNo, getSeq, getLen := 0, 0, [0, 0, 0, 0], 0xE002_0000, 0, 0, 0;
    }

    /** Names the peer and zeroes the numbers of the last connection. */
    method ResetTo(dst: seq<byte>)
      modifies this`remote, this`seqNo, this`ackNo, this`getSeq, this`getLen, this`waitTicks, this`retries
      ensures remote == dst && seqNo == 0xE002_0000 && ackNo == getSeq == getLen == waitTicks == retries == 0
    {
      remote, seqNo, ackNo, getSeq, getLen, waitTicks, retries := dst, 0xE002_0000, 0, 0, 0, 0, 0;
    }

    method Start(dst: seq<byte>, gatewayKnown: bool)
      requires Valid() && |dst| == 4
      modifies this
      ensures Valid() && Now() == if gatewayKnown && old(state) == 0 then Started(old(Now()), dst) else old(Now())
    {
      hide Body;
      if !gatewayKnown || state != 0 {
        return;
      }
      ResetTo(dst);
      count, chunks, state := 0, 0, 1;
      SendSegment(seqNo, 0, SYN, 0);
    }

    method SendGet()
      requires Valid()
      modifies this
      ensures Valid() && Now() == SentGet(old(Now()))
    {
      hide Add32, Body;
      ghost var c := Now();
      var len := 22 + Min(hostLen, 60) + 27;
      getSeq, getLen, waitTicks, retries := seqNo, len, 0, 0;
      assert Now() == c.(getSeq := c.seqNo, getLen := len, ticks := 0, retries := 0);
      SendSegment(seqNo, ackNo, PSH_ACK, len);
      seqNo := Add32(seqNo, len);
      state := 3;
    }

    method StoreBody(data: seq<byte>)
      requires Valid()
      modifies this`bodyLen, body
      ensures Valid() && Now() == old(Now()).(body := Stored(old(Now().body), data))
    {
      if |data| == 0 || bodyLen >= 511 {
        assert Stored(body[..bodyLen], data) == body[..bodyLen];
        return;
      }
      var space := 511 - bodyLen;
      var len := if |data| > space then space else |data|;
      forall k | 0 <= k < len {
        body[bodyLen + k] := data[k];
      }
      bodyLen := bodyLen + len;
      body[bodyLen] := 0;
      assert body[..bodyLen] == old(body[..bodyLen]) + data[..len];
    }

    method ProcessPayload(data: seq<byte>)
      requires Valid()
      modifies this`bodyLen, this`headersDone, body
      ensures Valid() && Now() == Processed(old(Now()), data)
    {
      if headersDone {
        StoreBody(data);
        return;
      }
      var i := 0;
      while i + 3 < |data|
        invariant i <= |data| && forall j :: 0 <= j < i && j + 4 <= |data| ==> !IsBreak(data, j)
      {
        if data[i] == 13 && data[i + 1] == 10 && data[i + 2] == 13 && data[i + 3] == 10 {
          assert IsBreak(data, i) && FirstBreak(data) == i;
          headersDone := true;
          StoreBody(data[i + 4..]);
          return;
        }
        i := i + 1;
      }
      assert FirstBreak(data) == |data|;
    }

    method PollRetransmit()
      requires Valid()
      modifies this
      ensures Valid() && Now() == Polled(old(Now()))
    {
      if state != 1 && state != 3 {
        return;
      }
      waitTicks := waitTicks + 1;
      if waitTicks < 200000 {
        return;
      }
      waitTicks := 0;
      if retries >= 3 {
        state := 7;
        return;
      }
      retries := retries + 1;
      if state == 1 {
        SendSegment(seqNo, 0, SYN, 0);
      } else {
        SendSegment(getSeq, ackNo, PSH_ACK, 22 + Min(hostLen, 60) + 27);
      }
    }

    method Establish(p: Packet)
      requires Valid() && p.WellFormed()
      modifies this
      ensures Valid() && Now() == Established(old(Now()), p)
    {
      hide Add32, Packet.Seq, Packet.Payload, SentGet;
      seqNo, ackNo := Add32(seqNo, 1), Add32(p.Seq(), 1);
      SendSegment(seqNo, ackNo, ACK, 0);
      SendGet();
    }

    method TakePayload(p: Packet)
      requires Valid() && p.WellFormed()
      modifies this, body
      ensures Valid() && Now() == Taken(old(Now()), p)
    {
      hide Add32, Packet.Seq, Packet.Payload, Processed;
      var n := |p.Payload()|;
      chunks, count := Add32(chunks, 1), Add32(count, n);
      ProcessPayload(p.Payload());
      ackNo, ok, state := Add32(p.Seq(), n), true, 4;
      SendSegment(seqNo, ackNo, ACK, 0);
    }

    method Finish(p: Packet)
      requires Valid() && p.WellFormed()
      modifies this
      ensures Valid() && Now() == Finished(old(Now()), p)
    {
      hide Add32, Packet.Seq, Packet.Payload;
      if p.Fin() {
        ackNo, state := Add32(p.Seq(), |p.Payload()| + 1), 6;
        SendSegment(seqNo, ackNo, ACK, 0);
      }
    }

    /** One TCP packet. */
    method HandleTcp(p: Packet)
      requires Valid() && |p.src| == 4 && |p.dst| == 4
      modifies this, body
      ensures Valid() && Now() == Received(old(Now()), p)
    {
      hide Add32, Packet.Seq, Packet.Ack, Packet.Payload, TcpChecksum, Established, Taken, Finished;
      if p.dst != local || p.src != remote || |p.bytes| < 20 {
        return;
      }
      if Word(p.bytes, 0) != 80 || Word(p.bytes, 2) != 49154 {
        return;
      }
      var headerLen := p.bytes[12] / 16 * 4;
      if headerLen < 20 || |p.bytes| < headerLen {
        return;
      }
      var sum := TcpChecksumSegment(p.src, p.dst, p.bytes);
      if sum != 0 {
        return;
      }
      if p.Rst() {
        state := 5;
        return;
      }
      if state == 1 && p.Syn() && p.HasAck() && p.Ack() == Add32(seqNo, 1) {
        Establish(p);
        return;
      }
      if 3 <= state <= 4 && |p.Payload()| > 0 {
        if p.Seq() != ackNo {
          SendSegment(seqNo, ackNo, ACK, 0);
          return;
        }
        TakePayload(p);
      }
      Finish(p);
    }
  }
}
