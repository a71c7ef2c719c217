/** The Internet checksum (RFC 1071) as the stack computes it, and the IPv4 headers and TCP segments it protects. */
module Checksum {
  import opened Bytes

  /** A 16-bit word in network order. */
  function Be16(hi: byte, lo: byte): (w: nat)
    ensures w < 0x1_0000
  {
    hi * 256 + lo
  }

  function Hi(w: nat): byte { w / 256 % 256 }

  function Lo(w: nat): byte { w % 256 }

  /** The words of a message added up without limit; an odd last byte is the upper half of a word. */
  function WordSum(d: seq<byte>): nat
  {
    if d == [] then 0 else if |d| == 1 then Be16(d[0], 0) else Be16(d[0], d[1]) + WordSum(d[2..])
  }

  lemma {:induction false} WordSumBound(d: seq<byte>)
    ensures WordSum(d) <= (|d| + 1) / 2 * 0xFFFF
    decreases |d|
  {
    if |d| >= 2 {
      WordSumBound(d[2..]);
    }
  }

  lemma {:induction false} WordSumApp(p: seq<byte>, s: seq<byte>)
    requires |p| % 2 == 0
    ensures WordSum(p + s) == WordSum(p) + WordSum(s)
    decreases |p|
  {
    if p == [] {
      assert p + s == s;
    } else {
      assert (p + s)[2..] == p[2..] + s;
      WordSumApp(p[2..], s);
    }
  }

  /** One aligned word taken out of the sum. */
  lemma WordSumAt(d: seq<byte>, k: nat)
    requires k % 2 == 0 && k + 2 <= |d|
    ensures WordSum(d) == WordSum(d[..k]) + Be16(d[k], d[k + 1]) + WordSum(d[k + 2..])
  {
    assert d == d[..k] + d[k..] && d[k..][2..] == d[k + 2..];
    WordSumApp(d[..k], d[k..]);
  }

  /** The one's-complement sum: the representative of `s` modulo 65535 that is 0 only for 0. */
  function Folded(s: nat): (r: nat)
    ensures r < 0x1_0000 && (r == 0 <==> s == 0) && r % 0xFFFF == s % 0xFFFF
  {
    if s == 0 then 0 else (s - 1) % 0xFFFF + 1
  }

  lemma FoldStep(s: nat)
    ensures Folded(s % 0x1_0000 + s / 0x1_0000) == Folded(s)
  {
    var q := s / 0x1_0000;
    if s > 0 {
      assert s == s % 0x1_0000 + q + q * 0xFFFF;
      ModAddMultiple(s % 0x1_0000 + q - 1, q);
    }
  }

  lemma {:induction false} ModAddMultiple(a: int, q: nat)
    ensures (a + q * 0xFFFF) % 0xFFFF == a % 0xFFFF
    decreases q
  {
    if q > 0 {
      ModAddMultiple(a, q - 1);
      assert a + q * 0xFFFF == a + (q - 1) * 0xFFFF + 0xFFFF;
    }
  }

  /** The complement of the folded sum. */
  function Checksum(d: seq<byte>): (c: nat)
    ensures c < 0x1_0000
  {
    0xFFFF - Folded(WordSum(d))
  }

  lemma WordSumTwo(d: seq<byte>, i: nat)
    requires i + 2 <= |d|
    ensures WordSum(d[i..]) == Be16(d[i], d[i + 1]) + WordSum(d[i + 2..])
  {
    assert d[i..][2..] == d[i + 2..];
  }

  lemma WordSumLast(d: seq<byte>, i: nat)
    requires i + 1 == |d|
    ensures WordSum(d[i..]) == Be16(d[i], 0)
  {
  }

  lemma WordSumNone(d: seq<byte>)
    ensures WordSum(d[|d|..]) == 0
  {
  }

  lemma FoldSmall(s: nat)
    requires s < 0x1_0000
    ensures Folded(s) == s
  {
  }

  /** The 32-bit accumulator is wide enough for every message of up to 128 KiB. */
  method Checksum16(d: seq<byte>) returns (c: nat)
    ensures |d| <= 0x2_0000 ==> c == Checksum(d)
  {
    hide WordSum, Folded;
    var sum: nat, i: nat := 0, 0;
    WordSumBound(d);
    assert d[0..] == d;
    while i + 1 < |d|
      invariant i <= |d| && i % 2 == 0 && sum < 0x1_0000_0000
      invariant |d| <= 0x2_0000 ==> sum + WordSum(d[i..]) == WordSum(d)
    {
      WordSumTwo(d, i);
      sum := (sum + Be16(d[i], d[i + 1])) % 0x1_0000_0000;
      i := i + 2;
    }
    if i < |d| {
      WordSumLast(d, i);
      sum := (sum + Be16(d[i], 0)) % 0x1_0000_0000;
    }
    WordSumNone(d);
    var r := FoldSum(sum);
    c := 0xFFFF - r;
  }

  method FoldSum(total: nat) returns (sum: nat)
    ensures sum == Folded(total)
  {
    hide Folded;
    sum := total;
    while sum / 0x1_0000 != 0
      invariant Folded(sum) == Folded(total)
      decreases sum
    {
      FoldStep(sum);
      sum := sum % 0x1_0000 + sum / 0x1_0000;
    }
    FoldSmall(sum);
  }

  /** A message verifies exactly if its words add up to a positive multiple of 65535. */
  lemma ZeroIff(d: seq<byte>)
    ensures Checksum(d) == 0 <==> WordSum(d) > 0 && WordSum(d) % 0xFFFF == 0
  {
  }

  /** `d` with the aligned word at `k` set to `w`, in network order. */
  function WithWord(d: seq<byte>, k: nat, w: nat): (r: seq<byte>)
    requires k + 2 <= |d| && w < 0x1_0000
    ensures |r| == |d|
  {
    d[..k] + [Hi(w), Lo(w)] + d[k + 2..]
  }

  lemma WithWordAt(d: seq<byte>, k: nat, w: nat)
    requires k + 2 <= |d| && w < 0x1_0000
    ensures var r := WithWord(d, k, w); Be16(r[k], r[k + 1]) == w && r[..k] == d[..k] && r[k + 2..] == d[k + 2..]
  {
  }

  lemma WithWordSum(d: seq<byte>, k: nat, w: nat)
    requires k % 2 == 0 && k + 2 <= |d| && w < 0x1_0000
    ensures WordSum(WithWord(d, k, w)) + Be16(d[k], d[k + 1]) == WordSum(d) + w
  {
    hide WithWord, WordSum, Be16;
    WordSumAt(d, k);
    WordSumAt(WithWord(d, k, w), k);
    WithWordAt(d, k, w);
  }

  /** Self-verification: storing the checksum of a message in an aligned field that was zero makes it verify. */
  lemma FillInVerifies(d: seq<byte>, k: nat)
    requires k % 2 == 0 && k + 2 <= |d| && d[k] == 0 && d[k + 1] == 0
    ensures Checksum(WithWord(d, k, Checksum(d))) == 0
  {
    hide WithWord, WordSum, Folded;
    WithWordSum(d, k, Checksum(d));
    FoldedSum(WordSum(d));
  }

  lemma FoldedSum(s: nat)
    ensures (s + (0xFFFF - Folded(s))) % 0xFFFF == 0 && s + (0xFFFF - Folded(s)) > 0
  {
    if s > 0 {
      var q := (s - 1) / 0xFFFF;
      assert s + 0xFFFF - Folded(s) == 0 + (q + 1) * 0xFFFF;
      ModAddMultiple(0, q + 1);
    }
  }

  /** The word at the even place `k`; the last one of an odd-length message has only its upper half. */
  function WordAt(d: seq<byte>, k: nat): (w: nat)
    requires k < |d|
    ensures w < 0x1_0000
  {
    Be16(d[k], if k + 1 < |d| then d[k + 1] else 0)
  }

  /** Two messages that agree everywhere but in the word at `k`. */
  predicate SameBut(d: seq<byte>, e: seq<byte>, k: nat)
  {
    k < |d| == |e| && e[..k] == d[..k] && e[Min(k + 2, |d|)..] == d[Min(k + 2, |d|)..]
  }

  lemma WordSumSplit(d: seq<byte>, k: nat)
    requires k % 2 == 0 && k < |d|
    ensures WordSum(d) == WordSum(d[..k]) + WordAt(d, k) + WordSum(d[Min(k + 2, |d|)..])
  {
    if k + 2 <= |d| {
      WordSumAt(d, k);
    } else {
      assert d == d[..k] + d[k..];
      WordSumApp(d[..k], d[k..]);
    }
  }

  /** A change of one aligned word of a verifying message, the last half of an odd-length one included, goes unnoticed
      exactly if the two words are congruent modulo 65535 and the message does not become all zero. */
  lemma ChangeDetected(d: seq<byte>, e: seq<byte>, k: nat)
    requires k % 2 == 0 && SameBut(d, e, k) && Checksum(d) == 0
    ensures Checksum(e) == 0 <==> WordAt(e, k) % 0xFFFF == WordAt(d, k) % 0xFFFF && WordSum(e) > 0
  {
    hide WordSum, Folded, Checksum, WordAt;
    ZeroIff(d);
    ZeroIff(e);
    WordSumSplit(d, k);
    WordSumSplit(e, k);
    Congruent(WordSum(d), WordAt(d, k), WordAt(e, k));
  }

  /** So another last byte of an odd-length message is always noticed. */
  lemma LastByteDetected(d: seq<byte>, e: seq<byte>)
    requires |d| % 2 == 1 && SameBut(d, e, |d| - 1) && Checksum(d) == 0 && e != d
    ensures Checksum(e) != 0
  {
    hide WordSum, Folded, Checksum;
    var k := |d| - 1;
    ChangeDetected(d, e, k);
    assert d == d[..k] + [d[k]] && e == e[..k] + [e[k]];
    assert WordAt(d, k) == d[k] as int * 256 && WordAt(e, k) == e[k] as int * 256;
  }

  lemma Congruent(s: nat, v: nat, w: nat)
    requires s % 0xFFFF == 0 && v <= s && v < 0x1_0000 && w < 0x1_0000
    ensures (s - v + w) % 0xFFFF == 0 <==> w % 0xFFFF == v % 0xFFFF
  {
    var q := s / 0xFFFF;
    assert s - v + w == (w - v) + q * 0xFFFF;
    ModAddMultiple(w - v, q);
  }

  // IPv4 headers and TCP segments

  /** The word at `k`, in network order. */
  function Word(d: seq<byte>, k: nat): (w: nat)
    requires k + 2 <= |d|
    ensures w == 0x100 * d[k] as int + d[k + 1] as int
  {
    Be16(d[k], d[k + 1])
  }

  /** The bytes under a TCP checksum: addresses, protocol 6 and length in front of the segment. */
  function Pseudo(src: seq<byte>, dst: seq<byte>, segment: seq<byte>): seq<byte>
  {
    src + dst + [0, 6, Hi(|segment|), Lo(|segment|)] + segment
  }

  /** What tcp_checksum_segment returns: 0 for segments that are too short or too long. */
  function TcpChecksum(src: seq<byte>, dst: seq<byte>, segment: seq<byte>): (c: nat)
    ensures c < 0x1_0000
  {
    if |segment| < 20 || |segment| > 1500 then 0 else Checksum(Pseudo(src, dst, segment))
  }

  method TcpChecksumSegment(src: seq<byte>, dst: seq<byte>, segment: seq<byte>) returns (c: nat)
    requires |src| == 4 && |dst| == 4
    ensures c == TcpChecksum(src, dst, segment)
  {
    if |segment| < 20 || |segment| > 1500 {
      return 0;
    }
    c := Checksum16(Pseudo(src, dst, segment));
  }

  lemma PseudoWord(src: seq<byte>, dst: seq<byte>, segment: seq<byte>, k: nat, w: nat)
    requires |src| == 4 && |dst| == 4 && k + 2 <= |segment| && w < 0x1_0000
    ensures Pseudo(src, dst, WithWord(segment, k, w)) == WithWord(Pseudo(src, dst, segment), 12 + k, w)
    ensures |Pseudo(src, dst, segment)| == 12 + |segment|
    ensures Pseudo(src, dst, segment)[12 + k] == segment[k] && Pseudo(src, dst, segment)[13 + k] == segment[k + 1]
  {
  }

  /** A segment whose checksum field was filled in verifies at the receiver, whatever its length. */
  lemma SegmentVerifies(src: seq<byte>, dst: seq<byte>, segment: seq<byte>)
    requires |src| == 4 && |dst| == 4 && |segment| >= 20 && segment[16] == 0 && segment[17] == 0
    ensures TcpChecksum(src, dst, WithWord(segment, 16, TcpChecksum(src, dst, segment))) == 0
  {
    hide Pseudo, Checksum;
    PseudoWord(src, dst, segment, 16, TcpChecksum(src, dst, segment));
    if |segment| <= 1500 {
      FillInVerifies(Pseudo(src, dst, segment), 28);
    }
  }

  /** What the receiver checks: addresses, the protocol number 6, the length and the words of the segment add up to a
      multiple of 65535. */
  lemma SegmentSum(src: seq<byte>, dst: seq<byte>, segment: seq<byte>)
    requires |src| == 4 && |dst| == 4 && 20 <= |segment| <= 1500
    ensures TcpChecksum(src, dst, segment) == 0 <==>
            (Word(src, 0) + Word(src, 2) + Word(dst, 0) + Word(dst, 2) + 6 + |segment| + WordSum(segment)) % 0xFFFF == 0
  {
    hide WordSum, Checksum, Hi, Lo, Be16;
    var p := Pseudo(src, dst, segment);
    assert p[..] == p && p[12..] == segment;
    WordSumTwo(p, 0);
    WordSumTwo(p, 2);
    WordSumTwo(p, 4);
    WordSumTwo(p, 6);
    WordSumTwo(p, 8);
    WordSumTwo(p, 10);
    assert p[0..] == p;
    HalfWords(|segment|);
    HalfWords(6);
    SixIs();
    ZeroIff(p);
  }

  lemma SixIs()
    ensures Be16(0, 6) == 6
  {
  }

  /** The words of a message, one by one. */
  lemma {:induction false} WordSumIs(d: seq<byte>, k: nat)
    requires k % 2 == 0 && k <= |d|
    ensures k + 2 <= |d| ==> WordSum(d[k..]) == 0x100 * d[k] as int + d[k + 1] as int + WordSum(d[k + 2..])
    ensures k + 1 == |d| ==> WordSum(d[k..]) == 0x100 * d[k] as int
    ensures k == |d| ==> WordSum(d[k..]) == 0
  {
    if k + 2 <= |d| {
      WordSumTwo(d, k);
    }
  }

  lemma PseudoSameBut(src: seq<byte>, dst: seq<byte>, segment: seq<byte>, changed: seq<byte>, k: nat)
    requires |src| == 4 && |dst| == 4 && SameBut(segment, changed, k)
    ensures SameBut(Pseudo(src, dst, segment), Pseudo(src, dst, changed), 12 + k)
    ensures WordAt(Pseudo(src, dst, segment), 12 + k) == WordAt(segment, k) && WordAt(Pseudo(src, dst, changed), 12 + k) == WordAt(changed, k)
  {
    var h := src + dst + [0, 6, Hi(|segment|), Lo(|segment|)];
    var p, q, m := h + segment, h + changed, Min(k + 2, |segment|);
    assert p[..12 + k] == h + segment[..k] && q[..12 + k] == h + changed[..k];
    assert p[12 + m..] == segment[m..] && q[12 + m..] == changed[m..];
  }

  /** One changed word, or last half word, in a segment of 20 to 1500 bytes passes the receiver's check exactly if it is
      congruent to the old one; in longer segments, which are never checked, every change passes. */
  lemma SegmentChangeDetected(src: seq<byte>, dst: seq<byte>, segment: seq<byte>, changed: seq<byte>, k: nat)
    requires |src| == 4 && |dst| == 4 && |segment| >= 20 && k % 2 == 0 && SameBut(segment, changed, k)
    requires TcpChecksum(src, dst, segment) == 0
    ensures TcpChecksum(src, dst, changed) == 0 <==>
            |segment| > 1500 || WordAt(changed, k) % 0xFFFF == WordAt(segment, k) % 0xFFFF
  {
    hide Checksum, Pseudo, WordAt, WordSum;
    if |segment| <= 1500 {
      PseudoSameBut(src, dst, segment, changed, k);
      ChangeDetected(Pseudo(src, dst, segment), Pseudo(src, dst, changed), 12 + k);
      PseudoPositive(src, dst, changed);
    }
  }

  /** A segment of 1501 bytes is accepted with any contents. */
  lemma LongSegmentPasses(src: seq<byte>, dst: seq<byte>)
    ensures TcpChecksum(src, dst, seq(1501, _ => 0xAA)) == TcpChecksum(src, dst, seq(1501, _ => 0xAB)) == 0
  {
  }

  /** The protocol number keeps a pseudo header from being all zero. */
  lemma PseudoPositive(src: seq<byte>, dst: seq<byte>, segment: seq<byte>)
    requires |src| == 4 && |dst| == 4
    ensures WordSum(Pseudo(src, dst, segment)) > 0
  {
    WordSumAt(Pseudo(src, dst, segment), 8);
  }

  /** The sender's side: headers and segments as the stack writes them, with the running identification number. */
  class Sender {
    var ipId: nat

    /** A header that verifies, with every field where RFC 791 section 3.1 puts it. */
    method BuildIpv4(src: seq<byte>, dst: seq<byte>, proto: byte, payloadLen: nat) returns (h: seq<byte>)
      requires |src| == 4 && |dst| == 4 && ipId < 0x1_0000
      modifies this
      ensures ipId == (old(ipId) + 1) % 0x1_0000
      ensures |h| == 20 && Checksum(h) == 0 && h[12..16] == src && h[16..20] == dst
      ensures h[0] == 0x45 && h[1] == 0 && h[8] == 64 && h[9] == proto
      ensures Word(h, 2) == (20 + payloadLen) % 0x1_0000 && Word(h, 4) == old(ipId) && Word(h, 6) == 0x4000
    {
      hide Checksum, WithWord, Hi, Lo, Be16;
      var total := (20 + payloadLen) % 0x1_0000;
      var front := [0x45, 0, Hi(total), Lo(total), Hi(ipId), Lo(ipId), 0x40, 0, 64, proto, 0, 0];
      HalfWords(total);
      HalfWords(ipId);
      ipId := (ipId + 1) % 0x1_0000;
      var d := front + (src + dst);
      var c := Checksum16(d);
      FillInVerifies(d, 10);
      h := WithWord(d, 10, c);
      WithWordAt(d, 10, c);
      assert d[12..] == src + dst && h[12..][..4] == src && h[12..][4..] == dst;
      assert h[..10] == front[..10];
      Ipv4Fields(h, front);
    }

    /** A frame payload that fits the 640-byte packet buffer; its checksum verifies at the receiver. */
    method BuildTcp(src: seq<byte>, dst: seq<byte>, seqNo: nat, ackNo: nat, flags: byte, payload: seq<byte>)
      returns (s: seq<byte>)
      requires |src| == 4 && |dst| == 4 && seqNo < 0x1_0000_0000 && ackNo < 0x1_0000_0000 && |payload| <= 586
      ensures |s| == 20 + |payload| && s[20..] == payload && TcpChecksum(src, dst, s) == 0
      ensures Word(s, 0) == 49154 && Word(s, 2) == 80 && s[12] == 0x50 && s[13] == flags && Word(s, 14) == 4096
      ensures Word(s, 4) * 0x1_0000 + Word(s, 6) == seqNo && Word(s, 8) * 0x1_0000 + Word(s, 10) == ackNo
    {
      hide TcpChecksum, WithWord, Hi, Lo, Be16;
      var h := [192, 2, 0, 80,
                Hi(seqNo / 0x1_0000), Lo(seqNo / 0x1_0000), Hi(seqNo % 0x1_0000), Lo(seqNo % 0x1_0000),
                Hi(ackNo / 0x1_0000), Lo(ackNo / 0x1_0000), Hi(ackNo % 0x1_0000), Lo(ackNo % 0x1_0000),
                0x50, flags, 16, 0, 0, 0, 0, 0];
      var d := h + payload;
      var c := TcpChecksumSegment(src, dst, d);
      SegmentVerifies(src, dst, d);
      s := WithWord(d, 16, c);
      WithWordAt(d, 16, c);
      assert s[..16] == h[..16];
      assert s[20..] == s[18..][2..] == d[18..][2..] == payload;
      TcpFields(s, h);
      BigEndian(seqNo);
      BigEndian(ackNo);
      PortWords();
    }
  }

  lemma HalfWords(v: nat)
    requires v < 0x1_0000
    ensures Be16(Hi(v), Lo(v)) == v && Be16(0x40, 0) == 0x4000
  {
  }

  lemma Ipv4Fields(s: seq<byte>, h: seq<byte>)
    requires |s| == 20 && |h| == 12 && s[..10] == h[..10]
    ensures forall k :: 0 <= k < 10 ==> s[k] == h[k]
    ensures s[12..16] == s[12..][..4] && s[16..20] == s[12..][4..]
  {
    assert forall k :: 0 <= k < 10 ==> s[k] == s[..10][k] && h[k] == h[..10][k];
  }

  lemma TcpFields(s: seq<byte>, h: seq<byte>)
    requires |s| >= 16 && |h| == 20 && s[..16] == h[..16]
    ensures forall k :: 0 <= k < 16 ==> s[k] == h[k]
  {
    assert forall k :: 0 <= k < 16 ==> s[k] == s[..16][k] && h[k] == h[..16][k];
  }

  lemma BigEndian(v: nat)
    requires v < 0x1_0000_0000
    ensures Be16(Hi(v / 0x1_0000), Lo(v / 0x1_0000)) * 0x1_0000 + Be16(Hi(v % 0x1_0000), Lo(v % 0x1_0000)) == v
  {
    hide Hi, Lo, Be16;
    HalfWords(v / 0x1_0000);
    HalfWords(v % 0x1_0000);
  }

  lemma PortWords()
    ensures Be16(192, 2) == 49154 && Be16(0, 80) == 80 && Be16(16, 0) == 4096
  {
  }
}
