/** DNS names and answers (RFC 1035 sections 3.1 and 4.1.4): writing a host name, skipping a name, and finding the
    first address in a response. */
module Dns {
  import opened Bytes
  import opened Checksum

  type Label = seq<byte>

  predicate GoodLabel(l: Label) { 1 <= |l| <= 63 }

  predicate GoodLabels(ls: seq<Label>) { forall k :: 0 <= k < |ls| ==> GoodLabel(ls[k]) }

  /** Each label behind its length. */
  function EncodeLabels(ls: seq<Label>): seq<byte>
    requires GoodLabels(ls)
  {
    if ls == [] then [] else [|ls[0]|] + ls[0] + EncodeLabels(ls[1..])
  }

  lemma {:induction false} EncodeSnoc(ls: seq<Label>, l: Label)
    requires GoodLabels(ls) && GoodLabel(l)
    ensures GoodLabels(ls + [l]) && EncodeLabels(ls + [l]) == EncodeLabels(ls) + [|l|] + l
    decreases |ls|
  {
    assert forall k :: 0 <= k < |ls| ==> (ls + [l])[k] == ls[k];
    if ls == [] {
      assert [l][1..] == [];
    } else {
      assert (ls + [l])[1..] == ls[1..] + [l];
      EncodeSnoc(ls[1..], l);
    }
  }

  /** Index of the first dot, or the length. */
  function FirstDot(s: seq<byte>): (i: nat)
    ensures i <= |s| && (i < |s| ==> s[i] == 46) && forall j :: 0 <= j < i ==> s[j] != 46
  {
    if s == [] || s[0] == 46 then 0 else
      assert forall j :: 1 <= j <= FirstDot(s[1..]) && j < |s| ==> s[j] == s[1..][j - 1];
      1 + FirstDot(s[1..])
  }

  /** The labels between the dots. */
  function Labels(host: seq<byte>): (ls: seq<Label>)
    ensures |ls| > 0
    decreases |host|
  {
    var i := FirstDot(host);
    if i == |host| then [host] else [host[..i]] + Labels(host[i + 1..])
  }

  /** Labels with a dot between any two. */
  function Dotted(ls: seq<Label>): seq<byte>
  {
    if ls == [] then [] else if |ls| == 1 then ls[0] else ls[0] + [46] + Dotted(ls[1..])
  }

  /** The labels are the dotless pieces that the name is put together from. */
  lemma {:induction false} LabelsJoin(host: seq<byte>)
    ensures Dotted(Labels(host)) == host && forall k :: 0 <= k < |Labels(host)| ==> 46 !in Labels(host)[k]
    decreases |host|
  {
    var i := FirstDot(host);
    if i < |host| {
      LabelsJoin(host[i + 1..]);
      assert Labels(host)[1..] == Labels(host[i + 1..]);
      assert host == host[..i] + [46] + host[i + 1..];
      assert forall k :: 1 <= k < |Labels(host)| ==> Labels(host)[k] == Labels(host[i + 1..])[k - 1];
    }
  }

  /** A host name that can be encoded in `size` bytes. */
  predicate Writable(host: seq<byte>, size: nat) { GoodLabels(Labels(host)) && |host| + 2 <= size }

  lemma DotAt(s: seq<byte>, i: nat)
    requires i < |s| && s[i] == 46 && forall j :: 0 <= j < i ==> s[j] != 46
    ensures FirstDot(s) == i && Labels(s) == [s[..i]] + Labels(s[i + 1..])
  {
  }

  lemma NoDot(s: seq<byte>)
    requires forall j :: 0 <= j < |s| ==> s[j] != 46
    ensures Labels(s) == [s]
  {
  }

  /** The label that starts `s` is at least as long as any dotless front of `s`. */
  lemma FirstLabel(s: seq<byte>, n: nat)
    requires n <= |s| && forall j :: 0 <= j < n ==> s[j] != 46
    ensures |Labels(s)[0]| >= n
  {
  }

  /** The labels of the whole name are `done` followed by those of the name from `start` on. */
  ghost predicate Splits(host: seq<byte>, done: seq<Label>, start: nat)
  {
    start <= |host| && Labels(host) == done + Labels(host[start..])
  }

  lemma SplitNone(host: seq<byte>)
    ensures Splits(host, [], 0)
  {
    assert host[0..] == host && [] + Labels(host) == Labels(host);
  }

  lemma SplitDot(host: seq<byte>, done: seq<Label>, start: nat, i: nat)
    requires Splits(host, done, start) && start <= i < |host| && host[i] == 46
    requires forall j :: start <= j < i ==> host[j] != 46
    ensures Splits(host, done + [host[start..i]], i + 1) && host[start..i] in Labels(host)
  {
    hide Labels, FirstDot;
    var s := host[start..];
    DotAt(s, i - start);
    assert s[..i - start] == host[start..i] && s[i - start + 1..] == host[i + 1..];
    assert Labels(host) == (done + [host[start..i]]) + Labels(host[i + 1..]);
    assert Labels(host)[|done|] == host[start..i];
  }

  lemma SplitEnd(host: seq<byte>, done: seq<Label>, start: nat)
    requires Splits(host, done, start) && forall j :: start <= j < |host| ==> host[j] != 46
    ensures Labels(host) == done + [host[start..]] && host[start..] in Labels(host)
  {
    NoDot(host[start..]);
    assert Labels(host)[|done|] == host[start..];
  }

  lemma SplitLong(host: seq<byte>, done: seq<Label>, start: nat, i: nat)
    requires Splits(host, done, start) && start + 63 < i <= |host| && forall j :: start <= j < i ==> host[j] != 46
    ensures !GoodLabels(Labels(host))
  {
    FirstLabel(host[start..], i - start);
    assert Labels(host)[|done|] == Labels(host[start..])[0];
  }

  lemma GoodIs(l: Label)
    ensures GoodLabel(l) <==> 1 <= |l| <= 63
  {
  }

  lemma BadLabel(ls: seq<Label>, l: Label)
    requires l in ls && !GoodLabel(l)
    ensures !GoodLabels(ls)
  {
  }

  /** The first `i` bytes of the name are written: the complete labels `done` with their lengths, then the characters
      of the label begun, whose length is still missing at `at`. */
  ghost predicate Written(out: seq<byte>, size: nat, host: seq<byte>, done: seq<Label>, i: nat, len: nat, at: nat, pos: nat)
  {
    && len <= i <= |host| && len <= 63 && pos == (if len == 0 then i else i + 1) && pos <= size <= |out|
    && Splits(host, done, i - len) && GoodLabels(done) && (forall j :: i - len <= j < i ==> host[j] != 46)
    && (len > 0 ==> at == i - len && out[at + 1..pos] == host[i - len..i])
    && |EncodeLabels(done)| == i - len && out[..i - len] == EncodeLabels(done)
  }

  lemma WrittenNone(out: seq<byte>, size: nat, host: seq<byte>)
    requires size <= |out|
    ensures Written(out, size, host, [], 0, 0, 0, 0)
  {
    SplitNone(host);
  }

  lemma WrittenBounds(out: seq<byte>, size: nat, host: seq<byte>, done: seq<Label>, i: nat, len: nat, at: nat, pos: nat)
    requires Written(out, size, host, done, i, len, at, pos)
    ensures len <= i <= |host| && len <= 63 && pos == (if len == 0 then i else i + 1) && pos <= size <= |out|
    ensures len > 0 ==> at < pos
  {
  }

  lemma LabelByte(out: seq<byte>, at: nat, pos: nat, b: byte)
    requires at < pos <= |out|
    ensures out[at := b][..pos] == out[..at] + [b] + out[at + 1..pos]
  {
  }

  lemma LastByte(out: seq<byte>, pos: nat)
    requires pos < |out|
    ensures out[pos := 0][..pos + 1] == out[..pos] + [0]
  {
  }

  lemma CharBehind(out: seq<byte>, from: nat, p: nat, c: byte)
    requires from <= p < |out|
    ensures out[p := c][from..p + 1] == out[from..p] + [c]
  {
  }

  /** One more character, at `pos` or behind the place for the length. */
  lemma WrittenChar(out: seq<byte>, size: nat, host: seq<byte>, done: seq<Label>, i: nat, len: nat, at: nat, pos: nat)
    requires Written(out, size, host, done, i, len, at, pos) && i < |host| && host[i] != 46
    requires var p := if len == 0 then pos + 1 else pos; p < size
    ensures var p := if len == 0 then pos + 1 else pos; var w := out[p := host[i]];
            if len < 63 then Written(w, size, host, done, i + 1, len + 1, if len == 0 then pos else at, p + 1)
            else !Writable(host, size)
  {
    hide GoodLabels, GoodLabel, EncodeLabels, Labels, FirstDot, Splits;
    var p := if len == 0 then pos + 1 else pos;
    var w := out[p := host[i]];
    if len < 63 {
      assert w[..i - len] == out[..i - len];
      CharBehind(out, i - len + 1, p, host[i]);
      assert host[i - len..i] + [host[i]] == host[i - len..i + 1];
    } else {
      SplitLong(host, done, i - len, i + 1);
    }
  }

  /** A dot completes the label begun, or spoils the name. */
  lemma WrittenDot(out: seq<byte>, size: nat, host: seq<byte>, done: seq<Label>, i: nat, len: nat, at: nat, pos: nat)
    requires Written(out, size, host, done, i, len, at, pos) && i < |host| && host[i] == 46
    ensures len == 0 ==> !Writable(host, size)
    ensures len > 0 ==> at < |out| && Written(out[at := len as byte], size, host, done + [host[i - len..i]], i + 1, 0, at, pos)
  {
    hide GoodLabels, GoodLabel, EncodeLabels, Labels, FirstDot, Splits;
    var l := host[i - len..i];
    SplitDot(host, done, i - len, i);
    GoodIs(l);
    if len == 0 {
      BadLabel(Labels(host), l);
    } else {
      EncodeSnoc(done, l);
      LabelByte(out, at, pos, len as byte);
    }
  }

  /** At the end of the name, the length of the last label completes it. */
  lemma WrittenEnd(out: seq<byte>, size: nat, host: seq<byte>, done: seq<Label>, len: nat, at: nat, pos: nat)
    requires Written(out, size, host, done, |host|, len, at, pos)
    ensures len == 0 ==> !Writable(host, size)
    ensures len > 0 ==> GoodLabels(Labels(host)) && pos == |host| + 1 && at < |out|
    ensures len > 0 ==> out[at := len as byte][..pos] == EncodeLabels(Labels(host))
  {
    hide GoodLabels, GoodLabel, EncodeLabels, Labels, FirstDot, Splits;
    var l := host[|host| - len..];
    SplitEnd(host, done, |host| - len);
    GoodIs(l);
    if len == 0 {
      BadLabel(Labels(host), l);
    } else {
      EncodeSnoc(done, l);
      assert host[|host| - len..|host|] == l;
      LabelByte(out, at, pos, len as byte);
    }
  }

  /** Writes exactly the writable names, each as its labels and a zero byte, and never beyond `size` bytes. */
  method WriteName(out: array<byte>, size: nat, host: seq<byte>) returns (r: int)
    requires size <= out.Length
    modifies out
    ensures r == if Writable(host, size) then |host| + 2 else -1
    ensures r != -1 ==> out[..|host| + 2] == EncodeLabels(Labels(host)) + [0]
    ensures out[size..] == old(out[size..])
  {
    hide Labels, EncodeLabels, GoodLabels, Written;
    var pos: nat, labelLen: nat, labelPos: nat, i: nat := 0, 0, 0, 0;
    ghost var done: seq<Label> := [];
    WrittenNone(out[..], size, host);
    while i < |host|
      invariant i <= |host| && Written(out[..], size, host, done, i, labelLen, labelPos, pos)
      invariant out[size..] == old(out[size..])
    {
      ghost var s, at := out[..], labelPos;
      WrittenBounds(s, size, host, done, i, labelLen, labelPos, pos);
      if labelLen == 0 {
        if pos >= size {
          return -1;
        }
        labelPos := pos;
        pos := pos + 1;
      }
      if host[i] == 46 {
        WrittenDot(s, size, host, done, i, labelLen, at, if labelLen == 0 then pos - 1 else pos);
        if labelLen == 0 || labelLen > 63 {
          return -1;
        }
        out[labelPos] := labelLen;
        assert out[..] == s[labelPos := labelLen as byte];
        done := done + [host[i - labelLen..i]];
        labelLen := 0;
        i := i + 1;
        continue;
      }
      if pos >= size {
        return -1;
      }
      WrittenChar(s, size, host, done, i, labelLen, at, if labelLen == 0 then pos - 1 else pos);
      out[pos] := host[i];
      assert out[..] == s[pos := host[i]];
      pos, i, labelLen := pos + 1, i + 1, labelLen + 1;
      if labelLen > 63 {
        return -1;
      }
    }
    ghost var s := out[..];
    WrittenBounds(s, size, host, done, i, labelLen, labelPos, pos);
    WrittenEnd(s, size, host, done, labelLen, labelPos, pos);
    if labelLen == 0 {
      return -1;
    }
    out[labelPos] := labelLen;
    if pos >= size {
      return -1;
    }
    LastByte(s[labelPos := labelLen as byte], pos);
    out[pos] := 0;
    assert out[..] == s[labelPos := labelLen as byte][pos := 0];
    r := pos + 1;
  }

  // Skipping names

  /** A name in a message: labels, then the end or a two-byte pointer to another name. */
  datatype Name = Name(labels: seq<Label>, tail: Tail)
  {
    predicate Good() { GoodLabels(labels) && (tail.Pointer? ==> tail.hi >= 192) }
  }

  datatype Tail = End | Pointer(hi: byte, lo: byte)

  function EncodeTail(t: Tail): seq<byte> { if t.End? then [0] else [t.hi, t.lo] }

  function EncodeName(n: Name): seq<byte>
    requires n.Good()
  {
    EncodeLabels(n.labels) + EncodeTail(n.tail)
  }

  /** The offset behind the name at `off`, or -1; `jumps` labels were passed before. */
  function Skip(msg: seq<byte>, off: nat, jumps: nat): (r: int)
    ensures r == -1 || off < r <= |msg|
    decreases |msg| - off
  {
    if off >= |msg| then -1
    else if msg[off] == 0 then off + 1
    else if msg[off] >= 192 then if off + 1 >= |msg| then -1 else off + 2
    else if msg[off] >= 64 then -1
    else if off + 1 + msg[off] > |msg| || jumps + 1 > 64 then -1
    else Skip(msg, off + 1 + msg[off], jumps + 1)
  }

  method SkipName(msg: seq<byte>, start: nat) returns (r: int)
    ensures r == Skip(msg, start, 0)
  {
    var off, jumps := start, 0;
    while off < |msg|
      invariant Skip(msg, start, 0) == Skip(msg, off, jumps)
      decreases |msg| - off
    {
      var c := msg[off];
      off := off + 1;
      if c == 0 {
        return off;
      }
      if c >= 192 {
        if off >= |msg| {
          return -1;
        }
        return off + 1;
      }
      if c >= 64 {
        return -1;
      }
      off := off + c;
      jumps := jumps + 1;
      if off > |msg| || jumps > 64 {
        return -1;
      }
    }
    r := -1;
  }

  /** `d` lies in `msg` at `off`. */
  predicate Lies(msg: seq<byte>, off: nat, d: seq<byte>) { off + |d| <= |msg| && msg[off..off + |d|] == d }

  lemma LiesApart(msg: seq<byte>, off: nat, d: seq<byte>, e: seq<byte>)
    requires Lies(msg, off, d + e)
    ensures Lies(msg, off, d) && Lies(msg, off + |d|, e)
  {
    assert msg[off..off + |d|] == msg[off..off + |d + e|][..|d|];
    assert msg[off + |d|..off + |d| + |e|] == msg[off..off + |d + e|][|d|..];
  }

  lemma LiesByte(msg: seq<byte>, off: nat, b: byte)
    requires Lies(msg, off, [b])
    ensures off < |msg| && msg[off] == b
  {
    assert msg[off..off + 1][0] == b;
  }

  lemma NameNil(n: Name)
    requires n.Good() && n.labels == []
    ensures EncodeName(n) == EncodeTail(n.tail) && (n.tail.Pointer? ==> n.tail.hi >= 192)
  {
  }

  lemma NameCons(n: Name)
    requires n.Good() && n.labels != []
    ensures var l, rest := n.labels[0], Name(n.labels[1..], n.tail);
            GoodLabel(l) && rest.Good() && EncodeName(n) == [|l|] + (l + EncodeName(rest))
  {
    var l, rest := n.labels[0], Name(n.labels[1..], n.tail);
    assert GoodLabel(n.labels[0]);
    assert EncodeLabels(n.labels) + EncodeTail(n.tail) == [|l|] + (l + (EncodeLabels(rest.labels) + EncodeTail(n.tail)));
  }

  /** Skipping a well-formed name, compressed or not, ends exactly behind it if it has at most 64 labels, and fails if
      it has more. */
  lemma {:induction false} SkipEncoded(msg: seq<byte>, off: nat, n: Name, jumps: nat)
    requires n.Good() && Lies(msg, off, EncodeName(n)) && jumps <= 64
    ensures Skip(msg, off, jumps) == if jumps + |n.labels| <= 64 then off + |EncodeName(n)| else -1
    decreases |n.labels|
  {
    hide Lies, EncodeName, EncodeTail, Name.Good;
    if n.labels == [] {
      NameNil(n);
      SkipTail(msg, off, n.tail, jumps);
    } else {
      var l, rest := n.labels[0], Name(n.labels[1..], n.tail);
      NameCons(n);
      LiesApart(msg, off, [|l|], l + EncodeName(rest));
      LiesByte(msg, off, |l|);
      LiesApart(msg, off + 1, l, EncodeName(rest));
      if jumps < 64 {
        SkipEncoded(msg, off + 1 + |l|, rest, jumps + 1);
      }
    }
  }

  lemma SkipTail(msg: seq<byte>, off: nat, t: Tail, jumps: nat)
    requires (t.Pointer? ==> t.hi >= 192) && Lies(msg, off, EncodeTail(t))
    ensures Skip(msg, off, jumps) == off + |EncodeTail(t)|
  {
    LiesByte(msg, off, EncodeTail(t)[0]) by {
      assert EncodeTail(t) == [EncodeTail(t)[0]] + EncodeTail(t)[1..];
      LiesApart(msg, off, [EncodeTail(t)[0]], EncodeTail(t)[1..]);
    }
  }

  lemma LiesTogether(msg: seq<byte>, off: nat, d: seq<byte>, e: seq<byte>)
    requires Lies(msg, off, d) && Lies(msg, off + |d|, e)
    ensures Lies(msg, off, d + e)
  {
    assert msg[off..off + |d + e|] == msg[off..off + |d|] + msg[off + |d|..off + |d| + |e|];
  }

  /** And nothing else is skipped: whatever is passed over is a well-formed name of at most 64 labels. */
  lemma {:induction false} SkipSound(msg: seq<byte>, off: nat, jumps: nat) returns (n: Name)
    requires Skip(msg, off, jumps) >= 0 && jumps <= 64
    ensures n.Good() && jumps + |n.labels| <= 64 && Lies(msg, off, EncodeName(n)) && Skip(msg, off, jumps) == off + |EncodeName(n)|
    decreases |msg| - off
  {
    hide Lies, EncodeName, Name.Good;
    if msg[off] == 0 || msg[off] >= 192 {
      n := Name([], if msg[off] == 0 then End else Pointer(msg[off], msg[off + 1]));
      OnlyTail(msg, off, n);
    } else {
      var l := msg[off + 1..off + 1 + msg[off]];
      var rest := SkipSound(msg, off + 1 + |l|, jumps + 1);
      n := Name([l] + rest.labels, rest.tail);
      MoreLabels(l, rest, n);
      NameCons(n);
      LabelLies(msg, off, l);
      LiesTogether(msg, off + 1, l, EncodeName(rest));
      LiesTogether(msg, off, [|l|], l + EncodeName(rest));
    }
  }

  lemma OnlyTail(msg: seq<byte>, off: nat, n: Name)
    requires off < |msg| && n.labels == [] && (n.tail.End? ==> msg[off] == 0)
    requires n.tail.Pointer? ==> off + 1 < |msg| && msg[off] >= 192 && n.tail == Pointer(msg[off], msg[off + 1])
    ensures n.Good() && Lies(msg, off, EncodeName(n)) && |EncodeName(n)| == if n.tail.End? then 1 else 2
  {
    NameNil(n);
  }

  lemma MoreLabels(l: Label, rest: Name, n: Name)
    requires GoodLabel(l) && rest.Good() && n == Name([l] + rest.labels, rest.tail)
    ensures n.Good() && n.labels[0] == l && n.labels[1..] == rest.labels && Name(n.labels[1..], n.tail) == rest
  {
  }

  lemma LabelLies(msg: seq<byte>, off: nat, l: Label)
    requires off < |msg| && off + 1 + msg[off] <= |msg| && l == msg[off + 1..off + 1 + msg[off]]
    ensures Lies(msg, off, [msg[off]]) && Lies(msg, off + 1, l) && |l| == msg[off]
  {
  }

  /** What WriteName writes is skipped over exactly, up to 64 labels. */
  lemma WrittenIsSkipped(host: seq<byte>, msg: seq<byte>, off: nat)
    requires GoodLabels(Labels(host)) && Lies(msg, off, EncodeLabels(Labels(host)) + [0])
    ensures Skip(msg, off, 0) == if |Labels(host)| <= 64 then off + |host| + 2 else -1
  {
    var n := Name(Labels(host), End);
    assert EncodeName(n) == EncodeLabels(Labels(host)) + [0];
    SkipEncoded(msg, off, n, 0);
    EncodedLength(host);
  }

  lemma {:induction false} EncodedLength(host: seq<byte>)
    requires GoodLabels(Labels(host))
    ensures |EncodeLabels(Labels(host))| == |host| + 1
    decreases |host|
  {
    var i := FirstDot(host);
    if i < |host| {
      assert Labels(host)[1..] == Labels(host[i + 1..]);
      EncodedLength(host[i + 1..]);
    } else {
      assert Labels(host)[1..] == [];
    }
  }

  /** A name is writable exactly if its labels are good and they fit with their lengths and the zero byte. */
  lemma WritableIff(host: seq<byte>, size: nat)
    ensures Writable(host, size) <==> GoodLabels(Labels(host)) && |EncodeLabels(Labels(host)) + [0]| <= size
  {
    hide Labels, EncodeLabels, GoodLabels;
    if GoodLabels(Labels(host)) {
      EncodedLength(host);
    }
  }

  // Responses

  datatype Question = Question(name: Name, info: seq<byte>)
  {
    predicate Good() { name.Good() && |name.labels| <= 64 && |info| == 4 }
  }

  datatype Record = Record(name: Name, kind: nat, klass: nat, ttl: seq<byte>, data: seq<byte>)
  {
    predicate Good()
    {
      && name.Good() && |name.labels| <= 64 && |ttl| == 4
      && kind < 0x1_0000 && klass < 0x1_0000 && |data| < 0x1_0000
    }

    predicate IsAddress() { kind == 1 && klass == 1 && |data| == 4 }
  }

  predicate GoodQuestions(qs: seq<Question>) { forall k :: 0 <= k < |qs| ==> qs[k].Good() }

  predicate GoodRecords(rs: seq<Record>) { forall k :: 0 <= k < |rs| ==> rs[k].Good() }

  function EncodeQuestions(qs: seq<Question>): seq<byte>
    requires GoodQuestions(qs)
  {
    if qs == [] then [] else assert qs[0].Good(); EncodeName(qs[0].name) + (qs[0].info + EncodeQuestions(qs[1..]))
  }

  /** Type, class, time to live and data length. */
  function RecordFields(r: Record): (f: seq<byte>)
    requires r.Good()
    ensures |f| == 10
  {
    [Hi(r.kind), Lo(r.kind), Hi(r.klass), Lo(r.klass)] + r.ttl + [Hi(|r.data|), Lo(|r.data|)]
  }

  function EncodeRecords(rs: seq<Record>): seq<byte>
    requires GoodRecords(rs)
  {
    if rs == [] then [] else assert rs[0].Good(); EncodeName(rs[0].name) + (RecordFields(rs[0]) + (rs[0].data + EncodeRecords(rs[1..])))
  }

  /** The data of the first address record. */
  function FirstAddress(rs: seq<Record>): Option<seq<byte>>
  {
    if rs == [] then None else if rs[0].IsAddress() then Some(rs[0].data) else FirstAddress(rs[1..])
  }

  /** An address record: type 1, class 1, four bytes; the first one's data is taken. */
  lemma {:induction false} FirstAddressIs(rs: seq<Record>, k: nat)
    requires k <= |rs| && forall j :: 0 <= j < k ==> !(rs[j].kind == 1 && rs[j].klass == 1 && |rs[j].data| == 4)
    ensures k == |rs| ==> FirstAddress(rs) == None
    ensures k < |rs| && rs[k].kind == 1 && rs[k].klass == 1 && |rs[k].data| == 4 ==> FirstAddress(rs) == Some(rs[k].data)
    decreases |rs|
  {
    if k > 0 {
      assert forall j :: 0 <= j < |rs| - 1 ==> rs[1..][j] == rs[j + 1];
      FirstAddressIs(rs[1..], k - 1);
    }
  }

  function SkipQuestions(msg: seq<byte>, off: nat, n: nat): (r: int)
    ensures r >= -1
    decreases n
  {
    if n == 0 then off else
      var r := Skip(msg, off, 0);
      if r < 0 || r + 4 > |msg| then -1 else SkipQuestions(msg, r + 4, n - 1)
  }

  /** The first address among `n` records from `off` on, if the records up to it are complete. */
  function FindAddress(msg: seq<byte>, off: nat, n: nat): Option<seq<byte>>
    decreases n
  {
    if n == 0 then None else
      var r := Skip(msg, off, 0);
      if r < 0 || r + 10 > |msg| then None
      else
        var len := Word(msg, r + 8);
        if r + 10 + len > |msg| then None
        else if Word(msg, r) == 1 && Word(msg, r + 2) == 1 && len == 4 then Some(msg[r + 10..r + 14])
        else FindAddress(msg, r + 10 + len, n - 1)
  }

  function Answer(msg: seq<byte>): Option<seq<byte>>
  {
    if |msg| < 12 || Word(msg, 0) != 0xE901 then None else
      var off := SkipQuestions(msg, 12, Word(msg, 4));
      if off < 0 then None else FindAddress(msg, off, Word(msg, 6))
  }

  /** The address found in a response, whatever its bytes are: no read goes beyond the message. */
  method HandleDns(msg: seq<byte>) returns (ip: Option<seq<byte>>)
    ensures ip == Answer(msg)
  {
    hide Skip, Word;
    if |msg| < 12 || Word(msg, 0) != 0xE901 {
      return None;
    }
    var questions, answers := Word(msg, 4), Word(msg, 6);
    var off := 12;
    var i := 0;
    while i < questions
      invariant i <= questions && off >= 0
      invariant SkipQuestions(msg, 12, questions) == SkipQuestions(msg, off, questions - i)
    {
      off := SkipName(msg, off);
      if off < 0 || off + 4 > |msg| {
        return None;
      }
      off := off + 4;
      i := i + 1;
    }
    i := 0;
    ghost var start := off;
    while i < answers
      invariant i <= answers && off >= 0
      invariant FindAddress(msg, start, answers) == FindAddress(msg, off, answers - i)
    {
      off := SkipName(msg, off);
      if off < 0 || off + 10 > |msg| {
        return None;
      }
      var kind, klass, len := Word(msg, off), Word(msg, off + 2), Word(msg, off + 8);
      off := off + 10;
      if off + len > |msg| {
        return None;
      }
      if kind == 1 && klass == 1 && len == 4 {
        return Some(msg[off..off + 4]);
      }
      off := off + len;
      i := i + 1;
    }
    ip := None;
  }

  lemma {:induction false} QuestionsSkipped(msg: seq<byte>, off: nat, qs: seq<Question>)
    requires GoodQuestions(qs) && Lies(msg, off, EncodeQuestions(qs))
    ensures SkipQuestions(msg, off, |qs|) == off + |EncodeQuestions(qs)|
    decreases |qs|
  {
    hide EncodeName, Skip;
    if qs != [] {
      var q, rest := qs[0], qs[1..];
      LiesApart(msg, off, EncodeName(q.name), q.info + EncodeQuestions(rest));
      SkipEncoded(msg, off, q.name, 0);
      LiesApart(msg, off + |EncodeName(q.name)|, q.info, EncodeQuestions(rest));
      QuestionsSkipped(msg, off + |EncodeName(q.name)| + 4, rest);
    }
  }

  lemma LiesWord(msg: seq<byte>, off: nat, d: seq<byte>, k: nat)
    requires Lies(msg, off, d) && k + 2 <= |d|
    ensures off + k + 2 <= |msg| && Word(msg, off + k) == Word(d, k)
  {
    assert msg[off..off + |d|][k] == msg[off + k] && msg[off..off + |d|][k + 1] == msg[off + k + 1];
  }

  lemma FieldWords(r: Record)
    requires r.Good()
    ensures var f := RecordFields(r); Word(f, 0) == r.kind && Word(f, 2) == r.klass && Word(f, 8) == |r.data|
  {
    hide Hi, Lo, Be16;
    HalfWords(r.kind);
    HalfWords(r.klass);
    HalfWords(|r.data|);
  }

  lemma FieldsRead(msg: seq<byte>, off: nat, r: Record)
    requires r.Good() && Lies(msg, off, RecordFields(r))
    ensures off + 10 <= |msg|
    ensures Word(msg, off) == r.kind && Word(msg, off + 2) == r.klass && Word(msg, off + 8) == |r.data|
  {
    hide RecordFields, Word, Lies;
    var f := RecordFields(r);
    FieldWords(r);
    LiesWord(msg, off, f, 0);
    LiesWord(msg, off, f, 2);
    LiesWord(msg, off, f, 8);
  }

  /** One encoded record, read field by field. */
  lemma RecordRead(msg: seq<byte>, off: nat, r: Record, rest: seq<byte>)
    requires r.Good() && Lies(msg, off, EncodeName(r.name) + (RecordFields(r) + (r.data + rest)))
    ensures var a := off + |EncodeName(r.name)|;
            && Skip(msg, off, 0) == a && a + 10 + |r.data| <= |msg| && Lies(msg, a + 10 + |r.data|, rest)
            && Word(msg, a) == r.kind && Word(msg, a + 2) == r.klass && Word(msg, a + 8) == |r.data|
            && msg[a + 10..a + 10 + |r.data|] == r.data
  {
    hide EncodeName, Skip, RecordFields, Word;
    var a := off + |EncodeName(r.name)|;
    LiesApart(msg, off, EncodeName(r.name), RecordFields(r) + (r.data + rest));
    SkipEncoded(msg, off, r.name, 0);
    LiesApart(msg, a, RecordFields(r), r.data + rest);
    FieldsRead(msg, a, r);
    LiesApart(msg, a + 10, r.data, rest);
  }

  lemma {:induction false} RecordsSearched(msg: seq<byte>, off: nat, rs: seq<Record>)
    requires GoodRecords(rs) && Lies(msg, off, EncodeRecords(rs))
    ensures FindAddress(msg, off, |rs|) == FirstAddress(rs)
    decreases |rs|
  {
    hide EncodeName, Skip, RecordFields, Word, Lies;
    if rs != [] {
      var r, rest := rs[0], rs[1..];
      RecordRead(msg, off, r, EncodeRecords(rest));
      RecordsSearched(msg, off + |EncodeName(r.name)| + 10 + |r.data|, rest);
    }
  }

  /** A response with the expected identification: header, questions, answers; anything may follow. */
  function EncodeResponse(flags: seq<byte>, counts: seq<byte>, qs: seq<Question>, rs: seq<Record>): seq<byte>
    requires GoodQuestions(qs) && GoodRecords(rs)
  {
    ResponseHeader(flags, counts, |qs|, |rs|) + (EncodeQuestions(qs) + EncodeRecords(rs))
  }

  function ResponseHeader(flags: seq<byte>, counts: seq<byte>, questions: nat, answers: nat): (h: seq<byte>)
    ensures |h| == 6 + |flags| + |counts|
  {
    [0xE9, 0x01] + flags + [Hi(questions), Lo(questions), Hi(answers), Lo(answers)] + counts
  }

  lemma HeaderWords(flags: seq<byte>, counts: seq<byte>, questions: nat, answers: nat)
    requires |flags| == 2 && |counts| == 4 && questions < 0x1_0000 && answers < 0x1_0000
    ensures var h := ResponseHeader(flags, counts, questions, answers);
            Word(h, 0) == 0xE901 && Word(h, 4) == questions && Word(h, 6) == answers
  {
    hide Hi, Lo;
    HalfWords(questions);
    HalfWords(answers);
  }

  /** On every well-formed response, compressed names included, the answer is the first address record's. */
  lemma ResponseAnswered(msg: seq<byte>, flags: seq<byte>, counts: seq<byte>, qs: seq<Question>, rs: seq<Record>)
    requires GoodQuestions(qs) && GoodRecords(rs)
    requires |flags| == 2 && |counts| == 4 && |qs| < 0x1_0000 && |rs| < 0x1_0000
    requires Lies(msg, 0, EncodeResponse(flags, counts, qs, rs))
    ensures Answer(msg) == FirstAddress(rs)
  {
    hide Lies, SkipQuestions, FindAddress, Word, ResponseHeader, EncodeQuestions, EncodeRecords, FirstAddress,
      GoodQuestions, GoodRecords;
    var h := ResponseHeader(flags, counts, |qs|, |rs|);
    LiesApart(msg, 0, h, EncodeQuestions(qs) + EncodeRecords(rs));
    HeaderWords(flags, counts, |qs|, |rs|);
    LiesWord(msg, 0, h, 0);
    LiesWord(msg, 0, h, 4);
    LiesWord(msg, 0, h, 6);
    LiesWord(msg, 0, h, 10);
    LiesApart(msg, 12, EncodeQuestions(qs), EncodeRecords(rs));
    QuestionsSkipped(msg, 12, qs);
    RecordsSearched(msg, 12 + |EncodeQuestions(qs)|, rs);
  }
}
