/** Bytes, 512-byte sectors, little-endian fields, and replacing a run inside a sequence. */
module Bytes {
  datatype Option<T> = None | Some(value: T)

  type byte = b: int | 0 <= b < 256

  type Sector = s: seq<byte> | |s| == 512 witness seq(512, _ => 0)

  function Zeros(n: nat): (r: seq<byte>)
    ensures |r| == n
  {
    seq(n, _ => 0)
  }

  const ZERO_SECTOR: Sector := Zeros(512)

  function Min(a: int, b: int): int { if a < b then a else b }

  function Max(a: int, b: int): int { if a < b then b else a }

  /** `s` with the run that starts at `o` replaced by `d`. */
  ghost function Splice<T>(s: seq<T>, o: nat, d: seq<T>): (r: seq<T>)
    requires o + |d| <= |s|
    ensures |r| == |s|
  {
    seq(|s|, i requires 0 <= i < |s| => if o <= i < o + |d| then d[i - o] else s[i])
  }

  lemma SpliceRun<T>(s: seq<T>, o: nat, d: seq<T>)
    requires o + |d| <= |s|
    ensures Splice(s, o, d)[o..o + |d|] == d
    ensures Splice(s, o, d) == s[..o] + d + s[o + |d|..]
  {
  }

  lemma SpliceEnds<T>(s: seq<T>, o: nat, d: seq<T>)
    requires o + |d| <= |s|
    ensures Splice(s, o, d)[..o + |d|] == s[..o] + d
    ensures Splice(s, o, d)[o + |d|..] == s[o + |d|..]
  {
  }

  lemma SuffixSame<T>(s: seq<T>, t: seq<T>, m: nat, n: nat)
    requires m <= n <= |s| == |t| && t[m..] == s[m..]
    ensures t[n..] == s[n..]
  {
    assert forall k :: m <= k < |s| ==> s[k] == s[m..][k - m] && t[k] == t[m..][k - m];
  }

  /** Two runs written back to back are one run. */
  lemma SpliceJoin<T>(s: seq<T>, o: nat, d: seq<T>, e: seq<T>)
    requires o + |d| + |e| <= |s|
    ensures Splice(Splice(s, o, d), o + |d|, e) == Splice(s, o, d + e)
  {
  }

  lemma SpliceNothing<T>(s: seq<T>, o: nat)
    requires o <= |s|
    ensures Splice(s, o, []) == s
  {
  }

  /** A run inside the left part of a concatenation does not reach the right part. */
  lemma SpliceLeft<T>(a: seq<T>, b: seq<T>, o: nat, d: seq<T>)
    requires o + |d| <= |a|
    ensures Splice(a + b, o, d) == Splice(a, o, d) + b
  {
  }

  lemma SpliceLast<T>(a: seq<T>, b: seq<T>, d: seq<T>)
    requires |d| == |b|
    ensures Splice(a + b, |a|, d) == a + d
  {
  }

  /** A sequence without its item `n`. */
  function Dropped<T>(s: seq<T>, n: nat): (r: seq<T>)
    requires n < |s|
    ensures |r| == |s| - 1
  {
    s[..n] + s[n + 1..]
  }

  lemma DroppedAt<T>(s: seq<T>, n: nat)
    requires n < |s|
    ensures forall i :: 0 <= i < |s| - 1 ==> Dropped(s, n)[i] == s[if i < n then i else i + 1]
    ensures forall i :: 0 <= i < |s| && i != n ==> s[i] == Dropped(s, n)[if i < n then i else i - 1]
  {
  }

  /** Splicing part of a run is splicing the run with that part replaced. */
  lemma SpliceWithin<T>(s: seq<T>, o: nat, n: nat, b: nat, d: seq<T>)
    requires o + n <= |s| && b + |d| <= n
    ensures Splice(s, o, Splice(s[o..o + n], b, d)) == Splice(s, o + b, d)
  {
  }

  lemma SliceOfSlice<T>(s: seq<T>, a: nat, b: nat, c: nat, d: nat)
    requires a <= b <= |s| && c <= d <= b - a
    ensures s[a..b][c..d] == s[a + c..a + d]
  {
    var t := s[a..b];
    assert forall k :: 0 <= k < d - c ==> t[c..d][k] == t[c + k] && s[a + c..a + d][k] == s[a + c + k];
  }

  /** What a splice leaves alone. */
  lemma SpliceOutside<T>(s: seq<T>, o: nat, d: seq<T>, lo: nat, hi: nat)
    requires o + |d| <= |s| && lo <= hi <= |s| && (hi <= o || o + |d| <= lo)
    ensures Splice(s, o, d)[lo..hi] == s[lo..hi]
  {
  }

  lemma SameBefore<T>(s: seq<T>, t: seq<T>, m: nat, lo: nat, hi: nat)
    requires lo <= hi <= m <= |s| && m <= |t| && t[..m] == s[..m]
    ensures t[lo..hi] == s[lo..hi]
  {
    assert s[lo..hi] == s[..m][lo..hi] && t[lo..hi] == t[..m][lo..hi];
  }

  lemma SameAfter<T>(s: seq<T>, t: seq<T>, m: nat, lo: nat, hi: nat)
    requires m <= lo <= hi <= |s| == |t| && t[m..] == s[m..]
    ensures t[lo..hi] == s[lo..hi]
  {
    assert forall k :: m <= k < |s| ==> s[k] == s[m..][k - m] && t[k] == t[m..][k - m];
  }

  /** Multiplication by repeated addition, so that layout arithmetic stays linear. */
  ghost function Times(n: nat, k: nat): nat
  {
    if n == 0 then 0 else Times(n - 1, k) + k
  }

  lemma {:induction false} TimesIsProduct(n: nat, k: nat)
    ensures Times(n, k) == n * k
  {
    if n > 0 {
      TimesIsProduct(n - 1, k);
    }
  }

  lemma TimesNext(n: nat, k: nat)
    ensures Times(n + 1, k) == Times(n, k) + k
  {
  }

  /** A machine multiplication, known to be repeated addition. */
  function Product(n: nat, k: nat): (r: nat)
    ensures r == Times(n, k)
  {
    TimesIsProduct(n, k);
    n * k
  }

  lemma {:induction false} TimesMono(m: nat, n: nat, k: nat)
    requires m <= n
    ensures Times(m, k) <= Times(n, k)
    ensures m < n ==> Times(m, k) + k <= Times(n, k)
    decreases n
  {
    if m < n {
      TimesMono(m, n - 1, k);
    }
  }

  function Le16(s: seq<byte>, o: nat): (v: nat)
    requires o + 2 <= |s|
    ensures v < 0x1_0000
  {
    s[o] as int + 0x100 * s[o + 1] as int
  }

  function Le32(s: seq<byte>, o: nat): (v: nat)
    requires o + 4 <= |s|
    ensures v < 0x1_0000_0000
  {
    s[o] as int + 0x100 * s[o + 1] as int + 0x1_0000 * s[o + 2] as int + 0x100_0000 * s[o + 3] as int
  }

  function Le16Bytes(v: nat): (r: seq<byte>)
    requires v < 0x1_0000
    ensures |r| == 2 && Le16(r, 0) == v
  {
    [v % 0x100, v / 0x100]
  }

  function Le32Bytes(v: nat): (r: seq<byte>)
    requires v < 0x1_0000_0000
    ensures |r| == 4 && Le32(r, 0) == v
  {
    [v % 0x100, v / 0x100 % 0x100, v / 0x100 / 0x100 % 0x100, v / 0x100 / 0x100 / 0x100]
  }

  /** A field reads the same from any sequence that holds the same four bytes there. */
  lemma Le32Slice(s: seq<byte>, o: nat, t: seq<byte>, p: nat)
    requires o + 4 <= |s| && p + 4 <= |t| && s[o..o + 4] == t[p..p + 4]
    ensures Le32(s, o) == Le32(t, p)
  {
    assert s[o] == s[o..o + 4][0] && s[o + 1] == s[o..o + 4][1] && s[o + 2] == s[o..o + 4][2] && s[o + 3] == s[o..o + 4][3];
    assert t[p] == t[p..p + 4][0] && t[p + 1] == t[p..p + 4][1] && t[p + 2] == t[p..p + 4][2] && t[p + 3] == t[p..p + 4][3];
  }

  function PutLe32(s: seq<byte>, o: nat, v: nat): (r: seq<byte>)
    requires o + 4 <= |s| && v < 0x1_0000_0000
    ensures |r| == |s| && Le32(r, o) == v
    ensures r == Splice(s, o, Le32Bytes(v))
  {
    var r := s[..o] + Le32Bytes(v) + s[o + 4..];
    SpliceRun(s, o, Le32Bytes(v));
    Le32Slice(r, o, Le32Bytes(v), 0);
    r
  }

  lemma PutLe32Elsewhere(s: seq<byte>, o: nat, v: nat, p: nat)
    requires o + 4 <= |s| && v < 0x1_0000_0000 && p + 4 <= |s| && (p + 4 <= o || o + 4 <= p)
    ensures Le32(PutLe32(s, o, v), p) == Le32(s, p)
  {
    SpliceOutside(s, o, Le32Bytes(v), p, p + 4);
    Le32Slice(PutLe32(s, o, v), p, s, p);
  }
}
