/** The bytes of a cluster chain as one sequence, and where fat_read and fat_write take and put each byte. */
module FatContent {
  import opened Bytes
  import opened FatTable

  /** Equal-sized pieces put one after the other. */
  ghost function Join(parts: seq<seq<byte>>, size: nat): (r: seq<byte>)
    requires Uniform(parts, size)
    ensures |r| == Times(|parts|, size)
  {
    if parts == [] then [] else Join(parts[..|parts| - 1], size) + parts[|parts| - 1]
  }

  ghost predicate Uniform(parts: seq<seq<byte>>, size: nat)
  {
    forall i :: 0 <= i < |parts| ==> |parts[i]| == size
  }

  lemma JoinSnoc(a: seq<seq<byte>>, z: seq<byte>, s: seq<seq<byte>>, size: nat)
    requires Uniform(a, size) && |z| == size && s == a + [z]
    ensures Uniform(s, size) && Join(s, size) == Join(a, size) + z
  {
    assert s[..|a|] == a;
  }

  lemma {:induction false} JoinUpdate(s: seq<seq<byte>>, size: nat, k: nat, y: seq<byte>)
    requires Uniform(s, size) && k < |s| && |y| == size
    ensures Times(k, size) + size <= Times(|s|, size)
    ensures Join(s[k := y], size) == Splice(Join(s, size), Times(k, size), y)
    decreases |s|
  {
    hide Splice, Join, Times;
    var n := |s| - 1;
    var front := Join(s[..n], size);
    JoinSnoc(s[..n], s[n], s, size);
    TimesNext(n, size);
    if k < n {
      JoinUpdate(s[..n], size, k, y);
      JoinSnoc(s[..n][k := y], s[n], s[k := y], size);
      SpliceLeft(front, s[n], Times(k, size), y);
    } else {
      JoinSnoc(s[..n], y, s[k := y], size);
      SpliceLast(front, s[n], y);
    }
  }

  lemma {:induction false} JoinSlice(s: seq<seq<byte>>, size: nat, k: nat, b: nat, n: nat)
    requires Uniform(s, size) && k < |s| && b + n <= size
    ensures Times(k, size) + b + n <= Times(|s|, size)
    ensures Join(s, size)[Times(k, size) + b..Times(k, size) + b + n] == s[k][b..b + n]
    decreases |s|
  {
    var m, p := |s| - 1, Times(k, size) + b;
    if k < m {
      JoinSlice(s[..m], size, k, b, n);
      var f := Join(s[..m], size);
      assert (f + s[m])[p..p + n] == f[p..p + n];
    }
  }

  /** Rewriting a run inside one piece rewrites the same run of the whole. */
  lemma JoinSplice(s: seq<seq<byte>>, size: nat, k: nat, b: nat, x: seq<byte>)
    requires Uniform(s, size) && k < |s| && b + |x| <= size
    ensures Times(k, size) + b + |x| <= Times(|s|, size)
    ensures Join(s[k := Splice(s[k], b, x)], size) == Splice(Join(s, size), Times(k, size) + b, x)
  {
    hide Splice, Join, Times;
    var whole, p := Join(s, size), Times(k, size);
    JoinUpdate(s, size, k, Splice(s[k], b, x));
    assert s[k] == whole[p..p + size] by {
      JoinSlice(s, size, k, 0, size);
      assert s[k][0..size] == s[k];
    }
    SpliceWithin(whole, p, size, b, x);
  }

  /** A cluster's sectors lie in the data area, and distinct clusters have distinct sectors. */
  lemma ClusterInDisk(g: Geometry, c: nat)
    requires g.Valid() && g.InRange(c)
    ensures g.DataStart() <= g.ClusterLba(c) && g.ClusterLba(c) + g.sectorsPerCluster <= g.totalSectors
  {
    TimesMono(c - 2, g.clusters, g.sectorsPerCluster);
  }

  lemma ClustersApart(g: Geometry, a: nat, b: nat)
    requires g.Valid() && g.InRange(a) && g.InRange(b) && a != b
    ensures g.ClusterLba(a) + g.sectorsPerCluster <= g.ClusterLba(b) || g.ClusterLba(b) + g.sectorsPerCluster <= g.ClusterLba(a)
  {
    if a < b {
      TimesMono(a - 2, b - 2, g.sectorsPerCluster);
    } else {
      TimesMono(b - 2, a - 2, g.sectorsPerCluster);
    }
  }

  /** Bytes of one cluster. */
  ghost function ClusterBytes(g: Geometry, d: Disk, c: nat): (r: seq<byte>)
    requires g.Holds(d) && g.InRange(c)
    ensures |r| == ClusterSize(g)
  {
    ClusterInDisk(g, c);
    TimesIsProduct(g.sectorsPerCluster, 512);
    Join(d[g.ClusterLba(c)..g.ClusterLba(c) + g.sectorsPerCluster], 512)
  }

  function ClusterSize(g: Geometry): nat { 512 * g.sectorsPerCluster }

  ghost predicate AllInRange(g: Geometry, ch: seq<nat>)
  {
    forall i :: 0 <= i < |ch| ==> g.InRange(ch[i])
  }

  ghost function Clusters(g: Geometry, d: Disk, ch: seq<nat>): (r: seq<seq<byte>>)
    requires g.Holds(d) && AllInRange(g, ch)
    ensures |r| == |ch| && Uniform(r, ClusterSize(g))
    ensures forall i :: 0 <= i < |ch| ==> r[i] == ClusterBytes(g, d, ch[i])
  {
    seq(|ch|, i requires 0 <= i < |ch| => ClusterBytes(g, d, ch[i]))
  }

  /** Bytes of a chain: its clusters one after the other. */
  ghost function Content(g: Geometry, d: Disk, ch: seq<nat>): (r: seq<byte>)
    requires g.Holds(d) && AllInRange(g, ch)
    ensures |r| == Times(|ch|, ClusterSize(g))
  {
    Join(Clusters(g, d, ch), ClusterSize(g))
  }

  /** Same cluster bytes, same content. */
  lemma ContentFrame(g: Geometry, d: Disk, e: Disk, ch: seq<nat>)
    requires g.Holds(d) && g.Holds(e) && AllInRange(g, ch)
    requires forall i :: 0 <= i < |ch| ==> ClusterBytes(g, e, ch[i]) == ClusterBytes(g, d, ch[i])
    ensures Content(g, e, ch) == Content(g, d, ch)
  {
    assert Clusters(g, e, ch) == Clusters(g, d, ch);
  }

  lemma ContentAt(g: Geometry, d: Disk, ch: seq<nat>, i: nat, w: nat, n: nat)
    requires g.Holds(d) && AllInRange(g, ch) && i < |ch| && w + n <= ClusterSize(g)
    ensures Times(i, ClusterSize(g)) + w + n <= |Content(g, d, ch)|
    ensures Content(g, d, ch)[Times(i, ClusterSize(g)) + w..Times(i, ClusterSize(g)) + w + n] == ClusterBytes(g, d, ch[i])[w..w + n]
  {
    JoinSlice(Clusters(g, d, ch), ClusterSize(g), i, w, n);
  }

  /** A run rewritten in cluster number `i`, the others left alone, is the same run rewritten in the content. */
  lemma ContentSplice(g: Geometry, d: Disk, e: Disk, ch: seq<nat>, i: nat, w: nat, x: seq<byte>)
    requires g.Holds(d) && g.Holds(e) && AllInRange(g, ch) && i < |ch| && w + |x| <= ClusterSize(g)
    requires ClusterBytes(g, e, ch[i]) == Splice(ClusterBytes(g, d, ch[i]), w, x)
    requires forall j :: 0 <= j < |ch| && j != i ==> ClusterBytes(g, e, ch[j]) == ClusterBytes(g, d, ch[j])
    ensures Times(i, ClusterSize(g)) + w + |x| <= |Content(g, d, ch)|
    ensures Content(g, e, ch) == Splice(Content(g, d, ch), Times(i, ClusterSize(g)) + w, x)
  {
    hide Splice, Join, Times, ClusterBytes, Clusters;
    var s, t := Clusters(g, d, ch), Clusters(g, e, ch);
    ghost var u := s[i := Splice(s[i], w, x)];
    assert forall j :: 0 <= j < |ch| ==> t[j] == u[j];
    assert t == u;
    JoinSplice(s, ClusterSize(g), i, w, x);
  }

  lemma ContentSnoc(g: Geometry, d: Disk, ch: seq<nat>, c: nat)
    requires g.Holds(d) && AllInRange(g, ch) && g.InRange(c)
    ensures AllInRange(g, ch + [c])
    ensures Content(g, d, ch + [c]) == Content(g, d, ch) + ClusterBytes(g, d, c)
  {
    JoinSnoc(Clusters(g, d, ch), ClusterBytes(g, d, c), Clusters(g, d, ch + [c]), ClusterSize(g));
  }

  /** Writing `x` into sector `s` of cluster `c`, at in-sector offset `b`, splices the cluster's bytes. */
  lemma ClusterSplice(g: Geometry, d: Disk, c: nat, s: nat, b: nat, x: seq<byte>)
    requires g.Holds(d) && g.InRange(c) && s < g.sectorsPerCluster && b + |x| <= 512
    ensures g.ClusterLba(c) + s < |d|
    ensures 512 * s + b + |x| <= ClusterSize(g)
    ensures ClusterBytes(g, d[g.ClusterLba(c) + s := Splice(d[g.ClusterLba(c) + s], b, x)], c)
         == Splice(ClusterBytes(g, d, c), 512 * s + b, x)
  {
    ClusterInDisk(g, c);
    TimesIsProduct(s, 512);
    TimesIsProduct(g.sectorsPerCluster, 512);
    var lo, hi := g.ClusterLba(c), g.ClusterLba(c) + g.sectorsPerCluster;
    hide Splice, Join, Times;
    var y: Sector := Splice(d[lo + s], b, x);
    assert d[lo + s := y][lo..hi] == d[lo..hi][s := y];
    JoinSplice(d[lo..hi], 512, s, b, x);
  }

  lemma ClusterSlice(g: Geometry, d: Disk, c: nat, s: nat, b: nat, n: nat)
    requires g.Holds(d) && g.InRange(c) && s < g.sectorsPerCluster && b + n <= 512
    ensures g.ClusterLba(c) + s < |d|
    ensures 512 * s + b + n <= ClusterSize(g)
    ensures ClusterBytes(g, d, c)[512 * s + b..512 * s + b + n] == d[g.ClusterLba(c) + s][b..b + n]
  {
    ClusterInDisk(g, c);
    TimesIsProduct(s, 512);
    TimesIsProduct(g.sectorsPerCluster, 512);
    JoinSlice(d[g.ClusterLba(c)..g.ClusterLba(c) + g.sectorsPerCluster], 512, s, b, n);
  }

  /** Sectors of cluster `c` may differ; then the bytes of every other cluster agree. */
  lemma OtherClusterSame(g: Geometry, d: Disk, e: Disk, c: nat, x: nat)
    requires g.Holds(d) && g.Holds(e) && g.InRange(c) && g.InRange(x) && x != c
    requires g.ClusterLba(c) + g.sectorsPerCluster <= |d|
    requires e[..g.ClusterLba(c)] == d[..g.ClusterLba(c)]
    requires e[g.ClusterLba(c) + g.sectorsPerCluster..] == d[g.ClusterLba(c) + g.sectorsPerCluster..]
    ensures ClusterBytes(g, e, x) == ClusterBytes(g, d, x)
  {
    hide Times, Join;
    ClustersApart(g, c, x);
    ClusterInDisk(g, x);
    var lo, hi, a, b := g.ClusterLba(c), g.ClusterLba(c) + g.sectorsPerCluster, g.ClusterLba(x), g.ClusterLba(x) + g.sectorsPerCluster;
    if b <= lo {
      SameBefore(d, e, lo, a, b);
    } else {
      SameAfter(d, e, hi, a, b);
    }
  }

  /** Cluster bytes depend on the data area only. */
  lemma DataAreaSame(g: Geometry, d: Disk, e: Disk, x: nat)
    requires g.Holds(d) && g.Holds(e) && g.InRange(x)
    requires e[g.DataStart()..] == d[g.DataStart()..]
    ensures ClusterBytes(g, e, x) == ClusterBytes(g, d, x)
  {
    ClusterInDisk(g, x);
    SameAfter(d, e, g.DataStart(), g.ClusterLba(x), g.ClusterLba(x) + g.sectorsPerCluster);
  }

  /** Which cluster of a chain an offset falls into, as the skip loop counts it. */
  ghost function IndexOf(off: nat, cs: nat): nat
    requires cs > 0
  {
    if off < cs then 0 else 1 + IndexOf(off - cs, cs)
  }

  ghost function Within(off: nat, cs: nat): (w: nat)
    requires cs > 0
    ensures w < cs
  {
    if off < cs then off else Within(off - cs, cs)
  }

  lemma {:induction false} IndexWithin(off: nat, cs: nat)
    requires cs > 0
    ensures off == Times(IndexOf(off, cs), cs) + Within(off, cs)
  {
    if off >= cs {
      IndexWithin(off - cs, cs);
    }
  }

  /** End of the cluster an offset falls into. */
  ghost function Boundary(off: nat, cs: nat): (b: nat)
    requires cs > 0
    ensures b == off - Within(off, cs) + cs > off
  {
    IndexWithin(off, cs);
    Times(IndexOf(off, cs) + 1, cs)
  }

  function SectorOf(w: nat): nat { w / 512 }

  function InSector(w: nat): (b: nat)
    ensures b < 512
  {
    w % 512
  }

  function SectorsFor(n: nat): nat { (n + 512 - 1) / 512 }

  function RoundUp(n: nat): nat { SectorsFor(n) * 512 }

  /** Bytes the sector loop moves in one cluster when asked for `t` from in-cluster offset `w`. The number of
      sectors is computed from `t` alone, so an unaligned start may leave the last bytes unmoved. */
  function Run(w: nat, t: nat): (n: nat)
    requires t > 0
    ensures 0 < n <= t
    ensures InSector(w) == 0 ==> n == t
  {
    Min(t, RoundUp(t) - InSector(w))
  }

  /** Bytes moved in the first cluster of a transfer. */
  ghost function FirstRun(off: nat, size: nat, cs: nat): (n: nat)
    requires cs > 0 && size > 0
    ensures 0 < n <= size
    ensures off + n <= Boundary(off, cs)
  {
    var w := Within(off, cs);
    Run(w, Min(cs - w, size))
  }

  /** A run that goes to the end of its cluster is never short. */
  lemma RunToEnd(w: nat, cs: nat)
    requires w < cs && cs % 512 == 0
    ensures Run(w, cs - w) == cs - w
  {
    hide RoundUp;
    var m := cs / 512 - w / 512;
    assert cs - w == 512 * m - InSector(w);
    RoundUpIs(m, InSector(w));
  }

  lemma RoundUpIs(m: nat, r: nat)
    requires m > 0 && r < 512
    ensures RoundUp(512 * m - r) == 512 * m
  {
    assert (512 * m + (511 - r)) / 512 == m;
  }

  /** Chain position of the `k`-th byte of a transfer. */
  ghost function Position(off: nat, size: nat, cs: nat, k: nat): nat
    requires cs > 0 && k < size
  {
    if k < FirstRun(off, size, cs) then off + k else Boundary(off, cs) + (k - FirstRun(off, size, cs))
  }

  /** Clusters a transfer reaches into, counted from the start of the chain. */
  ghost function ClustersFor(off: nat, size: nat, cs: nat): (n: nat)
    requires cs > 0 && size > 0
    ensures n > 0
  {
    IndexOf(Position(off, size, cs, size - 1), cs) + 1
  }

  /** Bytes of a transfer that the first `n` clusters of a chain take. */
  ghost function Reach(n: nat, off: nat, size: nat, cs: nat): (r: int)
    requires cs > 0 && size > 0
  {
    if IndexOf(off, cs) >= n then 0 else Min(size, FirstRun(off, size, cs) + (Times(n, cs) - Boundary(off, cs)))
  }

  lemma IndexBelow(p: nat, n: nat, cs: nat)
    requires cs > 0
    ensures IndexOf(p, cs) < n <==> p < Times(n, cs)
  {
    IndexWithin(p, cs);
    if IndexOf(p, cs) < n {
      TimesMono(IndexOf(p, cs) + 1, n, cs);
    } else {
      TimesMono(n, IndexOf(p, cs), cs);
    }
  }

  /** All of a transfer fits exactly if its last byte does. */
  lemma ReachAll(n: nat, off: nat, size: nat, cs: nat)
    requires cs > 0 && size > 0
    ensures Reach(n, off, size, cs) == size <==> ClustersFor(off, size, cs) <= n
    ensures ClustersFor(off, size, cs) <= n ==> IndexOf(off, cs) < n
    ensures 0 <= Reach(n, off, size, cs) <= size
  {
    hide FirstRun, IndexOf, Within;
    var p := Position(off, size, cs, size - 1);
    IndexBelow(p, n, cs);
    IndexBelow(off, n, cs);
    BoundaryIs(off, cs);
    if IndexOf(off, cs) < n {
      TimesMono(IndexOf(off, cs) + 1, n, cs);
    }
  }

  lemma BoundaryIs(off: nat, cs: nat)
    requires cs > 0
    ensures Boundary(off, cs) == Times(IndexOf(off, cs) + 1, cs)
  {
  }

  /** A covered transfer reaches to the cluster of the last byte of its range. */
  lemma CoveredClusters(off: nat, size: nat, cs: nat)
    requires cs > 0 && cs % 512 == 0 && size > 0 && SpanCovered(off, size, cs)
    ensures ClustersFor(off, size, cs) == IndexOf(off + size - 1, cs) + 1
  {
    TransferContiguous(off, size, cs);
  }

  /** The guard a caller can evaluate: the transfer reaches the end of its first cluster, or the sectors
      counted from the size alone also cover the in-sector start. */
  ghost predicate SpanCovered(off: nat, size: nat, cs: nat)
    requires cs > 0
  {
    Within(off, cs) + size >= cs || InSector(Within(off, cs)) + size <= RoundUp(size)
  }

  /** Exactly then every byte of the transfer is at its own offset. */
  lemma TransferContiguous(off: nat, size: nat, cs: nat)
    requires cs > 0 && cs % 512 == 0 && size > 0
    ensures SpanCovered(off, size, cs) <==> forall k :: 0 <= k < size ==> Position(off, size, cs, k) == off + k
  {
    var w, n := Within(off, cs), FirstRun(off, size, cs);
    if SpanCovered(off, size, cs) {
      if w + size >= cs {
        RunToEnd(w, cs);
      }
    } else {
      assert n < size && w + n < cs;
      assert Position(off, size, cs, n) != off + n;
    }
  }

  /** 512 bytes at offset 100 of a file with clusters of two sectors are not. */
  lemma SpanUncovered()
    ensures !SpanCovered(100, 512, 1024)
  {
  }

  /** One sector per cluster, or a sector-aligned offset, is always enough. */
  lemma AlignedIsCovered(off: nat, size: nat, cs: nat)
    requires cs > 0 && cs % 512 == 0 && size > 0
    requires cs == 512 || InSector(Within(off, cs)) == 0
    ensures SpanCovered(off, size, cs)
  {
  }

  /** The content after the first |d| bytes of a transfer: `split` of them from `off`, the rest from `b`. */
  ghost function Landed(base: seq<byte>, off: nat, split: nat, b: nat, d: seq<byte>): (r: seq<byte>)
    requires off + Min(|d|, split) <= |base|
    requires |d| > split ==> b + (|d| - split) <= |base|
    ensures |r| == |base|
  {
    if |d| <= split then Splice(base, off, d)
    else Splice(Splice(base, off, d[..split]), b, d[split..])
  }

  /** What a transfer of `n` bytes collects. */
  ghost function Collected(base: seq<byte>, off: nat, split: nat, b: nat, n: nat): (r: seq<byte>)
    requires off + Min(n, split) <= |base|
    requires n > split ==> b + (n - split) <= |base|
    ensures |r| == n
  {
    if n <= split then base[off..off + n]
    else base[off..off + split] + base[b..b + (n - split)]
  }

  /** Reading back the range just written gives the data, whether or not the span was covered. */
  lemma LandedCollected(base: seq<byte>, off: nat, split: nat, b: nat, d: seq<byte>)
    requires off + Min(|d|, split) <= |base| && off + split <= b
    requires |d| > split ==> b + (|d| - split) <= |base|
    ensures Collected(Landed(base, off, split, b, d), off, split, b, |d|) == d
  {
    hide Splice;
    if |d| > split {
      var one := Splice(base, off, d[..split]);
      SpliceRun(base, off, d[..split]);
      SpliceRun(one, b, d[split..]);
      SpliceOutside(one, b, d[split..], off, off + split);
      assert d == d[..split] + d[split..];
    } else {
      SpliceRun(base, off, d);
    }
  }

  /** The first run of a covered transfer that goes on ends where its cluster ends. */
  lemma CoveredBoundary(off: nat, size: nat, cs: nat)
    requires cs > 0 && cs % 512 == 0 && size > 0 && SpanCovered(off, size, cs) && FirstRun(off, size, cs) < size
    ensures off + FirstRun(off, size, cs) == Boundary(off, cs)
  {
    RunToEnd(Within(off, cs), cs);
  }

  /** A covered transfer is a plain splice: the range holds the data and no other byte of the chain moved. */
  lemma CoveredIsSplice(base: seq<byte>, off: nat, cs: nat, d: seq<byte>)
    requires cs > 0 && cs % 512 == 0 && |d| > 0 && SpanCovered(off, |d|, cs) && off + |d| <= |base|
    requires off + FirstRun(off, |d|, cs) <= |base|
    requires FirstRun(off, |d|, cs) < |d| ==> Boundary(off, cs) + (|d| - FirstRun(off, |d|, cs)) <= |base|
    ensures Landed(base, off, FirstRun(off, |d|, cs), Boundary(off, cs), d) == Splice(base, off, d)
  {
    hide Splice, RoundUp, Run;
    var n := FirstRun(off, |d|, cs);
    if n < |d| {
      CoveredBoundary(off, |d|, cs);
      SpliceJoin(base, off, d[..n], d[n..]);
      assert d == d[..n] + d[n..];
    }
  }

  /** An uncovered transfer leaves a byte of its own range as it was and overwrites one behind its cluster. */
  lemma UncoveredMisses(base: seq<byte>, off: nat, cs: nat, d: seq<byte>)
    requires cs > 0 && cs % 512 == 0 && |d| > 0 && !SpanCovered(off, |d|, cs)
    requires Boundary(off, cs) + (|d| - FirstRun(off, |d|, cs)) <= |base|
    ensures var n := FirstRun(off, |d|, cs); var r := Landed(base, off, n, Boundary(off, cs), d);
            n < |d| && off + n < Boundary(off, cs)
            && r[off + n] == base[off + n] && r[Boundary(off, cs)] == d[n]
  {
    var n, b := FirstRun(off, |d|, cs), Boundary(off, cs);
    assert n < |d| && off + n < b;
    var one := Splice(base, off, d[..n]);
    var r := Splice(one, b, d[n..]);
    SpliceOutside(one, b, d[n..], off + n, off + n + 1);
    SpliceOutside(base, off, d[..n], off + n, off + n + 1);
    assert r[off + n] == r[off + n..off + n + 1][0] == one[off + n..off + n + 1][0] == base[off + n..off + n + 1][0];
    assert r[b] == r[b..b + |d[n..]|][0];
  }

  /** A longer chain behind the transfer does not change where it lands. */
  lemma LandedLeft(base: seq<byte>, more: seq<byte>, off: nat, split: nat, b: nat, d: seq<byte>)
    requires off + Min(|d|, split) <= |base|
    requires |d| > split ==> b + (|d| - split) <= |base|
    ensures Landed(base + more, off, split, b, d) == Landed(base, off, split, b, d) + more
  {
    if |d| <= split {
      SpliceLeft(base, more, off, d);
    } else {
      SpliceLeft(base, more, off, d[..split]);
      SpliceLeft(Splice(base, off, d[..split]), more, b, d[split..]);
    }
  }

  /** One more run behind the first |d| bytes. */
  lemma LandedMore(base: seq<byte>, off: nat, split: nat, b: nat, d: seq<byte>, x: seq<byte>)
    requires |d| == 0 ==> |x| <= split
    requires 0 < |d| ==> split <= |d| && b + (|d| - split) + |x| <= |base|
    requires off + Min(|d + x|, split) <= |base|
    requires |d + x| > split ==> b + (|d + x| - split) <= |base|
    ensures Landed(base, off, split, b, d + x)
         == Splice(Landed(base, off, split, b, d), if |d| == 0 then off else b + (|d| - split), x)
  {
    if |d| == 0 {
      assert d + x == x;
      SpliceNothing(base, off);
    } else if |x| == 0 {
      assert d + x == d;
      SpliceNothing(Landed(base, off, split, b, d), b + (|d| - split));
    } else {
      assert (d + x)[..split] == d[..split] && (d + x)[split..] == d[split..] + x;
      var one := Splice(base, off, d[..split]);
      SpliceJoin(one, b, d[split..], x);
      if |d| == split {
        assert d[..split] == d && d[split..] == [];
        SpliceNothing(one, b);
      }
    }
  }
}
