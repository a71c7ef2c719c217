/** fat_read: the same sector walk as fat_write, copying out instead of in. */
module FatRead {
  import opened Bytes
  import opened FatTable
  import opened FatChains
  import opened FatContent
  import opened FatVolume
  import opened FatFile

  /** out[start..done] holds the cluster's bytes from in-cluster offset `skip`; the rest of `out` is as in `before`. */
  ghost predicate ClusterRead(bytes: seq<byte>, skip: nat, before: seq<byte>, now: seq<byte>, start: nat, done: nat)
  {
    && start <= done <= |now| == |before| && skip + (done - start) <= |bytes|
    && now == Splice(before, start, bytes[skip..skip + (done - start)])
  }

  lemma ClusterReadStep(g: Geometry, d: Disk, c: nat, skip: nat, before: seq<byte>, now: seq<byte>, start: nat, done: nat, s: nat, b: nat, n: nat)
    requires g.Holds(d) && g.InRange(c) && s < g.sectorsPerCluster && b + n <= 512
    requires ClusterRead(ClusterBytes(g, d, c), skip, before, now, start, done)
    requires skip + (done - start) == 512 * s + b && done + n <= |now|
    ensures g.ClusterLba(c) + s < |d|
    ensures ClusterRead(ClusterBytes(g, d, c), skip, before, Splice(now, done, d[g.ClusterLba(c) + s][b..b + n]), start, done + n)
  {
    hide Splice, ClusterBytes, Times, Geometry.ClusterLba, Geometry.Valid;
    ClusterSlice(g, d, c, s, b, n);
    var bytes := ClusterBytes(g, d, c);
    var p := skip + (done - start);
    SpliceJoin(before, start, bytes[skip..p], bytes[p..p + n]);
    assert bytes[skip..p] + bytes[p..p + n] == bytes[skip..p + n];
  }

  lemma ClusterReadStart(g: Geometry, d: Disk, c: nat, skip: nat, out: seq<byte>, start: nat)
    requires g.Holds(d) && g.InRange(c) && skip <= ClusterSize(g) && start <= |out|
    ensures ClusterRead(ClusterBytes(g, d, c), skip, out, out, start, start)
    ensures g.Valid() && ClusterSize(g) == 512 * g.sectorsPerCluster
  {
    SpliceNothing(out, start);
    assert ClusterBytes(g, d, c)[skip..skip] == [];
  }

  /** The byte loop of one sector. */
  method CopyOut(out: array<byte>, done: nat, tmp: Sector, byteOff: nat, n: nat)
    requires done + n <= out.Length && byteOff + n <= 512
    modifies out
    ensures out[..] == Splice(old(out[..]), done, tmp[byteOff..byteOff + n])
  {
    var i := 0;
    while i < n
      invariant 0 <= i <= n
      invariant forall k :: 0 <= k < out.Length ==> out[k] == if done <= k < done + i then tmp[byteOff + (k - done)] else old(out[k])
    {
      out[done + i] := tmp[byteOff + i];
      i := i + 1;
    }
    assert out[..] == Splice(old(out[..]), done, tmp[byteOff..byteOff + n]);
  }

  /** The sector loop of fat_read in one cluster. */
  method ReadCluster(v: Volume, cluster: nat, skip: nat, size: nat, out: array<byte>, start: nat) returns (done: nat)
    requires v.g.Holds(v.disk) && v.g.InRange(cluster) && skip < ClusterSize(v.g) && start < size <= out.Length
    modifies out
    ensures done == start + Run(skip, Min(ClusterSize(v.g) - skip, size - start))
    ensures ClusterRead(ClusterBytes(v.g, v.disk, cluster), skip, old(out[..]), out[..], start, done)
  {
    hide ClusterBytes, ClusterRead, Run, Moved, StepOff, SectorsFor, SectorOf, InSector, ClusterSize, Splice,
         Geometry.Holds, Geometry.ClusterLba, Geometry.Valid, Geometry.InRange;
    ClusterReadStart(v.g, v.disk, cluster, skip, out[..], start);
    var lba := v.ClusterToLba(cluster);
    var toRead := ClusterSize(v.g) - skip;
    if toRead > size - start {
      toRead := size - start;
    }
    var sectorOff := SectorOf(skip);
    var byteOff := InSector(skip);
    done := start;
    var s := 0;
    SectorEnds(skip, v.g.sectorsPerCluster, size - start);
    while s < SectorsFor(toRead)
      invariant 0 <= s <= SectorsFor(toRead)
      invariant byteOff == StepOff(skip, s)
      invariant start <= done == start + Moved(skip, s) < size
      invariant ClusterRead(ClusterBytes(v.g, v.disk, cluster), skip, old(out[..]), out[..], start, done)
    {
      SectorStep(skip, v.g.sectorsPerCluster, size - start, s);
      var cbytes := 512 - byteOff;
      if cbytes > toRead - (done - start) {
        cbytes := toRead - (done - start);
      }
      ClusterReadStep(v.g, v.disk, cluster, skip, old(out[..]), out[..], start, done, sectorOff + s, byteOff, cbytes);
      CopyOut(out, done, v.disk[lba + sectorOff + s], byteOff, cbytes);
      done := done + cbytes;
      byteOff := 0;
      if done >= size {
        return;
      }
      s := s + 1;
    }
  }

  /** What fat_read reports for a chain of `n` clusters: -1 when the offset lies behind the chain, else the bytes
      it can collect before the chain ends. */
  ghost function ReadCount(n: nat, off: nat, size: nat, cs: nat): int
    requires cs > 0
  {
    if IndexOf(off, cs) >= n then -1
    else if size == 0 then 0
    else Reach(n, off, size, cs)
  }

  /** The first `done` bytes of `now` are what the transfer collects from the content; the rest is as in `before`. */
  ghost predicate Reading(content: seq<byte>, cs: nat, off: nat, size: nat, before: seq<byte>, now: seq<byte>, done: nat)
  {
    && cs > 0 && |now| == |before| && done <= size <= |now| && now[done..] == before[done..]
    && (done > 0 ==>
        var n := FirstRun(off, size, cs);
        && n <= done && off + n <= |content| && (n < done ==> Boundary(off, cs) + (done - n) <= |content|)
        && now[..done] == Collected(content, off, n, Boundary(off, cs), done))
  }

  /** One more cluster has been copied out. */
  lemma ReadingCluster(g: Geometry, d: Disk, ch: seq<nat>, off: nat, size: nat, before: seq<byte>, now: seq<byte>, done: nat,
                       i: nat, skip: nat, now': seq<byte>, done': nat)
    requires g.Holds(d) && AllInRange(g, ch) && i < |ch| && skip < ClusterSize(g)
    requires Reading(Content(g, d, ch), ClusterSize(g), off, size, before, now, done)
    requires done < done' <= size
    requires ClusterRead(ClusterBytes(g, d, ch[i]), skip, now, now', done, done')
    requires Times(i, ClusterSize(g)) + skip == NextPosition(off, size, ClusterSize(g), done)
    requires done == 0 ==> done' == FirstRun(off, size, ClusterSize(g))
    ensures Reading(Content(g, d, ch), ClusterSize(g), off, size, before, now', done')
  {
    hide Content, ClusterBytes, Times, Boundary, FirstRun, Splice, ClusterSize, Collected, Geometry.Holds, Geometry.InRange;
    var content, bytes, p := Content(g, d, ch), ClusterBytes(g, d, ch[i]), Times(i, ClusterSize(g)) + skip;
    ContentAt(g, d, ch, i, skip, done' - done);
    var x := bytes[skip..skip + (done' - done)];
    SpliceEnds(now, done, x);
    SuffixSame(before, now, done, done');
    if done == 0 {
      CollectedFirst(content, off, FirstRun(off, size, ClusterSize(g)), Boundary(off, ClusterSize(g)), done');
    } else {
      CollectedMore(content, off, FirstRun(off, size, ClusterSize(g)), Boundary(off, ClusterSize(g)), done, done' - done);
    }
  }

  lemma CollectedFirst(base: seq<byte>, off: nat, split: nat, b: nat, n: nat)
    requires n <= split && off + n <= |base|
    ensures Collected(base, off, split, b, n) == base[off..off + n]
  {
  }

  lemma CollectedMore(base: seq<byte>, off: nat, split: nat, b: nat, n: nat, m: nat)
    requires 0 < split <= n && off + split <= |base| && b + (n + m - split) <= |base|
    ensures Collected(base, off, split, b, n + m) == Collected(base, off, split, b, n) + base[b + (n - split)..b + (n - split) + m]
  {
    hide Collected;
    var p, q, r := base[off..off + split], base[b..b + (n - split)], base[b + (n - split)..b + (n - split) + m];
    CollectedIs(base, off, split, b, n);
    CollectedIs(base, off, split, b, n + m);
    assert base[b..b + (n + m - split)] == q + r;
    assert p + (q + r) == (p + q) + r;
  }

  lemma CollectedIs(base: seq<byte>, off: nat, split: nat, b: nat, n: nat)
    requires 0 < split <= n && off + split <= |base| && b + (n - split) <= |base|
    ensures Collected(base, off, split, b, n) == base[off..off + split] + base[b..b + (n - split)]
  {
    assert base[off..off + split] + [] == base[off..off + split];
  }

  /** fat_read. */
  method Read(v: Volume, head: nat, offset: nat, size: nat, out: array<byte>) returns (done: int)
    requires v.Valid() && head in v.chains && size <= out.Length
    modifies out
    ensures AllInRange(v.g, v.chains[head]) && ClusterSize(v.g) > 0
    ensures done == ReadCount(|v.chains[head]|, offset, size, ClusterSize(v.g))
    ensures done < 0 ==> out[..] == old(out[..])
    ensures 0 <= done ==> Reading(Content(v.g, v.disk, v.chains[head]), ClusterSize(v.g), offset, size, old(out[..]), out[..], done)
  {
    hide WellFormed, FatOf, ClusterRead, Reading, ClusterSize, Run, Times, NextPosition, FirstRun, Boundary, Content, ClusterBytes;
    WritingStart(v.g, v.disk, v.chains, head, offset, [0]);
    LiveChain(v.g, v.disk, v.chains, head);
    var clusterSize := ClusterSize(v.g);
    ghost var ch := v.chains[head];
    var cluster, skip, i := head, offset, 0;
    FirstClusterPosition(v.g, offset, 1);
    while skip >= clusterSize
      invariant i < |ch| && ch[i] == cluster && out[..] == old(out[..])
      invariant IndexOf(offset, clusterSize) == i + IndexOf(skip, clusterSize)
      invariant Within(offset, clusterSize) == Within(skip, clusterSize)
      decreases skip
    {
      FollowOrEnd(FatOf(v.g, v.disk), v.chains, head, i);
      cluster := v.NextCluster(cluster);
      if cluster >= EOC {
        return -1;
      }
      skip := skip - clusterSize;
      i := i + 1;
    }
    done := 0;
    ReadingStart(v.g, v.disk, ch, offset, size, out[..]);
    while done < size
      invariant 0 <= done <= size && i < |ch| && ch[i] == cluster && 0 <= skip < clusterSize
      invariant Reading(Content(v.g, v.disk, ch), clusterSize, offset, size, old(out[..]), out[..], done)
      invariant done < size ==> Times(i, clusterSize) + skip == NextPosition(offset, size, clusterSize, done)
      invariant if done == 0 then i == IndexOf(offset, clusterSize) && skip == Within(offset, clusterSize) else skip == 0
      invariant done == size > 0 ==> size <= FirstRun(offset, size, clusterSize) + (Times(|ch|, clusterSize) - Boundary(offset, clusterSize))
    {
      ghost var before, from := out[..], done;
      done := ReadCluster(v, cluster, skip, size, out, done);
      NextClusterPosition(v.g, offset, size, i, skip, from, done);
      ReadingCluster(v.g, v.disk, ch, offset, size, old(out[..]), before, from, i, skip, out[..], done);
      RunFits(v.g, offset, size, |ch|, i, skip, from, done);
      skip := 0;
      if done >= size {
        break;
      }
      FollowOrEnd(FatOf(v.g, v.disk), v.chains, head, i);
      cluster := v.NextCluster(cluster);
      if cluster >= EOC {
        break;
      }
      i := i + 1;
    }
  }

  lemma ReadingStart(g: Geometry, d: Disk, ch: seq<nat>, off: nat, size: nat, out: seq<byte>)
    requires g.Holds(d) && AllInRange(g, ch) && size <= |out|
    ensures Reading(Content(g, d, ch), ClusterSize(g), off, size, out, out, 0)
    ensures size > 0 ==> Times(IndexOf(off, ClusterSize(g)), ClusterSize(g)) + Within(off, ClusterSize(g)) == NextPosition(off, size, ClusterSize(g), 0)
  {
    IndexWithin(off, ClusterSize(g));
  }

  /** Reading back the range of a whole write gives the data and all of it, on every span. */
  lemma WriteThenRead(g: Geometry, base: seq<byte>, now: seq<byte>, n: nat, off: nat, data: seq<byte>, before: seq<byte>, out: seq<byte>)
    requires g.Valid() && 0 < |data| && |now| == |base| == Times(n, ClusterSize(g)) && |data| <= |before|
    requires Placed(g, base, now, off, data, |data|)
    ensures ReadCount(n, off, |data|, ClusterSize(g)) == |data|
    ensures Reading(now, ClusterSize(g), off, |data|, before, out, |data|) ==> out[..|data|] == data
  {
    hide Landed, Collected, FirstRun, Boundary, Times, IndexOf, Within;
    var cs := ClusterSize(g);
    var split := FirstRun(off, |data|, cs);
    assert data[..|data|] == data;
    LandedCollected(base, off, split, Boundary(off, cs), data);
    CountCovers(n, off, |data|, cs);
  }

  lemma CountCovers(n: nat, off: nat, size: nat, cs: nat)
    requires cs > 0 && size > 0 && off < Times(n, cs)
    requires FirstRun(off, size, cs) < size ==> Boundary(off, cs) + (size - FirstRun(off, size, cs)) <= Times(n, cs)
    ensures ReadCount(n, off, size, cs) == size
  {
    IndexWithin(off, cs);
    if IndexOf(off, cs) >= n {
      TimesMono(n, IndexOf(off, cs), cs);
    } else {
      TimesMono(IndexOf(off, cs) + 1, n, cs);
    }
  }

  /** A whole write is a splice of the file's bytes exactly when the span is covered; otherwise a byte of the range
      keeps its old value and one behind the cluster is overwritten. */
  lemma WriteIsSplice(g: Geometry, base: seq<byte>, now: seq<byte>, off: nat, data: seq<byte>)
    requires g.Valid() && 0 < |data| && Placed(g, base, now, off, data, |data|)
    ensures SpanCovered(off, |data|, ClusterSize(g)) ==> off + |data| <= |base| && now == Splice(base, off, data)
    ensures !SpanCovered(off, |data|, ClusterSize(g)) ==>
              var n, b := FirstRun(off, |data|, ClusterSize(g)), Boundary(off, ClusterSize(g));
              n < |data| && off + n < b < |base| == |now| && now[off + n] == base[off + n] && now[b] == data[n]
  {
    hide Splice, Times;
    var cs := ClusterSize(g);
    assert data[..|data|] == data;
    if SpanCovered(off, |data|, cs) {
      CoveredFits(base, off, cs, data);
      CoveredIsSplice(base, off, cs, data);
    } else {
      UncoveredMisses(base, off, cs, data);
    }
  }

  lemma CoveredFits(base: seq<byte>, off: nat, cs: nat, d: seq<byte>)
    requires cs > 0 && cs % 512 == 0 && |d| > 0 && SpanCovered(off, |d|, cs)
    requires off + FirstRun(off, |d|, cs) <= |base|
    requires FirstRun(off, |d|, cs) < |d| ==> Boundary(off, cs) + (|d| - FirstRun(off, |d|, cs)) <= |base|
    ensures off + |d| <= |base|
  {
    if FirstRun(off, |d|, cs) < |d| {
      RunToEnd(Within(off, cs), cs);
    }
  }
}
