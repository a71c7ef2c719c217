/** fat_read and fat_write: byte ranges of a file through whole-sector transfers along its chain. */
module FatFile {
  import opened Bytes
  import opened FatTable
  import opened FatChains
  import opened FatContent
  import opened FatVolume

  /** The sectors from `lo` up to `hi` may differ, no others. */
  ghost predicate OnlyRange(d: Disk, e: Disk, lo: nat, hi: nat)
  {
    lo <= hi <= |d| == |e| && e[..lo] == d[..lo] && e[hi..] == d[hi..]
  }

  /** In-sector offset of step `s`. */
  function StepOff(skip: nat, s: nat): nat { if s == 0 then InSector(skip) else 0 }

  /** Bytes moved in the first `s` steps of the sector loop, when none was cut short. */
  ghost function Moved(skip: nat, s: nat): int { if s == 0 then 0 else 512 * s - InSector(skip) }

  /** A step starts inside the cluster, where the bytes moved so far end, and moves up to the end of its sector;
      if that is past the end of the data, the run length is all that was left. */
  lemma SectorStep(skip: nat, spc: nat, left: nat, s: nat)
    requires skip < 512 * spc && left > Moved(skip, s) >= 0
    requires s < SectorsFor(Min(512 * spc - skip, left))
    ensures SectorOf(skip) + s < spc && StepOff(skip, s) < 512
    ensures skip + Moved(skip, s) == 512 * (SectorOf(skip) + s) + StepOff(skip, s)
    ensures Moved(skip, s + 1) == Moved(skip, s) + 512 - StepOff(skip, s) <= 512 * spc - skip && StepOff(skip, s + 1) == 0
    ensures left <= Moved(skip, s + 1) ==> left == Run(skip, Min(512 * spc - skip, left))
  {
  }

  lemma SectorEnds(skip: nat, spc: nat, left: nat)
    requires skip < 512 * spc && left > 0
    ensures Moved(skip, 0) == 0 && StepOff(skip, 0) == InSector(skip) && SectorsFor(Min(512 * spc - skip, left)) > 0
    ensures var t := Min(512 * spc - skip, left);
            Moved(skip, SectorsFor(t)) < left ==> Moved(skip, SectorsFor(t)) == Run(skip, t)
  {
  }

  /** The byte loop of one sector. */
  method FillSector(tmp: Sector, byteOff: nat, data: seq<byte>, from: nat, n: nat) returns (r: Sector)
    requires byteOff + n <= 512 && from + n <= |data|
    ensures r == Splice(tmp, byteOff, data[from..from + n])
  {
    var t: seq<byte> := tmp;
    var i := 0;
    while i < n
      invariant 0 <= i <= n && |t| == 512
      invariant t == Splice(tmp, byteOff, data[from..from + i])
    {
      t := t[byteOff + i := data[from + i]];
      i := i + 1;
    }
    r := t;
  }

  /** Since the disk was `d0`, data[start..done] went into cluster `c` from in-cluster offset `skip`, and no sector
      of another cluster changed. */
  ghost predicate ClusterWritten(g: Geometry, d0: Disk, d: Disk, c: nat, skip: nat, data: seq<byte>, start: nat, done: nat)
  {
    && g.Holds(d0) && g.Holds(d) && g.InRange(c) && start <= done <= |data| && skip + (done - start) <= ClusterSize(g)
    && OnlyRange(d0, d, g.ClusterLba(c), g.ClusterLba(c) + g.sectorsPerCluster)
    && ClusterBytes(g, d, c) == Splice(ClusterBytes(g, d0, c), skip, data[start..done])
  }

  lemma ClusterWrittenStart(g: Geometry, d: Disk, c: nat, skip: nat, data: seq<byte>, start: nat)
    requires g.Holds(d) && g.InRange(c) && skip <= ClusterSize(g) && start <= |data|
    ensures ClusterWritten(g, d, d, c, skip, data, start, start)
    ensures g.Valid() && g.InRange(c) && ClusterSize(g) == 512 * g.sectorsPerCluster
  {
    ClusterInDisk(g, c);
    SpliceNothing(ClusterBytes(g, d, c), skip);
    assert data[start..start] == [];
  }

  /** One sector of the cluster rewritten with the next `n` bytes. */
  lemma ClusterWrittenStep(g: Geometry, d0: Disk, d: Disk, c: nat, skip: nat, data: seq<byte>, start: nat, done: nat, s: nat, b: nat, n: nat)
    requires ClusterWritten(g, d0, d, c, skip, data, start, done)
    requires s < g.sectorsPerCluster && b + n <= 512 && done + n <= |data|
    requires skip + (done - start) == 512 * s + b
    ensures g.ClusterLba(c) + s < |d|
    ensures ClusterWritten(g, d0, d[g.ClusterLba(c) + s := Splice(d[g.ClusterLba(c) + s], b, data[done..done + n])], c, skip, data, start, done + n)
  {
    hide Splice, Times, ClusterBytes;
    ClusterSplice(g, d, c, s, b, data[done..done + n]);
    SpliceNext(ClusterBytes(g, d0, c), skip, data, start, done, n);
  }

  /** One read-modify-write: sector `s` of the cluster takes the bytes from `from` on, up to its end. */
  method WriteSector(v: Volume, lba: nat, stale: Sector, byteOff: nat, data: seq<byte>, from: nat,
                     ghost d0: Disk, ghost c: nat, ghost skip: nat, ghost start: nat, ghost s: nat)
    returns (tmp: Sector, done: nat)
    requires byteOff < 512 && from < |data|
    requires ClusterWritten(v.g, d0, v.disk, c, skip, data, start, from)
    requires s < v.g.sectorsPerCluster && lba == v.g.ClusterLba(c) + s && skip + (from - start) == 512 * s + byteOff
    modifies v`disk
    ensures done == from + Min(512 - byteOff, |data| - from)
    ensures ClusterWritten(v.g, d0, v.disk, c, skip, data, start, done)
  {
    hide Splice, ClusterBytes, ClusterWritten, Times;
    var cbytes := 512 - byteOff;
    if cbytes > |data| - from {
      cbytes := |data| - from;
    }
    ClusterWrittenStep(v.g, d0, v.disk, c, skip, data, start, from, s, byteOff, cbytes);
    tmp := stale;
    if byteOff > 0 || cbytes < 512 {
      tmp := v.disk[lba];
    } else {
      SpliceAll(stale, v.disk[lba], data[from..from + cbytes]);
    }
    tmp := FillSector(tmp, byteOff, data, from, cbytes);
    v.disk := v.disk[lba := tmp];
    done := from + cbytes;
  }

  lemma SpliceNext(before: seq<byte>, skip: nat, data: seq<byte>, start: nat, done: nat, n: nat)
    requires start <= done <= done + n <= |data| && skip + (done + n - start) <= |before|
    ensures Splice(Splice(before, skip, data[start..done]), skip + (done - start), data[done..done + n])
         == Splice(before, skip, data[start..done + n])
  {
    SpliceJoin(before, skip, data[start..done], data[done..done + n]);
    assert data[start..done] + data[done..done + n] == data[start..done + n];
  }

  lemma SpliceAll<T>(a: seq<T>, b: seq<T>, x: seq<T>)
    requires |a| == |b| == |x|
    ensures Splice(a, 0, x) == Splice(b, 0, x)
  {
  }

  /** The sector loop of fat_write in one cluster. */
  method WriteCluster(v: Volume, cluster: nat, skip: nat, data: seq<byte>, start: nat) returns (done: nat)
    requires v.g.Holds(v.disk) && v.g.InRange(cluster) && skip < ClusterSize(v.g) && start < |data|
    modifies v`disk
    ensures done == start + Run(skip, Min(ClusterSize(v.g) - skip, |data| - start))
    ensures ClusterWritten(v.g, old(v.disk), v.disk, cluster, skip, data, start, done)
  {
    hide ClusterWritten, Run, Moved, StepOff, SectorsFor, SectorOf, InSector, ClusterSize, Geometry.Holds, Geometry.ClusterLba, Geometry.Valid, Geometry.InRange;
    ClusterWrittenStart(v.g, v.disk, cluster, skip, data, start);
    var size := |data|;
    var lba := v.ClusterToLba(cluster);
    var toWrite := ClusterSize(v.g) - skip;
    if toWrite > size - start {
      toWrite := size - start;
    }
    assert toWrite == Min(512 * v.g.sectorsPerCluster - skip, size - start);
    var tmp := ZERO_SECTOR;
    var sectorOff := SectorOf(skip);
    var byteOff := InSector(skip);
    done := start;
    var s := 0;
    SectorEnds(skip, v.g.sectorsPerCluster, size - start);
    while s < SectorsFor(toWrite)
      invariant 0 <= s <= SectorsFor(toWrite)
      invariant byteOff == StepOff(skip, s)
      invariant start <= done == start + Moved(skip, s) < size
      invariant ClusterWritten(v.g, old(v.disk), v.disk, cluster, skip, data, start, done)
    {
      SectorStep(skip, v.g.sectorsPerCluster, size - start, s);
      var curLba := lba + sectorOff + s;
      tmp, done := WriteSector(v, curLba, tmp, byteOff, data, done, old(v.disk), cluster, skip, start, sectorOff + s);
      byteOff := 0;
      if done >= size {
        return;
      }
      s := s + 1;
    }
  }

  /** Chain position the next byte of a transfer goes to. */
  ghost function NextPosition(off: nat, size: nat, cs: nat, done: nat): int
    requires cs > 0 && size > 0
  {
    if done == 0 then off else Boundary(off, cs) + (done - FirstRun(off, size, cs))
  }

  /** Since (d0, ch0), the first `done` bytes of `data` have been put where the transfer puts them, the chain has
      only grown by free clusters, and no other cluster's bytes, table entry or reserved sector has changed. */
  ghost predicate Transferred(g: Geometry, d0: Disk, ch0: seq<nat>, d: Disk, ch: seq<nat>, off: nat, data: seq<byte>, done: nat)
  {
    && g.Holds(d0) && g.Holds(d) && AllInRange(g, ch) && 0 < |data| && done <= |data|
    && Grew(FatOf(g, d0), ch0, FatOf(g, d), ch)
    && SameOutside(g, d0, d, ch)
    && Placed(g, Content(g, d0, ch), Content(g, d, ch), off, data, done)
  }

  ghost predicate Placed(g: Geometry, base: seq<byte>, now: seq<byte>, off: nat, data: seq<byte>, done: nat)
    requires g.Valid() && 0 < |data| && done <= |data|
  {
    var cs := ClusterSize(g);
    var n := FirstRun(off, |data|, cs);
    if done == 0 then now == base
    else
      && n <= done
      && off + n <= |base| && (n < done ==> Boundary(off, cs) + (done - n) <= |base|)
      && now == Landed(base, off, n, Boundary(off, cs), data[..done])
  }

  lemma TransferredStart(g: Geometry, d: Disk, ch: seq<nat>, off: nat, data: seq<byte>)
    requires g.Holds(d) && AllInRange(g, ch) && 0 < |data|
    ensures Transferred(g, d, ch, d, ch, off, data, 0)
  {
  }

  /** The chain got one free cluster longer, or nothing happened; the data area is as it was. */
  lemma TransferredGrow(g: Geometry, d0: Disk, ch0: seq<nat>, d: Disk, ch: seq<nat>, off: nat, data: seq<byte>, done: nat, e: Disk, ch': seq<nat>)
    requires Transferred(g, d0, ch0, d, ch, off, data, done)
    requires g.Holds(e) && AllInRange(g, ch') && e[g.DataStart()..] == d[g.DataStart()..] && e[..g.fatStart] == d[..g.fatStart]
    requires Grew(FatOf(g, d), ch, FatOf(g, e), ch')
    requires ch' == ch || (ch <= ch' && |ch'| == |ch| + 1 && ch'[|ch|] !in ch)
    ensures Transferred(g, d0, ch0, e, ch', off, data, done)
  {
    hide Content, ClusterBytes, Landed, Boundary, FirstRun, FatOf;
    forall c | g.InRange(c)
      ensures ClusterBytes(g, e, c) == ClusterBytes(g, d, c)
    {
      DataAreaSame(g, d, e, c);
    }
    ContentFrame(g, d, e, ch);
    GrewMore(FatOf(g, d0), ch0, FatOf(g, d), ch, FatOf(g, e), ch');
    if ch' != ch {
      var c := ch'[|ch|];
      assert ch' == ch + [c];
      ContentSnoc(g, e, ch, c);
      ContentSnoc(g, d0, ch, c);
      assert ClusterBytes(g, d, c) == ClusterBytes(g, d0, c);
      if done > 0 {
        LandedLeft(Content(g, d0, ch), ClusterBytes(g, d0, c), off, FirstRun(off, |data|, ClusterSize(g)), Boundary(off, ClusterSize(g)), data[..done]);
      }
    }
  }

  /** One more cluster of the transfer has been written. */
  lemma TransferredCluster(g: Geometry, d0: Disk, ch0: seq<nat>, d: Disk, ch: seq<nat>, off: nat, data: seq<byte>, done: nat,
                           e: Disk, i: nat, skip: nat, done': nat)
    requires Transferred(g, d0, ch0, d, ch, off, data, done)
    requires i < |ch| && (forall j :: 0 <= j < |ch| && j != i ==> ch[j] != ch[i])
    requires ClusterWritten(g, d, e, ch[i], skip, data, done, done') && done < done'
    requires Times(i, ClusterSize(g)) + skip == NextPosition(off, |data|, ClusterSize(g), done)
    requires done == 0 ==> done' == FirstRun(off, |data|, ClusterSize(g))
    ensures Transferred(g, d0, ch0, e, ch, off, data, done')
  {
    hide Content, ClusterBytes, Landed, Boundary, FirstRun, FatOf, Splice, Times, Grew;
    var cs := ClusterSize(g);
    ClusterWrittenFrame(g, d, e, ch[i], skip, data, done, done');
    ContentSplice(g, d, e, ch, i, skip, data[done..done']);
    assert data[..done] + data[done..done'] == data[..done'];
    LandedMore(Content(g, d0, ch), off, FirstRun(off, |data|, cs), Boundary(off, cs), data[..done], data[done..done']);
    if done == 0 {
      LandedNone(Content(g, d0, ch), off, FirstRun(off, |data|, cs), Boundary(off, cs), data[..0]);
    }
  }

  lemma LandedNone(base: seq<byte>, off: nat, split: nat, b: nat, d: seq<byte>)
    requires d == [] && off <= |base|
    ensures Landed(base, off, split, b, d) == base
  {
    SpliceNothing(base, off);
  }

  /** Writing one cluster leaves the table, the reserved sectors and every other cluster alone. */
  lemma ClusterWrittenFrame(g: Geometry, d: Disk, e: Disk, c: nat, skip: nat, data: seq<byte>, start: nat, done: nat)
    requires ClusterWritten(g, d, e, c, skip, data, start, done)
    ensures g.Holds(d) && g.Holds(e) && FatOf(g, e) == FatOf(g, d)
    ensures Mirrored(g, d) ==> Mirrored(g, e)
    ensures e[..g.fatStart] == d[..g.fatStart]
    ensures forall x :: g.InRange(x) && x != c ==> ClusterBytes(g, e, x) == ClusterBytes(g, d, x)
  {
    hide ClusterBytes, FatOf, Times;
    ClusterInDisk(g, c);
    var lo := g.ClusterLba(c);
    SameBefore(d, e, lo, 0, g.DataStart());
    assert d[0..g.DataStart()] == d[..g.DataStart()] && e[0..g.DataStart()] == e[..g.DataStart()];
    FatOfPrefix(g, d, e);
    MirroredPrefix(g, d, e);
    SameBefore(d, e, lo, 0, g.fatStart);
    assert d[0..g.fatStart] == d[..g.fatStart] && e[0..g.fatStart] == e[..g.fatStart];
    forall x | g.InRange(x) && x != c
      ensures ClusterBytes(g, e, x) == ClusterBytes(g, d, x)
    {
      OtherClusterSame(g, d, e, c, x);
    }
  }

  /** State of a write to the live chain of `head`: the volume is well formed, only that chain has changed, and
      the first `done` bytes are where the transfer puts them. */
  ghost predicate Writing(g: Geometry, d0: Disk, chains0: map<nat, seq<nat>>, d: Disk, chains: map<nat, seq<nat>>,
                          head: nat, off: nat, data: seq<byte>, done: nat)
  {
    && g.Holds(d0) && g.Holds(d) && WellFormed(FatOf(g, d), chains)
    && head in chains0 && head in chains && chains == chains0[head := chains[head]]
    && Transferred(g, d0, chains0[head], d, chains[head], off, data, done)
    && (Mirrored(g, d0) ==> Mirrored(g, d))
  }

  /** What WellFormed says of one live chain. */
  lemma LiveChain(g: Geometry, d: Disk, chains: map<nat, seq<nat>>, head: nat)
    requires g.Holds(d) && WellFormed(FatOf(g, d), chains) && head in chains
    ensures AllInRange(g, chains[head]) && |chains[head]| > 0 && chains[head][0] == head && head >= 2
    ensures forall i, j :: 0 <= i < |chains[head]| && 0 <= j < |chains[head]| && i != j ==> chains[head][i] != chains[head][j]
  {
    var ch := chains[head];
    assert IsChain(FatOf(g, d), ch);
    forall i, j | 0 <= i < |ch| && 0 <= j < |ch| && i != j
      ensures ch[i] != ch[j]
    {
      if i < j {
        ChainAcyclic(FatOf(g, d), ch, i, j);
      } else {
        ChainAcyclic(FatOf(g, d), ch, j, i);
      }
    }
  }

  lemma WritingStart(g: Geometry, d: Disk, chains: map<nat, seq<nat>>, head: nat, off: nat, data: seq<byte>)
    requires g.Holds(d) && WellFormed(FatOf(g, d), chains) && head in chains && 0 < |data|
    ensures Writing(g, d, chains, d, chains, head, off, data, 0)
    ensures |chains[head]| > 0 && chains[head][0] == head && g.InRange(head)
  {
    LiveChain(g, d, chains, head);
    TransferredStart(g, d, chains[head], off, data);
  }

  lemma WritingFollow(g: Geometry, d0: Disk, chains0: map<nat, seq<nat>>, d: Disk, chains: map<nat, seq<nat>>,
                      head: nat, off: nat, data: seq<byte>, done: nat, e: Disk, chains': map<nat, seq<nat>>, i: nat, next: nat)
    requires Writing(g, d0, chains0, d, chains, head, off, data, done)
    requires g.Holds(e) && WellFormed(FatOf(g, e), chains') && Followed(g, d, chains, e, chains', head, i, next)
    ensures Writing(g, d0, chains0, e, chains', head, off, data, done)
    ensures head in chains && head in chains'
    ensures next == 0 ==> FreeClusters(FatOf(g, e)) == 0 && |chains'[head]| == |chains[head]| == i + 1
    ensures next != 0 ==> |chains'[head]| == Max(|chains[head]|, i + 2)
    ensures next != 0 ==> i + 1 < |chains'[head]| && chains'[head][i + 1] == next && g.InRange(next)
  {
    hide Transferred, WellFormed, FatOf, Mirrored, NoFree, Grew, FreeClusters;
    NoFreeIs(FatOf(g, e));
    LiveChain(g, e, chains', head);
    var ch, ch' := chains[head], chains'[head];
    if ch' != ch {
      assert forall j :: 0 <= j < |ch| ==> ch[j] == ch'[j] != next;
    }
    TransferredGrow(g, d0, chains0[head], d, chains[head], off, data, done, e, chains'[head]);
  }

  /** How far a write of `size` bytes gets, known beforehand: as many clusters as the chain has and are free. The
      chain ends with the clusters the transfer reaches into, with those it had, or with all there are. */
  ghost predicate Extent(g: Geometry, fat0: Table, ch0: seq<nat>, ch: seq<nat>, off: nat, size: nat, done: nat)
    requires g.Valid() && size > 0
  {
    var cs, all := ClusterSize(g), |ch0| + FreeClusters(fat0);
    done == Reach(all, off, size, cs) && |ch| == Max(|ch0|, Min(ClustersFor(off, size, cs), all))
  }

  /** A write is whole exactly if the clusters it reaches into are in the chain or free. */
  lemma WholeIff(g: Geometry, fat0: Table, ch0: seq<nat>, ch: seq<nat>, off: nat, size: nat, done: nat)
    requires g.Valid() && size > 0 && Extent(g, fat0, ch0, ch, off, size, done)
    ensures done <= size && (done == size <==> ClustersFor(off, size, ClusterSize(g)) <= |ch0| + FreeClusters(fat0))
    ensures done == size ==> |ch| == Max(|ch0|, ClustersFor(off, size, ClusterSize(g)))
  {
    ReachAll(|ch0| + FreeClusters(fat0), off, size, ClusterSize(g));
  }

  /** What the chain gained the free clusters lost. */
  lemma WritingBalance(g: Geometry, d0: Disk, chains0: map<nat, seq<nat>>, d: Disk, chains: map<nat, seq<nat>>,
                       head: nat, off: nat, data: seq<byte>, done: nat)
    requires Writing(g, d0, chains0, d, chains, head, off, data, done)
    ensures g.Holds(d0) && g.Holds(d) && head in chains0 && head in chains
    ensures FreeClusters(FatOf(g, d)) + |chains[head]| == FreeClusters(FatOf(g, d0)) + |chains0[head]|
    ensures |chains0[head]| <= |chains[head]|
  {
    hide FatOf, WellFormed, SameOutside, Placed, FreeClusters;
  }

  /** The volume filled up on the way to the first byte. */
  lemma ExtentNone(g: Geometry, fat0: Table, ch0: seq<nat>, ch: seq<nat>, off: nat, size: nat)
    requires g.Valid() && size > 0 && |ch| == |ch0| + FreeClusters(fat0) && |ch| <= IndexOf(off, ClusterSize(g))
    ensures Extent(g, fat0, ch0, ch, off, size, 0)
  {
    hide FreeClusters, IndexOf, ClustersFor;
    ReachAll(|ch|, off, size, ClusterSize(g));
  }

  /** Cluster number `i` has been written and was not the last. */
  lemma ExtentMore(g: Geometry, off: nat, size: nat, i: nat, done: nat)
    requires g.Valid() && 0 < done < size && Times(i + 1, ClusterSize(g)) == NextPosition(off, size, ClusterSize(g), done)
    requires IndexOf(off, ClusterSize(g)) <= i
    ensures Reach(i + 1, off, size, ClusterSize(g)) == done && i + 1 < ClustersFor(off, size, ClusterSize(g))
  {
    hide IndexOf, ClustersFor, FirstRun, Boundary;
    ReachAll(i + 1, off, size, ClusterSize(g));
  }

  /** Cluster number `i` has taken the last byte. */
  lemma ExtentWhole(g: Geometry, fat0: Table, ch0: seq<nat>, ch: seq<nat>, off: nat, size: nat, i: nat)
    requires g.Valid() && size > 0 && IndexOf(off, ClusterSize(g)) <= i < ClustersFor(off, size, ClusterSize(g))
    requires size <= FirstRun(off, size, ClusterSize(g)) + (Times(i + 1, ClusterSize(g)) - Boundary(off, ClusterSize(g)))
    requires |ch| == Max(|ch0|, i + 1) && |ch| <= |ch0| + FreeClusters(fat0)
    ensures Extent(g, fat0, ch0, ch, off, size, size)
  {
    hide IndexOf, ClustersFor, FirstRun, Boundary, FreeClusters;
    ReachAll(i + 1, off, size, ClusterSize(g));
    ReachAll(|ch0| + FreeClusters(fat0), off, size, ClusterSize(g));
  }

  /** Cluster number `i` was the last there is. */
  lemma ExtentShort(g: Geometry, fat0: Table, ch0: seq<nat>, ch: seq<nat>, off: nat, size: nat, i: nat, done: nat)
    requires g.Valid() && 0 < done < size && Times(i + 1, ClusterSize(g)) == NextPosition(off, size, ClusterSize(g), done)
    requires IndexOf(off, ClusterSize(g)) <= i && i + 1 == |ch| == |ch0| + FreeClusters(fat0)
    ensures Extent(g, fat0, ch0, ch, off, size, done)
  {
    hide IndexOf, ClustersFor, FirstRun, Boundary, FreeClusters;
    ExtentMore(g, off, size, i, done);
  }

  lemma FirstNeeded(g: Geometry, off: nat, size: nat)
    requires g.Valid() && size > 0
    ensures IndexOf(off, ClusterSize(g)) < ClustersFor(off, size, ClusterSize(g))
  {
    ReachAll(ClustersFor(off, size, ClusterSize(g)), off, size, ClusterSize(g));
  }

  /** The skip loop of fat_write: walks, growing the chain where it ends, to the cluster `offset` falls into.
      Returns 0 exactly if chain and free clusters together do not reach that far. */
  method SeekGrowing(v: Volume, head: nat, offset: nat, ghost data: seq<byte>) returns (cluster: nat, skip: nat, ghost i: nat)
    requires v.Valid() && head in v.chains && 0 < |data|
    modifies v`disk, v`chains
    ensures v.Valid() && Writing(v.g, old(v.disk), old(v.chains), v.disk, v.chains, head, offset, data, 0)
    ensures cluster == 0 <==> |old(v.chains)[head]| + FreeClusters(FatOf(v.g, old(v.disk))) <= IndexOf(offset, ClusterSize(v.g))
    ensures head in v.chains
    ensures cluster == 0 ==> |v.chains[head]| == |old(v.chains)[head]| + FreeClusters(FatOf(v.g, old(v.disk)))
    ensures cluster != 0 ==> |v.chains[head]| == Max(|old(v.chains)[head]|, i + 1)
    ensures cluster != 0 ==> i < |v.chains[head]| && v.chains[head][i] == cluster && v.g.InRange(cluster)
    ensures cluster != 0 ==> i == IndexOf(offset, ClusterSize(v.g)) && skip == Within(offset, ClusterSize(v.g))
  {
    hide WellFormed, FatOf, Writing, Followed, FreeClusters;
    WritingStart(v.g, v.disk, v.chains, head, offset, data);
    var clusterSize := ClusterSize(v.g);
    cluster, skip, i := head, offset, 0;
    while skip >= clusterSize
      invariant v.Valid() && head in v.chains && i < |v.chains[head]|
      invariant v.chains[head][i] == cluster && v.g.InRange(cluster)
      invariant IndexOf(offset, clusterSize) == i + IndexOf(skip, clusterSize)
      invariant Within(offset, clusterSize) == Within(skip, clusterSize)
      invariant |v.chains[head]| == Max(|old(v.chains)[head]|, i + 1)
      invariant Writing(v.g, old(v.disk), old(v.chains), v.disk, v.chains, head, offset, data, 0)
      decreases skip
    {
      ghost var d, chains := v.disk, v.chains;
      var next := v.NextOrGrow(cluster, head, i);
      WritingFollow(v.g, old(v.disk), old(v.chains), d, chains, head, offset, data, 0, v.disk, v.chains, i, next);
      WritingBalance(v.g, old(v.disk), old(v.chains), v.disk, v.chains, head, offset, data, 0);
      cluster := next;
      if next == 0 {
        return;
      }
      skip := skip - clusterSize;
      i := i + 1;
    }
    WritingBalance(v.g, old(v.disk), old(v.chains), v.disk, v.chains, head, offset, data, 0);
  }

  lemma WritingCluster(g: Geometry, d0: Disk, chains0: map<nat, seq<nat>>, d: Disk, chains: map<nat, seq<nat>>,
                       head: nat, off: nat, data: seq<byte>, done: nat, e: Disk, i: nat, skip: nat, done': nat)
    requires Writing(g, d0, chains0, d, chains, head, off, data, done)
    requires i < |chains[head]| && ClusterWritten(g, d, e, chains[head][i], skip, data, done, done') && done < done'
    requires Times(i, ClusterSize(g)) + skip == NextPosition(off, |data|, ClusterSize(g), done)
    requires done == 0 ==> done' == FirstRun(off, |data|, ClusterSize(g))
    ensures g.Holds(e) && WellFormed(FatOf(g, e), chains)
    ensures Writing(g, d0, chains0, e, chains, head, off, data, done')
  {
    hide Transferred, WellFormed, FatOf, ClusterWritten, Mirrored, Times, NextPosition, FirstRun;
    LiveChain(g, d, chains, head);
    ClusterWrittenFrame(g, d, e, chains[head][i], skip, data, done, done');
    TransferredCluster(g, d0, chains0[head], d, chains[head], off, data, done, e, i, skip, done');
  }

  /** Where the next cluster of a transfer starts: at the cluster boundary behind the bytes moved so far. */
  lemma NextClusterPosition(g: Geometry, off: nat, size: nat, i: nat, skip: nat, done: nat, done': nat)
    requires g.Valid() && skip < ClusterSize(g) && done < size
    requires if done == 0 then i == IndexOf(off, ClusterSize(g)) && skip == Within(off, ClusterSize(g)) else skip == 0
    requires Times(i, ClusterSize(g)) + skip == NextPosition(off, size, ClusterSize(g), done)
    requires done' == done + Run(skip, Min(ClusterSize(g) - skip, size - done))
    ensures done == 0 ==> done' == FirstRun(off, size, ClusterSize(g))
    ensures done < done' <= size
    ensures done' < size ==> Times(i + 1, ClusterSize(g)) == NextPosition(off, size, ClusterSize(g), done')
  {
    hide Run, Boundary, IndexOf, Within;
    IndexWithin(off, ClusterSize(g));
    BoundaryIs(off, ClusterSize(g));
    RunToEnd(skip, ClusterSize(g));
    TimesNext(i, ClusterSize(g));
  }

  /** The bytes moved so far fit in the clusters walked so far; when that is the last cluster the count is final. */
  lemma RunFits(g: Geometry, off: nat, size: nat, n: nat, i: nat, skip: nat, done: nat, done': nat)
    requires g.Valid() && skip < ClusterSize(g) && done < size && i < n
    requires if done == 0 then i == IndexOf(off, ClusterSize(g)) && skip == Within(off, ClusterSize(g)) else skip == 0
    requires Times(i, ClusterSize(g)) + skip == NextPosition(off, size, ClusterSize(g), done)
    requires done' == done + Run(skip, Min(ClusterSize(g) - skip, size - done))
    ensures done' <= FirstRun(off, size, ClusterSize(g)) + (Times(n, ClusterSize(g)) - Boundary(off, ClusterSize(g)))
    ensures done' < size && i + 1 == n ==> done' == FirstRun(off, size, ClusterSize(g)) + (Times(n, ClusterSize(g)) - Boundary(off, ClusterSize(g)))
  {
    hide Run, Within, IndexOf, Boundary;
    IndexWithin(off, ClusterSize(g));
    TimesMono(i + 1, n, ClusterSize(g));
    RunToEnd(skip, ClusterSize(g));
  }

  lemma FirstClusterPosition(g: Geometry, off: nat, size: nat)
    requires g.Valid() && size > 0
    ensures ClusterSize(g) > 0
    ensures Times(IndexOf(off, ClusterSize(g)), ClusterSize(g)) + Within(off, ClusterSize(g)) == NextPosition(off, size, ClusterSize(g), 0)
  {
    IndexWithin(off, ClusterSize(g));
  }

  /** The body of fat_write up to the size update. */
  method WriteData(v: Volume, head: nat, offset: nat, data: seq<byte>) returns (done: nat)
    requires v.Valid() && head in v.chains && 0 < |data|
    modifies v`disk, v`chains
    ensures v.Valid() && head in v.chains && Writing(v.g, old(v.disk), old(v.chains), v.disk, v.chains, head, offset, data, done)
    ensures Extent(v.g, FatOf(v.g, old(v.disk)), old(v.chains)[head], v.chains[head], offset, |data|, done)
  {
    hide WellFormed, FatOf, Writing, Followed, NoFree, ClusterWritten, ClusterSize, Run, Times, NextPosition, IndexOf, Within, FirstRun,
         Geometry.InRange, Min, Extent, FreeClusters, Boundary, ClustersFor, Reach;
    done := 0;
    var cluster: nat, skip: nat, i: nat := SeekGrowing(v, head, offset, data);
    if cluster == 0 {
      ExtentNone(v.g, FatOf(v.g, old(v.disk)), old(v.chains)[head], v.chains[head], offset, |data|);
      return;
    }
    FirstClusterPosition(v.g, offset, |data|);
    FirstNeeded(v.g, offset, |data|);
    while done < |data|
      invariant v.Valid() && head in v.chains && i < |v.chains[head]| && v.chains[head][i] == cluster && v.g.InRange(cluster)
      invariant Writing(v.g, old(v.disk), old(v.chains), v.disk, v.chains, head, offset, data, done)
      invariant done <= |data| && 0 <= skip < ClusterSize(v.g)
      invariant done < |data| ==> Times(i, ClusterSize(v.g)) + skip == NextPosition(offset, |data|, ClusterSize(v.g), done)
      invariant if done == 0 then i == IndexOf(offset, ClusterSize(v.g)) && skip == Within(offset, ClusterSize(v.g)) else skip == 0
      invariant done < |data| && |v.chains[head]| == Max(|old(v.chains)[head]|, i + 1)
      invariant IndexOf(offset, ClusterSize(v.g)) <= i < ClustersFor(offset, |data|, ClusterSize(v.g))
    {
      ghost var d, before := v.disk, done;
      done := WriteCluster(v, cluster, skip, data, done);
      NextClusterPosition(v.g, offset, |data|, i, skip, before, done);
      WritingCluster(v.g, old(v.disk), old(v.chains), d, v.chains, head, offset, data, before, v.disk, i, skip, done);
      RunFits(v.g, offset, |data|, i + 1, i, skip, before, done);
      WritingBalance(v.g, old(v.disk), old(v.chains), v.disk, v.chains, head, offset, data, done);
      skip := 0;
      if done >= |data| {
        ExtentWhole(v.g, FatOf(v.g, old(v.disk)), old(v.chains)[head], v.chains[head], offset, |data|, i);
        break;
      }
      ExtentMore(v.g, offset, |data|, i, done);
      ghost var e, chains := v.disk, v.chains;
      var next := v.NextOrGrow(cluster, head, i);
      WritingFollow(v.g, old(v.disk), old(v.chains), e, chains, head, offset, data, done, v.disk, v.chains, i, next);
      if next == 0 {
        WritingBalance(v.g, old(v.disk), old(v.chains), v.disk, v.chains, head, offset, data, done);
        ExtentShort(v.g, FatOf(v.g, old(v.disk)), old(v.chains)[head], v.chains[head], offset, |data|, i, done);
        return;
      }
      cluster := next;
      i := i + 1;
    }
  }
}
