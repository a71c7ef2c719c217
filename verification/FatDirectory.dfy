/** Directory nodes over the volume: locating entries on disk, and writing files through their node, which keeps
    the node, its directory entry and its directory's listing in step. */
module FatDirectory {
  import opened Bytes
  import opened FatTable
  import opened FatChains
  import opened FatContent
  import opened FatVolume
  import opened FatFile
  import opened FatNames
  import opened FatDirent

  /** A cached file or directory as a value: what it says of itself, and where its entry is. */
  datatype Child = Child(entry: Entry, lba: nat, off: nat)

  /** A cached file or directory. */
  class Node {
    var name: Name
    var size: nat
    var dir: bool
    var cluster: nat
    var dirLba: nat
    var dirOff: nat
    var children: seq<Node>
    /** Number of its entry in the parent directory. */
    ghost var slot: nat

    constructor (name: Name, size: nat, dir: bool, cluster: nat, dirLba: nat, dirOff: nat, ghost slot: nat)
      ensures this.name == name && this.size == size && this.dir == dir && this.cluster == cluster
      ensures this.dirLba == dirLba && this.dirOff == dirOff && this.children == [] && this.slot == slot
    {
      this.name := name;
      this.size := size;
      this.dir := dir;
      this.cluster := cluster;
      this.dirLba := dirLba;
      this.dirOff := dirOff;
      this.children := [];
      this.slot := slot;
    }

    ghost function View(): Child
      reads this
    {
      Child(Entry(name, size, dir, cluster, slot), dirLba, dirOff)
    }
  }

  function EntriesPerCluster(g: Geometry): nat { ClusterSize(g) / 32 }

  /** Entry `k` of the directory with chain `ch` is 32 bytes at `off` in sector `lba`. */
  ghost predicate Located(g: Geometry, ch: seq<nat>, k: nat, lba: nat, off: nat)
  {
    exists i: nat, e: nat :: LocatedAt(g, ch, k, lba, off, i, e)
  }

  ghost predicate LocatedAt(g: Geometry, ch: seq<nat>, k: nat, lba: nat, off: nat, i: nat, e: nat)
  {
    && i < |ch| && g.InRange(ch[i]) && e < EntriesPerCluster(g)
    && k == Times(i, EntriesPerCluster(g)) + e
    && lba == g.ClusterLba(ch[i]) + e / 16 && off == e % 16 * 32
  }

  lemma {:induction false} TimesScale(i: nat, n: nat, f: nat)
    ensures f * Times(i, n) == Times(i, f * n)
  {
    if i > 0 {
      TimesScale(i - 1, n, f);
      assert f * Times(i, n) == f * Times(i - 1, n) + f * n;
    }
  }

  /** Entry number `e` of cluster number `i` as a slice of the content, of the cluster and of a sector. */
  lemma SlotPlace(g: Geometry, d: Disk, ch: seq<nat>, i: nat, e: nat)
    requires g.Holds(d) && AllInRange(g, ch) && i < |ch| && e < EntriesPerCluster(g)
    ensures var k := Times(i, EntriesPerCluster(g)) + e;
            && 32 * k + 32 <= |Content(g, d, ch)| && 32 * k == Times(i, ClusterSize(g)) + 32 * e
            && 32 * e + 32 <= ClusterSize(g) && e / 16 < g.sectorsPerCluster && g.ClusterLba(ch[i]) + e / 16 < |d|
            && SlotAt(Content(g, d, ch), k) == ClusterBytes(g, d, ch[i])[32 * e..32 * e + 32]
            && SlotAt(Content(g, d, ch), k) == d[g.ClusterLba(ch[i]) + e / 16][e % 16 * 32..e % 16 * 32 + 32]
  {
    hide Content, ClusterBytes, Times, Geometry.ClusterLba, ClusterSize, EntriesPerCluster, SlotAt;
    SlotArithmetic(g, i, e);
    ContentAt(g, d, ch, i, 32 * e, 32);
    ClusterSlice(g, d, ch[i], e / 16, e % 16 * 32, 32);
    SlotIs(Content(g, d, ch), Times(i, EntriesPerCluster(g)) + e);
  }

  lemma SlotIs(content: seq<byte>, k: nat)
    requires 32 * k + 32 <= |content|
    ensures SlotAt(content, k) == content[32 * k..32 * k + 32]
  {
  }

  lemma SlotArithmetic(g: Geometry, i: nat, e: nat)
    requires e < EntriesPerCluster(g)
    ensures 32 * (Times(i, EntriesPerCluster(g)) + e) == Times(i, ClusterSize(g)) + 32 * e
    ensures 32 * e + 32 <= ClusterSize(g) && e / 16 < g.sectorsPerCluster
    ensures 512 * (e / 16) + e % 16 * 32 == 32 * e
  {
    TimesScale(i, EntriesPerCluster(g), 32);
    assert 32 * EntriesPerCluster(g) == ClusterSize(g);
  }

  /** The disk after rewriting the 32 bytes of an entry. */
  ghost function DiskWithSlot(d: Disk, lba: nat, off: nat, s: Slot): (e: Disk)
    requires lba < |d| && off + 32 <= 512
    ensures |e| == |d|
  {
    d[lba := Splice(d[lba], off, s)]
  }

  /** Rewriting a located entry rewrites that entry of the directory's content and no byte of any other cluster;
      the table, the copies' agreement and the reserved sectors stay. */
  lemma SlotWritten(g: Geometry, d: Disk, ch: seq<nat>, k: nat, lba: nat, off: nat, s: Slot)
    requires g.Holds(d) && AllInRange(g, ch) && Located(g, ch, k, lba, off)
    requires forall i, j :: 0 <= i < |ch| && 0 <= j < |ch| && i != j ==> ch[i] != ch[j]
    ensures lba < |d| && off + 32 <= 512 && 32 * k + 32 <= |Content(g, d, ch)|
    ensures g.Holds(DiskWithSlot(d, lba, off, s))
    ensures d[lba][off..off + 32] == SlotAt(Content(g, d, ch), k)
    ensures Content(g, DiskWithSlot(d, lba, off, s), ch) == WithSlot(Content(g, d, ch), k, s)
    ensures TableAndOthersSame(g, d, DiskWithSlot(d, lba, off, s), ch)
  {
    hide Content, ClusterBytes, Times, FatOf, Mirrored, Splice, Geometry.ClusterLba;
    var i: nat, e: nat :| LocatedAt(g, ch, k, lba, off, i, e);
    SlotPlace(g, d, ch, i, e);
    var r := DiskWithSlot(d, lba, off, s);
    ClusterSplice(g, d, ch[i], e / 16, off, s);
    assert 512 * (e / 16) + off == 32 * e;
    SectorFrame(g, d, ch[i], lba, r[lba]);
    ContentSplice(g, d, r, ch, i, 32 * e, s);
  }

  /** The table and every cluster outside `ch` are the same on both disks. */
  ghost predicate TableAndOthersSame(g: Geometry, d: Disk, e: Disk, ch: seq<nat>)
    requires g.Holds(d) && g.Holds(e)
  {
    && FatOf(g, e) == FatOf(g, d)
    && (Mirrored(g, d) ==> Mirrored(g, e))
    && SameOutside(g, d, e, ch)
  }

  /** One sector of cluster `c` replaced. */
  lemma SectorFrame(g: Geometry, d: Disk, c: nat, lba: nat, s: Sector)
    requires g.Holds(d) && g.InRange(c) && g.ClusterLba(c) <= lba < g.ClusterLba(c) + g.sectorsPerCluster
    ensures lba < |d| && g.Holds(d[lba := s])
    ensures FatOf(g, d[lba := s]) == FatOf(g, d)
    ensures Mirrored(g, d) ==> Mirrored(g, d[lba := s])
    ensures d[lba := s][..g.fatStart] == d[..g.fatStart]
    ensures forall x :: g.InRange(x) && x != c ==> ClusterBytes(g, d[lba := s], x) == ClusterBytes(g, d, x)
  {
    hide ClusterBytes, FatOf, Mirrored, Times;
    ClusterInDisk(g, c);
    var e := d[lba := s];
    FatOfPrefix(g, d, e);
    MirroredPrefix(g, d, e);
    forall x | g.InRange(x) && x != c
      ensures ClusterBytes(g, e, x) == ClusterBytes(g, d, x)
    {
      OtherClusterSame(g, d, e, c, x);
    }
  }

  /** fat_update_dirent_size: nothing for the root, else size and first cluster of the node's entry. */
  method UpdateDirentSize(v: Volume, node: Node)
    requires node.dirLba != 0 ==> node.dirLba < |v.disk| && node.dirOff + 32 <= 512
    requires node.size < 0x1_0000_0000 && node.cluster < 0x1_0000_0000
    modifies v`disk
    ensures |v.disk| == |old(v.disk)|
    ensures v.disk == if node.dirLba == 0 then old(v.disk)
                      else DiskWithSlot(old(v.disk), node.dirLba, node.dirOff,
                                        Resized(old(v.disk)[node.dirLba][node.dirOff..node.dirOff + 32], node.size, node.cluster))
  {
    if node.dirLba == 0 {
      return;
    }
    var buf := v.disk[node.dirLba];
    var de := node.dirOff;
    var hi, lo := Le16Bytes(node.cluster / 0x1_0000), Le16Bytes(node.cluster % 0x1_0000);
    var t: seq<byte> := buf;
    t := t[..de + 28] + Le32Bytes(node.size) + t[de + 32..];
    t := t[..de + 20] + hi + t[de + 22..];
    t := t[..de + 26] + lo + t[de + 28..];
    ResizedInPlace(buf, de, node.size, node.cluster);
    v.disk := v.disk[node.dirLba := t];
  }

  /** A chain without a cluster of `x` keeps its content when only clusters of `x` may have changed. */
  lemma ContentOutside(g: Geometry, d: Disk, e: Disk, x: seq<nat>, ch: seq<nat>)
    requires g.Holds(d) && g.Holds(e) && SameOutside(g, d, e, x) && AllInRange(g, ch) && Disjoint(ch, x)
    ensures Content(g, e, ch) == Content(g, d, ch)
  {
    hide Content, ClusterBytes;
    forall i | 0 <= i < |ch|
      ensures ClusterBytes(g, e, ch[i]) == ClusterBytes(g, d, ch[i])
    {
      assert ch[i] in ch;
    }
    ContentFrame(g, d, e, ch);
  }

  /** Every live chain but those of `a` and `b` has the content it had. */
  ghost predicate OthersKept(g: Geometry, d: Disk, e: Disk, chains: map<nat, seq<nat>>, a: nat, b: nat)
    requires g.Holds(d) && g.Holds(e)
  {
    forall h :: h in chains && h != a && h != b ==> AllInRange(g, chains[h]) && Content(g, e, chains[h]) == Content(g, d, chains[h])
  }

  lemma OthersKeptOne(g: Geometry, d: Disk, e: Disk, chains: map<nat, seq<nat>>, a: nat)
    requires g.Holds(d) && g.Holds(e) && WellFormed(FatOf(g, d), chains) && a in chains && SameOutside(g, d, e, chains[a])
    ensures OthersKept(g, d, e, chains, a, a)
  {
    hide Content, ClusterBytes, FatOf, SameOutside;
    forall h | h in chains && h != a
      ensures AllInRange(g, chains[h]) && Content(g, e, chains[h]) == Content(g, d, chains[h])
    {
      LiveChain(g, d, chains, h);
      ContentOutside(g, d, e, chains[a], chains[h]);
    }
  }

  /** File size after a whole transfer, in the 32 bits the node has for it. */
  function GrownSize(size: nat, offset: nat, n: nat): nat
  {
    if offset + n > size then (offset + n) % 0x1_0000_0000 else size
  }

  /** It is the larger of old size and end of the transfer exactly if that end has no more than 32 bits. */
  lemma GrownSizeIs(size: nat, offset: nat, n: nat)
    requires size < 0x1_0000_0000
    ensures GrownSize(size, offset, n) == Max(size, offset + n) <==> offset + n < 0x1_0000_0000
  {
  }

  /** A byte written right behind the largest file leaves a file of size 0. */
  lemma GrownSizeWraps()
    ensures GrownSize(0xFFFF_FFFF, 0xFFFF_FFFF, 1) == 0
  {
  }

  /** The node's entry is entry `node.slot` of the directory whose chain starts at `p`; a root has none. */
  ghost predicate HasEntry(g: Geometry, chains: map<nat, seq<nat>>, node: Node, p: nat)
    reads node
  {
    node.dirLba != 0 ==> p in chains && p != node.cluster && Located(g, chains[p], node.slot, node.dirLba, node.dirOff)
  }

  /** A write on its data, seen by content: the file's chain took the transfer, every other live chain is as before. */
  lemma WritingContents(g: Geometry, d0: Disk, chains0: map<nat, seq<nat>>, d: Disk, chains: map<nat, seq<nat>>,
                        head: nat, off: nat, data: seq<byte>, done: nat)
    requires Writing(g, d0, chains0, d, chains, head, off, data, done) && WellFormed(FatOf(g, d0), chains0)
    ensures AllInRange(g, chains[head]) && Placed(g, Content(g, d0, chains[head]), Content(g, d, chains[head]), off, data, done)
    ensures OthersKept(g, d0, d, chains, head, head)
    ensures forall h :: h in chains && h != head ==> chains[h] == chains0[h] && AllInRange(g, chains[h])
    ensures Grew(FatOf(g, d0), chains0[head], FatOf(g, d), chains[head])
    ensures Mirrored(g, d0) ==> Mirrored(g, d)
  {
    hide Content, ClusterBytes, FatOf, SameOutside, Placed, Mirrored, Grew;
    forall h | h in chains && h != head
      ensures AllInRange(g, chains[h]) && Content(g, d, chains[h]) == Content(g, d0, chains[h])
    {
      LiveChain(g, d, chains, h);
      ContentOutside(g, d0, d, chains[head], chains[h]);
    }
  }

  /** Then the entry: the directory's content changes in that entry only, and no other chain's does. */
  lemma EntryWritten(g: Geometry, d: Disk, chains: map<nat, seq<nat>>, p: nat, k: nat, lba: nat, off: nat, s: Slot)
    requires g.Holds(d) && WellFormed(FatOf(g, d), chains) && p in chains && Located(g, chains[p], k, lba, off)
    ensures AllInRange(g, chains[p]) && lba < |d| && off + 32 <= 512 && 32 * k + 32 <= |Content(g, d, chains[p])|
    ensures d[lba][off..off + 32] == SlotAt(Content(g, d, chains[p]), k)
    ensures var e := DiskWithSlot(d, lba, off, s);
            && g.Holds(e) && FatOf(g, e) == FatOf(g, d) && (Mirrored(g, d) ==> Mirrored(g, e))
            && Content(g, e, chains[p]) == WithSlot(Content(g, d, chains[p]), k, s)
            && OthersKept(g, d, e, chains, p, p)
  {
    hide Content, ClusterBytes, FatOf, SameOutside, Mirrored, WithSlot, Located;
    LiveChain(g, d, chains, p);
    SlotWritten(g, d, chains[p], k, lba, off, s);
    OthersKeptOne(g, d, DiskWithSlot(d, lba, off, s), chains, p);
  }

  /** Effect of a write on its own chain: it has grown by exactly the free clusters the transfer needed and could get,
      the first `done` bytes are where the transfer puts them, and every other byte of it is as before. */
  ghost predicate FileWritten(g: Geometry, d0: Disk, chains0: map<nat, seq<nat>>, d: Disk, chains: map<nat, seq<nat>>,
                              head: nat, offset: nat, data: seq<byte>, done: nat)
  {
    && g.Holds(d0) && g.Holds(d) && head in chains0 && head in chains && chains == chains0[head := chains[head]]
    && done <= |data|
    && Grew(FatOf(g, d0), chains0[head], FatOf(g, d), chains[head])
    && AllInRange(g, chains[head])
    && (if |data| == 0 then d == d0 && chains == chains0
        else Placed(g, Content(g, d0, chains[head]), Content(g, d, chains[head]), offset, data, done)
             && Extent(g, FatOf(g, d0), chains0[head], chains[head], offset, |data|, done))
    && (Mirrored(g, d0) ==> Mirrored(g, d))
  }

  /** Effect of a write on all other live chains: entry `slot` of directory `p`, if there is one and the write was
      whole, has the new size and the first cluster; nothing else changed. */
  ghost predicate EntryUpdated(g: Geometry, d0: Disk, d: Disk, chains: map<nat, seq<nat>>,
                               head: nat, whole: bool, p: nat, slot: nat, size: nat)
  {
    && g.Holds(d0) && g.Holds(d)
    && (if whole then
          && p in chains && p != head && AllInRange(g, chains[p]) && 32 * slot + 32 <= |Content(g, d0, chains[p])|
          && head < 0x1_0000_0000 && size < 0x1_0000_0000
          && Content(g, d, chains[p])
             == WithSlot(Content(g, d0, chains[p]), slot, Resized(SlotAt(Content(g, d0, chains[p]), slot), size, head))
          && OthersKept(g, d0, d, chains, head, p)
        else OthersKept(g, d0, d, chains, head, head))
  }

  /** The caller's condition for a whole write: the clusters the transfer reaches into are in the chain or free. */
  ghost predicate Affordable(g: Geometry, d: Disk, chains: map<nat, seq<nat>>, head: nat, offset: nat, size: nat)
    requires g.Holds(d) && head in chains
  {
    size > 0 ==> ClustersFor(offset, size, ClusterSize(g)) <= |chains[head]| + FreeClusters(FatOf(g, d))
  }

  /** A write is whole exactly if it was affordable, and then leaves the chain as long as it was or as the transfer
      needs; cut short, it has used up the volume. */
  lemma WholeIffAffordable(g: Geometry, d0: Disk, chains0: map<nat, seq<nat>>, d: Disk, chains: map<nat, seq<nat>>,
                           head: nat, offset: nat, data: seq<byte>, done: nat)
    requires FileWritten(g, d0, chains0, d, chains, head, offset, data, done)
    ensures g.Holds(d0) && head in chains0 && (done == |data| <==> Affordable(g, d0, chains0, head, offset, |data|))
    ensures g.Holds(d) && head in chains && (done < |data| ==> NoFree(FatOf(g, d)))
    ensures 0 < done == |data| ==> |chains[head]| == Max(|chains0[head]|, ClustersFor(offset, |data|, ClusterSize(g)))
  {
    hide FatOf, Placed, Mirrored, FreeClusters, ClustersFor, Reach;
    if |data| > 0 {
      WholeIff(g, FatOf(g, d0), chains0[head], chains[head], offset, |data|, done);
      NoFreeIs(FatOf(g, d));
    }
  }

  /** fat_write. A transfer that is not cut short by a full volume also updates the size in the node and in its
      directory entry. */
  method WriteFile(v: Volume, node: Node, offset: nat, data: seq<byte>, ghost p: nat) returns (done: nat)
    requires v.Valid() && node.cluster in v.chains && HasEntry(v.g, v.chains, node, p)
    requires node.size < 0x1_0000_0000 && node.cluster < 0x1_0000_0000
    modifies v`disk, v`chains, node`size
    ensures v.Valid()
    ensures FileWritten(v.g, old(v.disk), old(v.chains), v.disk, v.chains, node.cluster, offset, data, done)
    ensures done == |data| <==> Affordable(v.g, old(v.disk), old(v.chains), node.cluster, offset, |data|)
    ensures node.size == if 0 < done == |data| then GrownSize(old(node.size), offset, |data|) else old(node.size)
    ensures EntryUpdated(v.g, old(v.disk), v.disk, v.chains, node.cluster, 0 < done == |data| && node.dirLba != 0, p, node.slot, node.size)
  {
    hide WellFormed, FatOf, Writing, NoFree, Grew, Mirrored, Content, ClusterBytes, WithSlot, Resized, Placed, SlotAt, DiskWithSlot, AllInRange, Located,
         Affordable, Extent, FileWritten, OthersKept;
    done := 0;
    ghost var d0, chains0 := v.disk, v.chains;
    WriteNothing(v.g, d0, chains0, node.cluster, offset, data);
    if node.dirLba != 0 {
      EntryWritten(v.g, d0, chains0, p, node.slot, node.dirLba, node.dirOff, ZERO_SECTOR[..32]);
    }
    if |data| == 0 {
      return;
    }
    done := WriteData(v, node.cluster, offset, data);
    ghost var mid := v.disk;
    DataWritten(v.g, d0, chains0, mid, v.chains, node.cluster, offset, data, done);
    if done < |data| {
      return;
    }
    if offset + done > node.size {
      node.size := (offset + done) % 0x1_0000_0000;
    }
    if node.dirLba != 0 {
      ghost var s := Resized(mid[node.dirLba][node.dirOff..node.dirOff + 32], node.size, node.cluster);
      EntryWritten(v.g, mid, v.chains, p, node.slot, node.dirLba, node.dirOff, s);
      ThenEntry(v.g, d0, chains0, mid, DiskWithSlot(mid, node.dirLba, node.dirOff, s), v.chains, node.cluster, offset, data, done, p, node.slot, node.size);
    }
    UpdateDirentSize(v, node);
  }

  lemma WriteNothing(g: Geometry, d: Disk, chains: map<nat, seq<nat>>, head: nat, offset: nat, data: seq<byte>)
    requires g.Holds(d) && WellFormed(FatOf(g, d), chains) && head in chains
    ensures |data| == 0 ==> FileWritten(g, d, chains, d, chains, head, offset, data, 0) && Affordable(g, d, chains, head, offset, 0)
    ensures OthersKept(g, d, d, chains, head, head)
  {
    hide Content, Extent;
    assert chains == chains[head := chains[head]];
    forall h | h in chains
      ensures AllInRange(g, chains[h])
    {
      LiveChain(g, d, chains, h);
    }
  }

  /** A write on its data, before its entry. */
  lemma DataWritten(g: Geometry, d0: Disk, chains0: map<nat, seq<nat>>, d: Disk, chains: map<nat, seq<nat>>,
                    head: nat, offset: nat, data: seq<byte>, done: nat)
    requires Writing(g, d0, chains0, d, chains, head, offset, data, done) && WellFormed(FatOf(g, d0), chains0)
    requires head in chains0 && head in chains && |data| > 0 && Extent(g, FatOf(g, d0), chains0[head], chains[head], offset, |data|, done)
    ensures FileWritten(g, d0, chains0, d, chains, head, offset, data, done)
    ensures done == |data| <==> Affordable(g, d0, chains0, head, offset, |data|)
    ensures OthersKept(g, d0, d, chains, head, head)
    ensures chains == chains0[head := chains[head]]
    ensures g.Holds(d) && WellFormed(FatOf(g, d), chains) && done <= |data|
  {
    hide Content, FatOf, Placed, Mirrored, Grew, Extent, WellFormed, Affordable;
    WritingContents(g, d0, chains0, d, chains, head, offset, data, done);
    WholeIffAffordable(g, d0, chains0, d, chains, head, offset, data, done);
  }

  /** The entry of a file whose data was written whole, rewritten on disk. */
  lemma ThenEntry(g: Geometry, d0: Disk, chains0: map<nat, seq<nat>>, m: Disk, e: Disk, chains: map<nat, seq<nat>>,
                  head: nat, offset: nat, data: seq<byte>, done: nat, p: nat, slot: nat, size: nat)
    requires FileWritten(g, d0, chains0, m, chains, head, offset, data, done) && |data| > 0
    requires g.Holds(d0) && g.Holds(m) && g.Holds(e) && FatOf(g, e) == FatOf(g, m) && (Mirrored(g, m) ==> Mirrored(g, e))
    requires OthersKept(g, d0, m, chains, head, head) && OthersKept(g, m, e, chains, p, p)
    requires head in chains && p in chains && p != head && AllInRange(g, chains[p]) && head < 0x1_0000_0000 && size < 0x1_0000_0000
    requires 32 * slot + 32 <= |Content(g, m, chains[p])|
    requires Content(g, e, chains[p]) == WithSlot(Content(g, m, chains[p]), slot, Resized(SlotAt(Content(g, m, chains[p]), slot), size, head))
    ensures FileWritten(g, d0, chains0, e, chains, head, offset, data, done)
    ensures EntryUpdated(g, d0, e, chains, head, true, p, slot, size)
  {
    hide Content, FatOf, Placed, Mirrored, Grew, Extent, WithSlot, Resized, SlotAt;
    OthersKeptTwice(g, d0, m, e, chains, head, p);
  }

  lemma OthersKeptTwice(g: Geometry, d: Disk, m: Disk, e: Disk, chains: map<nat, seq<nat>>, a: nat, b: nat)
    requires g.Holds(d) && g.Holds(m) && g.Holds(e)
    requires OthersKept(g, d, m, chains, a, a) && OthersKept(g, m, e, chains, b, b) && a in chains && a != b
    ensures OthersKept(g, d, e, chains, a, b)
    ensures AllInRange(g, chains[a]) && Content(g, e, chains[a]) == Content(g, m, chains[a])
  {
    hide Content;
  }
}
