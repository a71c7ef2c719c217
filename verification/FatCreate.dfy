/** fat_create and fat_unlink: what they do to the volume, by content of chains. */
module FatCreate {
  import opened Bytes
  import opened FatTable
  import opened FatChains
  import opened FatContent
  import opened FatVolume
  import opened FatFile
  import opened FatNames
  import opened FatDirent
  import opened FatDirectory
  import opened FatLookup

  const DOT_NAME: Name := [DOT, SPACE, SPACE, SPACE, SPACE, SPACE, SPACE, SPACE, SPACE, SPACE, SPACE]
  const DOTDOT_NAME: Name := [DOT, DOT, SPACE, SPACE, SPACE, SPACE, SPACE, SPACE, SPACE, SPACE, SPACE]

  /** First sector of a new directory: entries for itself and its parent, then nothing. */
  function DotSector(c: nat, up: nat): Sector
    requires c < 0x1_0000_0000 && up < 0x1_0000_0000
  {
    NewSlot(DOT_NAME, true, c, 0) + NewSlot(DOTDOT_NAME, true, up, 0) + ZERO_SECTOR[64..]
  }

  /** One cluster that starts with the sector `first` and is zero behind it. */
  ghost function ClusterImage(g: Geometry, first: Sector): seq<byte>
    requires g.sectorsPerCluster > 0
  {
    first + Zeros(ClusterSize(g) - 512)
  }

  lemma {:induction false} JoinImage(s: seq<Sector>, first: Sector)
    requires |s| > 0 && s[0] == first && forall j :: 0 < j < |s| ==> s[j] == ZERO_SECTOR
    ensures Join(s, 512) == first + Zeros(512 * (|s| - 1))
  {
    var n := |s| - 1;
    if n > 0 {
      JoinImage(s[..n], first);
      assert Zeros(512 * n) == Zeros(512 * (n - 1)) + ZERO_SECTOR;
    } else {
      assert s[..0] == [];
    }
  }

  lemma TableAndOthersStep(g: Geometry, d: Disk, e: Disk, c: nat, lba: nat, s: Sector)
    requires g.Holds(d) && g.Holds(e) && g.InRange(c) && g.ClusterLba(c) <= lba < g.ClusterLba(c) + g.sectorsPerCluster
    requires TableAndOthersSame(g, d, e, [c])
    ensures lba < |e| && g.Holds(e[lba := s]) && TableAndOthersSame(g, d, e[lba := s], [c])
  {
    hide ClusterBytes, FatOf, Mirrored, Times;
    SectorFrame(g, e, c, lba, s);
  }

  /** The zeroing loops of fat_create over a new cluster. */
  method FillCluster(v: Volume, c: nat, first: Sector)
    requires v.g.Holds(v.disk) && v.g.InRange(c)
    modifies v`disk
    ensures v.g.Holds(v.disk) && v.g.sectorsPerCluster > 0
    ensures ClusterBytes(v.g, v.disk, c) == ClusterImage(v.g, first)
    ensures TableAndOthersSame(v.g, old(v.disk), v.disk, [c])
  {
    hide ClusterBytes, FatOf, Mirrored, Times, TableAndOthersSame, ClusterImage, Geometry.ClusterLba, Geometry.Valid;
    FillStart(v.g, v.disk, c);
    var newLba := v.ClusterToLba(c);
    var s := 0;
    while s < v.g.sectorsPerCluster
      invariant 0 <= s <= v.g.sectorsPerCluster && v.g.Holds(v.disk) && newLba + v.g.sectorsPerCluster <= |v.disk|
      invariant TableAndOthersSame(v.g, old(v.disk), v.disk, [c])
      invariant forall l :: newLba <= l < newLba + s ==> v.disk[l] == if l == newLba then first else ZERO_SECTOR
    {
      TableAndOthersStep(v.g, old(v.disk), v.disk, c, newLba + s, if s == 0 then first else ZERO_SECTOR);
      v.disk := v.disk[newLba + s := if s == 0 then first else ZERO_SECTOR];
      s := s + 1;
    }
    FillEnd(v.g, v.disk, c, first);
  }

  lemma FillStart(g: Geometry, d: Disk, c: nat)
    requires g.Holds(d) && g.InRange(c)
    ensures g.Valid() && g.sectorsPerCluster > 0 && g.ClusterLba(c) + g.sectorsPerCluster <= |d|
    ensures TableAndOthersSame(g, d, d, [c])
  {
    ClusterInDisk(g, c);
  }

  lemma FillEnd(g: Geometry, d: Disk, c: nat, first: Sector)
    requires g.Holds(d) && g.InRange(c) && g.ClusterLba(c) + g.sectorsPerCluster <= |d|
    requires forall l :: g.ClusterLba(c) <= l < g.ClusterLba(c) + g.sectorsPerCluster ==> d[l] == if l == g.ClusterLba(c) then first else ZERO_SECTOR
    ensures g.sectorsPerCluster > 0 && ClusterBytes(g, d, c) == ClusterImage(g, first)
  {
    hide Times, Geometry.ClusterLba, Join;
    JoinImage(d[g.ClusterLba(c)..g.ClusterLba(c) + g.sectorsPerCluster], first);
  }

  lemma OneCluster(g: Geometry, d: Disk, c: nat)
    requires g.Holds(d) && g.InRange(c)
    ensures AllInRange(g, [c]) && Content(g, d, [c]) == ClusterBytes(g, d, c)
  {
    hide ClusterBytes;
    assert Clusters(g, d, [c])[..0] == [];
    assert Join([], ClusterSize(g)) + ClusterBytes(g, d, c) == ClusterBytes(g, d, c);
  }

  /** Bytes of a new file or directory. */
  ghost function NewContent(g: Geometry, dir: bool, c: nat, up: nat): seq<byte>
    requires g.sectorsPerCluster > 0 && c < 0x1_0000_0000 && up < 0x1_0000_0000
  {
    ClusterImage(g, if dir then DotSector(c, up) else ZERO_SECTOR)
  }

  /** Effect of a successful create in the directory whose chain starts at `p`: a free cluster `c` is now a chain
      of its own with the content of an empty file or directory, entry `k` of the directory names it, and no
      other live chain changed. */
  ghost predicate Created(g: Geometry, d0: Disk, chains0: map<nat, seq<nat>>, d: Disk, chains: map<nat, seq<nat>>,
                          p: nat, short: Name, dir: bool, up: nat, c: nat, k: nat)
  {
    && g.Holds(d0) && g.Holds(d) && p in chains0 && AllInRange(g, chains0[p])
    && |short| == 11 && c < 0x1_0000_0000 && up < 0x1_0000_0000
    && g.InRange(c) && FatOf(g, d0)[c] == 0 && c !in chains0 && chains == chains0[c := [c]]
    && Content(g, d, [c]) == NewContent(g, dir, c, up)
    && FirstAvailable(Content(g, d0, chains0[p]), k)
    && Content(g, d, chains0[p]) == WithSlot(Content(g, d0, chains0[p]), k, NewSlot(short, dir, c, 0))
    && OthersKept(g, d0, d, chains0, p, p)
    && (Mirrored(g, d0) ==> Mirrored(g, d))
  }

  /** A fresh one-cluster chain has been made: allocated, then filled. */
  lemma FreshChain(g: Geometry, d0: Disk, chains0: map<nat, seq<nat>>, d1: Disk, d2: Disk, c: nat, first: Sector)
    requires g.Holds(d0) && g.Holds(d1) && g.Holds(d2) && WellFormed(FatOf(g, d0), chains0)
    requires g.InRange(c) && FatOf(g, d0)[c] == 0 && FatOf(g, d1) == FatOf(g, d0)[c := EOC]
    requires d1[g.DataStart()..] == d0[g.DataStart()..] && d1[..g.fatStart] == d0[..g.fatStart]
    requires (Mirrored(g, d0) ==> Mirrored(g, d1)) && TableAndOthersSame(g, d1, d2, [c])
    requires ClusterBytes(g, d2, c) == ClusterImage(g, first)
    ensures c !in chains0 && WellFormed(FatOf(g, d2), chains0[c := [c]])
    ensures Content(g, d2, [c]) == ClusterImage(g, first)
    ensures (Mirrored(g, d0) ==> Mirrored(g, d2))
    ensures forall h :: h in chains0 ==> AllInRange(g, chains0[h]) && Content(g, d2, chains0[h]) == Content(g, d0, chains0[h])
    ensures forall x :: g.InRange(x) && x != c ==> ClusterBytes(g, d2, x) == ClusterBytes(g, d0, x)
  {
    hide ClusterBytes, FatOf, Mirrored, Content, ClusterImage, WellFormed;
    AllocKeepsChains(FatOf(g, d0), chains0, c);
    OneCluster(g, d2, c);
    forall x | g.InRange(x) && x != c
      ensures ClusterBytes(g, d2, x) == ClusterBytes(g, d0, x)
    {
      DataAreaSame(g, d0, d1, x);
      assert x !in [c];
    }
    forall h | h in chains0
      ensures AllInRange(g, chains0[h]) && Content(g, d2, chains0[h]) == Content(g, d0, chains0[h])
    {
      LiveChain(g, d0, chains0, h);
      assert forall i :: 0 <= i < |chains0[h]| ==> chains0[h][i] in chains0[h];
      ContentFrame(g, d0, d2, chains0[h]);
    }
  }

  /** The sector an entry is in is the same on both disks when its cluster's bytes are. */
  lemma SectorKept(g: Geometry, d: Disk, e: Disk, ch: seq<nat>, k: nat, lba: nat, off: nat)
    requires g.Holds(d) && g.Holds(e) && AllInRange(g, ch) && Located(g, ch, k, lba, off)
    requires forall i :: 0 <= i < |ch| ==> ClusterBytes(g, e, ch[i]) == ClusterBytes(g, d, ch[i])
    ensures lba < |d| == |e| && e[lba] == d[lba] && off + 32 <= 512
  {
    hide ClusterBytes, Times, Geometry.ClusterLba;
    var i: nat, n: nat :| LocatedAt(g, ch, k, lba, off, i, n);
    SlotArithmetic(g, i, n);
    ClusterSlice(g, d, ch[i], n / 16, 0, 512);
    ClusterSlice(g, e, ch[i], n / 16, 0, 512);
    assert d[lba] == d[lba][0..512] && e[lba] == e[lba][0..512];
  }

  lemma EntryReplaced(buf: Sector, off: nat, s: Slot)
    requires off + 32 <= 512
    ensures buf[..off] + s + buf[off + 32..] == Splice(buf, off, s)
  {
    SpliceRun(buf, off, s);
  }

  /** fat_create. */
  method Create(v: Volume, parent: Node, name: Name, dir: bool, parentIsRoot: bool) returns (child: Node?)
    requires v.Valid() && parent.cluster in v.chains
    modifies v`disk, v`chains, parent`children
    ensures v.Valid() && parent.cluster in v.chains && AllInRange(v.g, old(v.chains)[parent.cluster])
    ensures child == null ==> v.disk == old(v.disk) && v.chains == old(v.chains) && parent.children == old(parent.children)
    ensures child == null <==> To83(name) == None || NoneAvailable(Content(v.g, old(v.disk), old(v.chains)[parent.cluster]))
                               || NoFree(FatOf(v.g, old(v.disk)))
    ensures child != null ==> fresh(child) && parent.children == [child] + old(parent.children)
    ensures child != null ==> child.name == name && child.size == 0 && child.dir == dir && child.children == []
    ensures child != null ==> Located(v.g, old(v.chains)[parent.cluster], child.slot, child.dirLba, child.dirOff)
    ensures child != null ==> To83(name).Some?
    ensures child != null ==> Created(v.g, old(v.disk), old(v.chains), v.disk, v.chains, parent.cluster, To83(name).value, dir,
                                      if parentIsRoot then 0 else parent.cluster, child.cluster, child.slot)
  {
    hide ClusterBytes, FatOf, Mirrored, Content, WellFormed, Times, NewSlot, Located, WithSlot, ClusterImage, To83, NoneAvailable, NoFree, SlotAt,
         TableAndOthersSame, FirstAvailable, Geometry.DataStart, DotSector, OthersKept;
    child := null;
    AllLiveInRange(v.g, v.disk, v.chains, parent.cluster);
    ClusterNumberFits(v.g, v.disk, v.chains, parent.cluster);
    ghost var d0, chains0, p := v.disk, v.chains, parent.cluster;
    var short := NameTo83(name);
    if short == None {
      return;
    }
    var found, lba, off, buf, k := FindAvailable(v, parent.cluster);
    if !found {
      return;
    }
    AvailableExcludesNone(Content(v.g, d0, chains0[p]), k);
    var newCluster := v.AllocCluster();
    if newCluster == 0 {
      return;
    }
    FreeExcludesNone(FatOf(v.g, d0), newCluster);
    ghost var d1 := v.disk;
    var up := if parentIsRoot then 0 else parent.cluster;
    var first := if dir then DotSector(newCluster, up) else ZERO_SECTOR;
    FillCluster(v, newCluster, first);
    ghost var d2 := v.disk;
    FreshChain(v.g, d0, chains0, d1, d2, newCluster, first);
    v.chains := v.chains[newCluster := [newCluster]];
    LiveKept(v.g, d0, d2, chains0, p, newCluster);
    SectorKept(v.g, d0, d2, chains0[p], k, lba, off);
    var s := NewSlot(short.value, dir, newCluster, 0);
    EntryWritten(v.g, d2, v.chains, p, k, lba, off, s);
    EntryReplaced(buf, off, s);
    v.disk := v.disk[lba := buf[..off] + s + buf[off + 32..]];
    CreatedContents(v.g, d0, chains0, d2, v.disk, p, newCluster);
    child := new Node(name, 0, dir, newCluster, lba, off, k);
    parent.children := [child] + parent.children;
  }

  lemma ClusterNumberFits(g: Geometry, d: Disk, chains: map<nat, seq<nat>>, h: nat)
    requires g.Holds(d) && WellFormed(FatOf(g, d), chains) && h in chains
    ensures g.InRange(h) && g.clusters + 2 < 0x1_0000_0000
  {
    LiveChain(g, d, chains, h);
  }

  lemma AvailableExcludesNone(content: seq<byte>, k: nat)
    requires FirstAvailable(content, k)
    ensures !NoneAvailable(content)
  {
    assert Available(SlotAt(content, k));
  }

  lemma FreeExcludesNone(fat: Table, c: nat)
    requires 2 <= c < |fat| && fat[c] == 0
    ensures !NoFree(fat)
  {
    assert fat[c] == 0;
  }

  lemma LiveKept(g: Geometry, d: Disk, e: Disk, chains: map<nat, seq<nat>>, p: nat, c: nat)
    requires g.Holds(d) && g.Holds(e) && WellFormed(FatOf(g, d), chains) && p in chains && AllInRange(g, chains[p])
    requires g.InRange(c) && FatOf(g, d)[c] == 0
    requires forall x :: g.InRange(x) && x != c ==> ClusterBytes(g, e, x) == ClusterBytes(g, d, x)
    ensures forall i :: 0 <= i < |chains[p]| ==> ClusterBytes(g, e, chains[p][i]) == ClusterBytes(g, d, chains[p][i])
  {
    hide ClusterBytes, FatOf;
    AllocKeepsChains(FatOf(g, d), chains, c);
    assert forall i :: 0 <= i < |chains[p]| ==> chains[p][i] in chains[p];
  }

  lemma CreatedContents(g: Geometry, d0: Disk, chains0: map<nat, seq<nat>>, d2: Disk, d3: Disk, p: nat, c: nat)
    requires g.Holds(d0) && g.Holds(d2) && g.Holds(d3) && c !in chains0 && p in chains0 && g.InRange(c)
    requires forall h :: h in chains0 ==> AllInRange(g, chains0[h]) && Content(g, d2, chains0[h]) == Content(g, d0, chains0[h])
    requires OthersKept(g, d2, d3, chains0[c := [c]], p, p)
    ensures OthersKept(g, d0, d3, chains0, p, p)
    ensures AllInRange(g, [c]) && Content(g, d3, [c]) == Content(g, d2, [c])
  {
    hide Content;
    var chains := chains0[c := [c]];
    assert c in chains && chains[c] == [c];
    forall h | h in chains0 && h != p
      ensures Content(g, d3, chains0[h]) == Content(g, d0, chains0[h])
    {
      assert h in chains && chains[h] == chains0[h];
    }
  }
}
