/** A mounted FAT32 volume: table access, allocation, freeing, and byte-granular file reads and writes,
    all by reading and rewriting whole sectors. */
module FatVolume {
  import opened Bytes
  import opened FatTable
  import opened FatChains
  import opened FatContent

  /** Reserved sectors and the bytes of every cluster outside `ch` are the same on both disks. */
  ghost predicate SameOutside(g: Geometry, d: Disk, e: Disk, ch: seq<nat>)
    requires g.Holds(d) && g.Holds(e)
  {
    && e[..g.fatStart] == d[..g.fatStart]
    && (forall c :: g.InRange(c) && c !in ch ==> ClusterBytes(g, e, c) == ClusterBytes(g, d, c))
  }

  /** The follow step both loops of fat_write share. `next` is the cluster behind position `i` of the chain: the one
      already there, or a free one now linked behind the end. It is 0, with nothing changed, when the chain has
      ended and no cluster is free. */
  ghost predicate Followed(g: Geometry, d: Disk, chains: map<nat, seq<nat>>, e: Disk, chains': map<nat, seq<nat>>, head: nat, i: nat, next: nat)
  {
    && g.Holds(d) && g.Holds(e) && head in chains && head in chains'
    && var ch, ch' := chains[head], chains'[head];
    && chains' == chains[head := ch']
    && (if next == 0 then e == d && ch' == ch && i + 1 == |ch| && NoFree(FatOf(g, d))
        else i + 1 < |ch'| && ch'[i + 1] == next)
    && (ch' == ch || (ch' == ch + [next] && i + 1 == |ch|))
    && Grew(FatOf(g, d), ch, FatOf(g, e), ch')
    && e[g.DataStart()..] == d[g.DataStart()..] && e[..g.fatStart] == d[..g.fatStart]
    && (Mirrored(g, d) ==> Mirrored(g, e))
  }

  class Volume {
    const g: Geometry
    var disk: Disk
    /** The chains of live files and directories, by first cluster. */
    ghost var chains: map<nat, seq<nat>>

    ghost predicate Valid()
      reads this
    {
      g.Holds(disk) && WellFormed(FatOf(g, disk), chains)
    }

    constructor (g: Geometry, disk: Disk, ghost chains: map<nat, seq<nat>>)
      requires g.Holds(disk) && WellFormed(FatOf(g, disk), chains)
      ensures Valid() && this.g == g && this.disk == disk && this.chains == chains
    {
      this.g := g;
      this.disk := disk;
      this.chains := chains;
    }

    method NextCluster(cluster: nat) returns (val: nat)
      requires g.Holds(disk) && cluster < g.clusters + 2
      ensures val == FatOf(g, disk)[cluster]
    {
      EntrySector(g, cluster);
      var fatOffset := cluster * 4;
      var buf := disk[g.fatStart + fatOffset / 512];
      val := Le32(buf, fatOffset % 512) % 0x1000_0000;
    }

    method SetCluster(cluster: nat, value: nat)
      requires g.Holds(disk) && cluster < g.clusters + 2
      modifies this`disk
      ensures g.Holds(disk) && disk == SetEntry(g, old(disk), cluster, value)
      ensures FatOf(g, disk) == FatOf(g, old(disk))[cluster := value % 0x1000_0000]
      ensures disk[g.DataStart()..] == old(disk)[g.DataStart()..] && disk[..g.fatStart] == old(disk)[..g.fatStart]
      ensures Mirrored(g, old(disk)) ==> Mirrored(g, disk)
    {
      hide Product, Mirrored, Times, Le32, Splice, Le32Bytes;
      EntrySector(g, cluster);
      ghost var d := disk;
      var fatOffset := cluster * 4;
      var buf: Sector := disk[g.fatStart + fatOffset / 512];
      var raw := Le32(buf, fatOffset % 512);
      buf := PutLe32(buf, fatOffset % 512, raw / 0x1000_0000 * 0x1000_0000 + value % 0x1000_0000);
      var i := 0;
      while i < g.fatCount
        invariant 0 <= i <= g.fatCount
        invariant disk == WriteCopies(g, d, fatOffset / 512, buf, i)
      {
        CopySectorInFat(g, i, fatOffset / 512);
        var sector := g.fatStart + Product(i, g.sectorsPerFat) + fatOffset / 512;
        disk := disk[sector := buf];
        i := i + 1;
      }
      SetEntryFat(g, d, cluster, value);
      SetEntryFrame(g, d, cluster, value);
      if Mirrored(g, d) {
        SetEntryMirrors(g, d, cluster, value);
      }
    }

    method TotalClusters() returns (total: nat)
      requires g.Valid()
      ensures total == g.clusters
    {
      hide Product;
      var dataStart := g.fatStart + Product(g.fatCount, g.sectorsPerFat) + g.rootSectors;
      total := (g.totalSectors - dataStart) / g.sectorsPerCluster;
      QuotientIs(g.totalSectors - dataStart, g.sectorsPerCluster, g.clusters);
    }

    /** First cluster with a zero entry, marked as a one-cluster chain; 0 exactly when there is none. */
    method AllocCluster() returns (c: nat)
      requires g.Holds(disk)
      modifies this`disk
      ensures g.Holds(disk)
      ensures c == 0 ==> disk == old(disk) && NoFree(FatOf(g, disk))
      ensures c != 0 ==> g.InRange(c) && FatOf(g, old(disk))[c] == 0 && FatOf(g, disk) == FatOf(g, old(disk))[c := EOC]
      ensures forall x :: 2 <= x < c ==> FatOf(g, old(disk))[x] != 0
      ensures disk[g.DataStart()..] == old(disk)[g.DataStart()..] && disk[..g.fatStart] == old(disk)[..g.fatStart]
      ensures Mirrored(g, old(disk)) ==> Mirrored(g, disk)
    {
      var total := TotalClusters();
      var buf := ZERO_SECTOR;
      var loadedSector := 0xFFFF_FFFF;
      c := 2;
      while c < total + 2
        invariant 2 <= c <= total + 2
        invariant loadedSector == 0xFFFF_FFFF || (loadedSector < |disk| && buf == disk[loadedSector])
        invariant disk == old(disk)
        invariant forall x :: 2 <= x < c ==> FatOf(g, disk)[x] != 0
      {
        EntrySector(g, c);
        var fatOffset := c * 4;
        var fatSector := g.fatStart + fatOffset / 512;
        if fatSector != loadedSector {
          buf := disk[fatSector];
          loadedSector := fatSector;
        }
        var val := Le32(buf, fatOffset % 512) % 0x1000_0000;
        assert val == FatOf(g, disk)[c];
        if val == 0 {
          SetCluster(c, EOC);
          return;
        }
        c := c + 1;
      }
      c := 0;
    }

    /** Frees whatever hangs off `cluster`, also on tables with cycles. */
    method FreeClusterChain(cluster: nat)
      requires g.Holds(disk) && WalkInRange(FatOf(g, disk), cluster)
      modifies this`disk
      ensures g.Holds(disk) && FatOf(g, disk) == Freed(FatOf(g, old(disk)), cluster)
      ensures disk[g.DataStart()..] == old(disk)[g.DataStart()..] && disk[..g.fatStart] == old(disk)[..g.fatStart]
      ensures Mirrored(g, old(disk)) ==> Mirrored(g, disk)
    {
      hide FatOf, SetEntry, Mirrored, Freed, WalkInRange, FreeMeasure;
      var c: nat := cluster;
      while c >= 2 && c < EOC
        invariant g.Holds(disk) && WalkInRange(FatOf(g, disk), c)
        invariant Freed(FatOf(g, disk), c) == Freed(FatOf(g, old(disk)), cluster)
        invariant disk[g.DataStart()..] == old(disk)[g.DataStart()..] && disk[..g.fatStart] == old(disk)[..g.fatStart]
        invariant Mirrored(g, old(disk)) ==> Mirrored(g, disk)
        decreases FreeMeasure(FatOf(g, disk)), if 2 <= c < EOC then 1 else 0
      {
        FreedStep(FatOf(g, disk), c);
        var next := NextCluster(c);
        SetCluster(c, 0);
        c := next;
      }
      FreedEnd(FatOf(g, disk), c);
    }

    method ClusterToLba(cluster: nat) returns (lba: nat)
      requires g.Valid() && g.InRange(cluster)
      ensures lba == g.ClusterLba(cluster)
    {
      hide Product, Times;
      var dataStart := g.fatStart + Product(g.fatCount, g.sectorsPerFat) + g.rootSectors;
      lba := dataStart + Product(cluster - 2, g.sectorsPerCluster);
    }

    /** The follow step both write loops share: the next cluster of the chain, or a fresh one linked behind its
        end. Returns 0, with nothing changed, when the chain has ended and no cluster is free. */
    method NextOrGrow(cluster: nat, ghost head: nat, ghost i: nat) returns (next: nat)
      requires Valid() && head in chains && i < |chains[head]| && chains[head][i] == cluster
      modifies this`disk, this`chains
      ensures Valid() && Followed(g, old(disk), old(chains), disk, chains, head, i, next)
    {
      hide FatOf, SetEntry, Mirrored, Times, WellFormed, Grew, NoFree;
      ghost var ch := chains[head];
      ghost var fat := FatOf(g, disk);
      FollowOrEnd(fat, chains, head, i);
      GrewNothing(fat, ch);
      next := NextCluster(cluster);
      if next >= EOC || next == 0 {
        next := AllocCluster();
        if next == 0 {
          return;
        }
        GrowKeepsChains(fat, chains, head, next);
        SetCluster(cluster, next);
        chains := chains[head := ch + [next]];
      }
    }
  }

  lemma QuotientIs(n: nat, k: nat, q: nat)
    requires k > 0 && Times(q, k) <= n < Times(q, k) + k
    ensures n / k == q
  {
    TimesIsProduct(q, k);
    var m := n / k - q;
    assert m * k == n / k * k - q * k;
    assert n == n / k * k + n % k;
    MultipleGrows(m, k);
  }

  lemma MultipleGrows(m: int, k: int)
    requires k > 0
    ensures m >= 1 ==> m * k >= k
    ensures m <= -1 ==> m * k <= -k
  {
    if m >= 1 {
      assert (m - 1) * k >= 0;
    } else if m <= -1 {
      assert (-1 - m) * k >= 0;
    }
  }
}
