/** The FAT32 file allocation table as fs/fat.c reads and writes it: 28-bit entries inside 512-byte
    sectors, one image per FAT copy, and the table seen as a sequence of next-cluster numbers. */
module FatTable {
  import opened Bytes

  type Disk = seq<Sector>

  /** Entries from this value on end a chain. */
  const EOC := 0x0FFF_FFF8

  /** Volume layout: reserved sectors, FAT copies, a fixed root area, then `clusters` data clusters. */
  datatype Geometry = Geometry(fatStart: nat, sectorsPerFat: nat, fatCount: nat, rootSectors: nat,
                               sectorsPerCluster: nat, totalSectors: nat, clusters: nat)
  {
    ghost function CopyStart(i: nat): nat { fatStart + Times(i, sectorsPerFat) }

    ghost function DataStart(): nat { CopyStart(fatCount) + rootSectors }

    /** First sector of a data cluster. */
    ghost function ClusterLba(c: nat): nat
      requires 2 <= c
    {
      DataStart() + Times(c - 2, sectorsPerCluster)
    }

    /** `clusters` whole clusters fill the data area; each has an entry, and none reads as an end mark. */
    ghost predicate Valid() {
      && fatCount > 0 && sectorsPerCluster > 0
      && DataStart() + Times(clusters, sectorsPerCluster) <= totalSectors < DataStart() + Times(clusters + 1, sectorsPerCluster)
      && clusters + 2 <= sectorsPerFat * 128
      && clusters + 2 <= EOC
      && totalSectors <= 0xFFFF_FFFF
    }

    ghost predicate Holds(d: Disk) { Valid() && |d| == totalSectors }

    ghost predicate InRange(c: nat) { 2 <= c < clusters + 2 }
  }

  /** Every sector of every copy lies before the data area, and copies do not overlap. */
  lemma CopySectorInFat(g: Geometry, i: nat, s: nat)
    requires g.Valid() && i < g.fatCount && s < g.sectorsPerFat
    ensures g.CopyStart(i) + s < g.CopyStart(g.fatCount) <= g.DataStart() <= g.totalSectors
  {
    TimesMono(i, g.fatCount, g.sectorsPerFat);
  }

  /** Raw 32-bit entry of cluster `c` in the first copy. */
  function RawEntry(g: Geometry, d: Disk, c: nat): nat
    requires g.fatStart + c * 4 / 512 < |d|
  {
    Le32(d[g.fatStart + c * 4 / 512], c * 4 % 512)
  }

  lemma EntrySector(g: Geometry, c: nat)
    requires g.Valid() && c < g.clusters + 2
    ensures c * 4 / 512 < g.sectorsPerFat
    ensures g.fatStart + c * 4 / 512 < g.DataStart() <= g.totalSectors
  {
    CopySectorInFat(g, 0, c * 4 / 512);
  }

  /** The table: position `c` holds the 28-bit entry of cluster `c`. */
  ghost function FatOf(g: Geometry, d: Disk): (fat: seq<nat>)
    requires g.Holds(d)
    ensures |fat| == g.clusters + 2
    ensures forall c :: 0 <= c < |fat| ==> 0 <= fat[c] < 0x1000_0000
  {
    seq(g.clusters + 2, c requires 0 <= c < g.clusters + 2 => EntrySector(g, c); RawEntry(g, d, c) % 0x1000_0000)
  }

  /** The table depends on the sectors before the data area only. */
  lemma FatOfPrefix(g: Geometry, d: Disk, e: Disk)
    requires g.Holds(d) && g.Holds(e)
    requires d[..g.DataStart()] == e[..g.DataStart()]
    ensures FatOf(g, d) == FatOf(g, e)
  {
    forall c | 0 <= c < g.clusters + 2
      ensures FatOf(g, d)[c] == FatOf(g, e)[c]
    {
      EntrySector(g, c);
      var l := g.fatStart + c * 4 / 512;
      assert d[l] == d[..g.DataStart()][l] == e[..g.DataStart()][l] == e[l];
    }
  }

  /** `buf` written at relative sector `s` of the first `n` copies. */
  ghost function WriteCopies(g: Geometry, d: Disk, s: nat, buf: Sector, n: nat): (r: Disk)
    requires g.Holds(d) && s < g.sectorsPerFat && n <= g.fatCount
    ensures g.Holds(r)
  {
    if n == 0 then d
    else
      CopySectorInFat(g, n - 1, s);
      WriteCopies(g, d, s, buf, n - 1)[g.CopyStart(n - 1) + s := buf]
  }

  lemma {:induction false} WriteCopiesAt(g: Geometry, d: Disk, s: nat, buf: Sector, n: nat, i: nat, t: nat)
    requires g.Holds(d) && s < g.sectorsPerFat && n <= g.fatCount && i < g.fatCount && t < g.sectorsPerFat
    ensures g.CopyStart(i) + t < |d|
    ensures WriteCopies(g, d, s, buf, n)[g.CopyStart(i) + t]
         == if i < n && t == s then buf else d[g.CopyStart(i) + t]
    decreases n
  {
    CopySectorInFat(g, i, t);
    if n > 0 {
      CopySectorInFat(g, n - 1, s);
      WriteCopiesAt(g, d, s, buf, n - 1, i, t);
      if i < n - 1 {
        TimesMono(i, n - 1, g.sectorsPerFat);
      } else if n - 1 < i {
        TimesMono(n - 1, i, g.sectorsPerFat);
      }
    }
  }

  lemma {:induction false} WriteCopiesFrame(g: Geometry, d: Disk, s: nat, buf: Sector, n: nat)
    requires g.Holds(d) && s < g.sectorsPerFat && n <= g.fatCount
    ensures WriteCopies(g, d, s, buf, n)[g.DataStart()..] == d[g.DataStart()..]
    ensures WriteCopies(g, d, s, buf, n)[..g.fatStart] == d[..g.fatStart]
  {
    if n > 0 {
      CopySectorInFat(g, n - 1, s);
      WriteCopiesFrame(g, d, s, buf, n - 1);
    }
  }

  /** The entry value fat_set_cluster stores: new low 28 bits under the old top four. */
  function Merged(raw: nat, v: nat): (r: nat)
    requires raw < 0x1_0000_0000
    ensures r < 0x1_0000_0000
    ensures r % 0x1000_0000 == v % 0x1000_0000
    ensures r / 0x1000_0000 == raw / 0x1000_0000
  {
    raw / 0x1000_0000 * 0x1000_0000 + v % 0x1000_0000
  }

  /** The sector image fat_set_cluster writes to every copy. */
  ghost function EntrySectorAfter(g: Geometry, d: Disk, c: nat, v: nat): Sector
    requires g.Holds(d) && c < g.clusters + 2
  {
    EntrySector(g, c);
    PutLe32(d[g.fatStart + c * 4 / 512], c * 4 % 512, Merged(RawEntry(g, d, c), v))
  }

  /** The disk after fat_set_cluster(c, v). */
  ghost function SetEntry(g: Geometry, d: Disk, c: nat, v: nat): (r: Disk)
    requires g.Holds(d) && c < g.clusters + 2
    ensures g.Holds(r)
  {
    EntrySector(g, c);
    WriteCopies(g, d, c * 4 / 512, EntrySectorAfter(g, d, c, v), g.fatCount)
  }

  /** One entry field inside the written sector image. */
  lemma EntrySectorAfterAt(g: Geometry, d: Disk, c: nat, v: nat, x: nat)
    requires g.Holds(d) && c < g.clusters + 2 && x < g.clusters + 2
    requires x * 4 / 512 == c * 4 / 512
    ensures g.fatStart + x * 4 / 512 < |d|
    ensures Le32(EntrySectorAfter(g, d, c, v), x * 4 % 512) == if x == c then Merged(RawEntry(g, d, c), v) else RawEntry(g, d, x)
  {
    EntrySector(g, c);
    var o, p := c * 4 % 512, x * 4 % 512;
    if x != c {
      assert p + 4 <= o || o + 4 <= p;
      PutLe32Elsewhere(d[g.fatStart + c * 4 / 512], o, Merged(RawEntry(g, d, c), v), p);
    }
  }

  /** Read after write on raw entries: entry `c` gets the merged value, every other raw entry is kept. */
  lemma SetEntryRaw(g: Geometry, d: Disk, c: nat, v: nat, x: nat)
    requires g.Holds(d) && c < g.clusters + 2 && x < g.clusters + 2
    ensures g.fatStart + x * 4 / 512 < |d|
    ensures g.fatStart + c * 4 / 512 < |d|
    ensures RawEntry(g, SetEntry(g, d, c, v), x) == if x == c then Merged(RawEntry(g, d, c), v) else RawEntry(g, d, x)
  {
    EntrySector(g, c);
    EntrySector(g, x);
    WriteCopiesAt(g, d, c * 4 / 512, EntrySectorAfter(g, d, c, v), g.fatCount, 0, x * 4 / 512);
    if x * 4 / 512 == c * 4 / 512 {
      EntrySectorAfterAt(g, d, c, v, x);
    }
  }

  /** fat_set_cluster on the table is one sequence update, on the value's low 28 bits. */
  lemma SetEntryFat(g: Geometry, d: Disk, c: nat, v: nat)
    requires g.Holds(d) && c < g.clusters + 2
    ensures FatOf(g, SetEntry(g, d, c, v)) == FatOf(g, d)[c := v % 0x1000_0000]
  {
    var e := SetEntry(g, d, c, v);
    forall x | 0 <= x < g.clusters + 2
      ensures FatOf(g, e)[x] == FatOf(g, d)[c := v % 0x1000_0000][x]
    {
      SetEntryRaw(g, d, c, v, x);
    }
  }

  /** Outside the copies nothing moves: reserved sectors, fixed root area and data area. */
  lemma SetEntryFrame(g: Geometry, d: Disk, c: nat, v: nat)
    requires g.Holds(d) && c < g.clusters + 2
    ensures SetEntry(g, d, c, v)[g.DataStart()..] == d[g.DataStart()..]
    ensures SetEntry(g, d, c, v)[..g.fatStart] == d[..g.fatStart]
  {
    EntrySector(g, c);
    WriteCopiesFrame(g, d, c * 4 / 512, EntrySectorAfter(g, d, c, v), g.fatCount);
  }

  /** All FAT copies hold the same sectors. */
  ghost predicate Mirrored(g: Geometry, d: Disk)
    requires g.Holds(d)
  {
    forall i: nat, t: nat {:trigger CopySector(g, d, i, t)} :: i < g.fatCount && t < g.sectorsPerFat ==> CopySector(g, d, i, t) == CopySector(g, d, 0, t)
  }

  ghost function CopySector(g: Geometry, d: Disk, i: nat, t: nat): Sector
    requires g.Holds(d) && i < g.fatCount && t < g.sectorsPerFat
  {
    CopySectorInFat(g, i, t);
    d[g.CopyStart(i) + t]
  }

  lemma SetEntryMirrors(g: Geometry, d: Disk, c: nat, v: nat)
    requires g.Holds(d) && c < g.clusters + 2 && Mirrored(g, d)
    ensures Mirrored(g, SetEntry(g, d, c, v))
  {
    EntrySector(g, c);
    var s := c * 4 / 512;
    var buf := EntrySectorAfter(g, d, c, v);
    var e := SetEntry(g, d, c, v);
    forall i: nat, t: nat | i < g.fatCount && t < g.sectorsPerFat
      ensures CopySector(g, e, i, t) == CopySector(g, e, 0, t)
    {
      WriteCopiesAt(g, d, s, buf, g.fatCount, i, t);
      WriteCopiesAt(g, d, s, buf, g.fatCount, 0, t);
      assert CopySector(g, d, i, t) == CopySector(g, d, 0, t);
    }
  }

  lemma MirroredPrefix(g: Geometry, d: Disk, e: Disk)
    requires g.Holds(d) && g.Holds(e)
    requires d[..g.DataStart()] == e[..g.DataStart()]
    ensures Mirrored(g, d) ==> Mirrored(g, e)
  {
    forall i: nat, t: nat | i < g.fatCount && t < g.sectorsPerFat
      ensures CopySector(g, e, i, t) == CopySector(g, d, i, t)
    {
      CopySectorInFat(g, i, t);
      var l := g.CopyStart(i) + t;
      assert d[l] == d[..g.DataStart()][l] == e[..g.DataStart()][l] == e[l];
    }
  }
}
