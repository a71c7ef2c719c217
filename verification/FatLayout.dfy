/** Where things are on disk, in sector and byte numbers: every byte of a chain and every entry of the table. */
module FatLayout {
  import opened Bytes
  import opened FatTable
  import opened FatContent
  import opened FatNames
  import opened FatDirent

  /** Sector `s` of the piece of `size` bytes that ends behind all bytes of the sectors before it. */
  lemma {:induction false} JoinAt(parts: seq<seq<byte>>, size: nat, k: nat)
    requires Uniform(parts, size) && size > 0 && k < Times(|parts|, size)
    ensures k / size < |parts| && Join(parts, size)[k] == parts[k / size][k % size]
  {
    var i, w := k / size, k % size;
    TimesIsProduct(|parts|, size);
    PieceOf(|parts|, size, k);
    TimesIsProduct(i, size);
    JoinSlice(parts, size, i, w, 1);
    assert Join(parts, size)[k] == Join(parts, size)[k..k + 1][0] == parts[i][w..w + 1][0];
  }

  lemma PieceOf(n: nat, size: nat, k: nat)
    requires size > 0 && k < n * size
    ensures 0 <= k / size < n && k == k / size * size + k % size
  {
    var q := k / size;
    Quotient(k, size);
    if q >= n {
      Larger(q, n, size);
    }
  }

  lemma Larger(q: int, n: int, size: nat)
    requires q >= n
    ensures q * size >= n * size
  {
    assert (q - n) * size >= 0;
  }

  /** Byte `k` of a chain's content, in the sector and at the offset its cluster numbers say: data clusters follow the
      reserved sectors, the copies of the table and the root area, the first of them numbered 2. */
  lemma BytePlaced(g: Geometry, d: Disk, ch: seq<nat>, k: nat, size: nat)
    requires g.Holds(d) && AllInRange(g, ch) && k < |Content(g, d, ch)| && size == 512 * g.sectorsPerCluster
    ensures size > 0 && 0 <= k / size < |ch|
    ensures var lba := g.fatStart + g.fatCount * g.sectorsPerFat + g.rootSectors + (ch[k / size] - 2) * g.sectorsPerCluster + k % size / 512;
            0 <= lba < |d| && Content(g, d, ch)[k] == d[lba][k % 512]
  {
    hide Join, Times, Content, ClusterBytes;
    PieceAt(g, d, ch, k, size);
    SectorPlaced(g, d, ch[k / size], k % size);
    SectorOffset(k, size, g.sectorsPerCluster);
  }

  lemma PieceAt(g: Geometry, d: Disk, ch: seq<nat>, k: nat, size: nat)
    requires g.Holds(d) && AllInRange(g, ch) && k < |Content(g, d, ch)| && size == ClusterSize(g) && size > 0
    ensures 0 <= k / size < |ch| && Content(g, d, ch)[k] == ClusterBytes(g, d, ch[k / size])[k % size]
  {
    hide Join, Times, ClusterBytes, ClusterSize;
    JoinAt(Clusters(g, d, ch), size, k);
  }

  lemma SectorOffset(k: nat, size: nat, n: nat)
    requires size == 512 * n && n > 0
    ensures k % size % 512 == k % 512
  {
    var q, r := k / size, k % size;
    Quotient(k, size);
    Regrouped(q, n);
    WholeSectors(q * n, r);
  }

  lemma Quotient(k: nat, size: nat)
    requires size > 0
    ensures k == k / size * size + k % size && k / size >= 0
  {
  }

  lemma Regrouped(q: int, n: int)
    ensures q * (512 * n) == 512 * (q * n)
  {
  }

  lemma WholeSectors(m: nat, r: nat)
    ensures (512 * m + r) % 512 == r % 512
  {
  }

  lemma SectorPlaced(g: Geometry, d: Disk, c: nat, w: nat)
    requires g.Holds(d) && g.InRange(c) && w < 512 * g.sectorsPerCluster
    ensures var lba := g.fatStart + g.fatCount * g.sectorsPerFat + g.rootSectors + (c - 2) * g.sectorsPerCluster + w / 512;
            0 <= lba < |d| && ClusterBytes(g, d, c)[w] == d[lba][w % 512]
  {
    hide Join, Times;
    ClusterInDisk(g, c);
    TimesIsProduct(g.sectorsPerCluster, 512);
    TimesIsProduct(g.fatCount, g.sectorsPerFat);
    TimesIsProduct(c - 2, g.sectorsPerCluster);
    JoinAt(d[g.ClusterLba(c)..g.ClusterLba(c) + g.sectorsPerCluster], 512, w);
  }

  /** Entry `c` of the table is the low 28 bits of the four bytes at `4 * c` behind the reserved sectors, lowest first. */
  lemma EntryPlaced(g: Geometry, d: Disk, c: nat)
    requires g.Holds(d) && c < g.clusters + 2
    ensures var lba, o := g.fatStart + 4 * c / 512, 4 * c % 512;
            && o + 4 <= 512 && lba < |d|
            && var s := d[lba];
            && FatOf(g, d)[c] == s[o] as int + 0x100 * s[o + 1] as int + 0x1_0000 * s[o + 2] as int + 0x100_0000 * (s[o + 3] as int % 16)
  {
    EntrySector(g, c);
  }

  /** The sectors of copy `i` of the table, and that copies that agree hold the same entries. */
  lemma CopyPlaced(g: Geometry, i: nat)
    ensures g.CopyStart(i) == g.fatStart + i * g.sectorsPerFat
  {
    TimesIsProduct(i, g.sectorsPerFat);
  }

  /** What the 32 bytes of entry `k` say: name, attributes, first cluster in two halves, size. */
  ghost predicate Says(content: seq<byte>, k: nat, name: Name, dir: bool, cluster: nat, size: nat)
    requires 32 * k + 32 <= |content|
  {
    var s := content[32 * k..32 * k + 32];
    && name == Trim(s[..11]) && dir == (s[11] as int / 16 % 2 == 1)
    && cluster == s[26] as int + 0x100 * s[27] as int + 0x1_0000 * s[20] as int + 0x100_0000 * s[21] as int
    && size == s[28] as int + 0x100 * s[29] as int + 0x1_0000 * s[30] as int + 0x100_0000 * s[31] as int
  }

  /** An entry is listed exactly if no entry up to it starts with a zero, it is not deleted, and its attributes make it
      neither a volume label nor a part of a long name. */
  lemma ListedIff(content: seq<byte>, e: Entry)
    ensures e in Listing(content) <==>
            && 32 * e.slot + 32 <= |content| && (forall j :: 0 <= j <= e.slot ==> content[32 * j] != 0)
            && content[32 * e.slot] != 0xE5 && content[32 * e.slot + 11] as int / 8 % 2 == 0
            && Says(content, e.slot, e.name, e.dir, e.cluster, e.size)
  {
    ListingHas(content, e);
    var n := LiveEnd(content);
    assert forall j :: 0 <= j < n ==> SlotAt(content, j)[0] == content[32 * j];
    assert n < SlotCount(content) ==> SlotAt(content, n)[0] == content[32 * n];
  }

  /** The 32 bytes of a new entry. */
  lemma NewSlotBytes(short: Name, dir: bool, cluster: nat, size: nat, k: nat)
    requires |short| == 11 && cluster < 0x1_0000_0000 && size < 0x1_0000_0000
    ensures var r := NewSlot(short, dir, cluster, size);
            && r[..11] == short && r[11] == (if dir then 0x10 else 0x20) && (12 <= k < 20 || 22 <= k < 26 ==> r[k] == 0)
            && Says(r, 0, Trim(short), dir, cluster, size)
  {
    hide Trim;
    NewSlotSays(short, dir, cluster, size);
    var r := NewSlot(short, dir, cluster, size);
    assert r[0..32] == r;
  }

  /** A cluster at the end of a chain is marked with 0FFFFFF8, and a free one with 0. */
  lemma MarksAre(g: Geometry, d: Disk, c: nat)
    requires g.Holds(d) && c < g.clusters + 2
    ensures FatOf(g, SetEntry(g, d, c, EOC))[c] == 0x0FFF_FFF8 && FatOf(g, SetEntry(g, d, c, 0))[c] == 0
  {
    hide SetEntry, FatOf;
    SetEntryFat(g, d, c, EOC);
    SetEntryFat(g, d, c, 0);
  }
}
