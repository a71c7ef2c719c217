/** The entry-by-entry walks over a directory that fat_create and fat_unlink start with. */
module FatLookup {
  import opened Bytes
  import opened FatTable
  import opened FatChains
  import opened FatContent
  import opened FatVolume
  import opened FatFile
  import opened FatNames
  import opened FatDirent
  import opened FatDirectory

  /** Entry `e` of the cluster at `lba`, through the one-sector buffer that is refilled at sector starts. */
  method LoadEntry(v: Volume, lba: nat, e: nat, buf: Sector) returns (r: Sector, s: Slot)
    requires lba + e / 16 < |v.disk|
    requires e > 0 ==> buf == v.disk[lba + (e - 1) / 16]
    ensures r == v.disk[lba + e / 16] && s == r[e % 16 * 32..e % 16 * 32 + 32]
  {
    r := buf;
    var sector, off := e * 32 / 512, e * 32 % 512;
    if sector == 0 || off == 0 {
      r := v.disk[lba + sector];
    }
    s := r[off..off + 32];
  }

  /** The walk is at entry `e` of cluster number `i` of the live chain of `head`, or behind its end. */
  ghost predicate At(g: Geometry, d: Disk, chains: map<nat, seq<nat>>, head: nat, cluster: nat, i: nat, k: nat)
  {
    && g.Holds(d) && WellFormed(FatOf(g, d), chains) && head in chains && AllInRange(g, chains[head])
    && i <= |chains[head]| && k == Times(i, EntriesPerCluster(g))
    && (if i < |chains[head]| then chains[head][i] == cluster < EOC else cluster >= EOC)
  }

  lemma AtStart(g: Geometry, d: Disk, chains: map<nat, seq<nat>>, head: nat)
    requires g.Holds(d) && WellFormed(FatOf(g, d), chains) && head in chains
    ensures At(g, d, chains, head, head, 0, 0)
  {
    LiveChain(g, d, chains, head);
  }

  /** Entry `e` there, with its place. */
  lemma AtEntry(g: Geometry, d: Disk, chains: map<nat, seq<nat>>, head: nat, cluster: nat, i: nat, k: nat, e: nat)
    requires At(g, d, chains, head, cluster, i, k) && cluster < EOC && e < EntriesPerCluster(g)
    ensures g.Valid() && g.InRange(cluster) && g.ClusterLba(cluster) + e / 16 < |d| && k + e < SlotCount(Content(g, d, chains[head]))
    ensures SlotAt(Content(g, d, chains[head]), k + e) == d[g.ClusterLba(cluster) + e / 16][e % 16 * 32..e % 16 * 32 + 32]
    ensures Located(g, chains[head], k + e, g.ClusterLba(cluster) + e / 16, e % 16 * 32)
  {
    hide Content, ClusterBytes, Times, Geometry.ClusterLba, FatOf, WellFormed;
    SlotPlace(g, d, chains[head], i, e);
    assert LocatedAt(g, chains[head], k + e, g.ClusterLba(cluster) + e / 16, e % 16 * 32, i, e);
  }

  /** A cluster with entries can be read, and its successor is the next position of the walk. */
  lemma AtNext(g: Geometry, d: Disk, chains: map<nat, seq<nat>>, head: nat, cluster: nat, i: nat, k: nat)
    requires At(g, d, chains, head, cluster, i, k) && cluster < EOC
    ensures g.Holds(d) && cluster < g.clusters + 2 && g.Valid() && g.InRange(cluster)
    ensures i < |chains[head]|
    ensures At(g, d, chains, head, FatOf(g, d)[cluster], i + 1, k + EntriesPerCluster(g))
  {
    FollowOrEnd(FatOf(g, d), chains, head, i);
  }

  /** Behind the chain every entry has been passed. */
  lemma AtEnd(g: Geometry, d: Disk, chains: map<nat, seq<nat>>, head: nat, cluster: nat, i: nat, k: nat)
    requires At(g, d, chains, head, cluster, i, k) && cluster >= EOC
    ensures k == SlotCount(Content(g, d, chains[head]))
  {
    hide Content, Times, EntriesPerCluster, ClusterSize, FatOf, WellFormed, AllInRange, SlotCount;
    SlotCountIs(g, Content(g, d, chains[head]), i);
  }

  lemma SlotCountIs(g: Geometry, content: seq<byte>, n: nat)
    requires |content| == Times(n, ClusterSize(g))
    ensures SlotCount(content) == Times(n, EntriesPerCluster(g))
  {
    hide Times;
    TimesScale(n, EntriesPerCluster(g), 32);
    assert 32 * EntriesPerCluster(g) == ClusterSize(g);
  }

  /** The walk of fat_create, to the first free or deleted entry. */
  method FindAvailable(v: Volume, head: nat) returns (found: bool, lba: nat, off: nat, buf: Sector, ghost k: nat)
    requires v.Valid() && head in v.chains
    ensures AllInRange(v.g, v.chains[head])
    ensures found ==> lba < |v.disk| && buf == v.disk[lba]
    ensures found ==> FirstAvailable(Content(v.g, v.disk, v.chains[head]), k) && Located(v.g, v.chains[head], k, lba, off)
    ensures !found ==> NoneAvailable(Content(v.g, v.disk, v.chains[head]))
  {
    hide Content, WellFormed, FatOf, At, Located, SlotAt, EntriesPerCluster, Available, Geometry.ClusterLba, Geometry.Holds, Geometry.InRange, ClusterBytes, Times;
    AllLiveInRange(v.g, v.disk, v.chains, head);
    AtStart(v.g, v.disk, v.chains, head);
    ghost var content := Content(v.g, v.disk, v.chains[head]);
    var cluster: nat := head;
    ghost var i: nat := 0;
    k := 0;
    found, lba, off := false, 0, 0;
    buf := ZERO_SECTOR;
    while cluster < EOC
      invariant At(v.g, v.disk, v.chains, head, cluster, i, k)
      invariant k <= SlotCount(content) && forall j :: 0 <= j < k ==> !Available(SlotAt(content, j))
      decreases |v.chains[head]| - i
    {
      AtNext(v.g, v.disk, v.chains, head, cluster, i, k);
      var base := v.ClusterToLba(cluster);
      var e := 0;
      while e < EntriesPerCluster(v.g)
        invariant 0 <= e <= EntriesPerCluster(v.g) && k + e <= SlotCount(content)
        invariant e > 0 ==> base + (e - 1) / 16 < |v.disk| && buf == v.disk[base + (e - 1) / 16]
        invariant forall j :: 0 <= j < k + e ==> !Available(SlotAt(content, j))
      {
        AtEntry(v.g, v.disk, v.chains, head, cluster, i, k, e);
        var s: Slot;
        buf, s := LoadEntry(v, base, e, buf);
        if Available(s) {
          k := k + e;
          return true, base + e / 16, e % 16 * 32, buf, k;
        }
        e := e + 1;
      }
      cluster := v.NextCluster(cluster);
      i := i + 1;
      k := k + EntriesPerCluster(v.g);
    }
    AtEnd(v.g, v.disk, v.chains, head, cluster, i, k);
  }

  lemma AllLiveInRange(g: Geometry, d: Disk, chains: map<nat, seq<nat>>, head: nat)
    requires g.Holds(d) && WellFormed(FatOf(g, d), chains) && head in chains
    ensures AllInRange(g, chains[head])
  {
    LiveChain(g, d, chains, head);
  }

  /** The walk of fat_unlink, to the first live entry with the given name bytes. It stops at the first zero entry. */
  method FindMatch(v: Volume, head: nat, short: Name) returns (found: bool, lba: nat, off: nat, buf: Sector, ghost k: nat)
    requires v.Valid() && head in v.chains && |short| == 11
    ensures AllInRange(v.g, v.chains[head])
    ensures found ==> lba < |v.disk| && buf == v.disk[lba]
    ensures found ==> FirstMatch(Content(v.g, v.disk, v.chains[head]), short, k) && Located(v.g, v.chains[head], k, lba, off)
    ensures !found ==> NoMatch(Content(v.g, v.disk, v.chains[head]), short)
  {
    hide Content, WellFormed, FatOf, At, Located, SlotAt, EntriesPerCluster, IsLive, Geometry.ClusterLba, Geometry.Holds, Geometry.InRange, ClusterBytes, Times, LiveEnd;
    AllLiveInRange(v.g, v.disk, v.chains, head);
    AtStart(v.g, v.disk, v.chains, head);
    ghost var content := Content(v.g, v.disk, v.chains[head]);
    var cluster: nat := head;
    ghost var i: nat := 0;
    k := 0;
    found, lba, off := false, 0, 0;
    buf := ZERO_SECTOR;
    while cluster < EOC
      invariant At(v.g, v.disk, v.chains, head, cluster, i, k)
      invariant Passed(content, short, k)
      decreases |v.chains[head]| - i
    {
      AtNext(v.g, v.disk, v.chains, head, cluster, i, k);
      var base := v.ClusterToLba(cluster);
      var e := 0;
      while e < EntriesPerCluster(v.g)
        invariant 0 <= e <= EntriesPerCluster(v.g)
        invariant e > 0 ==> base + (e - 1) / 16 < |v.disk| && buf == v.disk[base + (e - 1) / 16]
        invariant Passed(content, short, k + e)
      {
        AtEntry(v.g, v.disk, v.chains, head, cluster, i, k, e);
        var s: Slot;
        buf, s := LoadEntry(v, base, e, buf);
        if s[0] == 0 {
          PassedAll(content, short, k + e);
          return;
        }
        if IsLive(s) && s[..11] == short {
          k := k + e;
          PassedLive(content, short, k);
          return true, base + e / 16, e % 16 * 32, buf, k;
        }
        e := e + 1;
      }
      cluster := v.NextCluster(cluster);
      i := i + 1;
      k := k + EntriesPerCluster(v.g);
    }
    AtEnd(v.g, v.disk, v.chains, head, cluster, i, k);
    PassedAll(content, short, k);
  }

  /** No entry before `k` ends the directory or is a live one with this name. */
  ghost predicate Passed(content: seq<byte>, short: Name, k: nat)
  {
    && k <= SlotCount(content)
    && forall j :: 0 <= j < k ==> SlotAt(content, j)[0] != 0 && !(IsLive(SlotAt(content, j)) && SlotAt(content, j)[..11] == short)
  }

  lemma PassedAll(content: seq<byte>, short: Name, k: nat)
    requires Passed(content, short, k) && (k < SlotCount(content) ==> SlotAt(content, k)[0] == 0)
    ensures NoMatch(content, short)
  {
    LiveEndIs(content, k);
  }

  lemma PassedLive(content: seq<byte>, short: Name, k: nat)
    requires Passed(content, short, k) && k < SlotCount(content) && SlotAt(content, k)[0] != 0
    ensures k < LiveEnd(content)
  {
  }
}
