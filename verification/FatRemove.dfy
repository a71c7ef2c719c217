/** fat_unlink: deletes the first entry of that name and frees its chain. */
module FatRemove {
  import opened Bytes
  import opened FatTable
  import opened FatChains
  import opened FatContent
  import opened FatVolume
  import opened FatFile
  import opened FatNames
  import opened FatDirent
  import opened FatDirectory
  import opened FatLookup
  import opened FatCreate

  function Erased(s: Slot): Slot { [DELETED] + s[1..] }

  /** The chain an entry owns: none for cluster numbers below 2 or past the end mark. */
  predicate OwnsChain(s: Slot) { 2 <= SlotCluster(s) < EOC }

  /** Effect of a successful unlink in the directory whose chain starts at `p`: entry `k`, the first of that name,
      is marked deleted, every cluster of its chain is free and no other entry of the table changed, and no other
      live chain's content changed. */
  ghost predicate Unlinked(g: Geometry, d0: Disk, chains0: map<nat, seq<nat>>, d: Disk, chains: map<nat, seq<nat>>,
                           p: nat, short: Name, k: nat)
  {
    && g.Holds(d0) && g.Holds(d) && p in chains0 && AllInRange(g, chains0[p])
    && FirstMatch(Content(g, d0, chains0[p]), short, k)
    && var s := SlotAt(Content(g, d0, chains0[p]), k);
    && Content(g, d, chains0[p]) == WithSlot(Content(g, d0, chains0[p]), k, Erased(s))
    && (if OwnsChain(s) then
          && SlotCluster(s) in chains0 && chains == chains0 - {SlotCluster(s)}
          && FatOf(g, d) == Zeroed(FatOf(g, d0), chains0[SlotCluster(s)])
          && CountFree(FatOf(g, d)) == CountFree(FatOf(g, d0)) + |chains0[SlotCluster(s)]|
        else chains == chains0 && FatOf(g, d) == FatOf(g, d0))
    && OthersKept(g, d0, d, chains0, p, p)
    && (Mirrored(g, d0) ==> Mirrored(g, d))
  }

  /** The entry an unlink would delete owns a live chain that is not the directory's own. */
  ghost predicate Deletable(g: Geometry, d: Disk, chains: map<nat, seq<nat>>, p: nat, short: Name)
  {
    && g.Holds(d) && p in chains && AllInRange(g, chains[p])
    && forall k :: FirstMatch(Content(g, d, chains[p]), short, k) && OwnsChain(SlotAt(Content(g, d, chains[p]), k)) ==>
         SlotCluster(SlotAt(Content(g, d, chains[p]), k)) in chains && SlotCluster(SlotAt(Content(g, d, chains[p]), k)) != p
  }

  /** A live chain freed: the others stay, and no data moved. */
  lemma ChainFreed(g: Geometry, d: Disk, chains: map<nat, seq<nat>>, c: nat, e: Disk, p: nat)
    requires g.Holds(d) && g.Holds(e) && WellFormed(FatOf(g, d), chains) && c in chains && p in chains && p != c
    requires WalkInRange(FatOf(g, d), c) && FatOf(g, e) == Freed(FatOf(g, d), c)
    requires e[g.DataStart()..] == d[g.DataStart()..] && e[..g.fatStart] == d[..g.fatStart]
    ensures FatOf(g, e) == Zeroed(FatOf(g, d), chains[c]) && WellFormed(FatOf(g, e), chains - {c})
    ensures CountFree(FatOf(g, e)) == CountFree(FatOf(g, d)) + |chains[c]|
    ensures forall h :: h in chains ==> AllInRange(g, chains[h]) && Content(g, e, chains[h]) == Content(g, d, chains[h])
  {
    hide ClusterBytes, FatOf, Content, Freed, WalkInRange;
    FreedIsZeroed(FatOf(g, d), chains[c]);
    FreeKeepsChains(FatOf(g, d), chains, c);
    forall h | h in chains
      ensures AllInRange(g, chains[h]) && Content(g, e, chains[h]) == Content(g, d, chains[h])
    {
      LiveChain(g, d, chains, h);
      forall i | 0 <= i < |chains[h]|
        ensures ClusterBytes(g, e, chains[h][i]) == ClusterBytes(g, d, chains[h][i])
      {
        DataAreaSame(g, d, e, chains[h][i]);
      }
      ContentFrame(g, d, e, chains[h]);
    }
  }

  lemma ChainWalkable(g: Geometry, d: Disk, chains: map<nat, seq<nat>>, c: nat)
    requires g.Holds(d) && WellFormed(FatOf(g, d), chains) && c in chains
    ensures WalkInRange(FatOf(g, d), c)
  {
    FreedIsZeroed(FatOf(g, d), chains[c]);
  }

  lemma EntryErased(buf: Sector, off: nat)
    requires off + 32 <= 512
    ensures buf[off := DELETED] == Splice(buf, off, Erased(buf[off..off + 32]))
  {
  }

  lemma MatchExcludesNone(content: seq<byte>, short: Name, k: nat)
    requires FirstMatch(content, short, k)
    ensures 32 * k + 32 <= |content| && !NoMatch(content, short)
  {
    assert SlotAt(content, k)[..11] == short;
  }

  lemma KeptThroughFree(g: Geometry, d0: Disk, d1: Disk, d2: Disk, chains: map<nat, seq<nat>>, p: nat)
    requires g.Holds(d0) && g.Holds(d1) && g.Holds(d2) && OthersKept(g, d0, d1, chains, p, p)
    requires forall h :: h in chains ==> AllInRange(g, chains[h]) && Content(g, d2, chains[h]) == Content(g, d1, chains[h])
    ensures OthersKept(g, d0, d2, chains, p, p)
  {
    hide Content;
  }

  /** fat_unlink. */
  method Unlink(v: Volume, parent: Node, name: Name) returns (ret: int, ghost k: nat)
    requires v.Valid() && parent.cluster in v.chains
    requires To83(name).Some? ==> Deletable(v.g, v.disk, v.chains, parent.cluster, To83(name).value)
    modifies v`disk, v`chains
    ensures v.Valid() && parent.cluster in v.chains && AllInRange(v.g, old(v.chains)[parent.cluster])
    ensures ret == 0 || ret == -1
    ensures ret == -1 ==> v.disk == old(v.disk) && v.chains == old(v.chains)
    ensures ret == -1 <==> To83(name) == None || NoMatch(Content(v.g, old(v.disk), old(v.chains)[parent.cluster]), To83(name).value)
    ensures ret == 0 ==> Unlinked(v.g, old(v.disk), old(v.chains), v.disk, v.chains, parent.cluster, To83(name).value, k)
  {
    hide ClusterBytes, FatOf, Mirrored, Content, WellFormed, Times, Located, WithSlot, To83, NoMatch, SlotAt, FirstMatch, DiskWithSlot,
         Freed, Zeroed, WalkInRange, CountFree, OthersKept, OwnsChain, SlotCluster, Erased, Geometry.DataStart, AllInRange, Deletable;
    k := 0;
    AllLiveInRange(v.g, v.disk, v.chains, parent.cluster);
    ghost var d0, chains0, p := v.disk, v.chains, parent.cluster;
    var short := NameTo83(name);
    if short == None {
      return -1, k;
    }
    var found, lba, off, buf, n := FindMatch(v, parent.cluster, short.value);
    k := n;
    if !found {
      return -1, k;
    }
    MatchExcludesNone(Content(v.g, d0, chains0[p]), short.value, k);
    EntryWritten(v.g, d0, chains0, p, k, lba, off, Erased(SlotAt(Content(v.g, d0, chains0[p]), k)));
    var s: Slot := buf[off..off + 32];
    EntryErased(buf, off);
    var fileCluster := SlotCluster(s);
    v.disk := v.disk[lba := buf[off := DELETED]];
    ghost var d1 := v.disk;
    ErasedDisk(d0, lba, off, s);
    if OwnsChain(s) {
      DeletableOwner(v.g, d0, chains0, p, short.value, k);
      ChainWalkable(v.g, d1, chains0, fileCluster);
      v.FreeClusterChain(fileCluster);
      v.chains := v.chains - {fileCluster};
      ChainFreed(v.g, d1, chains0, fileCluster, v.disk, p);
      KeptThroughFree(v.g, d0, d1, v.disk, chains0, p);
    }
    ret := 0;
  }

  lemma ErasedDisk(d: Disk, lba: nat, off: nat, s: Slot)
    requires lba < |d| && off + 32 <= 512 && s == d[lba][off..off + 32]
    ensures d[lba := d[lba][off := DELETED]] == DiskWithSlot(d, lba, off, Erased(s))
  {
    EntryErased(d[lba], off);
  }

  lemma DeletableOwner(g: Geometry, d: Disk, chains: map<nat, seq<nat>>, p: nat, short: Name, k: nat)
    requires Deletable(g, d, chains, p, short) && FirstMatch(Content(g, d, chains[p]), short, k)
    requires OwnsChain(SlotAt(Content(g, d, chains[p]), k))
    ensures SlotCluster(SlotAt(Content(g, d, chains[p]), k)) in chains && SlotCluster(SlotAt(Content(g, d, chains[p]), k)) != p
  {
  }
}
