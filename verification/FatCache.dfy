/** The VFS operations on one directory (create, unlink, write through a cached file), with the child list they keep:
    after each, exactly when the list is still in one-to-one correspondence with the directory on disk. */
module FatCache {
  import opened Bytes
  import opened FatTable
  import opened FatChains
  import opened FatContent
  import opened FatVolume
  import opened FatFile
  import opened FatNames
  import opened FatDirent
  import opened FatDirectory
  import opened FatLookup
  import opened FatCreate
  import opened FatRemove
  import opened FatSync

  /** Content of the directory whose chain starts at `p`. */
  ghost function DirContent(g: Geometry, d: Disk, chains: map<nat, seq<nat>>, p: nat): seq<byte>
    requires g.Holds(d) && p in chains && AllInRange(g, chains[p])
  {
    Content(g, d, chains[p])
  }

  /** A directory with a zero tail. */
  ghost predicate Tidy(g: Geometry, d: Disk, chains: map<nat, seq<nat>>, p: nat)
  {
    g.Holds(d) && p in chains && AllInRange(g, chains[p]) && ZeroTail(DirContent(g, d, chains, p))
  }

  /** With distinct names too. */
  ghost predicate Orderly(g: Geometry, d: Disk, chains: map<nat, seq<nat>>, p: nat)
  {
    Tidy(g, d, chains, p) && UniqueNames(DirContent(g, d, chains, p))
  }

  /** An orderly directory whose child list is in one-to-one correspondence with it. */
  ghost predicate InStep(g: Geometry, d: Disk, chains: map<nat, seq<nat>>, p: nat, vs: seq<Child>)
  {
    Orderly(g, d, chains, p) && Synced(g, chains[p], DirContent(g, d, chains, p), vs)
  }

  /** The same in everything but sizes, which a truncation changes in the node only. */
  ghost predicate Tracked(g: Geometry, d: Disk, chains: map<nat, seq<nat>>, p: nat, vs: seq<Child>)
  {
    Orderly(g, d, chains, p) && Matched(g, chains[p], DirContent(g, d, chains, p), vs)
  }

  /** Entries of `p` whose child has another size. */
  ghost function Stale(g: Geometry, d: Disk, chains: map<nat, seq<nat>>, p: nat, vs: seq<Child>): set<nat>
    requires g.Holds(d) && p in chains && AllInRange(g, chains[p])
  {
    Unsettled(DirContent(g, d, chains, p), vs)
  }

  lemma InStepIff(g: Geometry, d: Disk, chains: map<nat, seq<nat>>, p: nat, vs: seq<Child>)
    requires g.Holds(d) && p in chains && AllInRange(g, chains[p])
    ensures InStep(g, d, chains, p, vs) <==> Tracked(g, d, chains, p, vs) && Stale(g, d, chains, p, vs) == {}
  {
    hide Content, ZeroTail, UniqueNames, Synced, Matched, Unsettled;
    SyncedIff(g, chains[p], DirContent(g, d, chains, p), vs);
  }

  /** What a load makes of the list `vs`: an empty one is filled, one that names every entry is left alone. */
  ghost predicate Loaded(g: Geometry, d: Disk, chains: map<nat, seq<nat>>, p: nat, vs: seq<Child>, ws: seq<Child>)
  {
    && g.Holds(d) && p in chains && AllInRange(g, chains[p])
    && (vs == [] && UniqueNames(DirContent(g, d, chains, p)) ==> Synced(g, chains[p], DirContent(g, d, chains, p), ws))
    && (vs != [] && AllNamed(DirContent(g, d, chains, p), vs) ==> ws == vs)
  }

  /** After a load a list that was empty or tracked is tracked, and no sizes have gone stale. */
  lemma LoadTracks(g: Geometry, d: Disk, chains: map<nat, seq<nat>>, p: nat, vs: seq<Child>, ws: seq<Child>)
    requires Loaded(g, d, chains, p, vs, ws) && Orderly(g, d, chains, p) && (vs == [] || Tracked(g, d, chains, p, vs))
    ensures Tracked(g, d, chains, p, ws) && Stale(g, d, chains, p, ws) == Stale(g, d, chains, p, vs)
  {
    hide Content, ZeroTail, UniqueNames, Synced, Matched, AllNamed, SizeOnDisk;
    if vs == [] {
      SyncedIff(g, chains[p], DirContent(g, d, chains, p), ws);
    } else {
      MatchedIsNamed(g, chains[p], DirContent(g, d, chains, p), vs);
    }
  }

  /** The load the VFS does when a directory's child list is empty. */
  method LoadIfEmpty(v: Volume, parent: Node)
    requires v.Valid() && parent.cluster in v.chains && Proper(parent)
    modifies parent`children
    ensures Proper(parent) && forall c :: c in parent.children ==> c in old(parent.children) || (fresh(c) && c.children == [])
    ensures old(parent.children) != [] ==> parent.children == old(parent.children)
    ensures Loaded(v.g, v.disk, v.chains, parent.cluster, old(Views(parent.children)), Views(parent.children))
  {
    hide Content, WellFormed, FatOf, Synced, UniqueNames, Faithful, AllInRange, CountLive, LiveEnd, Extends, AllNamed;
    AllLiveInRange(v.g, v.disk, v.chains, parent.cluster);
    if parent.children == [] {
      var _ := ReadDir(v, parent);
      FaithfulNone(v.g, v.chains[parent.cluster], Content(v.g, v.disk, v.chains[parent.cluster]));
    }
  }

  lemma FaithfulNone(g: Geometry, ch: seq<nat>, content: seq<byte>)
    ensures Faithful(g, ch, content, [])
  {
  }

  /** Place of the first child of that name, or the length. */
  ghost function FirstNamed(vs: seq<Child>, name: Name): (n: nat)
    ensures n <= |vs| && (forall j :: 0 <= j < n ==> vs[j].entry.name != name) && (n < |vs| ==> vs[n].entry.name == name)
  {
    if vs == [] || vs[0].entry.name == name then 0 else 1 + FirstNamed(vs[1..], name)
  }

  lemma FirstNamedIs(vs: seq<Child>, name: Name, n: nat)
    requires n <= |vs| && (forall j :: 0 <= j < n ==> vs[j].entry.name != name) && (n < |vs| ==> vs[n].entry.name == name)
    ensures FirstNamed(vs, name) == n
  {
  }

  /** The list without its first child of that name. */
  ghost function Without(vs: seq<Child>, name: Name): seq<Child>
  {
    var n := FirstNamed(vs, name);
    if n < |vs| then Dropped(vs, n) else vs
  }

  /** A list whose first child was created in `p` just now: the entry is on disk, the child says what was asked for. */
  ghost predicate Added(g: Geometry, d0: Disk, chains0: map<nat, seq<nat>>, d: Disk, chains: map<nat, seq<nat>>,
                        p: nat, name: Name, dir: bool, up: nat, vs: seq<Child>, ws: seq<Child>)
  {
    && To83(name).Some? && |ws| == |vs| + 1 && ws[1..] == vs && p in chains0
    && var c := ws[0];
    && c.entry == Entry(name, 0, dir, c.entry.cluster, c.entry.slot)
    && Created(g, d0, chains0, d, chains, p, To83(name).value, dir, up, c.entry.cluster, c.entry.slot)
    && Located(g, chains0[p], c.entry.slot, c.lba, c.off)
  }

  /** Sizes on disk after another entry was rewritten. */
  lemma SizeElsewhere(content: seq<byte>, k: nat, s: Slot, c: Child)
    requires 32 * k + 32 <= |content|
    ensures SizeOnDisk(WithSlot(content, k, s), c) == if c.entry.slot == k then SlotSize(s) else SizeOnDisk(content, c)
  {
    hide WithSlot, SlotSize;
    if 32 * c.entry.slot + 32 <= |content| {
      WithSlotAt(content, k, s, c.entry.slot);
    }
  }

  /** Matched children have entries, at different places. */
  lemma MatchedSlots(g: Geometry, ch: seq<nat>, content: seq<byte>, vs: seq<Child>)
    requires Matched(g, ch, content, vs)
    ensures forall i :: 0 <= i < |vs| ==> vs[i].(entry := vs[i].entry.(size := SizeOnDisk(content, vs[i]))).entry in Listing(content)
    ensures forall i :: 0 <= i < |vs| ==> 32 * vs[i].entry.slot + 32 <= |content| && Located(g, ch, vs[i].entry.slot, vs[i].lba, vs[i].off)
    ensures forall i, j :: 0 <= i < j < |vs| ==> vs[i].entry.slot != vs[j].entry.slot
  {
    hide Listing, Located, SizeOnDisk;
    var us := Settled(content, vs);
    forall i | 0 <= i < |vs|
      ensures us[i].entry in Listing(content) && 32 * us[i].entry.slot + 32 <= |content| && Located(g, ch, vs[i].entry.slot, vs[i].lba, vs[i].off)
    {
      ListingSize(content, us[i]);
    }
    forall i, j | 0 <= i < j < |vs|
      ensures vs[i].entry.slot != vs[j].entry.slot
    {
      assert us[i].entry.slot != us[j].entry.slot;
    }
  }

  /** A name is in the list exactly if it is in the directory. */
  lemma NamedIff(g: Geometry, ch: seq<nat>, content: seq<byte>, vs: seq<Child>, name: Name)
    requires Matched(g, ch, content, vs)
    ensures HasName(vs, name) <==> exists e :: e in Listing(content) && e.name == name
  {
    hide Listing, Located, SizeOnDisk, Matched;
    MatchedIsNamed(g, ch, content, vs);
    MatchedSlots(g, ch, content, vs);
    if HasName(vs, name) {
      var i :| 0 <= i < |vs| && vs[i].entry.name == name;
      assert vs[i].(entry := vs[i].entry.(size := SizeOnDisk(content, vs[i]))).entry in Listing(content);
    }
  }

  /** Creating in a tracked directory: it stays tracked exactly on names that round-trip and are new. */
  lemma AddedTracks(g: Geometry, d0: Disk, chains0: map<nat, seq<nat>>, d: Disk, chains: map<nat, seq<nat>>,
                    p: nat, name: Name, dir: bool, up: nat, vs: seq<Child>, ws: seq<Child>)
    requires Tracked(g, d0, chains0, p, vs) && Added(g, d0, chains0, d, chains, p, name, dir, up, vs, ws)
    ensures p in chains && chains[p] == chains0[p] && ZeroTail(DirContent(g, d, chains, p))
    ensures Tracked(g, d, chains, p, ws) <==> RoundTrips(name) && !HasName(vs, name)
    ensures Stale(g, d, chains, p, ws) == Stale(g, d0, chains0, p, vs)
  {
    hide Content, FatOf, WithSlot, To83, Trim, Located, Listing, NewSlot, Synced, UniqueNames, ZeroTail, FirstAvailable, NewContent, OthersKept, Mirrored,
         HasName, SizeOnDisk, SlotSize;
    var content, content', c := DirContent(g, d0, chains0, p), DirContent(g, d, chains, p), ws[0];
    var us := Settled(content, vs);
    assert ws == [c] + vs;
    CreateSync(g, chains0[p], content, us, name, dir, c.entry.cluster, c.entry.slot, c.lba, c.off);
    AddedSizes(g, chains0[p], content, vs, c, To83(name).value, dir);
    NamedIff(g, chains0[p], content, vs, name);
  }

  lemma AddedSizes(g: Geometry, ch: seq<nat>, content: seq<byte>, vs: seq<Child>, c: Child, short: Name, dir: bool)
    requires Matched(g, ch, content, vs) && FirstAvailable(content, c.entry.slot) && |short| == 11
    requires c.entry.size == 0 && c.entry.cluster < 0x1_0000_0000
    ensures var content' := WithSlot(content, c.entry.slot, NewSlot(short, dir, c.entry.cluster, 0));
            && Settled(content', [c] + vs) == [c] + Settled(content, vs)
            && Unsettled(content', [c] + vs) == Unsettled(content, vs)
  {
    hide WithSlot, Located, NewSlot, SizeOnDisk, Matched, SlotSize;
    var k, s := c.entry.slot, NewSlot(short, dir, c.entry.cluster, 0);
    var content', ws := WithSlot(content, k, s), [c] + vs;
    NewSlotSays(short, dir, c.entry.cluster, 0);
    MatchedSlots(g, ch, content, vs);
    forall i | 0 <= i < |ws|
      ensures SizeOnDisk(content', ws[i]) == if i == 0 then 0 else SizeOnDisk(content, vs[i - 1])
    {
      SizeElsewhere(content, k, s, ws[i]);
      if i > 0 {
        var e := vs[i - 1].entry.(size := SizeOnDisk(content, vs[i - 1]));
        assert e in Listing(content);
        ListingHas(content, e);
      }
    }
    assert ws[0] == c && forall i :: 0 <= i < |vs| ==> ws[i + 1] == vs[i];
    assert forall i :: 0 <= i < |vs| ==> SizeOnDisk(content', vs[i]) == SizeOnDisk(content', ws[i + 1]) == SizeOnDisk(content, vs[i]);
    UnsettledCons(content, content', vs, c);
  }

  lemma UnsettledCons(content: seq<byte>, content': seq<byte>, vs: seq<Child>, c: Child)
    requires c.entry.size == SizeOnDisk(content', c)
    requires forall i :: 0 <= i < |vs| ==> SizeOnDisk(content', vs[i]) == SizeOnDisk(content, vs[i])
    ensures Unsettled(content', [c] + vs) == Unsettled(content, vs)
  {
    hide SizeOnDisk;
    var ws := [c] + vs;
    forall k
      ensures k in Unsettled(content', ws) <==> k in Unsettled(content, vs)
    {
      if k in Unsettled(content, vs) {
        var i :| 0 <= i < |vs| && vs[i].entry.size != SizeOnDisk(content, vs[i]) && vs[i].entry.slot == k;
        assert ws[i + 1] == vs[i];
      }
      if k in Unsettled(content', ws) {
        var i :| 0 <= i < |ws| && ws[i].entry.size != SizeOnDisk(content', ws[i]) && ws[i].entry.slot == k;
        assert ws[i] == vs[i - 1];
      }
    }
  }

  /** Unlinking in a tracked directory: the old list never stays tracked, and without its first child of that name it
      is tracked exactly on names that round-trip. */
  lemma RemovedTracks(g: Geometry, d0: Disk, chains0: map<nat, seq<nat>>, d: Disk, chains: map<nat, seq<nat>>, p: nat, name: Name, k: nat, vs: seq<Child>)
    requires To83(name).Some? && Tracked(g, d0, chains0, p, vs) && Unlinked(g, d0, chains0, d, chains, p, To83(name).value, k) && p in chains
    ensures chains[p] == chains0[p] && Orderly(g, d, chains, p)
    ensures !Tracked(g, d, chains, p, vs)
    ensures Tracked(g, d, chains, p, Without(vs, name)) <==> RoundTrips(name)
    ensures Without(vs, name) == [] ==> RoundTrips(name)
    ensures RoundTrips(name) ==> Stale(g, d, chains, p, Without(vs, name)) == Stale(g, d0, chains0, p, vs) - {k}
  {
    hide Content, FatOf, WithSlot, To83, Trim, Located, Listing, LiveEnd, SlotCluster, SlotSize, ZeroTail, Zeroed, CountFree, OthersKept, Mirrored,
         SizeOnDisk, UniqueNames, Synced, SlotAt, FirstMatch, Unsettled, Erased, OwnsChain;
    var content, content' := DirContent(g, d0, chains0, p), DirContent(g, d, chains, p);
    VictimIs(content, To83(name).value, k);
    var s := SlotAt(content, k);
    var e := EntryOf(s, k);
    ListingDrop(content, k, Erased(s));
    RemovedSizes(g, chains0[p], content, vs, k);
    UniqueFewer(content, content', e);
    SyncedStale(g, chains[p], content, content', Settled(content, vs), e);
    var m := ChildOf(g, chains0[p], content, vs, e);
    var n := FirstNamed(vs, name);
    if n < |vs| {
      SyncedDrop(g, chains[p], content, content', Settled(content, vs), n, e);
      SettledDrop(content', vs, n);
      assert RoundTrips(name) <==> m == n by { MatchedNames(g, chains0[p], content, vs, m, n); }
      if m == n {
        SameSizes(content, content', Without(vs, name));
        UnsettledDrop(g, chains0[p], content, vs, n);
      }
    }
  }

  /** The deleted entry was live and bears the name. */
  lemma VictimIs(content: seq<byte>, short: Name, k: nat)
    requires FirstMatch(content, short, k) && |short| == 11
    ensures LiveAt(content, k) && 32 * k + 32 <= |content|
    ensures EntryOf(SlotAt(content, k), k) in Listing(content) && EntryOf(SlotAt(content, k), k).name == Trim(short)
    ensures Erased(SlotAt(content, k))[0] == DELETED
  {
    hide Trim, SlotSize, SlotCluster;
    ListingHas(content, EntryOf(SlotAt(content, k), k));
  }

  lemma UniqueFewer(content: seq<byte>, content': seq<byte>, e: Entry)
    requires UniqueNames(content) && Listing(content') == Listing(content) - {e}
    ensures UniqueNames(content')
  {
    hide Listing;
  }

  ghost function ChildOf(g: Geometry, ch: seq<nat>, content: seq<byte>, vs: seq<Child>, e: Entry): (m: nat)
    requires Matched(g, ch, content, vs) && e in Listing(content)
    ensures m < |vs| && Settled(content, vs)[m].entry == e
  {
    assert Cached(Settled(content, vs), e);
    var m: nat :| m < |vs| && Settled(content, vs)[m].entry == e;
    m
  }

  /** Erasing an entry changes no size on disk. */
  lemma RemovedSizes(g: Geometry, ch: seq<nat>, content: seq<byte>, vs: seq<Child>, k: nat)
    requires 32 * k + 32 <= |content|
    ensures var content' := WithSlot(content, k, Erased(SlotAt(content, k)));
            && Settled(content', vs) == Settled(content, vs)
            && forall c :: SizeOnDisk(content', c) == SizeOnDisk(content, c)
  {
    hide WithSlot, SlotAt, SlotSize;
    var s := SlotAt(content, k);
    ErasedSize(s);
    forall c
      ensures SizeOnDisk(WithSlot(content, k, Erased(s)), c) == SizeOnDisk(content, c)
    {
      SizeElsewhere(content, k, Erased(s), c);
    }
  }

  lemma SameSizes(content: seq<byte>, content': seq<byte>, vs: seq<Child>)
    requires forall c :: SizeOnDisk(content', c) == SizeOnDisk(content, c)
    ensures Unsettled(content', vs) == Unsettled(content, vs)
  {
    hide SizeOnDisk;
  }

  lemma ErasedSize(s: Slot)
    ensures SlotSize(Erased(s)) == SlotSize(s)
  {
    Le32Slice(Erased(s), 28, s, 28);
  }

  lemma SettledDrop(content: seq<byte>, vs: seq<Child>, n: nat)
    requires n < |vs|
    ensures Settled(content, Dropped(vs, n)) == Dropped(Settled(content, vs), n)
  {
    hide SizeOnDisk;
  }

  /** In a matched list the child of an entry is the first of that name. */
  lemma MatchedNames(g: Geometry, ch: seq<nat>, content: seq<byte>, vs: seq<Child>, m: nat, n: nat)
    requires Matched(g, ch, content, vs) && UniqueNames(content) && m < |vs| && n < |vs|
    ensures m == n <==> vs[m].entry.name == vs[n].entry.name
  {
    hide Listing, Located, SizeOnDisk;
    var us := Settled(content, vs);
    assert us[m].entry in Listing(content) && us[n].entry in Listing(content);
    assert us[m].entry.slot != us[n].entry.slot || m == n;
  }

  lemma UnsettledDrop(g: Geometry, ch: seq<nat>, content: seq<byte>, vs: seq<Child>, n: nat)
    requires Matched(g, ch, content, vs) && n < |vs|
    ensures Unsettled(content, Dropped(vs, n)) == Unsettled(content, vs) - {vs[n].entry.slot}
  {
    hide Listing, Located, SizeOnDisk, Matched, Dropped;
    MatchedSlots(g, ch, content, vs);
    var ws := Dropped(vs, n);
    DroppedAt(vs, n);
    forall k
      ensures k in Unsettled(content, ws) <==> k in Unsettled(content, vs) && k != vs[n].entry.slot
    {
      if k in Unsettled(content, ws) {
        var i :| 0 <= i < |ws| && ws[i].entry.size != SizeOnDisk(content, ws[i]) && ws[i].entry.slot == k;
        assert ws[i] == vs[if i < n then i else i + 1];
      }
      if k in Unsettled(content, vs) && k != vs[n].entry.slot {
        var i :| 0 <= i < |vs| && vs[i].entry.size != SizeOnDisk(content, vs[i]) && vs[i].entry.slot == k;
        assert vs[i] == ws[if i < n then i else i - 1];
      }
    }
  }

  /** The list after the size in one child was changed. */
  ghost function WithSize(vs: seq<Child>, n: nat, size: nat): seq<Child>
    requires n < |vs|
  {
    vs[n := vs[n].(entry := vs[n].entry.(size := size))]
  }

  /** A truncation keeps the list tracked; the child's size is stale from then on exactly if the entry's is not 0. */
  lemma TruncatedTracks(g: Geometry, d: Disk, chains: map<nat, seq<nat>>, p: nat, vs: seq<Child>, n: nat)
    requires Tracked(g, d, chains, p, vs) && n < |vs|
    ensures Tracked(g, d, chains, p, WithSize(vs, n, 0))
    ensures Stale(g, d, chains, p, WithSize(vs, n, 0))
            == Stale(g, d, chains, p, vs) - {vs[n].entry.slot} + if SizeOnDisk(DirContent(g, d, chains, p), vs[n]) == 0 then {} else {vs[n].entry.slot}
  {
    hide Content, ZeroTail, UniqueNames, Synced;
    SizeChanged(g, chains[p], DirContent(g, d, chains, p), DirContent(g, d, chains, p), vs, n, 0);
    assert Settled(DirContent(g, d, chains, p), WithSize(vs, n, 0)) == Settled(DirContent(g, d, chains, p), vs);
  }

  /** One child's size changed, and at most that entry's on disk. */
  lemma SizeChanged(g: Geometry, ch: seq<nat>, content: seq<byte>, content': seq<byte>, vs: seq<Child>, n: nat, size: nat)
    requires Matched(g, ch, content, vs) && n < |vs|
    requires |content'| == |content| && forall c: Child :: c.entry.slot != vs[n].entry.slot ==> SizeOnDisk(content', c) == SizeOnDisk(content, c)
    ensures Settled(content', WithSize(vs, n, size)) == WithSize(Settled(content, vs), n, SizeOnDisk(content', vs[n]))
    ensures Unsettled(content', WithSize(vs, n, size))
            == Unsettled(content, vs) - {vs[n].entry.slot} + if SizeOnDisk(content', vs[n]) == size then {} else {vs[n].entry.slot}
  {
    hide Listing, Located, SlotAt, SlotSize, Matched;
    MatchedSlots(g, ch, content, vs);
    var ws := WithSize(vs, n, size);
    forall i | 0 <= i < |vs|
      ensures SizeOnDisk(content', ws[i]) == if i == n then SizeOnDisk(content', vs[n]) else SizeOnDisk(content, vs[i])
    {
    }
    SizeChangedSet(content, content', vs, ws, n);
  }

  lemma SizeChangedSet(content: seq<byte>, content': seq<byte>, vs: seq<Child>, ws: seq<Child>, n: nat)
    requires n < |vs| == |ws| && ws[n].entry.slot == vs[n].entry.slot && forall i :: 0 <= i < |vs| && i != n ==> ws[i] == vs[i]
    requires forall i :: 0 <= i < |vs| && i != n ==> SizeOnDisk(content', vs[i]) == SizeOnDisk(content, vs[i])
    requires forall i, j :: 0 <= i < j < |vs| ==> vs[i].entry.slot != vs[j].entry.slot
    ensures Unsettled(content', ws) == Unsettled(content, vs) - {vs[n].entry.slot} + if SizeOnDisk(content', ws[n]) == ws[n].entry.size then {} else {vs[n].entry.slot}
  {
    hide SizeOnDisk;
    forall k
      ensures k in Unsettled(content', ws)
         <==> if k == vs[n].entry.slot then SizeOnDisk(content', ws[n]) != ws[n].entry.size else k in Unsettled(content, vs)
    {
      if k == vs[n].entry.slot {
        if k in Unsettled(content', ws) {
          var i :| 0 <= i < |ws| && ws[i].entry.size != SizeOnDisk(content', ws[i]) && ws[i].entry.slot == k;
          assert i == n;
        }
      } else {
        if k in Unsettled(content', ws) {
          var i :| 0 <= i < |ws| && ws[i].entry.size != SizeOnDisk(content', ws[i]) && ws[i].entry.slot == k;
          assert ws[i] == vs[i];
        }
        if k in Unsettled(content, vs) {
          var i :| 0 <= i < |vs| && vs[i].entry.size != SizeOnDisk(content, vs[i]) && vs[i].entry.slot == k;
          assert ws[i] == vs[i];
        }
      }
    }
  }

  /** A whole write through a tracked child gives node and entry the same size; the list stays tracked and that
      child's size is no longer stale. */
  lemma WrittenTracks(g: Geometry, ch: seq<nat>, content: seq<byte>, vs: seq<Child>, n: nat, size: nat)
    requires Matched(g, ch, content, vs) && ZeroTail(content) && UniqueNames(content) && n < |vs| && size < 0x1_0000_0000
    requires vs[n].entry.cluster < 0x1_0000_0000
    ensures var e := vs[n].entry;
            && 32 * e.slot + 32 <= |content|
            && var content' := WithSlot(content, e.slot, Resized(SlotAt(content, e.slot), size, e.cluster));
            && ZeroTail(content') && UniqueNames(content') && Matched(g, ch, content', WithSize(vs, n, size))
            && Unsettled(content', WithSize(vs, n, size)) == Unsettled(content, vs) - {e.slot}
  {
    hide WithSlot, Resized, Located, SlotSize, ZeroTail, Listing, LiveEnd, Unsettled, UniqueNames, Synced, SizeOnDisk;
    var e := vs[n].entry;
    MatchedSlots(g, ch, content, vs);
    WriteSync(g, ch, content, Settled(content, vs), n, size);
    var s := Resized(SlotAt(content, e.slot), size, e.cluster);
    var content' := WithSlot(content, e.slot, s);
    ResizedSays(SlotAt(content, e.slot), size, e.cluster);
    forall c: Child
      ensures SizeOnDisk(content', c) == if c.entry.slot == e.slot then size else SizeOnDisk(content, c)
    {
      SizeElsewhere(content, e.slot, s, c);
    }
    SizeChanged(g, ch, content, content', vs, n, size);
  }

  /** An orderly directory whose list is empty or in step. */
  ghost predicate Loadable(g: Geometry, d: Disk, chains: map<nat, seq<nat>>, p: nat, vs: seq<Child>)
  {
    Orderly(g, d, chains, p) && (vs == [] || InStep(g, d, chains, p, vs))
  }

  /** From a list that was empty or in step, the directory is tidy and its list in step exactly under `cond`. */
  ghost predicate SyncedExactlyIf(g: Geometry, d0: Disk, chains0: map<nat, seq<nat>>, d: Disk, chains: map<nat, seq<nat>>,
                                  p: nat, vs: seq<Child>, ws: seq<Child>, cond: bool)
  {
    Loadable(g, d0, chains0, p, vs) ==> Tidy(g, d, chains, p) && (InStep(g, d, chains, p, ws) <==> cond)
  }

  lemma LoadInStep(g: Geometry, d: Disk, chains: map<nat, seq<nat>>, p: nat, vs: seq<Child>, ws: seq<Child>)
    requires Loaded(g, d, chains, p, vs, ws)
    ensures Loadable(g, d, chains, p, vs) ==> InStep(g, d, chains, p, ws)
  {
    hide Content, ZeroTail, UniqueNames, Synced, Matched, AllNamed, SizeOnDisk, Unsettled;
    if Loadable(g, d, chains, p, vs) {
      if vs != [] {
        InStepIff(g, d, chains, p, vs);
      } else {
        NoneStale(DirContent(g, d, chains, p));
      }
      LoadTracks(g, d, chains, p, vs, ws);
      InStepIff(g, d, chains, p, ws);
    }
  }

  lemma NoneStale(content: seq<byte>)
    ensures Unsettled(content, []) == {}
  {
  }

  /** Creating in a directory that is in step: it stays so exactly on names that round-trip and are new. */
  lemma AddedSync(g: Geometry, d0: Disk, chains0: map<nat, seq<nat>>, d: Disk, chains: map<nat, seq<nat>>,
                  p: nat, name: Name, dir: bool, up: nat, vs: seq<Child>, ws: seq<Child>)
    requires InStep(g, d0, chains0, p, vs) && Added(g, d0, chains0, d, chains, p, name, dir, up, vs, ws)
    ensures Tidy(g, d, chains, p)
    ensures InStep(g, d, chains, p, ws) <==> RoundTrips(name) && FirstNamed(vs, name) == |vs|
  {
    hide Content, ZeroTail, UniqueNames, Synced, Matched, Unsettled, RoundTrips, Created, Located, FirstNamed;
    AddedReadable(g, d0, chains0, d, chains, p, name, dir, up, vs, ws);
    InStepIff(g, d0, chains0, p, vs);
    AddedTracks(g, d0, chains0, d, chains, p, name, dir, up, vs, ws);
    InStepIff(g, d, chains, p, ws);
    HasNameIff(vs, name);
  }

  lemma AddedReadable(g: Geometry, d0: Disk, chains0: map<nat, seq<nat>>, d: Disk, chains: map<nat, seq<nat>>,
                      p: nat, name: Name, dir: bool, up: nat, vs: seq<Child>, ws: seq<Child>)
    requires Added(g, d0, chains0, d, chains, p, name, dir, up, vs, ws)
    ensures g.Holds(d) && p in chains && AllInRange(g, chains[p])
  {
  }

  lemma HasNameIff(vs: seq<Child>, name: Name)
    ensures HasName(vs, name) <==> FirstNamed(vs, name) < |vs|
  {
  }

  /** Unlinking in a directory that is in step: the old list is not, and without its first child of that name it is
      exactly on names that round-trip. */
  lemma UnlinkSync(g: Geometry, d0: Disk, chains0: map<nat, seq<nat>>, d: Disk, chains: map<nat, seq<nat>>, p: nat, name: Name, k: nat, vs: seq<Child>)
    requires To83(name).Some? && InStep(g, d0, chains0, p, vs) && Unlinked(g, d0, chains0, d, chains, p, To83(name).value, k) && p in chains
    ensures Orderly(g, d, chains, p)
    ensures !InStep(g, d, chains, p, vs)
    ensures InStep(g, d, chains, p, Without(vs, name)) <==> RoundTrips(name)
  {
    hide Content, ZeroTail, UniqueNames, Synced, Matched, Unsettled, RoundTrips, Unlinked, Without;
    InStepIff(g, d0, chains0, p, vs);
    RemovedTracks(g, d0, chains0, d, chains, p, name, k, vs);
    InStepIff(g, d, chains, p, vs);
    InStepIff(g, d, chains, p, Without(vs, name));
  }

  /** A cached child's size set to 0 in the node only: still in step exactly if it was 0. */
  lemma TruncateSync(g: Geometry, d: Disk, chains: map<nat, seq<nat>>, p: nat, vs: seq<Child>, n: nat)
    requires InStep(g, d, chains, p, vs) && n < |vs|
    ensures InStep(g, d, chains, p, WithSize(vs, n, 0)) <==> vs[n].entry.size == 0
  {
    hide Content, ZeroTail, UniqueNames, Listing, Located, SizeOnDisk, Matched, Unsettled;
    InStepIff(g, d, chains, p, vs);
    TruncatedTracks(g, d, chains, p, vs, n);
    InStepIff(g, d, chains, p, WithSize(vs, n, 0));
    ListingSize(DirContent(g, d, chains, p), vs[n]);
  }

  /** A directory of one file of 5 bytes: its child is in step until its size is set to 0. */
  lemma FiveBytesStale(g: Geometry, short: Name)
    requires g.Valid() && g.clusters > 0 && |short| == 11 && short[0] != 0 && short[0] != DELETED
    ensures var s := NewSlot(short, false, 3, 5); var content := WithSlot(Zeros(ClusterSize(g)), 0, s);
            var vs := [Child(EntryOf(s, 0), g.ClusterLba(2), 0)];
            Synced(g, [2], content, vs) && !Synced(g, [2], content, WithSize(vs, 0, 0))
  {
    hide NewSlot, WithSlot, Listing, Trim;
    var s := NewSlot(short, false, 3, 5);
    NewSlotSays(short, false, 3, 5);
    ZerosEmpty(Zeros(ClusterSize(g)));
    ListingAdd(Zeros(ClusterSize(g)), 0, s);
    assert LocatedAt(g, [2], 0, g.ClusterLba(2), 0, 0, 0);
    var vs := [Child(EntryOf(s, 0), g.ClusterLba(2), 0)];
    assert vs[0].entry == EntryOf(s, 0);
    assert WithSize(vs, 0, 0)[0].entry.size == 0;
  }

  /** The name of a listed directory is created as a file, and no longer unique. */
  lemma DirectoryNamedAgain()
    ensures var vs := [Child(Entry([97], 0, true, 3, 2), 0, 64)];
            RoundTrips([97]) && !Opens(vs, [97]) && !CreateFits([97], vs, true) && CreateFits([98], vs, true)
  {
    NameRoundTrip([97]);
    NameRoundTrip([98]);
  }

  /** The load, and the first child of that name. */
  method LoadAndFind(v: Volume, parent: Node, name: Name) returns (found: bool, i: nat, ghost loaded: seq<Child>)
    requires v.Valid() && parent.cluster in v.chains && Proper(parent)
    modifies parent`children
    ensures Proper(parent) && forall c :: c in parent.children ==> c in old(parent.children) || (fresh(c) && c.children == [])
    ensures forall c :: c in old(parent.children) ==> c in parent.children
    ensures loaded == Views(parent.children) && Loaded(v.g, v.disk, v.chains, parent.cluster, old(Views(parent.children)), loaded)
    ensures i == FirstNamed(loaded, name) && (found <==> i < |parent.children|)
  {
    hide Loaded, FirstNamed, Content, WellFormed, FatOf;
    LoadIfEmpty(v, parent);
    loaded := Views(parent.children);
    found, i := FindChild(parent.children, name);
    i := if found then i else |parent.children|;
    FirstNamedIs(loaded, name, i);
  }

  /** What vfs_unlink does when fat_unlink succeeds: `vs` the list before, `loaded` after the initial load, `ws` the
      list afterwards, `k` the entry deleted. */
  ghost predicate UnlinkOutcome(g: Geometry, d0: Disk, chains0: map<nat, seq<nat>>, d: Disk, chains: map<nat, seq<nat>>,
                                p: nat, name: Name, vs: seq<Child>, loaded: seq<Child>, ws: seq<Child>, ok: bool, k: nat)
  {
    && Loaded(g, d0, chains0, p, vs, loaded)
    && (if ok then To83(name).Some? && Unlinked(g, d0, chains0, d, chains, p, To83(name).value, k) && ws == Without(loaded, name)
        else d == d0 && chains == chains0 && ws == loaded)
  }

  /** From a list that was empty or in step: in step again exactly on names that round-trip. */
  lemma UnlinkOutcomeSync(g: Geometry, d0: Disk, chains0: map<nat, seq<nat>>, d: Disk, chains: map<nat, seq<nat>>,
                          p: nat, name: Name, vs: seq<Child>, loaded: seq<Child>, ws: seq<Child>, ok: bool, k: nat)
    requires UnlinkOutcome(g, d0, chains0, d, chains, p, name, vs, loaded, ws, ok, k) && p in chains
    ensures Loadable(g, d0, chains0, p, vs) ==> InStep(g, d0, chains0, p, loaded) && Orderly(g, d, chains, p)
    ensures SyncedExactlyIf(g, d0, chains0, d, chains, p, vs, ws, ok ==> RoundTrips(name))
  {
    hide Loaded, Loadable, To83, Unlinked, RoundTrips, Without, Tidy, Synced, UniqueNames, Content;
    LoadInStep(g, d0, chains0, p, vs, loaded);
    if ok && Loadable(g, d0, chains0, p, vs) {
      UnlinkSync(g, d0, chains0, d, chains, p, name, k, loaded);
    }
  }

  /** Unlinking node `i` from the list of nodes. */
  lemma WithoutIs(parent: Node, name: Name, i: nat, loaded: seq<Child>)
    requires Proper(parent) && loaded == Views(parent.children) && i == FirstNamed(loaded, name)
    ensures i == |parent.children| ==> Without(loaded, name) == loaded
    ensures i < |parent.children| ==>
              var rest := Dropped(parent.children, i);
              && Views(rest) == Without(loaded, name) && parent !in rest && NoRepeats(rest)
              && (forall c :: c in rest ==> c in parent.children)
              && forall c :: c in parent.children && c.name != name ==> c in rest
  {
    hide Dropped;
    if i < |parent.children| {
      DroppedAt(parent.children, i);
      DroppedAt(loaded, i);
      assert Views(Dropped(parent.children, i)) == Dropped(loaded, i);
    }
  }

  /** vfs_unlink below its path lookup. */
  method VfsUnlink(v: Volume, parent: Node, name: Name) returns (ret: int, ghost loaded: seq<Child>, ghost k: nat)
    requires v.Valid() && parent.cluster in v.chains && Proper(parent)
    requires To83(name).Some? ==> Deletable(v.g, v.disk, v.chains, parent.cluster, To83(name).value)
    modifies v`disk, v`chains, parent`children
    ensures v.Valid() && parent.cluster in v.chains && Proper(parent) && (ret == 0 || ret == -1)
    ensures forall c :: c in parent.children ==> c in old(parent.children) || (fresh(c) && c.children == [])
    ensures forall c :: c in old(parent.children) && (ret == -1 || c.name != name) ==> c in parent.children
    ensures UnlinkOutcome(v.g, old(v.disk), old(v.chains), v.disk, v.chains, parent.cluster, name,
                          old(Views(parent.children)), loaded, Views(parent.children), ret == 0, k)
    ensures SyncedExactlyIf(v.g, old(v.disk), old(v.chains), v.disk, v.chains, parent.cluster, old(Views(parent.children)), Views(parent.children),
                            ret == 0 ==> RoundTrips(name))
  {
    hide Content, WellFormed, FatOf, InStep, Loadable, AllInRange, To83, RoundTrips, Deletable, Unlinked, NoMatch, Loaded, Orderly, FirstNamed, Without, NoRepeats, SyncedExactlyIf;
    ghost var d0, chains0, vs := v.disk, v.chains, Views(parent.children);
    var found, i, l := LoadAndFind(v, parent, name);
    loaded := l;
    ret, k := Unlink(v, parent, name);
    WithoutIs(parent, name, i, loaded);
    if ret == 0 && found {
      parent.children := Dropped(parent.children, i);
    }
    UnlinkOutcomeSync(v.g, d0, chains0, v.disk, v.chains, parent.cluster, name, vs, loaded, Views(parent.children), ret == 0, k);
  }

  /** vfs_create opens, rather than creates, exactly if the first child of that name is a file. */
  ghost predicate Opens(vs: seq<Child>, name: Name) { FirstNamed(vs, name) < |vs| && !vs[FirstNamed(vs, name)].entry.dir }

  /** What vfs_create does: an existing file is handed out with its cached size reset; anything else is created. */
  ghost predicate CreateOutcome(g: Geometry, d0: Disk, chains0: map<nat, seq<nat>>, d: Disk, chains: map<nat, seq<nat>>,
                                p: nat, name: Name, up: nat, vs: seq<Child>, loaded: seq<Child>, ws: seq<Child>, ok: bool)
  {
    && Loaded(g, d0, chains0, p, vs, loaded)
    && (if Opens(loaded, name) then d == d0 && chains == chains0 && ws == WithSize(loaded, FirstNamed(loaded, name), 0)
        else if ok then Added(g, d0, chains0, d, chains, p, name, false, up, loaded, ws)
        else d == d0 && chains == chains0 && ws == loaded)
  }

  /** When that leaves a list in step: opening exactly if the file was empty, creating exactly if the name round-trips
      and is new. */
  ghost predicate CreateFits(name: Name, loaded: seq<Child>, ok: bool)
  {
    if Opens(loaded, name) then loaded[FirstNamed(loaded, name)].entry.size == 0
    else ok ==> RoundTrips(name) && FirstNamed(loaded, name) == |loaded|
  }

  lemma CreateOutcomeSync(g: Geometry, d0: Disk, chains0: map<nat, seq<nat>>, d: Disk, chains: map<nat, seq<nat>>,
                          p: nat, name: Name, up: nat, vs: seq<Child>, loaded: seq<Child>, ws: seq<Child>, ok: bool)
    requires CreateOutcome(g, d0, chains0, d, chains, p, name, up, vs, loaded, ws, ok)
    ensures Loadable(g, d0, chains0, p, vs) ==> InStep(g, d0, chains0, p, loaded)
    ensures SyncedExactlyIf(g, d0, chains0, d, chains, p, vs, ws, CreateFits(name, loaded, ok))
  {
    hide Loaded, Loadable, To83, RoundTrips, Tidy, Synced, UniqueNames, Content, Added, WithSize;
    LoadInStep(g, d0, chains0, p, vs, loaded);
    if Loadable(g, d0, chains0, p, vs) {
      if Opens(loaded, name) {
        TruncateSync(g, d, chains, p, loaded, FirstNamed(loaded, name));
      } else if ok {
        AddedSync(g, d0, chains0, d, chains, p, name, false, up, loaded, ws);
      }
    }
  }

  /** A created child put in front of the loaded list. */
  lemma AddedIs(g: Geometry, d0: Disk, chains0: map<nat, seq<nat>>, d: Disk, chains: map<nat, seq<nat>>,
                p: nat, name: Name, dir: bool, up: nat, node: Node, children: seq<Node>, vs: seq<Child>)
    requires To83(name).Some? && p in chains0 && |children| == |vs| + 1 && children[0] == node && Views(children[1..]) == vs
    requires node.name == name && node.size == 0 && node.dir == dir && Located(g, chains0[p], node.slot, node.dirLba, node.dirOff)
    requires Created(g, d0, chains0, d, chains, p, To83(name).value, dir, up, node.cluster, node.slot)
    ensures Added(g, d0, chains0, d, chains, p, name, dir, up, vs, Views(children))
  {
    hide Created, Located, To83;
    assert forall i :: 0 <= i < |vs| ==> children[i + 1] == children[1..][i];
    assert Views(children)[1..] == vs;
  }

  /** fat_create in a directory with the list `vs`. */
  method CreateChild(v: Volume, parent: Node, name: Name, dir: bool, parentIsRoot: bool, ghost vs: seq<Child>) returns (node: Node?)
    requires v.Valid() && parent.cluster in v.chains && Proper(parent) && vs == Views(parent.children)
    modifies v`disk, v`chains, parent`children
    ensures v.Valid() && parent.cluster in v.chains && Proper(parent)
    ensures node == null ==> v.disk == old(v.disk) && v.chains == old(v.chains) && parent.children == old(parent.children)
    ensures node != null ==> fresh(node) && node.name == name && node.dir == dir && node.size == 0 && node.children == []
    ensures node != null ==> parent.children == [node] + old(parent.children)
    ensures node != null ==> Added(v.g, old(v.disk), old(v.chains), v.disk, v.chains, parent.cluster, name, dir,
                                   if parentIsRoot then 0 else parent.cluster, vs, Views(parent.children))
  {
    hide Content, WellFormed, FatOf, AllInRange, To83, Created, NoneAvailable, NoFree, Located, Added;
    ghost var d0, chains0 := v.disk, v.chains;
    node := Create(v, parent, name, dir, parentIsRoot);
    if node != null {
      AddedIs(v.g, d0, chains0, v.disk, v.chains, parent.cluster, name, dir, if parentIsRoot then 0 else parent.cluster, node, parent.children, vs);
    }
  }

  /** The cached size of a file set to 0; it is child `i`. */
  method Truncate(node: Node, ghost children: seq<Node>, ghost i: nat)
    requires NoRepeats(children) && i < |children| && children[i] == node
    modifies node`size
    ensures node.size == 0
    ensures Views(children) == WithSize(old(Views(children)), i, 0)
  {
    ghost var vs := Views(children);
    node.size := 0;
    assert forall j :: 0 <= j < |vs| && j != i ==> children[j] != node;
    assert Views(children) == WithSize(vs, i, 0);
  }

  /** vfs_create below its path lookup. `loaded` is the list after the initial load. */
  method VfsCreate(v: Volume, parent: Node, name: Name, parentIsRoot: bool) returns (node: Node?, ghost loaded: seq<Child>)
    requires v.Valid() && parent.cluster in v.chains && Proper(parent)
    modifies v`disk, v`chains, parent`children, parent.children`size
    ensures v.Valid() && parent.cluster in v.chains && Proper(parent)
    ensures forall c :: c in parent.children ==> c in old(parent.children) || (fresh(c) && c.children == [])
    ensures forall c :: c in old(parent.children) ==> c in parent.children
    ensures CreateOutcome(v.g, old(v.disk), old(v.chains), v.disk, v.chains, parent.cluster, name, if parentIsRoot then 0 else parent.cluster,
                          old(Views(parent.children)), loaded, Views(parent.children), node != null)
    ensures Opens(loaded, name) ==> |loaded| == |parent.children| && node == parent.children[FirstNamed(loaded, name)]
    ensures !Opens(loaded, name) && node != null ==> parent.children != [] && node == parent.children[0] && fresh(node)
    ensures node != null ==> node in parent.children && node.name == name && !node.dir && node.size == 0
    ensures SyncedExactlyIf(v.g, old(v.disk), old(v.chains), v.disk, v.chains, parent.cluster, old(Views(parent.children)), Views(parent.children),
                            CreateFits(name, loaded, node != null))
  {
    hide WellFormed, FatOf, RoundTrips, Loaded, FirstNamed, Added, CreateFits, SyncedExactlyIf;
    ghost var up := if parentIsRoot then 0 else parent.cluster;
    ghost var d0, chains0, vs := v.disk, v.chains, Views(parent.children);
    var found, i, l := LoadAndFind(v, parent, name);
    loaded := l;
    if found && !parent.children[i].dir {
      node := parent.children[i];
      assert node in parent.children;
      Truncate(node, parent.children, i);
    } else {
      node := CreateChild(v, parent, name, false, parentIsRoot, loaded);
    }
    CreateOutcomeSync(v.g, d0, chains0, v.disk, v.chains, parent.cluster, name, up, vs, loaded, Views(parent.children), node != null);
  }

  /** What vfs_mkdir does: nothing if the name is taken, else it creates. */
  ghost predicate MkdirOutcome(g: Geometry, d0: Disk, chains0: map<nat, seq<nat>>, d: Disk, chains: map<nat, seq<nat>>,
                               p: nat, name: Name, up: nat, vs: seq<Child>, loaded: seq<Child>, ws: seq<Child>, ok: bool)
  {
    && Loaded(g, d0, chains0, p, vs, loaded)
    && (if ok then FirstNamed(loaded, name) == |loaded| && Added(g, d0, chains0, d, chains, p, name, true, up, loaded, ws)
        else d == d0 && chains == chains0 && ws == loaded)
  }

  lemma MkdirOutcomeSync(g: Geometry, d0: Disk, chains0: map<nat, seq<nat>>, d: Disk, chains: map<nat, seq<nat>>,
                         p: nat, name: Name, up: nat, vs: seq<Child>, loaded: seq<Child>, ws: seq<Child>, ok: bool)
    requires MkdirOutcome(g, d0, chains0, d, chains, p, name, up, vs, loaded, ws, ok)
    ensures Loadable(g, d0, chains0, p, vs) ==> InStep(g, d0, chains0, p, loaded)
    ensures SyncedExactlyIf(g, d0, chains0, d, chains, p, vs, ws, ok ==> RoundTrips(name))
  {
    hide Loaded, Loadable, To83, RoundTrips, Tidy, Synced, UniqueNames, Content, Added;
    LoadInStep(g, d0, chains0, p, vs, loaded);
    if ok && Loadable(g, d0, chains0, p, vs) {
      AddedSync(g, d0, chains0, d, chains, p, name, true, up, loaded, ws);
    }
  }

  /** vfs_mkdir below its path lookup. */
  method VfsMkdir(v: Volume, parent: Node, name: Name, parentIsRoot: bool) returns (node: Node?, ghost loaded: seq<Child>)
    requires v.Valid() && parent.cluster in v.chains && Proper(parent)
    modifies v`disk, v`chains, parent`children
    ensures v.Valid() && parent.cluster in v.chains && Proper(parent)
    ensures forall c :: c in parent.children ==> c in old(parent.children) || (fresh(c) && c.children == [])
    ensures forall c :: c in old(parent.children) ==> c in parent.children
    ensures MkdirOutcome(v.g, old(v.disk), old(v.chains), v.disk, v.chains, parent.cluster, name, if parentIsRoot then 0 else parent.cluster,
                         old(Views(parent.children)), loaded, Views(parent.children), node != null)
    ensures node != null ==> parent.children != [] && node == parent.children[0] && fresh(node)
    ensures node != null ==> node.name == name && node.dir && node.children == []
    ensures SyncedExactlyIf(v.g, old(v.disk), old(v.chains), v.disk, v.chains, parent.cluster, old(Views(parent.children)), Views(parent.children),
                            node != null ==> RoundTrips(name))
  {
    hide WellFormed, FatOf, RoundTrips, Loaded, FirstNamed, Added, SyncedExactlyIf;
    ghost var up := if parentIsRoot then 0 else parent.cluster;
    ghost var d0, chains0, vs := v.disk, v.chains, Views(parent.children);
    var found, i, l := LoadAndFind(v, parent, name);
    loaded := l;
    node := null;
    if !found {
      node := CreateChild(v, parent, name, true, parentIsRoot, loaded);
    }
    MkdirOutcomeSync(v.g, d0, chains0, v.disk, v.chains, parent.cluster, name, up, vs, loaded, Views(parent.children), node != null);
  }

  /** A write through the `n`-th child of a tracked directory. A whole one gives node and entry the same size, one cut
      short by a full volume changes neither; a list in step stays so. */
  method WriteChild(v: Volume, parent: Node, node: Node, ghost n: nat, offset: nat, data: seq<byte>) returns (done: nat)
    requires v.Valid() && n < |parent.children| && node == parent.children[n] && Proper(parent)
    requires Tracked(v.g, v.disk, v.chains, parent.cluster, Views(parent.children))
    requires node.cluster in v.chains && node.cluster != parent.cluster
    requires node.size < 0x1_0000_0000 && node.cluster < 0x1_0000_0000 && node.dirLba != 0
    modifies v`disk, v`chains, node`size
    ensures v.Valid() && parent.cluster in v.chains
    ensures FileWritten(v.g, old(v.disk), old(v.chains), v.disk, v.chains, node.cluster, offset, data, done)
    ensures done == |data| <==> Affordable(v.g, old(v.disk), old(v.chains), node.cluster, offset, |data|)
    ensures EntryUpdated(v.g, old(v.disk), v.disk, v.chains, node.cluster, 0 < done == |data|, parent.cluster, node.slot, node.size)
    ensures node.size == if 0 < done == |data| then GrownSize(old(node.size), offset, |data|) else old(node.size)
    ensures Views(parent.children) == WithSize(old(Views(parent.children)), n, node.size)
    ensures Tracked(v.g, v.disk, v.chains, parent.cluster, Views(parent.children))
    ensures old(InStep(v.g, v.disk, v.chains, parent.cluster, Views(parent.children))) ==>
              InStep(v.g, v.disk, v.chains, parent.cluster, Views(parent.children))
  {
    hide Content, WellFormed, FatOf, Synced, Matched, UniqueNames, ZeroTail, AllInRange, Located, Listing, FileWritten, EntryUpdated, Affordable,
         Unsettled, SizeOnDisk;
    ghost var vs, p, d0, chains0 := Views(parent.children), parent.cluster, v.disk, v.chains;
    InStepIff(v.g, d0, chains0, p, vs);
    MatchedSlots(v.g, chains0[p], DirContent(v.g, d0, chains0, p), vs);
    done := WriteFile(v, node, offset, data, p);
    assert Views(parent.children) == WithSize(vs, n, node.size);
    WriteTracks(v.g, d0, chains0, v.disk, v.chains, p, vs, n, offset, data, done, node.size);
    InStepIff(v.g, v.disk, v.chains, p, Views(parent.children));
  }

  /** A write through a tracked child, by its effect. */
  lemma WriteTracks(g: Geometry, d0: Disk, chains0: map<nat, seq<nat>>, d: Disk, chains: map<nat, seq<nat>>,
                    p: nat, vs: seq<Child>, n: nat, offset: nat, data: seq<byte>, done: nat, size: nat)
    requires Tracked(g, d0, chains0, p, vs) && n < |vs| && vs[n].entry.cluster != p
    requires FileWritten(g, d0, chains0, d, chains, vs[n].entry.cluster, offset, data, done)
    requires EntryUpdated(g, d0, d, chains, vs[n].entry.cluster, 0 < done == |data|, p, vs[n].entry.slot, size)
    requires !(0 < done == |data|) ==> size == vs[n].entry.size
    ensures Tracked(g, d, chains, p, WithSize(vs, n, size))
    ensures chains[p] == chains0[p]
    ensures Stale(g, d, chains, p, WithSize(vs, n, size))
            == if 0 < done == |data| then Stale(g, d0, chains0, p, vs) - {vs[n].entry.slot} else Stale(g, d0, chains0, p, vs)
  {
    hide Content, FatOf, UniqueNames, ZeroTail, WithSlot, Resized, Placed, Grew, SlotAt, Mirrored, Matched, Unsettled, Extent;
    WrittenKeepsChain(g, d0, chains0, d, chains, p, vs[n].entry.cluster, offset, data, done);
    EntryUpdatedContent(g, d0, d, chains, vs[n].entry.cluster, 0 < done == |data|, p, vs[n].entry.slot, size);
    if 0 < done == |data| {
      WrittenTracks(g, chains[p], DirContent(g, d0, chains0, p), vs, n, size);
    } else {
      assert WithSize(vs, n, size) == vs;
    }
  }

  lemma WrittenKeepsChain(g: Geometry, d0: Disk, chains0: map<nat, seq<nat>>, d: Disk, chains: map<nat, seq<nat>>,
                          p: nat, head: nat, offset: nat, data: seq<byte>, done: nat)
    requires FileWritten(g, d0, chains0, d, chains, head, offset, data, done) && p in chains0 && p != head
    ensures g.Holds(d) && p in chains && chains[p] == chains0[p]
  {
  }

  lemma EntryUpdatedContent(g: Geometry, d0: Disk, d: Disk, chains: map<nat, seq<nat>>, head: nat, whole: bool, p: nat, slot: nat, size: nat)
    requires EntryUpdated(g, d0, d, chains, head, whole, p, slot, size) && p in chains && p != head
    ensures g.Holds(d0) && g.Holds(d) && AllInRange(g, chains[p])
    ensures if whole then
              && 32 * slot + 32 <= |Content(g, d0, chains[p])| && head < 0x1_0000_0000 && size < 0x1_0000_0000
              && Content(g, d, chains[p]) == WithSlot(Content(g, d0, chains[p]), slot, Resized(SlotAt(Content(g, d0, chains[p]), slot), size, head))
            else Content(g, d, chains[p]) == Content(g, d0, chains[p])
  {
    hide Content, WithSlot, Resized;
  }
}
