/** The node cache against the disk: when a directory node's child list is in one-to-one correspondence with the
    live entries of the directory, which operations keep it so, and on exactly which names and files they do. */
module FatSync {
  import opened Bytes
  import opened FatTable
  import opened FatChains
  import opened FatContent
  import opened FatVolume
  import opened FatFile
  import opened FatNames
  import opened FatDirent
  import opened FatDirectory
  import opened FatLookup
  import opened FatCreate
  import opened FatRemove

  ghost function Views(children: seq<Node>): (vs: seq<Child>)
    reads children
    ensures |vs| == |children| && forall i :: 0 <= i < |children| ==> vs[i] == children[i].View()
  {
    seq(|children|, i requires 0 <= i < |children| reads children => children[i].View())
  }

  /** Every child is a live entry, placed where it says, and no two are the same entry. */
  ghost predicate Faithful(g: Geometry, ch: seq<nat>, content: seq<byte>, vs: seq<Child>)
  {
    && (forall i :: 0 <= i < |vs| ==> vs[i].entry in Listing(content) && Located(g, ch, vs[i].entry.slot, vs[i].lba, vs[i].off))
    && (forall i, j :: 0 <= i < j < |vs| ==> vs[i].entry.slot != vs[j].entry.slot)
  }

  ghost predicate Cached(vs: seq<Child>, e: Entry) { exists i :: 0 <= i < |vs| && vs[i].entry == e }

  /** One-to-one: faithful, and every live entry is cached. */
  ghost predicate Synced(g: Geometry, ch: seq<nat>, content: seq<byte>, vs: seq<Child>)
  {
    Faithful(g, ch, content, vs) && forall e :: e in Listing(content) ==> Cached(vs, e)
  }

  ghost predicate UniqueNames(content: seq<byte>)
  {
    forall e, f :: e in Listing(content) && f in Listing(content) && e.name == f.name ==> e == f
  }

  /** A name that comes back from its directory entry unchanged. */
  predicate RoundTrips(name: Name) { To83(name).Some? && Trim(To83(name).value) == name }

  /** Size the child's entry has on disk. */
  ghost function SizeOnDisk(content: seq<byte>, c: Child): nat
  {
    if 32 * c.entry.slot + 32 <= |content| then SlotSize(SlotAt(content, c.entry.slot)) else c.entry.size
  }

  /** The list with the sizes the entries have on disk. */
  ghost function Settled(content: seq<byte>, vs: seq<Child>): (us: seq<Child>)
    ensures |us| == |vs|
    ensures forall i :: 0 <= i < |vs| ==> us[i] == vs[i].(entry := vs[i].entry.(size := SizeOnDisk(content, vs[i])))
  {
    seq(|vs|, i requires 0 <= i < |vs| => vs[i].(entry := vs[i].entry.(size := SizeOnDisk(content, vs[i]))))
  }

  /** One-to-one in everything but sizes. */
  ghost predicate Matched(g: Geometry, ch: seq<nat>, content: seq<byte>, vs: seq<Child>)
  {
    Synced(g, ch, content, Settled(content, vs))
  }

  /** Entries of the children whose size differs from the one on disk. */
  ghost function Unsettled(content: seq<byte>, vs: seq<Child>): set<nat>
  {
    set i | 0 <= i < |vs| && vs[i].entry.size != SizeOnDisk(content, vs[i]) :: vs[i].entry.slot
  }

  lemma SettledIs(content: seq<byte>, vs: seq<Child>)
    ensures Unsettled(content, vs) == {} <==> Settled(content, vs) == vs
  {
    hide SizeOnDisk;
    if Unsettled(content, vs) == {} {
      forall i | 0 <= i < |vs|
        ensures Settled(content, vs)[i] == vs[i]
      {
        assert vs[i].entry.slot !in Unsettled(content, vs);
      }
    }
  }

  /** One-to-one is matched with every size settled. */
  lemma SyncedIff(g: Geometry, ch: seq<nat>, content: seq<byte>, vs: seq<Child>)
    ensures Synced(g, ch, content, vs) <==> Matched(g, ch, content, vs) && Unsettled(content, vs) == {}
  {
    hide Listing, Located, SlotSize, SlotAt, Unsettled, Cached;
    SettledIs(content, vs);
    if Synced(g, ch, content, vs) {
      forall i | 0 <= i < |vs|
        ensures SizeOnDisk(content, vs[i]) == vs[i].entry.size
      {
        ListingSize(content, vs[i]);
      }
      assert Settled(content, vs) == vs;
    }
  }

  lemma ListingSize(content: seq<byte>, c: Child)
    requires c.entry in Listing(content)
    ensures SizeOnDisk(content, c) == c.entry.size && 32 * c.entry.slot + 32 <= |content|
  {
    ListingHas(content, c.entry);
  }

  /** Every entry of the directory has a child of its name. */
  ghost predicate AllNamed(content: seq<byte>, vs: seq<Child>)
  {
    forall e :: e in Listing(content) ==> HasName(vs, e.name)
  }

  ghost predicate HasName(vs: seq<Child>, name: Name) { exists i :: 0 <= i < |vs| && vs[i].entry.name == name }

  lemma MatchedIsNamed(g: Geometry, ch: seq<nat>, content: seq<byte>, vs: seq<Child>)
    requires Matched(g, ch, content, vs)
    ensures AllNamed(content, vs)
  {
    hide Listing, Located, SizeOnDisk;
    var us := Settled(content, vs);
    forall e | e in Listing(content)
      ensures HasName(vs, e.name)
    {
      assert Cached(us, e);
      var i :| 0 <= i < |us| && us[i].entry == e;
      assert vs[i].entry.name == e.name;
    }
  }

  /** "A" reads back as "a", and "a." loses its dot. */
  lemma NamesThatChange()
    ensures To83([65]).Some? && !RoundTrips([65]) && To83([97, DOT]).Some? && !RoundTrips([97, DOT])
  {
    NameRoundTrip([65]);
    NameRoundTrip([97, DOT]);
    assert FirstDot([65]) == 1 && FirstDot([97, DOT]) == 1;
    assert IsUpper([65][0]);
  }

  /** A child put in front, when its entry is added to the listing. */
  lemma SyncedAdd(g: Geometry, ch: seq<nat>, content: seq<byte>, content': seq<byte>, vs: seq<Child>, c: Child, e: Entry)
    requires Synced(g, ch, content, vs) && Listing(content') == Listing(content) + {e}
    requires (forall x :: x in Listing(content) ==> x.slot != e.slot) && c.entry.slot == e.slot && Located(g, ch, e.slot, c.lba, c.off)
    ensures Synced(g, ch, content', [c] + vs) <==> c.entry == e
  {
    hide Listing, Located;
    var ws := [c] + vs;
    if c.entry == e {
      forall x | x in Listing(content')
        ensures Cached(ws, x)
      {
        if x != e {
          var i :| 0 <= i < |vs| && vs[i].entry == x;
          assert ws[i + 1].entry == x;
        } else {
          assert ws[0].entry == x;
        }
      }
    } else {
      assert c.entry !in Listing(content');
      assert ws[0].entry == c.entry;
    }
  }

  /** The cached child of an entry follows when the entry is exchanged for another of the same number. */
  lemma SyncedReplace(g: Geometry, ch: seq<nat>, content: seq<byte>, content': seq<byte>, vs: seq<Child>, n: nat, e: Entry)
    requires Synced(g, ch, content, vs) && n < |vs| && e.slot == vs[n].entry.slot
    requires Listing(content') == Listing(content) - {vs[n].entry} + {e}
    ensures Synced(g, ch, content', vs[n := vs[n].(entry := e)])
  {
    hide Listing, Located;
    var ws := vs[n := vs[n].(entry := e)];
    assert ws[n].entry == e;
    forall x | x in Listing(content')
      ensures Cached(ws, x)
    {
      if x != e {
        var i :| 0 <= i < |vs| && vs[i].entry == x;
        assert ws[i].entry == x;
      }
    }
  }

  /** Taking a child out of the list, when the listing loses entry `e`: right exactly when it is that entry's child. */
  lemma SyncedDrop(g: Geometry, ch: seq<nat>, content: seq<byte>, content': seq<byte>, vs: seq<Child>, n: nat, e: Entry)
    requires Synced(g, ch, content, vs) && n < |vs| && e in Listing(content)
    requires Listing(content') == Listing(content) - {e}
    ensures Synced(g, ch, content', Dropped(vs, n)) <==> vs[n].entry == e
  {
    hide Listing, Located, Dropped, Faithful;
    DroppedAt(vs, n);
    var ws := Dropped(vs, n);
    assert Cached(vs, e);
    var m :| 0 <= m < |vs| && vs[m].entry == e;
    if m == n {
      FaithfulDrop(g, ch, content, content', vs, n);
      forall x | x in Listing(content')
        ensures Cached(ws, x)
      {
        var i :| 0 <= i < |vs| && vs[i].entry == x;
        assert ws[if i < n then i else i - 1].entry == x;
      }
    } else {
      assert ws[if m < n then m else m - 1].entry == e;
      FaithfulDistinct(g, ch, content, vs, m, n);
      Unfaithful(g, ch, content', ws, if m < n then m else m - 1);
    }
  }

  lemma FaithfulDistinct(g: Geometry, ch: seq<nat>, content: seq<byte>, vs: seq<Child>, m: nat, n: nat)
    requires Faithful(g, ch, content, vs) && m < |vs| && n < |vs| && m != n
    ensures vs[m].entry != vs[n].entry
  {
    hide Listing, Located;
    assert vs[m].entry.slot != vs[n].entry.slot;
  }

  lemma Unfaithful(g: Geometry, ch: seq<nat>, content: seq<byte>, vs: seq<Child>, i: nat)
    requires i < |vs| && vs[i].entry !in Listing(content)
    ensures !Faithful(g, ch, content, vs)
  {
    hide Listing, Located;
  }

  lemma FaithfulDrop(g: Geometry, ch: seq<nat>, content: seq<byte>, content': seq<byte>, vs: seq<Child>, n: nat)
    requires Faithful(g, ch, content, vs) && n < |vs| && Listing(content') == Listing(content) - {vs[n].entry}
    ensures Faithful(g, ch, content', Dropped(vs, n))
  {
    hide Listing, Located, Dropped;
    DroppedAt(vs, n);
  }

  /** A list that keeps the child of a vanished entry is out of step. */
  lemma SyncedStale(g: Geometry, ch: seq<nat>, content: seq<byte>, content': seq<byte>, vs: seq<Child>, e: Entry)
    requires Synced(g, ch, content, vs) && e in Listing(content) && e !in Listing(content')
    ensures !Synced(g, ch, content', vs)
  {
    hide Listing, Located;
    assert Cached(vs, e);
  }

  /** Creating: the new child matches its entry exactly on names that round-trip. */
  lemma CreateSync(g: Geometry, ch: seq<nat>, content: seq<byte>, vs: seq<Child>, name: Name, dir: bool, c: nat, k: nat, lba: nat, off: nat)
    requires Synced(g, ch, content, vs) && ZeroTail(content) && To83(name).Some? && FirstAvailable(content, k)
    requires Located(g, ch, k, lba, off) && c < 0x1_0000_0000
    ensures var content' := WithSlot(content, k, NewSlot(To83(name).value, dir, c, 0));
            && ZeroTail(content')
            && (Synced(g, ch, content', [Child(Entry(name, 0, dir, c, k), lba, off)] + vs) <==> RoundTrips(name))
            && (UniqueNames(content) ==> (UniqueNames(content') <==> forall e :: e in Listing(content) ==> e.name != Trim(To83(name).value)))
  {
    hide To83, Trim, WithSlot, NewSlot, Located, Listing, SlotCluster, SlotSize, IsDirSlot, IsLive, ZeroTail;
    var short := To83(name).value;
    var s := NewSlot(short, dir, c, 0);
    NewSlotSays(short, dir, c, 0);
    NameIsLive(name, s);
    ListingAdd(content, k, s);
    SyncedAdd(g, ch, content, WithSlot(content, k, s), vs, Child(Entry(name, 0, dir, c, k), lba, off), EntryOf(s, k));
    assert EntryOf(s, k).name == Trim(short);
    UniqueAdd(content, WithSlot(content, k, s), EntryOf(s, k));
  }

  lemma NameIsLive(name: Name, s: Slot)
    requires To83(name).Some? && (IsLive(s) <==> To83(name).value[0] != 0 && To83(name).value[0] != DELETED)
    ensures IsLive(s)
  {
    NotADotEntry(name);
  }

  lemma UniqueAdd(content: seq<byte>, content': seq<byte>, e: Entry)
    requires Listing(content') == Listing(content) + {e} && forall x :: x in Listing(content) ==> x.slot != e.slot
    ensures UniqueNames(content) ==> (UniqueNames(content') <==> forall x :: x in Listing(content) ==> x.name != e.name)
  {
    hide Listing;
    assert e in Listing(content') && e !in Listing(content);
    assert forall x :: x in Listing(content) ==> x in Listing(content');
  }

  /** Writing a cached file: node and entry take the same new size, so the correspondence stays. */
  lemma WriteSync(g: Geometry, ch: seq<nat>, content: seq<byte>, vs: seq<Child>, n: nat, size: nat)
    requires Synced(g, ch, content, vs) && ZeroTail(content) && n < |vs| && size < 0x1_0000_0000
    requires vs[n].entry.cluster < 0x1_0000_0000
    ensures var e := vs[n].entry;
            && 32 * e.slot + 32 <= |content|
            && var content' := WithSlot(content, e.slot, Resized(SlotAt(content, e.slot), size, e.cluster));
            && ZeroTail(content')
            && Synced(g, ch, content', vs[n := vs[n].(entry := e.(size := size))])
            && (UniqueNames(content) ==> UniqueNames(content'))
  {
    hide Trim, WithSlot, Resized, Located, SlotCluster, SlotSize, ZeroTail, Listing, LiveEnd;
    var e := vs[n].entry;
    ListingHas(content, e);
    var s := SlotAt(content, e.slot);
    var r := Resized(s, size, e.cluster);
    ResizedSays(s, size, e.cluster);
    ListingReplace(content, e.slot, r);
    assert EntryOf(r, e.slot) == e.(size := size);
    SyncedReplace(g, ch, content, WithSlot(content, e.slot, r), vs, n, e.(size := size));
  }

  /** The linear search by name over a child list. */
  method FindChild(children: seq<Node>, name: Name) returns (found: bool, i: nat)
    ensures found ==> i < |children| && children[i].name == name && forall j :: 0 <= j < i ==> children[j].name != name
    ensures !found ==> forall j :: 0 <= j < |children| ==> children[j].name != name
  {
    i := 0;
    while i < |children|
      invariant 0 <= i <= |children|
      invariant forall j :: 0 <= j < i ==> children[j].name != name
    {
      if children[i].name == name {
        return true, i;
      }
      i := i + 1;
    }
    found := false;
  }

  /** Entries reported by a directory read. */
  function CountLive(content: seq<byte>, k: nat): nat
    requires k <= SlotCount(content)
  {
    if k == 0 then 0 else CountLive(content, k - 1) + if IsLive(SlotAt(content, k - 1)) then 1 else 0
  }

  /** Where a directory read stands: entries before `k` have been taken over into the list. */
  ghost predicate Loading(g: Geometry, ch: seq<nat>, content: seq<byte>, old_vs: seq<Child>, vs: seq<Child>, k: nat, count: nat)
  {
    && k <= LiveEnd(content) && count == CountLive(content, k)
    && |old_vs| <= |vs| && vs[|vs| - |old_vs|..] == old_vs
    && (UniqueNames(content) && Faithful(g, ch, content, old_vs) ==>
          Faithful(g, ch, content, vs) && forall j :: 0 <= j < k && IsLive(SlotAt(content, j)) ==> Cached(vs, EntryOf(SlotAt(content, j), j)))
    && (AllNamed(content, old_vs) ==> vs == old_vs)
  }

  lemma LoadingSkip(g: Geometry, ch: seq<nat>, content: seq<byte>, old_vs: seq<Child>, vs: seq<Child>, k: nat, count: nat)
    requires Loading(g, ch, content, old_vs, vs, k, count) && k < SlotCount(content)
    requires SlotAt(content, k)[0] != 0 && !IsLive(SlotAt(content, k))
    ensures Loading(g, ch, content, old_vs, vs, k + 1, count)
  {
    hide Faithful, UniqueNames, EntryOf, Cached, IsLive;
    BeforeEnd(content, k);
  }

  lemma BeforeEnd(content: seq<byte>, k: nat)
    requires k <= LiveEnd(content) && k < SlotCount(content) && SlotAt(content, k)[0] != 0
    ensures k < LiveEnd(content)
  {
  }

  lemma LoadingFound(g: Geometry, ch: seq<nat>, content: seq<byte>, old_vs: seq<Child>, vs: seq<Child>, k: nat, count: nat, i: nat)
    requires Loading(g, ch, content, old_vs, vs, k, count) && k < SlotCount(content) && IsLive(SlotAt(content, k))
    requires i < |vs| && vs[i].entry.name == Trim(SlotAt(content, k)[..11])
    ensures Loading(g, ch, content, old_vs, vs, k + 1, count + 1)
  {
    hide Trim, SlotSize, SlotCluster, Located, Listing;
    var e := EntryOf(SlotAt(content, k), k);
    BeforeEnd(content, k);
    ListingHas(content, e);
  }

  lemma LoadingNew(g: Geometry, ch: seq<nat>, content: seq<byte>, old_vs: seq<Child>, vs: seq<Child>, k: nat, count: nat, c: Child)
    requires Loading(g, ch, content, old_vs, vs, k, count) && k < SlotCount(content) && IsLive(SlotAt(content, k))
    requires forall i :: 0 <= i < |vs| ==> vs[i].entry.name != Trim(SlotAt(content, k)[..11])
    requires c.entry == EntryOf(SlotAt(content, k), k) && Located(g, ch, k, c.lba, c.off)
    ensures Loading(g, ch, content, old_vs, [c] + vs, k + 1, count + 1)
  {
    hide Trim, SlotSize, SlotCluster, Located, Listing, LiveEnd;
    var ws := [c] + vs;
    BeforeEnd(content, k);
    ListingHas(content, c.entry);
    assert ws[|ws| - |old_vs|..] == vs[|vs| - |old_vs|..];
    assert AllNamed(content, old_vs) && vs == old_vs ==> HasName(vs, c.entry.name);
    if UniqueNames(content) && Faithful(g, ch, content, old_vs) {
      forall i | 0 <= i < |vs|
        ensures vs[i].entry.slot != k
      {
        ListingHas(content, vs[i].entry);
      }
      forall j | 0 <= j < k + 1 && IsLive(SlotAt(content, j))
        ensures Cached(ws, EntryOf(SlotAt(content, j), j))
      {
        if j == k {
          assert ws[0].entry == c.entry;
        } else {
          var i :| 0 <= i < |vs| && vs[i].entry == EntryOf(SlotAt(content, j), j);
          assert ws[i + 1].entry == vs[i].entry;
        }
      }
    }
  }

  lemma LoadingDone(g: Geometry, ch: seq<nat>, content: seq<byte>, old_vs: seq<Child>, vs: seq<Child>, k: nat, count: nat)
    requires Loading(g, ch, content, old_vs, vs, k, count) && (k < SlotCount(content) ==> SlotAt(content, k)[0] == 0)
    ensures k == LiveEnd(content)
    ensures UniqueNames(content) && Faithful(g, ch, content, old_vs) ==> Synced(g, ch, content, vs)
    ensures AllNamed(content, old_vs) ==> vs == old_vs
  {
    hide Trim, SlotSize, SlotCluster, Located;
    LiveEndIs(content, k);
  }

  /** The child list is a list: the node itself is not on it, and nothing is on it twice. */
  ghost predicate Proper(node: Node)
    reads node
  {
    node !in node.children && NoRepeats(node.children)
  }

  ghost predicate NoRepeats(children: seq<Node>)
  {
    forall i, j :: 0 <= i < j < |children| ==> children[i] != children[j]
  }

  /** The list only got new nodes in front. */
  ghost predicate Extends(before: seq<Node>, now: seq<Node>)
  {
    |before| <= |now| && now[|now| - |before|..] == before
  }

  /** An entry in front of the end mark: passed over, or looked up and made a child of. */
  method LoadSlot(v: Volume, node: Node, s: Slot, lba: nat, off: nat, count: nat, ghost ch: seq<nat>,
                  ghost content: seq<byte>, ghost old_vs: seq<Child>, ghost before: seq<Node>, ghost k: nat) returns (count': nat)
    requires Proper(node) && Extends(before, node.children)
    requires Loading(v.g, ch, content, old_vs, Views(node.children), k, count)
    requires k < SlotCount(content) && s == SlotAt(content, k) && s[0] != 0 && Located(v.g, ch, k, lba, off)
    modifies node`children
    ensures Loading(v.g, ch, content, old_vs, Views(node.children), k + 1, count')
    ensures Proper(node) && Extends(before, node.children) && forall c :: c in node.children ==> c in old(node.children) || (fresh(c) && c.children == [])
  {
    hide Loading, Located, Trim, IsLive, SlotAt, SlotSize, SlotCluster, Proper, Extends, Listing, Views;
    count' := count;
    if IsLive(s) {
      ghost var now := node.children;
      count' := LoadEntryNode(v, node, s, lba, off, count, ch, content, old_vs, k);
      ExtendsMore(before, now, node.children);
    } else {
      LoadingSkip(v.g, ch, content, old_vs, Views(node.children), k, count);
    }
  }

  /** The entries of one cluster of a directory read, up to the end mark if it has one. */
  method LoadCluster(v: Volume, node: Node, cluster: nat, count: nat, ghost i: nat, ghost k: nat,
                     ghost content: seq<byte>, ghost old_vs: seq<Child>, ghost before: seq<Node>)
    returns (count': nat, done: bool, ghost k': nat)
    requires At(v.g, v.disk, v.chains, node.cluster, cluster, i, k) && cluster < EOC && Proper(node)
    requires AllInRange(v.g, v.chains[node.cluster]) && content == Content(v.g, v.disk, v.chains[node.cluster])
    requires Loading(v.g, v.chains[node.cluster], content, old_vs, Views(node.children), k, count) && Extends(before, node.children)
    modifies node`children
    ensures Proper(node) && Extends(before, node.children) && forall c :: c in node.children ==> c in old(node.children) || (fresh(c) && c.children == [])
    ensures Loading(v.g, v.chains[node.cluster], content, old_vs, Views(node.children), k', count')
    ensures if done then k' < SlotCount(content) && SlotAt(content, k')[0] == 0 else k' == k + EntriesPerCluster(v.g)
  {
    hide Content, WellFormed, FatOf, At, Located, SlotAt, EntriesPerCluster, IsLive, Geometry.ClusterLba, Geometry.Holds, Geometry.InRange,
         ClusterBytes, Times, LiveEnd, Loading, Trim, SlotSize, SlotCluster, IsDirSlot, AllInRange, Extends, Proper, Listing, Views;
    AtNext(v.g, v.disk, v.chains, node.cluster, cluster, i, k);
    count', done, k' := count, false, k;
    var base := v.ClusterToLba(cluster);
    var e := 0;
    var buf := ZERO_SECTOR;
    while e < EntriesPerCluster(v.g)
      invariant 0 <= e <= EntriesPerCluster(v.g)
      invariant e > 0 ==> base + (e - 1) / 16 < |v.disk| && buf == v.disk[base + (e - 1) / 16]
      invariant Loading(v.g, v.chains[node.cluster], content, old_vs, Views(node.children), k + e, count')
      invariant Extends(before, node.children)
      invariant Proper(node) && forall c :: c in node.children ==> c in old(node.children) || (fresh(c) && c.children == [])
    {
      AtEntry(v.g, v.disk, v.chains, node.cluster, cluster, i, k, e);
      var s: Slot;
      buf, s := LoadEntry(v, base, e, buf);
      if s[0] == 0 {
        done, k' := true, k + e;
        return;
      }
      count' := LoadSlot(v, node, s, base + e / 16, e % 16 * 32, count', v.chains[node.cluster], content, old_vs, before, k + e);
      e := e + 1;
    }
    k' := k + e;
  }

  /** fat_readdir without its callback: brings the children up to date and counts the entries. */
  method ReadDir(v: Volume, node: Node) returns (count: nat)
    requires v.Valid() && node.cluster in v.chains && Proper(node)
    modifies node`children
    ensures AllInRange(v.g, v.chains[node.cluster])
    ensures var content := Content(v.g, v.disk, v.chains[node.cluster]);
            && count == CountLive(content, LiveEnd(content))
            && Extends(old(node.children), node.children)
            && (UniqueNames(content) && Faithful(v.g, v.chains[node.cluster], content, old(Views(node.children))) ==>
                  Synced(v.g, v.chains[node.cluster], content, Views(node.children)))
            && (AllNamed(content, old(Views(node.children))) ==> Views(node.children) == old(Views(node.children)))
    ensures Proper(node) && forall c :: c in node.children ==> c in old(node.children) || (fresh(c) && c.children == [])
  {
    hide Content, WellFormed, FatOf, At, Located, SlotAt, EntriesPerCluster, IsLive, Geometry.ClusterLba, Geometry.Holds, Geometry.InRange,
         ClusterBytes, Times, LiveEnd, Loading, AllNamed, Faithful, UniqueNames, Synced, Trim, SlotSize, SlotCluster, CountLive, IsDirSlot, AllInRange, Extends;
    AllLiveInRange(v.g, v.disk, v.chains, node.cluster);
    AtStart(v.g, v.disk, v.chains, node.cluster);
    ghost var content, ch := Content(v.g, v.disk, v.chains[node.cluster]), v.chains[node.cluster];
    ghost var old_vs := Views(node.children);
    LoadingStart(v.g, ch, content, old_vs);
    ExtendsSelf(node.children);
    count := 0;
    var cluster: nat := node.cluster;
    ghost var i: nat, k: nat := 0, 0;
    var done := false;
    while !done && cluster < EOC
      invariant At(v.g, v.disk, v.chains, node.cluster, cluster, i, k) || done
      invariant Loading(v.g, ch, content, old_vs, Views(node.children), k, count)
      invariant done ==> k < SlotCount(content) && SlotAt(content, k)[0] == 0
      invariant Extends(old(node.children), node.children)
      invariant Proper(node) && forall c :: c in node.children ==> c in old(node.children) || (fresh(c) && c.children == [])
      decreases if done then 0 else 1, |ch| - i
    {
      AtNext(v.g, v.disk, v.chains, node.cluster, cluster, i, k);
      ghost var n;
      count, done, n := LoadCluster(v, node, cluster, count, i, k, content, old_vs, old(node.children));
      if !done {
        cluster := v.NextCluster(cluster);
        i := i + 1;
      }
      k := n;
    }
    if !done {
      AtEnd(v.g, v.disk, v.chains, node.cluster, cluster, i, k);
    }
    LoadingDone(v.g, ch, content, old_vs, Views(node.children), k, count);
    LoadingCount(v.g, ch, content, old_vs, Views(node.children), k, count);
  }

  lemma ExtendsSelf(s: seq<Node>)
    ensures Extends(s, s)
  {
  }

  lemma NotSelf(node: Node)
    requires Proper(node)
    ensures node !in node.children
  {
  }

  lemma ExtendsMore(a: seq<Node>, b: seq<Node>, c: seq<Node>)
    requires Extends(a, b) && Extends(b, c)
    ensures Extends(a, c)
  {
  }

  lemma LoadingStart(g: Geometry, ch: seq<nat>, content: seq<byte>, vs: seq<Child>)
    ensures Loading(g, ch, content, vs, vs, 0, 0)
  {
  }

  lemma LoadingCount(g: Geometry, ch: seq<nat>, content: seq<byte>, old_vs: seq<Child>, vs: seq<Child>, k: nat, count: nat)
    requires Loading(g, ch, content, old_vs, vs, k, count)
    ensures k <= SlotCount(content) && count == CountLive(content, k)
  {
  }

  method Prepend(node: Node, child: Node)
    requires Proper(node) && child != node && child !in node.children
    modifies node`children
    ensures Proper(node) && node.children == [child] + old(node.children) && Extends(old(node.children), node.children)
    ensures Views(node.children) == [child.View()] + old(Views(node.children))
  {
    node.children := [child] + node.children;
  }

  /** One live entry of a directory read: skipped when a child of that name exists, else put in front. */
  method LoadEntryNode(v: Volume, node: Node, s: Slot, lba: nat, off: nat, count: nat,
                       ghost ch: seq<nat>, ghost content: seq<byte>, ghost old_vs: seq<Child>, ghost k: nat) returns (count': nat)
    requires Proper(node)
    requires Loading(v.g, ch, content, old_vs, Views(node.children), k, count)
    requires k < SlotCount(content) && s == SlotAt(content, k) && IsLive(s) && Located(v.g, ch, k, lba, off)
    modifies node`children
    ensures count' == count + 1 && Loading(v.g, ch, content, old_vs, Views(node.children), k + 1, count')
    ensures Extends(old(node.children), node.children)
    ensures Proper(node) && forall c :: c in node.children ==> c in old(node.children) || (fresh(c) && c.children == [])
  {
    hide Loading, Located, Trim, IsLive, SlotAt, SlotSize, SlotCluster, Proper, Extends, Listing;
    ExtendsSelf(node.children);
    NotSelf(node);
    assert s[..8] + s[8..11] == s[..11];
    var name := TrimName(s[..8], s[8..11]);
    var found, i := FindChild(node.children, name);
    if found {
      LoadingFound(v.g, ch, content, old_vs, Views(node.children), k, count, i);
    } else {
      ghost var vs := Views(node.children);
      var child := new Node(name, SlotSize(s), IsDirSlot(s), SlotCluster(s), lba, off, k);
      LoadingNew(v.g, ch, content, old_vs, vs, k, count, child.View());
      Prepend(node, child);
    }
    count' := count + 1;
  }
}
