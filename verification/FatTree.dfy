/** The whole volume: every run of creates, writes and unlinks keeps each live entry on a chain of its own, and a
    chain loses its entry only when a directory that still has entries is unlinked. */
module FatTree {
  import opened Bytes
  import opened FatTable
  import opened FatChains
  import opened FatContent
  import opened FatVolume
  import opened FatFile
  import opened FatNames
  import opened FatDirent
  import opened FatDirectory
  import opened FatCreate
  import opened FatRemove
  import opened FatSync
  import opened FatCache

  /** Entries other than "." and "..". */
  predicate OwnName(name: Name) { name != [DOT] && name != [DOT, DOT] }

  ghost function Own(es: set<Entry>): set<Entry> { set e | e in es && OwnName(e.name) }

  /** Own entries of each directory, by the first cluster of the directory. */
  type Tree = map<nat, set<Entry>>

  ghost predicate In(t: Tree, d: nat, e: Entry) { d in t && e in t[d] }

  /** Every own entry is on a live chain that is neither the root's nor its directory's, and is a directory exactly
      when its entry says so. */
  ghost predicate Linked(t: Tree, heads: set<nat>, root: nat)
  {
    forall d, e :: In(t, d, e) ==> e.cluster in heads && e.cluster != root && e.cluster != d && (e.dir <==> e.cluster in t)
  }

  /** No two own entries are on one chain. */
  ghost predicate Apart(t: Tree)
  {
    forall d, e, d', e' :: In(t, d, e) && In(t, d', e') && e.cluster == e'.cluster ==> d == d' && e == e'
  }

  ghost predicate NoCrossLinks(t: Tree, heads: set<nat>, root: nat)
  {
    root in t && t.Keys <= heads && Linked(t, heads, root) && Apart(t)
  }

  ghost predicate Named(t: Tree, h: nat) { exists d, e :: In(t, d, e) && e.cluster == h }

  /** Every live chain but the root's has an entry. */
  ghost predicate NoLeaks(t: Tree, heads: set<nat>, root: nat)
  {
    forall h :: h in heads && h != root ==> Named(t, h)
  }

  /** A fresh chain with a new entry, of a file or of an empty directory. */
  ghost function Grown(t: Tree, p: nat, e: Entry): Tree
    requires p in t
  {
    var u := t[p := t[p] + {e}];
    if e.dir then u[e.cluster := {}] else u
  }

  lemma GrownIn(t: Tree, p: nat, e: Entry)
    requires p in t && e.cluster !in t
    ensures forall d, x :: In(Grown(t, p, e), d, x) <==> In(t, d, x) || (d == p && x == e)
    ensures Grown(t, p, e).Keys == t.Keys + if e.dir then {e.cluster} else {}
  {
  }

  /** Each own directory entry of `u` is one of `t`, or the one on `c` in directory `p`. */
  ghost predicate LinksWithin(t: Tree, u: Tree, p: nat, c: nat)
  {
    forall d, e :: In(u, d, e) && e.dir ==> In(t, d, e) || (d == p && e.cluster == c)
  }

  ghost predicate NoNewLinks(t: Tree, u: Tree) { forall d, e :: In(u, d, e) && e.dir ==> In(t, d, e) }

  lemma GrownSound(t: Tree, heads: set<nat>, root: nat, p: nat, e: Entry)
    requires NoCrossLinks(t, heads, root) && p in t && e.cluster !in heads
    ensures NoCrossLinks(Grown(t, p, e), heads + {e.cluster}, root)
    ensures NoLeaks(t, heads, root) ==> NoLeaks(Grown(t, p, e), heads + {e.cluster}, root)
    ensures LinksWithin(t, Grown(t, p, e), p, e.cluster)
    ensures !e.dir ==> NoNewLinks(t, Grown(t, p, e))
  {
    hide In, Grown;
    GrownIn(t, p, e);
    var u := Grown(t, p, e);
    assert In(u, p, e);
    assert forall h :: h in heads && Named(t, h) ==> Named(u, h);
  }

  /** An entry exchanged for another. */
  ghost function Replaced(t: Tree, p: nat, e: Entry, e': Entry): Tree
    requires p in t
  {
    t[p := t[p] - {e} + {e'}]
  }

  lemma ReplacedIn(t: Tree, p: nat, e: Entry, e': Entry)
    requires In(t, p, e) && p in t
    ensures forall d, x :: In(Replaced(t, p, e, e'), d, x) <==> (In(t, d, x) && (d, x) != (p, e)) || (d == p && x == e')
    ensures Replaced(t, p, e, e').Keys == t.Keys
  {
  }

  /** The new entry has the same chain and kind. */
  lemma ReplacedSound(t: Tree, heads: set<nat>, root: nat, p: nat, e: Entry, e': Entry)
    requires NoCrossLinks(t, heads, root) && In(t, p, e) && p in t && e'.cluster == e.cluster && e'.dir == e.dir
    ensures NoCrossLinks(Replaced(t, p, e, e'), heads, root)
    ensures NoLeaks(t, heads, root) ==> NoLeaks(Replaced(t, p, e, e'), heads, root)
    ensures !e'.dir ==> NoNewLinks(t, Replaced(t, p, e, e'))
  {
    hide In, Replaced;
    ReplacedIn(t, p, e, e');
    var u := Replaced(t, p, e, e');
    assert In(u, p, e');
    forall h | h in heads && Named(t, h)
      ensures Named(u, h)
    {
      var d: nat, x: Entry :| In(t, d, x) && x.cluster == h;
      assert (d, x) == (p, e) || In(u, d, x);
    }
  }

  /** An entry gone with its chain, and with its listing if it was a directory. */
  ghost function Pruned(t: Tree, p: nat, e: Entry): Tree
    requires p in t
  {
    t[p := t[p] - {e}] - {e.cluster}
  }

  lemma PrunedIn(t: Tree, p: nat, e: Entry)
    requires p in t && p != e.cluster
    ensures forall d, x :: In(Pruned(t, p, e), d, x) <==> In(t, d, x) && (d, x) != (p, e) && d != e.cluster
    ensures Pruned(t, p, e).Keys == t.Keys - {e.cluster}
  {
  }

  /** Unlinking keeps chains apart. It leaks exactly when the entry was a directory with entries of its own. */
  lemma PrunedSound(t: Tree, heads: set<nat>, root: nat, p: nat, e: Entry)
    requires NoCrossLinks(t, heads, root) && In(t, p, e) && p in t
    ensures NoCrossLinks(Pruned(t, p, e), heads - {e.cluster}, root)
    ensures NoLeaks(t, heads, root) ==>
              (NoLeaks(Pruned(t, p, e), heads - {e.cluster}, root) <==> forall x :: !In(t, e.cluster, x))
    ensures NoNewLinks(t, Pruned(t, p, e))
    ensures forall d, x :: In(Pruned(t, p, e), d, x) ==> x.cluster != e.cluster
  {
    hide In, Pruned;
    PrunedIn(t, p, e);
    var u, rest, c := Pruned(t, p, e), heads - {e.cluster}, e.cluster;
    forall d, x | In(u, d, x)
      ensures x.cluster != c
    {
      assert In(t, d, x);
    }
    if NoLeaks(t, heads, root) {
      if x :| In(t, c, x) {
        assert forall d, y :: In(u, d, y) ==> y.cluster != x.cluster;
        assert !Named(u, x.cluster);
      } else {
        forall h | h in rest && h != root
          ensures Named(u, h)
        {
          var d, x :| In(t, d, x) && x.cluster == h;
          assert In(u, d, x);
        }
      }
    }
  }

  /** The tree the disk holds. */
  ghost function TreeOf(g: Geometry, d: Disk, chains: map<nat, seq<nat>>, dirs: set<nat>): Tree
    requires g.Holds(d) && forall h :: h in dirs ==> h in chains && AllInRange(g, chains[h])
  {
    map h | h in dirs :: Own(Listing(Content(g, d, chains[h])))
  }

  /** A volume state: disk, live chains, and which of them are directories. */
  datatype State = State(disk: Disk, chains: map<nat, seq<nat>>, dirs: set<nat>)

  /** A directory with one file in it, taken out of the root: the file's chain is left without an entry. */
  lemma DirectoryLeaks()
    ensures var dir, file := Entry([97], 0, true, 3, 0), Entry([98], 0, false, 4, 2);
            var t: Tree := map[2 := {dir}, 3 := {file}];
            NoCrossLinks(t, {2, 3, 4}, 2) && NoLeaks(t, {2, 3, 4}, 2) && !NoLeaks(Pruned(t, 2, dir), {2, 4}, 2)
  {
    var dir, file := Entry([97], 0, true, 3, 0), Entry([98], 0, false, 4, 2);
    var t: Tree := map[2 := {dir}, 3 := {file}];
    assert In(t, 2, dir) && In(t, 3, file);
    PrunedSound(t, {2, 3, 4}, 2, 2, dir);
  }

  ghost predicate Sound(g: Geometry, root: nat, s: State)
  {
    && g.Holds(s.disk) && WellFormed(FatOf(g, s.disk), s.chains)
    && (forall h :: h in s.dirs ==> h in s.chains && AllInRange(g, s.chains[h]) && ZeroTail(Content(g, s.disk, s.chains[h])))
    && NoCrossLinks(TreeOf(g, s.disk, s.chains, s.dirs), s.chains.Keys, root)
  }

  ghost predicate Leakless(g: Geometry, root: nat, s: State)
    requires Sound(g, root, s)
  {
    NoLeaks(TreeOf(g, s.disk, s.chains, s.dirs), s.chains.Keys, root)
  }

  /** The operations, with what picks their effect. */
  datatype Op =
    | CreateOp(p: nat, name: Name, dir: bool, up: nat, c: nat, k: nat)
    | UnlinkOp(p: nat, name: Name, k: nat)
    | WriteOp(p: nat, e: Entry, offset: nat, data: seq<byte>, done: nat, size: nat)

  /** One operation, by the effect its method promises. */
  ghost predicate Step(g: Geometry, s: State, op: Op, t: State)
  {
    && g.Holds(s.disk) && g.Holds(t.disk) && WellFormed(FatOf(g, t.disk), t.chains)
    && op.p in s.dirs && op.p in s.chains && AllInRange(g, s.chains[op.p])
    && match op
       case CreateOp(p, name, dir, up, c, k) =>
         && To83(name).Some? && Created(g, s.disk, s.chains, t.disk, t.chains, p, To83(name).value, dir, up, c, k)
         && t.dirs == if dir then s.dirs + {c} else s.dirs
       case UnlinkOp(p, name, k) =>
         && To83(name).Some? && Unlinked(g, s.disk, s.chains, t.disk, t.chains, p, To83(name).value, k)
         && t.dirs == s.dirs - {SlotCluster(SlotAt(Content(g, s.disk, s.chains[p]), k))}
       case WriteOp(p, e, offset, data, done, size) =>
         && e in Listing(Content(g, s.disk, s.chains[p])) && OwnName(e.name) && !e.dir
         && FileWritten(g, s.disk, s.chains, t.disk, t.chains, e.cluster, offset, data, done)
         && EntryUpdated(g, s.disk, t.disk, t.chains, e.cluster, 0 < done == |data|, p, e.slot, size)
         && t.dirs == s.dirs
  }

  /** A valid 8.3 name never reads back as "." or "..". */
  lemma ValidIsOwn(name: Name)
    requires To83(name).Some?
    ensures OwnName(Trim(To83(name).value))
  {
    TrimOf83(name);
    assert Allowed(UpChar(Stem(name)[0]));
    assert Trim(To83(name).value)[0] == DownChar(Stem(name)[0]);
  }

  lemma DotNames()
    ensures Trim(DOT_NAME) == [DOT] && Trim(DOTDOT_NAME) == [DOT, DOT]
  {
    var a, b := DOT_NAME[..8], DOTDOT_NAME[..8];
    assert Until(a[1..]) == [] && a[0] == DOT;
    assert Until(b[1..]) == [DOT] + Until(b[2..]) by { assert b[1..][1..] == b[2..]; }
    assert Until(b[2..]) == [] && b[0] == DOT;
    assert Until(a) == [DOT] && Until(b) == [DOT, DOT];
    assert DOT_NAME[8..][0] == SPACE && DOTDOT_NAME[8..][0] == SPACE;
    assert Until(DOT_NAME[8..]) == [] && Until(DOTDOT_NAME[8..]) == [];
    assert Down([DOT] + []) == [DOT] && Down([DOT, DOT] + []) == [DOT, DOT];
  }

  /** The entries of a new directory. */
  lemma NewSlots(g: Geometry, c: nat, up: nat, j: nat)
    requires g.sectorsPerCluster > 0 && c < 0x1_0000_0000 && up < 0x1_0000_0000
    requires j < SlotCount(NewContent(g, true, c, up))
    ensures SlotCount(NewContent(g, true, c, up)) >= 16
    ensures var s := SlotAt(NewContent(g, true, c, up), j);
            if j == 0 then s == NewSlot(DOT_NAME, true, c, 0)
            else if j == 1 then s == NewSlot(DOTDOT_NAME, true, up, 0)
            else s[0] == 0
  {
    hide NewSlot;
    var content := NewContent(g, true, c, up);
    assert |content| == ClusterSize(g);
    if j < 16 {
      assert SlotAt(content, j) == DotSector(c, up)[32 * j..32 * j + 32];
      if j >= 2 {
        assert DotSector(c, up)[32 * j] == ZERO_SECTOR[64..][32 * j - 64];
      }
    } else {
      assert content[32 * j] == Zeros(ClusterSize(g) - 512)[32 * j - 512];
    }
  }

  /** A new directory has no entries of its own, and a zero tail. */
  lemma NewDirectoryEmpty(g: Geometry, c: nat, up: nat)
    requires g.sectorsPerCluster > 0 && c < 0x1_0000_0000 && up < 0x1_0000_0000
    ensures ZeroTail(NewContent(g, true, c, up)) && Own(Listing(NewContent(g, true, c, up))) == {}
    ensures UniqueNames(NewContent(g, true, c, up))
  {
    hide NewSlot, NewContent, Trim, SlotAt;
    var content := NewContent(g, true, c, up);
    NewSlotSays(DOT_NAME, true, c, 0);
    NewSlotSays(DOTDOT_NAME, true, up, 0);
    DotNames();
    forall j | 0 <= j < SlotCount(content)
      ensures SlotCount(content) >= 16
      ensures (SlotAt(content, j)[0] == 0) <==> j >= 2
      ensures j < 2 ==> EntryOf(SlotAt(content, j), j).name == if j == 0 then [DOT] else [DOT, DOT]
    {
      NewSlots(g, c, up, j);
    }
    NewSlotCount(g, c, up);
    LiveEndIs(content, 2);
  }

  /** A new directory lists itself as "." and the directory it was made in, or 0 for a root, as "..". */
  lemma NewDirectoryLists(g: Geometry, c: nat, up: nat)
    requires g.sectorsPerCluster > 0 && c < 0x1_0000_0000 && up < 0x1_0000_0000
    ensures Listing(NewContent(g, true, c, up)) == {Entry([46], 0, true, c, 0), Entry([46, 46], 0, true, up, 1)}
  {
    hide NewSlot, NewContent, Trim, SlotAt, SlotSize, SlotCluster, IsDirSlot, IsLive;
    var content := NewContent(g, true, c, up);
    NewSlotSays(DOT_NAME, true, c, 0);
    NewSlotSays(DOTDOT_NAME, true, up, 0);
    DotNames();
    NewSlotCount(g, c, up);
    forall j | 0 <= j < SlotCount(content)
      ensures if j >= 2 then SlotAt(content, j)[0] == 0
              else SlotAt(content, j)[0] != 0 && IsLive(SlotAt(content, j)) && EntryOf(SlotAt(content, j), j) == Entry(if j == 0 then [46] else [46, 46], 0, true, if j == 0 then c else up, j)
    {
      NewSlots(g, c, up, j);
    }
    LiveEndIs(content, 2);
    assert EntryOf(SlotAt(content, 0), 0) in Listing(content) && EntryOf(SlotAt(content, 1), 1) in Listing(content);
  }

  lemma NewSlotCount(g: Geometry, c: nat, up: nat)
    requires g.sectorsPerCluster > 0 && c < 0x1_0000_0000 && up < 0x1_0000_0000
    ensures SlotCount(NewContent(g, true, c, up)) >= 16
  {
    assert |NewContent(g, true, c, up)| == ClusterSize(g);
  }

  ghost function DirOf(g: Geometry, s: State, h: nat): seq<byte>
    requires g.Holds(s.disk) && h in s.chains && AllInRange(g, s.chains[h])
  {
    Content(g, s.disk, s.chains[h])
  }

  ghost predicate Readable(g: Geometry, s: State)
  {
    g.Holds(s.disk) && forall h :: h in s.dirs ==> h in s.chains && AllInRange(g, s.chains[h])
  }

  /** Own entries of a listing with one entry more. */
  lemma OwnAdd(es: set<Entry>, e: Entry)
    ensures Own(es + {e}) == Own(es) + if OwnName(e.name) then {e} else {}
    ensures Own(es - {e}) == Own(es) - {e}
  {
  }

  lemma CreateStep(g: Geometry, root: nat, s: State, op: Op, t: State)
    requires Sound(g, root, s) && op.CreateOp? && Step(g, s, op, t)
    ensures Sound(g, root, t)
    ensures Leakless(g, root, s) ==> Leakless(g, root, t)
    ensures LinksWithin(TreeOf(g, s.disk, s.chains, s.dirs), TreeOf(g, t.disk, t.chains, t.dirs), op.p, op.c)
    ensures !op.dir ==> NoNewLinks(TreeOf(g, s.disk, s.chains, s.dirs), TreeOf(g, t.disk, t.chains, t.dirs))
  {
    hide Content, FatOf, WithSlot, To83, Trim, NewSlot, NewContent, ZeroTail, Listing, WellFormed, NoCrossLinks, NoLeaks, OthersKept, FirstAvailable, LinksWithin, NoNewLinks,
         Grown, SlotCluster, SlotSize, Mirrored, IsLive, IsDirSlot, Own, OwnName;
    var CreateOp(p, name, dir, up, c, k) := op;
    var content, slot := DirOf(g, s, p), NewSlot(To83(name).value, dir, c, 0);
    var e := EntryOf(slot, k);
    NewSlotSays(To83(name).value, dir, c, 0);
    NameIsLive(name, slot);
    ListingAdd(content, k, slot);
    ValidIsOwn(name);
    OwnAdd(Listing(content), e);
    CreatedOthers(g, s, op, t);
    var before := TreeOf(g, s.disk, s.chains, s.dirs);
    TreeKeys(g, s);
    GrownSound(before, s.chains.Keys, root, p, e);
    assert TreeOf(g, t.disk, t.chains, t.dirs) == Grown(before, p, e) by { GrownAt(g, s, op, t, e); }
    assert t.chains.Keys == s.chains.Keys + {c};
  }

  lemma TreeKeys(g: Geometry, s: State)
    requires Readable(g, s)
    ensures TreeOf(g, s.disk, s.chains, s.dirs).Keys == s.dirs
  {
    hide Content, Listing;
  }

  /** After a create every directory but `p` reads as before, and a new directory reads as empty. */
  lemma CreatedOthers(g: Geometry, s: State, op: Op, t: State)
    requires Readable(g, s) && op.CreateOp? && Step(g, s, op, t)
    ensures Readable(g, t) && op.c !in s.dirs
    ensures forall h :: h in s.dirs && h != op.p ==> DirOf(g, t, h) == DirOf(g, s, h)
    ensures op.dir ==> ZeroTail(DirOf(g, t, op.c)) && UniqueNames(DirOf(g, t, op.c)) && Own(Listing(DirOf(g, t, op.c))) == {}
    ensures DirOf(g, t, op.p) == WithSlot(DirOf(g, s, op.p), op.k, NewSlot(To83(op.name).value, op.dir, op.c, 0))
  {
    hide Content, FatOf, WithSlot, To83, NewSlot, NewContent, ZeroTail, Listing, WellFormed, FirstAvailable, Mirrored;
    if op.dir {
      NewDirectoryEmpty(g, op.c, op.up);
    }
  }

  lemma GrownAt(g: Geometry, s: State, op: Op, t: State, e: Entry)
    requires Readable(g, s) && Readable(g, t) && op.CreateOp? && op.p in s.dirs && op.c !in s.dirs && e.cluster == op.c && e.dir == op.dir
    requires t.dirs == if op.dir then s.dirs + {op.c} else s.dirs
    requires forall h :: h in s.dirs && h != op.p ==> DirOf(g, t, h) == DirOf(g, s, h)
    requires op.dir ==> Own(Listing(DirOf(g, t, op.c))) == {}
    requires Own(Listing(DirOf(g, t, op.p))) == Own(Listing(DirOf(g, s, op.p))) + {e}
    ensures op.p in TreeOf(g, s.disk, s.chains, s.dirs)
    ensures TreeOf(g, t.disk, t.chains, t.dirs) == Grown(TreeOf(g, s.disk, s.chains, s.dirs), op.p, e)
  {
    hide Content, Listing, Own;
  }

  lemma WriteStep(g: Geometry, root: nat, s: State, op: Op, t: State)
    requires Sound(g, root, s) && op.WriteOp? && Step(g, s, op, t)
    ensures Sound(g, root, t)
    ensures Leakless(g, root, s) ==> Leakless(g, root, t)
    ensures NoNewLinks(TreeOf(g, s.disk, s.chains, s.dirs), TreeOf(g, t.disk, t.chains, t.dirs))
  {
    hide Content, FatOf, WithSlot, Trim, Resized, ZeroTail, Listing, WellFormed, NoLeaks, OthersKept, Grew, Placed, NoFree,
         Replaced, SlotCluster, SlotSize, Mirrored, IsLive, IsDirSlot, Own, OwnName, Linked, Apart, LiveEnd, SlotAt;
    var WriteOp(p, e, offset, data, done, size) := op;
    var content := DirOf(g, s, p);
    var before := TreeOf(g, s.disk, s.chains, s.dirs);
    TreeKeys(g, s);
    OwnHas(Listing(content), e);
    LinkedEntry(before, s.chains.Keys, root, p, e);
    WrittenOthers(g, s, op, t);
    ChainsKept(g, s, op, t);
    if 0 < done == |data| {
      ListingHas(content, e);
      var slot := Resized(SlotAt(content, e.slot), size, e.cluster);
      var e' := EntryOf(slot, e.slot);
      ResizedSays(SlotAt(content, e.slot), size, e.cluster);
      ResizedKind(SlotAt(content, e.slot), slot);
      ListingReplace(content, e.slot, slot);
      OwnReplace(Listing(content), e, e');
      ReplacedSound(before, s.chains.Keys, root, p, e, e');
      ReplacedAt(g, s, p, t, e, e');
    } else {
      assert TreeOf(g, t.disk, t.chains, t.dirs) == before;
    }
  }

  lemma OwnHas(es: set<Entry>, e: Entry)
    requires e in es && OwnName(e.name)
    ensures e in Own(es)
  {
  }

  lemma OwnReplace(es: set<Entry>, e: Entry, e': Entry)
    requires e'.name == e.name && OwnName(e.name)
    ensures Own(es - {e} + {e'}) == Own(es) - {e} + {e'}
  {
  }

  lemma ResizedKind(s: Slot, r: Slot)
    requires r[..11] == s[..11] && r[0] == s[0] && r[11] == s[11]
    ensures IsLive(r) == IsLive(s) && IsDirSlot(r) == IsDirSlot(s)
  {
  }

  lemma LinkedEntry(t: Tree, heads: set<nat>, root: nat, d: nat, e: Entry)
    requires NoCrossLinks(t, heads, root) && d in t && e in t[d]
    ensures In(t, d, e) && e.cluster in heads && e.cluster != root && e.cluster != d && (e.dir <==> e.cluster in t)
  {
    assert In(t, d, e);
  }

  lemma ChainsKept(g: Geometry, s: State, op: Op, t: State)
    requires op.WriteOp? && Step(g, s, op, t)
    ensures t.chains.Keys == s.chains.Keys
  {
  }

  /** After a write every directory but `p` reads as before; `p` does too if the write was cut short. */
  lemma WrittenOthers(g: Geometry, s: State, op: Op, t: State)
    requires Readable(g, s) && op.WriteOp? && Step(g, s, op, t) && op.e.cluster !in s.dirs
    ensures Readable(g, t)
    ensures forall h :: h in s.dirs && h != op.p ==> DirOf(g, t, h) == DirOf(g, s, h)
    ensures if 0 < op.done == |op.data| then
              && 32 * op.e.slot + 32 <= |DirOf(g, s, op.p)| && op.size < 0x1_0000_0000 && op.e.cluster < 0x1_0000_0000
              && DirOf(g, t, op.p) == WithSlot(DirOf(g, s, op.p), op.e.slot, Resized(SlotAt(DirOf(g, s, op.p), op.e.slot), op.size, op.e.cluster))
            else DirOf(g, t, op.p) == DirOf(g, s, op.p)
  {
    hide Content, FatOf, WithSlot, Resized, ZeroTail, Listing, WellFormed, Grew, Placed, NoFree, Mirrored;
    forall h | h in s.dirs
      ensures h in t.chains && t.chains[h] == s.chains[h]
    {
    }
  }

  lemma ReplacedAt(g: Geometry, s: State, p: nat, t: State, e: Entry, e': Entry)
    requires Readable(g, s) && Readable(g, t) && p in s.dirs && t.dirs == s.dirs
    requires forall h :: h in s.dirs && h != p ==> DirOf(g, t, h) == DirOf(g, s, h)
    requires Own(Listing(DirOf(g, t, p))) == Own(Listing(DirOf(g, s, p))) - {e} + {e'}
    ensures p in TreeOf(g, s.disk, s.chains, s.dirs)
    ensures TreeOf(g, t.disk, t.chains, t.dirs) == Replaced(TreeOf(g, s.disk, s.chains, s.dirs), p, e, e')
  {
    hide Content, Listing, Own;
  }

  /** A live chain's number is one an entry can own. */
  lemma LiveIsOwnable(g: Geometry, s: State, h: nat)
    requires g.Holds(s.disk) && WellFormed(FatOf(g, s.disk), s.chains) && h in s.chains
    ensures 2 <= h < EOC
  {
    LiveChain(g, s.disk, s.chains, h);
  }

  /** In a sound volume an unlink may delete what it finds: the entry owns a live chain that is not the directory's. */
  lemma SoundIsDeletable(g: Geometry, root: nat, s: State, p: nat, name: Name)
    requires Sound(g, root, s) && p in s.dirs && To83(name).Some?
    ensures Deletable(g, s.disk, s.chains, p, To83(name).value)
  {
    hide Content, FatOf, To83, Trim, ZeroTail, Listing, WellFormed, SlotCluster, SlotSize, IsLive, IsDirSlot, Own, OwnName, SlotAt, LiveEnd;
    var content, short := DirOf(g, s, p), To83(name).value;
    ValidIsOwn(name);
    forall k | FirstMatch(content, short, k)
      ensures SlotCluster(SlotAt(content, k)) in s.chains && SlotCluster(SlotAt(content, k)) != p
    {
      var e := EntryOf(SlotAt(content, k), k);
      ListingHas(content, e);
      OwnHas(Listing(content), e);
      LinkedEntry(TreeOf(g, s.disk, s.chains, s.dirs), s.chains.Keys, root, p, e);
    }
  }

  /** The entry an unlink deletes. */
  ghost function Victim(g: Geometry, s: State, op: Op): Entry
    requires g.Holds(s.disk) && op.UnlinkOp? && op.p in s.chains && AllInRange(g, s.chains[op.p])
    requires 32 * op.k + 32 <= |DirOf(g, s, op.p)|
  {
    EntryOf(SlotAt(DirOf(g, s, op.p), op.k), op.k)
  }

  /** The unlink took one own entry, its chain and nothing else out of directory, tree and live chains. */
  ghost predicate VictimGone(g: Geometry, s: State, op: Op, t: State)
  {
    && op.UnlinkOp? && Readable(g, s) && g.Holds(t.disk) && op.p in s.dirs && 32 * op.k + 32 <= |DirOf(g, s, op.p)|
    && var e := Victim(g, s, op);
    && In(TreeOf(g, s.disk, s.chains, s.dirs), op.p, e) && e.cluster in s.chains && e.cluster != op.p
    && t.chains == s.chains - {e.cluster} && t.dirs == s.dirs - {e.cluster}
    && ZeroTail(DirOf(g, t, op.p))
    && Own(Listing(DirOf(g, t, op.p))) == Own(Listing(DirOf(g, s, op.p))) - {e}
  }

  lemma UnlinkEffect(g: Geometry, root: nat, s: State, op: Op, t: State)
    requires Sound(g, root, s) && op.UnlinkOp? && Step(g, s, op, t)
    ensures VictimGone(g, s, op, t)
  {
    hide Content, FatOf, WithSlot, To83, Trim, ZeroTail, Listing, WellFormed, OthersKept, NoMatch, CountFree, Zeroed,
         SlotCluster, SlotSize, Mirrored, IsLive, IsDirSlot, Own, OwnName, Linked, Apart, LiveEnd, SlotAt;
    var UnlinkOp(p, name, k) := op;
    var content := DirOf(g, s, p);
    var e := EntryOf(SlotAt(content, k), k);
    ValidIsOwn(name);
    ListingHas(content, e);
    OwnHas(Listing(content), e);
    TreeKeys(g, s);
    LinkedEntry(TreeOf(g, s.disk, s.chains, s.dirs), s.chains.Keys, root, p, e);
    LiveIsOwnable(g, s, e.cluster);
    ListingDrop(content, k, Erased(SlotAt(content, k)));
    OwnAdd(Listing(content), e);
  }

  lemma UnlinkedOthers(g: Geometry, s: State, op: Op, t: State, c: nat)
    requires Readable(g, s) && op.UnlinkOp? && Step(g, s, op, t)
    requires t.chains == s.chains - {c} && t.dirs == s.dirs - {c}
    ensures Readable(g, t)
    ensures forall h :: h in t.dirs && h != op.p ==> DirOf(g, t, h) == DirOf(g, s, h)
  {
    hide Content, FatOf, WithSlot, To83, ZeroTail, Listing, WellFormed, Zeroed, CountFree, FirstMatch, Mirrored;
  }

  lemma PrunedAt(g: Geometry, s: State, p: nat, t: State, e: Entry)
    requires Readable(g, s) && Readable(g, t) && p in s.dirs && p != e.cluster && t.dirs == s.dirs - {e.cluster}
    requires forall h :: h in t.dirs && h != p ==> DirOf(g, t, h) == DirOf(g, s, h)
    requires Own(Listing(DirOf(g, t, p))) == Own(Listing(DirOf(g, s, p))) - {e}
    ensures p in TreeOf(g, s.disk, s.chains, s.dirs)
    ensures TreeOf(g, t.disk, t.chains, t.dirs) == Pruned(TreeOf(g, s.disk, s.chains, s.dirs), p, e)
  {
    hide Content, Listing, Own;
  }

  /** Unlinking leaves a sound volume, and a leakless one exactly when the victim was not a directory with entries. */
  lemma UnlinkStep(g: Geometry, root: nat, s: State, op: Op, t: State)
    requires Sound(g, root, s) && op.UnlinkOp? && Step(g, s, op, t)
    ensures 32 * op.k + 32 <= |DirOf(g, s, op.p)|
    ensures Sound(g, root, t)
    ensures Leakless(g, root, s) ==>
              (Leakless(g, root, t) <==> forall x :: !In(TreeOf(g, s.disk, s.chains, s.dirs), Victim(g, s, op).cluster, x))
    ensures NoNewLinks(TreeOf(g, s.disk, s.chains, s.dirs), TreeOf(g, t.disk, t.chains, t.dirs))
    ensures forall d, x :: In(TreeOf(g, t.disk, t.chains, t.dirs), d, x) ==> x.cluster != Victim(g, s, op).cluster
  {
    hide Content, FatOf, ZeroTail, Listing, WellFormed, NoLeaks, Pruned, NoNewLinks, Own, OwnName, Linked, Apart, SlotAt, EntryOf;
    UnlinkEffect(g, root, s, op, t);
    var e := Victim(g, s, op);
    var before := TreeOf(g, s.disk, s.chains, s.dirs);
    TreeKeys(g, s);
    PrunedSound(before, s.chains.Keys, root, op.p, e);
    UnlinkedOthers(g, s, op, t, e.cluster);
    PrunedAt(g, s, op.p, t, e);
    assert t.chains.Keys == s.chains.Keys - {e.cluster};
  }

  /** A run: each state follows from the one before by an operation. */
  ghost predicate Run(g: Geometry, states: seq<State>, ops: seq<Op>)
  {
    |states| == |ops| + 1 && forall i :: 0 <= i < |ops| ==> Step(g, states[i], ops[i], states[i + 1])
  }

  /** The operation unlinks a directory that still has entries of its own. */
  ghost predicate UnlinksNonEmpty(g: Geometry, s: State, op: Op)
  {
    && op.UnlinkOp? && Readable(g, s) && op.p in s.chains && AllInRange(g, s.chains[op.p]) && 32 * op.k + 32 <= |DirOf(g, s, op.p)|
    && exists x :: In(TreeOf(g, s.disk, s.chains, s.dirs), Victim(g, s, op).cluster, x)
  }

  lemma StepSound(g: Geometry, root: nat, s: State, op: Op, t: State)
    requires Sound(g, root, s) && Step(g, s, op, t)
    ensures Sound(g, root, t)
    ensures Leakless(g, root, s) && !UnlinksNonEmpty(g, s, op) ==> Leakless(g, root, t)
  {
    hide Step, Content, FatOf, WellFormed, ZeroTail, NoCrossLinks, NoLeaks;
    match op {
      case CreateOp(_, _, _, _, _, _) => CreateStep(g, root, s, op, t);
      case WriteOp(_, _, _, _, _, _) => WriteStep(g, root, s, op, t);
      case UnlinkOp(_, _, _) =>
        UnlinkStep(g, root, s, op, t);
        StepHasDir(g, s, op, t);
    }
  }

  lemma StepHasDir(g: Geometry, s: State, op: Op, t: State)
    requires Step(g, s, op, t)
    ensures op.p in s.chains && AllInRange(g, s.chains[op.p])
  {
  }

  /** In every state of every run from a sound volume, live chains are acyclic, disjoint, in range and ended, and
      entries own chains one-to-one; without an unlink of a non-empty directory no chain loses its entry. */
  lemma {:induction false} RunSound(g: Geometry, root: nat, states: seq<State>, ops: seq<Op>, n: nat)
    requires Run(g, states, ops) && Sound(g, root, states[0]) && n < |states|
    ensures Sound(g, root, states[n])
    ensures Leakless(g, root, states[0]) && (forall i :: 0 <= i < n ==> !UnlinksNonEmpty(g, states[i], ops[i])) ==> Leakless(g, root, states[n])
  {
    hide Sound, Leakless, Step, UnlinksNonEmpty;
    if n > 0 {
      RunSound(g, root, states, ops, n - 1);
      StepSound(g, root, states[n - 1], ops[n - 1], states[n]);
    }
  }

  /** The volume with an empty root directory in cluster 2 and nothing else. */
  ghost function Bare(d: Disk): State { State(d, map[2 := [2]], {2}) }

  lemma BareEmpty(g: Geometry, d: Disk)
    requires g.Holds(d) && g.clusters > 0 && ClusterBytes(g, d, 2) == Zeros(ClusterSize(g))
    ensures ZeroTail(Content(g, d, [2])) && Listing(Content(g, d, [2])) == {}
  {
    hide Content, ClusterBytes, Times, Listing, ZeroTail;
    OneCluster(g, d, 2);
    ZerosEmpty(Content(g, d, [2]));
  }

  /** A zeroed root cluster that ends its own chain is a volume the runs may start from. */
  lemma BareSound(g: Geometry, d: Disk)
    requires g.Holds(d) && g.clusters > 0 && FatOf(g, d)[2] >= EOC && ClusterBytes(g, d, 2) == Zeros(ClusterSize(g))
    ensures Sound(g, 2, Bare(d)) && Leakless(g, 2, Bare(d))
  {
    hide Content, ClusterBytes, FatOf, Times, Listing, ZeroTail, OwnName;
    BareEmpty(g, d);
    assert Own(Listing(Content(g, d, [2]))) == {};
  }

  /** Such a volume exists for every layout with a data cluster: zero every sector, then end entry 2. */
  lemma FormatSound(g: Geometry)
    requires g.Valid() && g.clusters > 0
    ensures var zeroed: Disk := seq(g.totalSectors, _ => ZERO_SECTOR);
            && Sound(g, 2, Bare(SetEntry(g, zeroed, 2, EOC))) && Leakless(g, 2, Bare(SetEntry(g, zeroed, 2, EOC)))
  {
    hide SetEntry, Times, Sound, Leakless;
    var zeroed: Disk := seq(g.totalSectors, _ => ZERO_SECTOR);
    SetEntryFat(g, zeroed, 2, EOC);
    SetEntryFrame(g, zeroed, 2, EOC);
    ClusterInDisk(g, 2);
    JoinImage(zeroed[g.ClusterLba(2)..g.ClusterLba(2) + g.sectorsPerCluster], ZERO_SECTOR);
    assert ClusterBytes(g, zeroed, 2) == Zeros(ClusterSize(g));
    DataAreaSame(g, zeroed, SetEntry(g, zeroed, 2, EOC), 2);
    BareSound(g, SetEntry(g, zeroed, 2, EOC));
  }
}
