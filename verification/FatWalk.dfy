/** Directories inside directories: where each one is listed, how calls change that, and where a path leads on disk. */
module FatWalk {
  import opened Bytes
  import opened FatTable
  import opened FatChains
  import opened FatContent
  import opened FatVolume
  import opened FatNames
  import opened FatDirent
  import opened FatDirectory
  import opened FatCreate
  import opened FatRemove
  import opened FatSync
  import opened FatCache
  import opened FatTree
  import opened FatMount

  /** A directory is listed in one place at most, and not in itself. */
  lemma LinkOnce(g: Geometry, root: nat, s: State, p: nat, q: nat, h: nat)
    requires Sound(g, root, s) && DirLink(g, s, p, h)
    ensures p in s.dirs && h in s.dirs && h != root && h != p
    ensures DirLink(g, s, q, h) ==> q == p
  {
    hide Content, FatOf, WellFormed, ZeroTail, Listing, Own, OwnName;
    TreeKeys(g, s);
  }

  lemma AllLinksOnce(g: Geometry, root: nat, s: State)
    requires Sound(g, root, s)
    ensures forall p, h :: DirLink(g, s, p, h) ==> p in s.dirs && h in s.dirs && h != root && h != p
    ensures forall p, q, h :: DirLink(g, s, p, h) && DirLink(g, s, q, h) ==> q == p
  {
    hide Sound, DirLink;
    forall p, q, h | DirLink(g, s, p, h)
      ensures p in s.dirs && h in s.dirs && h != root && h != p && (DirLink(g, s, q, h) ==> q == p)
    {
      LinkOnce(g, root, s, p, q, h);
    }
  }

  /** What is listed as a directory is one. */
  lemma AllLinksListed(g: Geometry, root: nat, m: Mounted)
    requires Mirrors(g, root, m)
    ensures forall p, h :: DirLink(g, m.s, p, h) ==> h in m.s.dirs
  {
    hide Sound, DirLink, DirMirrored;
    AllLinksOnce(g, root, m.s);
  }

  /** The child of a directory's entry of that kind is what links the directory. */
  lemma ChildLinks(g: Geometry, root: nat, m: Mounted, p: nat, i: nat)
    requires Mirrors(g, root, m) && p in m.s.dirs && p in m.lists && i < |m.lists[p]|
    requires m.lists[p][i].entry.dir && OwnName(m.lists[p][i].entry.name)
    ensures DirLink(g, m.s, p, m.lists[p][i].entry.cluster)
  {
    hide Sound, Content, FatOf, WellFormed, ZeroTail, UniqueNames, OwnName, Listing, Matched, Unsettled, SizeOnDisk, Located, Own;
    SoundReadable(g, root, m.s);
    assert DirMirrored(g, m.s, p, m.lists[p], m.stale[p]);
    MatchedSlots(g, m.s.chains[p], DirContent(g, m.s.disk, m.s.chains, p), m.lists[p]);
    var e := OnDisk(g, m.s, p, m.lists[p], i);
    OwnHas(Listing(DirOf(g, m.s, p)), e);
    TreeKeys(g, m.s);
    assert In(TreeOf(g, m.s.disk, m.s.chains, m.s.dirs), p, e);
  }

  /** No two children of names of their own have one first cluster. */
  lemma ChildOnce(g: Geometry, root: nat, m: Mounted, p: nat, i: nat, j: nat)
    requires Mirrors(g, root, m) && p in m.s.dirs && p in m.lists && i < |m.lists[p]| && j < |m.lists[p]|
    requires OwnName(m.lists[p][i].entry.name) && OwnName(m.lists[p][j].entry.name)
    requires m.lists[p][i].entry.cluster == m.lists[p][j].entry.cluster
    ensures i == j
  {
    hide Content, FatOf, WellFormed, ZeroTail, UniqueNames, OwnName, Listing, Matched, Unsettled, SizeOnDisk, Located, Own, Linked;
    assert DirMirrored(g, m.s, p, m.lists[p], m.stale[p]);
    MatchedSlots(g, m.s.chains[p], DirContent(g, m.s.disk, m.s.chains, p), m.lists[p]);
    var e, f := OnDisk(g, m.s, p, m.lists[p], i), OnDisk(g, m.s, p, m.lists[p], j);
    OwnHas(Listing(DirOf(g, m.s, p)), e);
    OwnHas(Listing(DirOf(g, m.s, p)), f);
    TreeKeys(g, m.s);
    assert In(TreeOf(g, m.s.disk, m.s.chains, m.s.dirs), p, e) && In(TreeOf(g, m.s.disk, m.s.chains, m.s.dirs), p, f);
    assert m.lists[p][i].entry.slot == e.slot == f.slot == m.lists[p][j].entry.slot;
  }

  /** First cluster of the directory a call made. */
  ghost function Made(ev: Event, t: Mounted): nat
  {
    if ev.p in t.lists && |t.lists[ev.p]| > 0 then t.lists[ev.p][0].entry.cluster else 0
  }

  predicate Makes(ev: Event) { ev.Mkdir? && ev.ok }

  /** What a call does to where directories are listed. */
  lemma EventLinks(g: Geometry, root: nat, m: Mounted, ev: Event, t: Mounted)
    requires Mirrors(g, root, m) && Happens(g, m, ev, t)
    ensures if Makes(ev) then LinksKept(g, m.s, t.s, ev.p, Made(ev, t)) && Made(ev, t) !in m.s.dirs else NoLinksMade(g, m.s, t.s)
    ensures ev.Unlink? && ev.ok ==> At(g, m, ev.p) && 32 * ev.k + 32 <= |DirContent(g, m.s.disk, m.s.chains, ev.p)|
                                    && forall q :: !DirLink(g, t.s, q, Gone(g, m.s, ev.p, ev.k))
  {
    hide Sound, Content, FatOf, WellFormed, Loaded, DirMirrored, RoundTrips, Opens, FileWritten, EntryUpdated, LinksKept, NoLinksMade, Unlinked, Gone, Added,
         DirLink, SizeOnDisk, OwnName;
    SoundReadable(g, root, m.s);
    SameLinks(g, m.s);
    match ev {
      case Load(p) =>
      case Create(p, name, up, loaded, ok) =>
        if !Opens(loaded, name) && ok {
          AddedStep(g, root, m.s, p, name, false, up, loaded, t.lists[p], t.s);
        } else {
          StateSame(m.s, t.s);
        }
      case Mkdir(p, name, up, loaded, ok) =>
        if ok {
          AddedFresh(g, m, p, name, up, loaded, t.s.disk, t.s.chains, t.lists[p]);
          AddedStep(g, root, m.s, p, name, true, up, loaded, t.lists[p], t.s);
        } else {
          StateSame(m.s, t.s);
        }
      case Unlink(p, name, loaded, ok, k) =>
        if ok {
          RemovedStep(g, root, m.s, p, name, k, t.s);
        } else {
          StateSame(m.s, t.s);
        }
      case Write(p, n, offset, data, done) =>
        WriteLinks(g, root, m, p, n, offset, data, done, t);
    }
  }

  /** Directories are listed where they were, but those of `made` in `p` and those of `gone` nowhere. */
  ghost predicate LinksMoved(g: Geometry, s: State, t: State, p: nat, made: set<nat>, gone: set<nat>)
  {
    && gone !! t.dirs
    && forall q, h :: DirLink(g, t, q, h) ==> h !in gone && (DirLink(g, s, q, h) || (q == p && h in made))
  }

  ghost function MadeBy(ev: Event, t: Mounted): set<nat> { if Makes(ev) then {Made(ev, t)} else {} }

  ghost function GoneBy(g: Geometry, m: Mounted, ev: Event): set<nat>
  {
    if ev.Unlink? && ev.ok && At(g, m, ev.p) && 32 * ev.k + 32 <= |DirContent(g, m.s.disk, m.s.chains, ev.p)| then {Gone(g, m.s, ev.p, ev.k)} else {}
  }

  lemma LinksMovedBy(g: Geometry, root: nat, m: Mounted, ev: Event, t: Mounted)
    requires Mirrors(g, root, m) && Happens(g, m, ev, t)
    ensures LinksMoved(g, m.s, t.s, ev.p, MadeBy(ev, t), GoneBy(g, m, ev))
  {
    hide Mirrors, FatOf, WellFormed, DirLink, Gone, Content, Made, LoadHappens, CreateHappens, MkdirHappens, WriteHappens, UnlinkOutcome;
    EventLinks(g, root, m, ev, t);
  }

  /** With a name that round-trips, the child of the name unlinked is the one of the entry deleted. */
  lemma UnlinkedChild(g: Geometry, root: nat, m: Mounted, ev: Event, t: Mounted, i: nat)
    requires Mirrors(g, root, m) && ev.Unlink? && ev.ok && Happens(g, m, ev, t) && RoundTrips(ev.name)
    requires ev.p in m.lists && i < |m.lists[ev.p]| && m.lists[ev.p][i].entry.name == ev.name
    ensures m.lists[ev.p][i].entry.cluster in GoneBy(g, m, ev)
  {
    hide Sound, Content, FatOf, WellFormed, Loaded, To83, Trim, Listing, Located, Matched, Unsettled, ZeroTail, SizeOnDisk, Without, Zeroed, CountFree,
         OthersKept, Mirrored, FirstMatch, SlotSize, SlotCluster, SlotAt;
    var content, vs := DirContent(g, m.s.disk, m.s.chains, ev.p), m.lists[ev.p];
    assert DirMirrored(g, m.s, ev.p, vs, m.stale[ev.p]);
    VictimIs(content, To83(ev.name).value, ev.k);
    MatchedSlots(g, m.s.chains[ev.p], content, vs);
    var e, f := EntryOf(SlotAt(content, ev.k), ev.k), OnDisk(g, m.s, ev.p, vs, i);
    assert e in Listing(content) && f in Listing(content) && e.name == f.name;
  }

  lemma StateSame(s: State, t: State)
    requires s.disk == t.disk && s.chains == t.chains && s.dirs == t.dirs
    ensures s == t
  {
  }

  lemma SameLinks(g: Geometry, s: State)
    ensures NoLinksMade(g, s, s)
  {
  }

  lemma WriteLinks(g: Geometry, root: nat, m: Mounted, p: nat, n: nat, offset: nat, data: seq<byte>, done: nat, t: Mounted)
    requires Mirrors(g, root, m) && Happens(g, m, Write(p, n, offset, data, done), t)
    ensures NoLinksMade(g, m.s, t.s)
  {
    hide Sound, Content, FatOf, WellFormed, FileWritten, EntryUpdated, OwnName, Listing, Matched, Unsettled, ZeroTail, UniqueNames, WithSize, SizeOnDisk,
         GrownSize, NoLinksMade, SameDir;
    var vs := m.lists[p];
    assert DirMirrored(g, m.s, p, vs, m.stale[p]);
    MatchedSlots(g, m.s.chains[p], DirContent(g, m.s.disk, m.s.chains, p), vs);
    WrittenStep(g, root, m.s, p, OnDisk(g, m.s, p, vs, n), offset, data, done,
                if 0 < done == |data| then GrownSize(vs[n].entry.size, offset, |data|) else vs[n].entry.size, t.s);
  }

  // Paths

  /** Where a path has come to: a first cluster and whether it is a directory's. */
  datatype Place = Place(cluster: nat, dir: bool)

  /** The entry of that name in directory `p`. */
  ghost predicate Names(g: Geometry, s: State, p: nat, name: Name, e: Entry)
  {
    g.Holds(s.disk) && p in s.chains && AllInRange(g, s.chains[p]) && e in Listing(DirContent(g, s.disk, s.chains, p)) && e.name == name
  }

  /** Following the names of a path on disk, from `at` on: each must be in the directory come to. */
  ghost predicate Walks(g: Geometry, s: State, at: Place, parts: seq<Name>, to: Place)
    decreases |parts|
  {
    if parts == [] then to == at
    else at.dir && exists e :: Names(g, s, at.cluster, parts[0], e) && Walks(g, s, Place(e.cluster, e.dir), parts[1..], to)
  }

  /** Where the first name leads decides the rest. */
  lemma WalksOn(g: Geometry, s: State, at: Place, parts: seq<Name>, e: Entry)
    requires parts != [] && at.dir && Orderly(g, s.disk, s.chains, at.cluster) && Names(g, s, at.cluster, parts[0], e)
    ensures forall to :: Walks(g, s, at, parts, to) <==> Walks(g, s, Place(e.cluster, e.dir), parts[1..], to)
  {
    hide Content, ZeroTail, Listing;
    assert forall f :: Names(g, s, at.cluster, parts[0], f) ==> f == e;
  }

  lemma WalksThere(g: Geometry, s: State, at: Place)
    ensures Walks(g, s, at, [], at)
  {
  }

  /** No name follows a file, nor a name that is not there. */
  lemma WalksNowhere(g: Geometry, s: State, at: Place, parts: seq<Name>)
    requires parts != [] && (at.dir ==> forall e :: !Names(g, s, at.cluster, parts[0], e))
    ensures forall to :: !Walks(g, s, at, parts, to)
  {
    hide Names;
  }

  /** The children of a tracked list stand for what the directory names. */
  lemma ChildNamed(g: Geometry, s: State, p: nat, vs: seq<Child>, j: nat)
    requires Tracked(g, s.disk, s.chains, p, vs) && j < |vs|
    ensures Orderly(g, s.disk, s.chains, p) && Names(g, s, p, vs[j].entry.name, OnDisk(g, s, p, vs, j))
    ensures OnDisk(g, s, p, vs, j).cluster == vs[j].entry.cluster && OnDisk(g, s, p, vs, j).dir == vs[j].entry.dir
  {
    hide Content, Listing, ZeroTail, UniqueNames, Matched, SizeOnDisk, Located;
    MatchedSlots(g, s.chains[p], DirContent(g, s.disk, s.chains, p), vs);
  }

  lemma NotNamed(g: Geometry, s: State, p: nat, vs: seq<Child>, name: Name)
    requires Tracked(g, s.disk, s.chains, p, vs) && forall j :: 0 <= j < |vs| ==> vs[j].entry.name != name
    ensures forall e :: !Names(g, s, p, name, e)
  {
    hide Content, Listing, ZeroTail, UniqueNames, Matched;
    NamedIff(g, s.chains[p], DirContent(g, s.disk, s.chains, p), vs, name);
  }

  /** What any load of a directory makes of its list is tracked. */
  lemma LoadTracked(g: Geometry, root: nat, m: Mounted, p: nat)
    requires Mirrors(g, root, m) && At(g, m, p)
    ensures forall ws :: Loaded(g, m.s.disk, m.s.chains, p, m.lists[p], ws) ==> Tracked(g, m.s.disk, m.s.chains, p, ws)
  {
    hide Sound, DirMirrored, Loaded, Tracked;
    forall ws | Loaded(g, m.s.disk, m.s.chains, p, m.lists[p], ws)
      ensures Tracked(g, m.s.disk, m.s.chains, p, ws)
    {
      LoadedMirrored(g, m, p, ws);
    }
  }

  /** A path leads to one place at most. */
  lemma {:induction false} WalksOnce(g: Geometry, root: nat, m: Mounted, at: Place, parts: seq<Name>, a: Place, b: Place)
    requires Mirrors(g, root, m) && (at.dir ==> at.cluster in m.s.dirs) && forall i :: 0 <= i < |parts| ==> OwnName(parts[i])
    requires Walks(g, m.s, at, parts, a) && Walks(g, m.s, at, parts, b)
    ensures a == b
    decreases |parts|
  {
    hide Sound, Content, ZeroTail, Listing, OwnName, Mirrors, Tidy;
    if parts != [] {
      var e :| Names(g, m.s, at.cluster, parts[0], e) && Walks(g, m.s, Place(e.cluster, e.dir), parts[1..], a);
      InOrder(g, root, m, at.cluster);
      WalksOn(g, m.s, at, parts, e);
      NamedDirectory(g, root, m, at.cluster, e);
      WalksOnce(g, root, m, Place(e.cluster, e.dir), parts[1..], a, b);
    }
  }

  lemma InOrder(g: Geometry, root: nat, m: Mounted, p: nat)
    requires Mirrors(g, root, m) && p in m.s.dirs
    ensures Orderly(g, m.s.disk, m.s.chains, p)
  {
    hide Sound, Content, Orderly;
    assert DirMirrored(g, m.s, p, m.lists[p], m.stale[p]);
  }

  /** An own directory entry leads to one of the volume's directories. */
  lemma NamedDirectory(g: Geometry, root: nat, m: Mounted, p: nat, e: Entry)
    requires Mirrors(g, root, m) && p in m.s.dirs && Names(g, m.s, p, e.name, e) && OwnName(e.name)
    ensures e.dir ==> e.cluster in m.s.dirs
  {
    hide Sound, Content, Listing, OwnName, DirMirrored;
    ListedOwn(g, root, m.s, p, e);
  }
}
