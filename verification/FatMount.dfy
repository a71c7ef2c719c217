/** The mounted volume: disk, live chains and the child list of every directory, through whole runs of loads, opens,
    creates, unlinks and writes. */
module FatMount {
  import opened Bytes
  import opened FatTable
  import opened FatChains
  import opened FatContent
  import opened FatVolume
  import opened FatFile
  import opened FatNames
  import opened FatDirent
  import opened FatDirectory
  import opened FatCreate
  import opened FatRemove
  import opened FatSync
  import opened FatCache
  import opened FatTree

  /** A volume with the child list of each directory (empty while not loaded) and, for each, the entries whose child
      was given another size by a truncation since its last whole write. */
  datatype Mounted = Mounted(s: State, lists: map<nat, seq<Child>>, stale: map<nat, set<nat>>)

  /** The directory is orderly, its list is empty or one-to-one with its entries in everything but sizes, and the
      sizes that differ are those of the entries in `stale`. */
  ghost predicate DirMirrored(g: Geometry, s: State, h: nat, vs: seq<Child>, stale: set<nat>)
  {
    && Orderly(g, s.disk, s.chains, h) && (vs == [] || Tracked(g, s.disk, s.chains, h, vs))
    && Stale(g, s.disk, s.chains, h, vs) == stale
  }

  ghost predicate Mirrors(g: Geometry, root: nat, m: Mounted)
  {
    && Sound(g, root, m.s) && m.lists.Keys == m.stale.Keys == m.s.dirs
    && forall h :: h in m.s.dirs ==> DirMirrored(g, m.s, h, m.lists[h], m.stale[h])
  }

  /** One call on the directory `p`, with what it found: `loaded` is the list after the load that comes first. */
  datatype Event =
    | Load(p: nat)
    | Create(p: nat, name: Name, up: nat, loaded: seq<Child>, ok: bool)
    | Mkdir(p: nat, name: Name, up: nat, loaded: seq<Child>, ok: bool)
    | Unlink(p: nat, name: Name, loaded: seq<Child>, ok: bool, k: nat)
    | Write(p: nat, n: nat, offset: nat, data: seq<byte>, done: nat)

  /** Entry number `n` of the list, with the size it has on disk. */
  ghost function OnDisk(g: Geometry, s: State, p: nat, vs: seq<Child>, n: nat): Entry
    requires g.Holds(s.disk) && p in s.chains && AllInRange(g, s.chains[p]) && n < |vs|
  {
    vs[n].entry.(size := SizeOnDisk(DirContent(g, s.disk, s.chains, p), vs[n]))
  }

  /** Cluster of the entry an unlink deleted. */
  ghost function Gone(g: Geometry, s: State, p: nat, k: nat): nat
    requires g.Holds(s.disk) && p in s.chains && AllInRange(g, s.chains[p]) && 32 * k + 32 <= |DirContent(g, s.disk, s.chains, p)|
  {
    SlotCluster(SlotAt(DirContent(g, s.disk, s.chains, p), k))
  }

  ghost predicate At(g: Geometry, m: Mounted, p: nat)
  {
    p in m.s.dirs && p in m.lists && p in m.stale && g.Holds(m.s.disk) && p in m.s.chains && AllInRange(g, m.s.chains[p])
  }

  ghost predicate LoadHappens(g: Geometry, m: Mounted, p: nat, t: Mounted)
    requires At(g, m, p)
  {
    && p in t.lists && Loaded(g, m.s.disk, m.s.chains, p, m.lists[p], t.lists[p])
    && t == Mounted(m.s, m.lists[p := t.lists[p]], m.stale)
  }

  /** Stale entries after the first child of that name was opened with size 0. */
  ghost function StaleOpened(g: Geometry, m: Mounted, p: nat, name: Name, loaded: seq<Child>): set<nat>
    requires At(g, m, p) && Opens(loaded, name)
  {
    var n := FirstNamed(loaded, name);
    m.stale[p] - {loaded[n].entry.slot} + if OnDisk(g, m.s, p, loaded, n).size == 0 then {} else {loaded[n].entry.slot}
  }

  ghost predicate CreateHappens(g: Geometry, m: Mounted, p: nat, name: Name, up: nat, loaded: seq<Child>, ok: bool, t: Mounted)
    requires At(g, m, p)
  {
    && p in t.lists && t.s.dirs == m.s.dirs
    && CreateOutcome(g, m.s.disk, m.s.chains, t.s.disk, t.s.chains, p, name, up, m.lists[p], loaded, t.lists[p], ok)
    && t == Mounted(t.s, m.lists[p := t.lists[p]], StaleCreated(g, m, p, name, loaded))
  }

  ghost function StaleCreated(g: Geometry, m: Mounted, p: nat, name: Name, loaded: seq<Child>): map<nat, set<nat>>
    requires At(g, m, p)
  {
    m.stale[p := if Opens(loaded, name) then StaleOpened(g, m, p, name, loaded) else m.stale[p]]
  }

  /** The outcome of vfs_create in `p`, as an event. */
  lemma CreateIs(g: Geometry, m: Mounted, p: nat, name: Name, up: nat, loaded: seq<Child>, ok: bool, d: Disk, chains: map<nat, seq<nat>>, ws: seq<Child>)
    requires At(g, m, p) && g.Holds(d) && WellFormed(FatOf(g, d), chains)
    requires CreateOutcome(g, m.s.disk, m.s.chains, d, chains, p, name, up, m.lists[p], loaded, ws, ok)
    ensures Happens(g, m, Create(p, name, up, loaded, ok),
                    Mounted(State(d, chains, m.s.dirs), m.lists[p := ws], StaleCreated(g, m, p, name, loaded)))
  {
    hide At, CreateOutcome, WellFormed, FatOf, StaleCreated;
  }

  ghost predicate MkdirHappens(g: Geometry, m: Mounted, p: nat, name: Name, up: nat, loaded: seq<Child>, ok: bool, t: Mounted)
    requires At(g, m, p)
  {
    && p in t.lists
    && MkdirOutcome(g, m.s.disk, m.s.chains, t.s.disk, t.s.chains, p, name, up, m.lists[p], loaded, t.lists[p], ok)
    && t == AfterMkdir(m, p, t.s.disk, t.s.chains, t.lists[p], ok)
  }

  /** With the directory that the first child names, if one was made. */
  ghost function AfterMkdir(m: Mounted, p: nat, d: Disk, chains: map<nat, seq<nat>>, ws: seq<Child>, ok: bool): Mounted
  {
    if ok && |ws| > 0 then
      var c := ws[0].entry.cluster;
      Mounted(State(d, chains, m.s.dirs + {c}), m.lists[p := ws][c := []], m.stale[c := {}])
    else Mounted(State(d, chains, m.s.dirs), m.lists[p := ws], m.stale)
  }

  ghost predicate UnlinkHappens(g: Geometry, m: Mounted, p: nat, name: Name, loaded: seq<Child>, ok: bool, k: nat, t: Mounted)
    requires At(g, m, p)
  {
    && UnlinkOutcome(g, m.s.disk, m.s.chains, t.s.disk, t.s.chains, p, name, m.lists[p], loaded, if p in t.lists then t.lists[p] else [], ok, k)
    && (ok ==> 32 * k + 32 <= |DirContent(g, m.s.disk, m.s.chains, p)|)
    && t == AfterUnlink(g, m, p, t.s.disk, t.s.chains, if ok then Without(loaded, name) else loaded, ok, k)
  }

  /** Without the directory that entry `k` named, if it named one. */
  ghost function AfterUnlink(g: Geometry, m: Mounted, p: nat, d: Disk, chains: map<nat, seq<nat>>, ws: seq<Child>, ok: bool, k: nat): Mounted
    requires At(g, m, p) && (ok ==> 32 * k + 32 <= |DirContent(g, m.s.disk, m.s.chains, p)|)
  {
    if ok then
      var c := Gone(g, m.s, p, k);
      Mounted(State(d, chains, m.s.dirs - {c}), m.lists[p := ws] - {c}, m.stale[p := m.stale[p] - {k}] - {c})
    else Mounted(State(d, chains, m.s.dirs), m.lists[p := ws], m.stale)
  }

  ghost predicate WriteHappens(g: Geometry, m: Mounted, p: nat, n: nat, offset: nat, data: seq<byte>, done: nat, t: Mounted)
    requires At(g, m, p)
  {
    && n < |m.lists[p]| && t.s.dirs == m.s.dirs
    && var e := m.lists[p][n].entry; var whole := 0 < done == |data|;
    && !e.dir && OwnName(e.name)
    && var size := if whole then GrownSize(e.size, offset, |data|) else e.size;
    && FileWritten(g, m.s.disk, m.s.chains, t.s.disk, t.s.chains, e.cluster, offset, data, done)
    && EntryUpdated(g, m.s.disk, t.s.disk, t.s.chains, e.cluster, whole, p, e.slot, size)
    && t == Mounted(t.s, m.lists[p := WithSize(m.lists[p], n, size)], m.stale[p := if whole then m.stale[p] - {e.slot} else m.stale[p]])
  }

  /** One call, by the effect its method promises. */
  ghost predicate Happens(g: Geometry, m: Mounted, ev: Event, t: Mounted)
  {
    && At(g, m, ev.p) && g.Holds(t.s.disk) && WellFormed(FatOf(g, t.s.disk), t.s.chains)
    && match ev
       case Load(p) => LoadHappens(g, m, p, t)
       case Create(p, name, up, loaded, ok) => CreateHappens(g, m, p, name, up, loaded, ok, t)
       case Mkdir(p, name, up, loaded, ok) => MkdirHappens(g, m, p, name, up, loaded, ok, t)
       case Unlink(p, name, loaded, ok, k) => UnlinkHappens(g, m, p, name, loaded, ok, k, t)
       case Write(p, n, offset, data, done) => WriteHappens(g, m, p, n, offset, data, done, t)
  }

  /** The call, if it changed the directory, did so under a name that round-trips and that a new entry did not share. */
  ghost predicate NameFits(ev: Event)
  {
    match ev
    case Load(_) => true
    case Create(_, name, _, loaded, ok) => !Opens(loaded, name) && ok ==> RoundTrips(name) && FirstNamed(loaded, name) == |loaded|
    case Mkdir(_, name, _, _, ok) => ok ==> RoundTrips(name)
    case Unlink(_, name, _, ok, _) => ok ==> RoundTrips(name)
    case Write(_, _, _, _, _) => true
  }

  /** The outcome of vfs_mkdir, as an event. */
  lemma MkdirIs(g: Geometry, root: nat, m: Mounted, p: nat, name: Name, up: nat, loaded: seq<Child>, ok: bool, d: Disk, chains: map<nat, seq<nat>>, ws: seq<Child>)
    requires Mirrors(g, root, m) && At(g, m, p) && g.Holds(d) && WellFormed(FatOf(g, d), chains)
    requires MkdirOutcome(g, m.s.disk, m.s.chains, d, chains, p, name, up, m.lists[p], loaded, ws, ok)
    ensures ok ==> |ws| > 0 && ws[0].entry.cluster !in m.s.dirs
    ensures Happens(g, m, Mkdir(p, name, up, loaded, ok), AfterMkdir(m, p, d, chains, ws, ok))
  {
    hide Loaded, WellFormed, FatOf, Sound, DirMirrored, Content, To83, Located, FirstNamed;
    SoundReadable(g, root, m.s);
    if ok {
      AddedFresh(g, m, p, name, up, loaded, d, chains, ws);
    }
  }

  lemma AddedFresh(g: Geometry, m: Mounted, p: nat, name: Name, up: nat, loaded: seq<Child>, d: Disk, chains: map<nat, seq<nat>>, ws: seq<Child>)
    requires Readable(g, m.s) && Added(g, m.s.disk, m.s.chains, d, chains, p, name, true, up, loaded, ws)
    ensures |ws| > 0 && ws[0].entry.cluster !in m.s.dirs && ws[0].entry.cluster != p
  {
    hide Content, To83, Located;
  }

  /** The outcome of vfs_unlink, as an event. */
  lemma UnlinkIs(g: Geometry, root: nat, m: Mounted, p: nat, name: Name, loaded: seq<Child>, ok: bool, k: nat, d: Disk, chains: map<nat, seq<nat>>, ws: seq<Child>)
    requires Mirrors(g, root, m) && At(g, m, p) && g.Holds(d) && WellFormed(FatOf(g, d), chains)
    requires UnlinkOutcome(g, m.s.disk, m.s.chains, d, chains, p, name, m.lists[p], loaded, ws, ok, k)
    ensures ok ==> 32 * k + 32 <= |DirContent(g, m.s.disk, m.s.chains, p)|
    ensures if ok then Gone(g, m.s, p, k) in m.s.chains && Gone(g, m.s, p, k) != p && chains == m.s.chains - {Gone(g, m.s, p, k)}
            else chains == m.s.chains
    ensures Happens(g, m, Unlink(p, name, loaded, ok, k), AfterUnlink(g, m, p, d, chains, ws, ok, k))
  {
    hide Loaded, WellFormed, FatOf, Content, To83, Without, Gone, Sound, DirMirrored, Unlinked, SameDir;
    if ok {
      VictimFits(g, m, p, name, k, d, chains);
      RemovedStep(g, root, m.s, p, name, k, State(d, chains, m.s.dirs - {Gone(g, m.s, p, k)}));
    }
  }

  lemma VictimFits(g: Geometry, m: Mounted, p: nat, name: Name, k: nat, d: Disk, chains: map<nat, seq<nat>>)
    requires At(g, m, p) && To83(name).Some? && Unlinked(g, m.s.disk, m.s.chains, d, chains, p, To83(name).value, k)
    ensures 32 * k + 32 <= |DirContent(g, m.s.disk, m.s.chains, p)|
  {
    hide Content, To83;
  }

  /** A load, as an event. */
  lemma LoadIs(g: Geometry, m: Mounted, p: nat, ws: seq<Child>)
    requires At(g, m, p) && WellFormed(FatOf(g, m.s.disk), m.s.chains) && Loaded(g, m.s.disk, m.s.chains, p, m.lists[p], ws)
    ensures Happens(g, m, Load(p), Mounted(m.s, m.lists[p := ws], m.stale))
  {
    hide Loaded, WellFormed, FatOf;
  }

  /** A write, as an event. */
  lemma WriteIs(g: Geometry, m: Mounted, p: nat, n: nat, offset: nat, data: seq<byte>, done: nat, d: Disk, chains: map<nat, seq<nat>>)
    requires At(g, m, p) && g.Holds(d) && WellFormed(FatOf(g, d), chains) && n < |m.lists[p]|
    requires !m.lists[p][n].entry.dir && OwnName(m.lists[p][n].entry.name)
    requires FileWritten(g, m.s.disk, m.s.chains, d, chains, m.lists[p][n].entry.cluster, offset, data, done)
    requires EntryUpdated(g, m.s.disk, d, chains, m.lists[p][n].entry.cluster, 0 < done == |data|, p, m.lists[p][n].entry.slot,
                          if 0 < done == |data| then GrownSize(m.lists[p][n].entry.size, offset, |data|) else m.lists[p][n].entry.size)
    ensures var e := m.lists[p][n].entry; var whole := 0 < done == |data|;
            Happens(g, m, Write(p, n, offset, data, done),
                    Mounted(State(d, chains, m.s.dirs),
                            m.lists[p := WithSize(m.lists[p], n, if whole then GrownSize(e.size, offset, |data|) else e.size)],
                            m.stale[p := if whole then m.stale[p] - {e.slot} else m.stale[p]]))
  {
    hide WellFormed, FatOf, FileWritten, EntryUpdated, OwnName, GrownSize;
  }

  /** A directory with the same chain and content. */
  ghost predicate SameDir(g: Geometry, s: State, t: State, h: nat)
  {
    && g.Holds(s.disk) && g.Holds(t.disk) && h in s.chains && h in t.chains && t.chains[h] == s.chains[h] && AllInRange(g, s.chains[h])
    && DirContent(g, t.disk, t.chains, h) == DirContent(g, s.disk, s.chains, h)
  }

  lemma SameDirMirrored(g: Geometry, s: State, t: State, h: nat, vs: seq<Child>, stale: set<nat>)
    requires SameDir(g, s, t, h)
    ensures DirMirrored(g, t, h, vs, stale) <==> DirMirrored(g, s, h, vs, stale)
  {
    hide Content, ZeroTail, UniqueNames, Matched, Unsettled;
  }

  /** Every directory but `p` and a new one is as before. */
  ghost predicate OthersSame(g: Geometry, m: Mounted, p: nat, t: Mounted)
  {
    && p in t.s.dirs && t.lists.Keys == t.stale.Keys == t.s.dirs
    && forall h :: h in t.s.dirs && h != p ==>
         if h in m.s.dirs && h in m.lists && h in m.stale then SameDir(g, m.s, t.s, h) && t.lists[h] == m.lists[h] && t.stale[h] == m.stale[h]
         else DirMirrored(g, t.s, h, t.lists[h], t.stale[h])
  }

  /** Then the whole is in order exactly if `p` is. */
  lemma OthersMirrored(g: Geometry, root: nat, m: Mounted, p: nat, t: Mounted)
    requires Mirrors(g, root, m) && Sound(g, root, t.s) && OthersSame(g, m, p, t)
    ensures p in t.lists && p in t.stale && (Mirrors(g, root, t) <==> DirMirrored(g, t.s, p, t.lists[p], t.stale[p]))
  {
    hide Sound, DirMirrored, SameDir;
    forall h | h in t.s.dirs && h != p
      ensures DirMirrored(g, t.s, h, t.lists[h], t.stale[h])
    {
      if h in m.s.dirs {
        SameDirMirrored(g, m.s, t.s, h, m.lists[h], m.stale[h]);
      }
    }
  }

  /** The list of `p` after a load. */
  lemma LoadedMirrored(g: Geometry, m: Mounted, p: nat, loaded: seq<Child>)
    requires At(g, m, p) && DirMirrored(g, m.s, p, m.lists[p], m.stale[p]) && Loaded(g, m.s.disk, m.s.chains, p, m.lists[p], loaded)
    ensures Tracked(g, m.s.disk, m.s.chains, p, loaded) && Stale(g, m.s.disk, m.s.chains, p, loaded) == m.stale[p]
    ensures DirMirrored(g, m.s, p, loaded, m.stale[p])
  {
    hide Content, Matched, Unsettled, Tidy, UniqueNames, Loaded;
    LoadTracks(g, m.s.disk, m.s.chains, p, m.lists[p], loaded);
  }

  lemma SoundReadable(g: Geometry, root: nat, s: State)
    requires Sound(g, root, s)
    ensures Readable(g, s) && WellFormed(FatOf(g, s.disk), s.chains)
  {
    hide Content, ZeroTail, WellFormed, FatOf, NoCrossLinks;
  }

  /** A load changes nothing but the list. */
  lemma LoadMirrors(g: Geometry, root: nat, m: Mounted, p: nat, t: Mounted)
    requires Mirrors(g, root, m) && At(g, m, p) && LoadHappens(g, m, p, t)
    ensures Mirrors(g, root, t)
  {
    hide Sound, DirMirrored, Content, Loaded, FatOf, WellFormed, SameDir, OthersSame;
    LoadedMirrored(g, m, p, t.lists[p]);
    SameState(g, root, m, p, t);
    OthersMirrored(g, root, m, p, t);
  }

  /** Directory `h` is listed, under a name of its own, in directory `p`. */
  ghost predicate DirLink(g: Geometry, s: State, p: nat, h: nat)
  {
    Readable(g, s) && exists e :: In(TreeOf(g, s.disk, s.chains, s.dirs), p, e) && e.dir && e.cluster == h
  }

  /** No directory is listed anywhere that was not before, but for `c` in `p`. */
  ghost predicate LinksKept(g: Geometry, s: State, t: State, p: nat, c: nat)
  {
    forall q, h :: DirLink(g, t, q, h) ==> DirLink(g, s, q, h) || (q == p && h == c)
  }

  ghost predicate NoLinksMade(g: Geometry, s: State, t: State)
  {
    forall q, h :: DirLink(g, t, q, h) ==> DirLink(g, s, q, h)
  }

  lemma LinksOfTrees(g: Geometry, s: State, t: State, p: nat, c: nat)
    requires Readable(g, s) && Readable(g, t)
    ensures LinksWithin(TreeOf(g, s.disk, s.chains, s.dirs), TreeOf(g, t.disk, t.chains, t.dirs), p, c) ==> LinksKept(g, s, t, p, c)
    ensures NoNewLinks(TreeOf(g, s.disk, s.chains, s.dirs), TreeOf(g, t.disk, t.chains, t.dirs)) ==> NoLinksMade(g, s, t)
  {
    hide Content, Listing, Own, TreeOf, In;
  }

  /** A created entry, by the operation on the volume. */
  lemma AddedStep(g: Geometry, root: nat, s: State, p: nat, name: Name, dir: bool, up: nat, vs: seq<Child>, ws: seq<Child>, t: State)
    requires Sound(g, root, s) && p in s.dirs && g.Holds(t.disk) && WellFormed(FatOf(g, t.disk), t.chains)
    requires Added(g, s.disk, s.chains, t.disk, t.chains, p, name, dir, up, vs, ws)
    requires t.dirs == if dir then s.dirs + {ws[0].entry.cluster} else s.dirs
    ensures Sound(g, root, t) && ws[0].entry.cluster !in s.dirs
    ensures forall h :: h in s.dirs && h != p ==> SameDir(g, s, t, h)
    ensures if dir then LinksKept(g, s, t, p, ws[0].entry.cluster) else NoLinksMade(g, s, t)
    ensures dir ==> DirMirrored(g, t, ws[0].entry.cluster, [], {})
  {
    hide Sound, Content, FatOf, WellFormed, To83, ZeroTail, UniqueNames, Located, LinksWithin, NoNewLinks, LinksKept, NoLinksMade, TreeOf;
    SoundReadable(g, root, s);
    var c, k := ws[0].entry.cluster, ws[0].entry.slot;
    var op := CreateOp(p, name, dir, up, c, k);
    AddedIsStep(g, s, p, name, dir, up, vs, ws, t);
    CreateStep(g, root, s, op, t);
    CreatedOthers(g, s, op, t);
    LinksOfTrees(g, s, t, p, c);
    NoneStale(DirOf(g, t, p));
    if dir {
      NoneStale(DirOf(g, t, c));
    }
    forall h | h in s.dirs && h != p
      ensures SameDir(g, s, t, h)
    {
      assert DirOf(g, t, h) == DirOf(g, s, h);
    }
  }

  lemma AddedIsStep(g: Geometry, s: State, p: nat, name: Name, dir: bool, up: nat, vs: seq<Child>, ws: seq<Child>, t: State)
    requires Readable(g, s) && p in s.dirs && g.Holds(t.disk) && WellFormed(FatOf(g, t.disk), t.chains)
    requires Added(g, s.disk, s.chains, t.disk, t.chains, p, name, dir, up, vs, ws)
    requires t.dirs == if dir then s.dirs + {ws[0].entry.cluster} else s.dirs
    ensures Step(g, s, CreateOp(p, name, dir, up, ws[0].entry.cluster, ws[0].entry.slot), t)
    ensures forall h :: h in s.dirs ==> h in s.chains && h in t.chains && t.chains[h] == s.chains[h]
  {
    hide Content, FatOf, WellFormed, To83, Located, OthersKept, FirstAvailable, NewSlot, NewContent, WithSlot, Mirrored;
  }

  /** The list of `p` after creating in a directory that was in order. */
  lemma AddedMirrored(g: Geometry, m: Mounted, p: nat, name: Name, dir: bool, up: nat, loaded: seq<Child>, t: State, ws: seq<Child>)
    requires At(g, m, p) && Tracked(g, m.s.disk, m.s.chains, p, loaded) && Stale(g, m.s.disk, m.s.chains, p, loaded) == m.stale[p]
    requires Added(g, m.s.disk, m.s.chains, t.disk, t.chains, p, name, dir, up, loaded, ws)
    ensures DirMirrored(g, t, p, ws, m.stale[p]) <==> RoundTrips(name) && FirstNamed(loaded, name) == |loaded|
  {
    hide Content, Matched, Unsettled, ZeroTail, UniqueNames, Created, Located, To83, RoundTrips, FirstNamed, HasName;
    AddedReadable(g, m.s.disk, m.s.chains, t.disk, t.chains, p, name, dir, up, loaded, ws);
    AddedTracks(g, m.s.disk, m.s.chains, t.disk, t.chains, p, name, dir, up, loaded, ws);
    HasNameIff(loaded, name);
  }

  lemma CreateMirrors(g: Geometry, root: nat, m: Mounted, p: nat, name: Name, up: nat, loaded: seq<Child>, ok: bool, t: Mounted)
    requires Mirrors(g, root, m) && At(g, m, p) && CreateHappens(g, m, p, name, up, loaded, ok, t)
    requires g.Holds(t.s.disk) && WellFormed(FatOf(g, t.s.disk), t.s.chains)
    ensures Mirrors(g, root, t) <==> NameFits(Create(p, name, up, loaded, ok))
  {
    hide Sound, DirMirrored, Content, Loaded, FatOf, WellFormed, Added, RoundTrips, FirstNamed, SameDir, WithSize, SizeOnDisk;
    SoundReadable(g, root, m.s);
    LoadedMirrored(g, m, p, loaded);
    if Opens(loaded, name) {
      OpenedMirrored(g, m, p, name, loaded);
      SameState(g, root, m, p, t);
    } else if ok {
      AddedStep(g, root, m.s, p, name, false, up, loaded, t.lists[p], t.s);
      AddedMirrored(g, m, p, name, false, up, loaded, t.s, t.lists[p]);
    } else {
      SameState(g, root, m, p, t);
    }
    OthersMirrored(g, root, m, p, t);
  }

  /** A call that changed no more than the list of `p`. */
  lemma SameState(g: Geometry, root: nat, m: Mounted, p: nat, t: Mounted)
    requires Sound(g, root, m.s) && p in m.s.dirs && t.s == m.s && m.lists.Keys == m.stale.Keys == m.s.dirs
    requires t.lists.Keys == t.stale.Keys == m.s.dirs && forall h :: h in m.s.dirs && h != p ==> t.lists[h] == m.lists[h] && t.stale[h] == m.stale[h]
    ensures Sound(g, root, t.s) && OthersSame(g, m, p, t)
  {
    hide Sound, Content, WellFormed, FatOf;
    SoundReadable(g, root, m.s);
  }

  lemma OpenedMirrored(g: Geometry, m: Mounted, p: nat, name: Name, loaded: seq<Child>)
    requires At(g, m, p) && Opens(loaded, name)
    requires Tracked(g, m.s.disk, m.s.chains, p, loaded) && Stale(g, m.s.disk, m.s.chains, p, loaded) == m.stale[p]
    ensures DirMirrored(g, m.s, p, WithSize(loaded, FirstNamed(loaded, name), 0), StaleOpened(g, m, p, name, loaded))
  {
    hide Content, Matched, Unsettled, ZeroTail, UniqueNames, FirstNamed, SizeOnDisk;
    TruncatedTracks(g, m.s.disk, m.s.chains, p, loaded, FirstNamed(loaded, name));
  }

  lemma MkdirMirrors(g: Geometry, root: nat, m: Mounted, p: nat, name: Name, up: nat, loaded: seq<Child>, ok: bool, t: Mounted)
    requires Mirrors(g, root, m) && At(g, m, p) && MkdirHappens(g, m, p, name, up, loaded, ok, t)
    requires g.Holds(t.s.disk) && WellFormed(FatOf(g, t.s.disk), t.s.chains)
    ensures Mirrors(g, root, t) <==> NameFits(Mkdir(p, name, up, loaded, ok))
  {
    hide Sound, DirMirrored, Content, Loaded, FatOf, WellFormed, RoundTrips, FirstNamed, SameDir, Created, Located;
    SoundReadable(g, root, m.s);
    LoadedMirrored(g, m, p, loaded);
    if ok {
      AddedStep(g, root, m.s, p, name, true, up, loaded, t.lists[p], t.s);
      AddedMirrored(g, m, p, name, true, up, loaded, t.s, t.lists[p]);
    } else {
      SameState(g, root, m, p, t);
    }
    OthersMirrored(g, root, m, p, t);
  }

  /** A deleted entry, by the operation on the volume. */
  lemma RemovedStep(g: Geometry, root: nat, s: State, p: nat, name: Name, k: nat, t: State)
    requires Sound(g, root, s) && p in s.dirs && g.Holds(t.disk) && WellFormed(FatOf(g, t.disk), t.chains)
    requires p in s.chains && AllInRange(g, s.chains[p]) && 32 * k + 32 <= |DirContent(g, s.disk, s.chains, p)|
    requires To83(name).Some? && Unlinked(g, s.disk, s.chains, t.disk, t.chains, p, To83(name).value, k)
    requires t.dirs == s.dirs - {Gone(g, s, p, k)}
    ensures Sound(g, root, t) && Gone(g, s, p, k) != p && p in t.dirs && p in t.chains
    ensures Gone(g, s, p, k) in s.chains && t.chains == s.chains - {Gone(g, s, p, k)}
    ensures NoLinksMade(g, s, t) && forall q :: !DirLink(g, t, q, Gone(g, s, p, k))
    ensures forall h :: h in t.dirs && h != p ==> SameDir(g, s, t, h)
  {
    hide Sound, Content, FatOf, WellFormed, To83, ZeroTail, UniqueNames, Unlinked, SlotCluster, SlotAt, NoNewLinks, NoLinksMade, TreeOf, In, LinksKept, LinksWithin;
    SoundReadable(g, root, s);
    var op := UnlinkOp(p, name, k);
    assert Step(g, s, op, t) by { RemovedIsStep(g, s, p, name, k, t); }
    UnlinkStep(g, root, s, op, t);
    UnlinkEffect(g, root, s, op, t);
    LinksOfTrees(g, s, t, p, 0);
    VictimCluster(g, root, s, op, t);
    UnlinkedOthers(g, s, op, t, Gone(g, s, p, k));
    forall h | h in t.dirs && h != p
      ensures SameDir(g, s, t, h)
    {
      assert DirOf(g, t, h) == DirOf(g, s, h);
      assert h in t.chains && h in s.chains;
    }
  }

  lemma RemovedIsStep(g: Geometry, s: State, p: nat, name: Name, k: nat, t: State)
    requires Readable(g, s) && p in s.dirs && g.Holds(t.disk) && WellFormed(FatOf(g, t.disk), t.chains)
    requires 32 * k + 32 <= |DirContent(g, s.disk, s.chains, p)|
    requires To83(name).Some? && Unlinked(g, s.disk, s.chains, t.disk, t.chains, p, To83(name).value, k)
    requires t.dirs == s.dirs - {Gone(g, s, p, k)}
    ensures Step(g, s, UnlinkOp(p, name, k), t)
  {
    hide Content, FatOf, WellFormed, To83, Unlinked, SlotCluster, SlotAt;
  }

  lemma VictimCluster(g: Geometry, root: nat, s: State, op: Op, t: State)
    requires VictimGone(g, s, op, t)
    ensures Gone(g, s, op.p, op.k) != op.p && t.chains == s.chains - {Gone(g, s, op.p, op.k)} && t.dirs == s.dirs - {Gone(g, s, op.p, op.k)}
  {
    hide Content, ZeroTail, SlotAt, SlotCluster, Own, Listing, Trim, SlotSize, TreeOf;
  }

  /** The list of `p` after unlinking in a directory that was in order. */
  lemma RemovedMirrored(g: Geometry, m: Mounted, p: nat, name: Name, loaded: seq<Child>, k: nat, t: State)
    requires At(g, m, p) && Tracked(g, m.s.disk, m.s.chains, p, loaded) && Stale(g, m.s.disk, m.s.chains, p, loaded) == m.stale[p]
    requires To83(name).Some? && Unlinked(g, m.s.disk, m.s.chains, t.disk, t.chains, p, To83(name).value, k) && p in t.chains
    ensures DirMirrored(g, t, p, Without(loaded, name), m.stale[p] - {k}) <==> RoundTrips(name)
  {
    hide Content, Matched, Unsettled, Tidy, UniqueNames, Unlinked, To83, RoundTrips, Without;
    RemovedTracks(g, m.s.disk, m.s.chains, t.disk, t.chains, p, name, k, loaded);
  }

  lemma UnlinkMirrors(g: Geometry, root: nat, m: Mounted, p: nat, name: Name, loaded: seq<Child>, ok: bool, k: nat, t: Mounted)
    requires Mirrors(g, root, m) && At(g, m, p) && UnlinkHappens(g, m, p, name, loaded, ok, k, t)
    requires g.Holds(t.s.disk) && WellFormed(FatOf(g, t.s.disk), t.s.chains)
    ensures Mirrors(g, root, t) <==> NameFits(Unlink(p, name, loaded, ok, k))
  {
    hide Sound, DirMirrored, Content, Loaded, FatOf, WellFormed, RoundTrips, FirstNamed, SameDir, Unlinked, Without, Gone;
    SoundReadable(g, root, m.s);
    LoadedMirrored(g, m, p, loaded);
    if ok {
      RemovedStep(g, root, m.s, p, name, k, t.s);
      RemovedMirrored(g, m, p, name, loaded, k, t.s);
    } else {
      SameState(g, root, m, p, t);
    }
    OthersMirrored(g, root, m, p, t);
  }

  /** In a sound volume a listed entry owns a chain, a directory's if it is one, and not the one it is listed in. */
  lemma ListedOwn(g: Geometry, root: nat, s: State, p: nat, e: Entry)
    requires Sound(g, root, s) && p in s.dirs && p in s.chains && AllInRange(g, s.chains[p])
    requires e in Listing(DirContent(g, s.disk, s.chains, p)) && OwnName(e.name)
    ensures e.cluster in s.chains && e.cluster != p && (e.dir <==> e.cluster in s.dirs)
  {
    hide Content, FatOf, WellFormed, ZeroTail, Listing, Own, OwnName, Linked, Apart;
    TreeKeys(g, s);
    OwnHas(Listing(DirOf(g, s, p)), e);
    LinkedEntry(TreeOf(g, s.disk, s.chains, s.dirs), s.chains.Keys, root, p, e);
  }

  /** A write through a listed child, by the operation on the volume. */
  lemma WrittenStep(g: Geometry, root: nat, s: State, p: nat, e: Entry, offset: nat, data: seq<byte>, done: nat, size: nat, t: State)
    requires Sound(g, root, s) && p in s.dirs && g.Holds(t.disk) && WellFormed(FatOf(g, t.disk), t.chains) && t.dirs == s.dirs
    requires p in s.chains && AllInRange(g, s.chains[p]) && e in Listing(DirContent(g, s.disk, s.chains, p)) && OwnName(e.name) && !e.dir
    requires FileWritten(g, s.disk, s.chains, t.disk, t.chains, e.cluster, offset, data, done)
    requires EntryUpdated(g, s.disk, t.disk, t.chains, e.cluster, 0 < done == |data|, p, e.slot, size)
    ensures Sound(g, root, t) && e.cluster != p && NoLinksMade(g, s, t)
    ensures forall h :: h in s.dirs && h != p ==> SameDir(g, s, t, h)
  {
    hide Sound, Content, FatOf, WellFormed, ZeroTail, UniqueNames, FileWritten, EntryUpdated, OwnName, Listing, NoNewLinks, NoLinksMade, TreeOf, LinksKept, LinksWithin;
    SoundReadable(g, root, s);
    ListedOwn(g, root, s, p, e);
    var op := WriteOp(p, e, offset, data, done, size);
    WriteStep(g, root, s, op, t);
    WrittenOthers(g, s, op, t);
    LinksOfTrees(g, s, t, p, 0);
    forall h | h in s.dirs && h != p
      ensures SameDir(g, s, t, h)
    {
      assert DirOf(g, t, h) == DirOf(g, s, h);
      WrittenKeepsChain(g, s.disk, s.chains, t.disk, t.chains, h, e.cluster, offset, data, done);
    }
  }

  lemma WriteMirrors(g: Geometry, root: nat, m: Mounted, p: nat, n: nat, offset: nat, data: seq<byte>, done: nat, t: Mounted)
    requires Mirrors(g, root, m) && At(g, m, p) && WriteHappens(g, m, p, n, offset, data, done, t)
    requires g.Holds(t.s.disk) && WellFormed(FatOf(g, t.s.disk), t.s.chains)
    ensures Mirrors(g, root, t)
  {
    hide Sound, Content, FatOf, WellFormed, SameDir, FileWritten, EntryUpdated, OwnName, Listing, Matched, Unsettled, ZeroTail, UniqueNames, WithSize, SizeOnDisk,
         GrownSize;
    var vs := m.lists[p];
    var e := OnDisk(g, m.s, p, vs, n);
    var size := if 0 < done == |data| then GrownSize(vs[n].entry.size, offset, |data|) else vs[n].entry.size;
    assert DirMirrored(g, m.s, p, vs, m.stale[p]);
    MatchedSlots(g, m.s.chains[p], DirContent(g, m.s.disk, m.s.chains, p), vs);
    WrittenStep(g, root, m.s, p, e, offset, data, done, size, t.s);
    WrittenKeepsChain(g, m.s.disk, m.s.chains, t.s.disk, t.s.chains, p, e.cluster, offset, data, done);
    WriteTracks(g, m.s.disk, m.s.chains, t.s.disk, t.s.chains, p, vs, n, offset, data, done, size);
    OthersMirrored(g, root, m, p, t);
  }

  /** After any call everything is in order again exactly if the name fits. */
  lemma EventMirrors(g: Geometry, root: nat, m: Mounted, ev: Event, t: Mounted)
    requires Mirrors(g, root, m) && Happens(g, m, ev, t)
    ensures Mirrors(g, root, t) <==> NameFits(ev)
  {
    hide Mirrors, At, LoadHappens, CreateHappens, MkdirHappens, UnlinkHappens, WriteHappens, RoundTrips, FirstNamed, Opens, FatOf, WellFormed;
    match ev {
      case Load(p) => LoadMirrors(g, root, m, p, t);
      case Create(p, name, up, loaded, ok) => CreateMirrors(g, root, m, p, name, up, loaded, ok, t);
      case Mkdir(p, name, up, loaded, ok) => MkdirMirrors(g, root, m, p, name, up, loaded, ok, t);
      case Unlink(p, name, loaded, ok, k) => UnlinkMirrors(g, root, m, p, name, loaded, ok, k, t);
      case Write(p, n, offset, data, done) => WriteMirrors(g, root, m, p, n, offset, data, done, t);
    }
  }

  /** What the methods ask of their callers holds in every such state: an unlink finds only what it may delete, and a
      listed file may be written. */
  lemma CallsAllowed(g: Geometry, root: nat, m: Mounted, p: nat, name: Name, n: nat)
    requires Mirrors(g, root, m) && p in m.s.dirs
    ensures p in m.lists && p in m.s.chains && g.Holds(m.s.disk) && WellFormed(FatOf(g, m.s.disk), m.s.chains)
    ensures To83(name).Some? ==> Deletable(g, m.s.disk, m.s.chains, p, To83(name).value)
    ensures n < |m.lists[p]| && !m.lists[p][n].entry.dir && OwnName(m.lists[p][n].entry.name) ==>
              var e := m.lists[p][n].entry;
              && e.cluster in m.s.chains && e.cluster != p && e.cluster < 0x1_0000_0000 && m.lists[p][n].lba != 0
              && HasPlace(g, m.s.chains, p, m.lists[p][n])
  {
    hide Sound, Content, FatOf, WellFormed, ZeroTail, UniqueNames, OwnName, Listing, Matched, Unsettled, SizeOnDisk, To83, Deletable, Located;
    SoundReadable(g, root, m.s);
    assert DirMirrored(g, m.s, p, m.lists[p], m.stale[p]);
    if To83(name).Some? {
      SoundIsDeletable(g, root, m.s, p, name);
    }
    var vs := m.lists[p];
    if n < |vs| && !vs[n].entry.dir && OwnName(vs[n].entry.name) {
      MatchedSlots(g, m.s.chains[p], DirContent(g, m.s.disk, m.s.chains, p), vs);
      ListedOwn(g, root, m.s, p, OnDisk(g, m.s, p, vs, n));
      LiveIsOwnable(g, m.s, vs[n].entry.cluster);
      LocatedInData(g, m.s.chains[p], vs[n]);
    }
  }

  /** An entry of that name and kind is in the directory. */
  ghost predicate Taken(g: Geometry, s: State, p: nat, name: Name, dir: bool)
  {
    && g.Holds(s.disk) && p in s.chains && AllInRange(g, s.chains[p])
    && exists e :: e in Listing(DirContent(g, s.disk, s.chains, p)) && e.name == name && e.dir == dir
  }

  /** What the first child of a name says of the directory. */
  lemma FirstNamedTells(g: Geometry, s: State, p: nat, vs: seq<Child>, name: Name)
    requires Tracked(g, s.disk, s.chains, p, vs)
    ensures FirstNamed(vs, name) == |vs| <==> !Taken(g, s, p, name, false) && !Taken(g, s, p, name, true)
    ensures Opens(vs, name) <==> Taken(g, s, p, name, false)
  {
    hide Content, ZeroTail, Listing, Located, SizeOnDisk, Matched, FirstNamed;
    var content := DirContent(g, s.disk, s.chains, p);
    NamedIff(g, s.chains[p], content, vs, name);
    HasNameIff(vs, name);
    var n := FirstNamed(vs, name);
    FirstNamedAt(vs, name);
    if n < |vs| {
      MatchedSlots(g, s.chains[p], content, vs);
      var e := OnDisk(g, s, p, vs, n);
      assert e in Listing(content) && e.name == name && e.dir == vs[n].entry.dir;
      assert forall x :: x in Listing(content) && x.name == name ==> x == e;
    }
  }

  lemma FirstNamedAt(vs: seq<Child>, name: Name)
    ensures FirstNamed(vs, name) <= |vs| && (FirstNamed(vs, name) < |vs| ==> vs[FirstNamed(vs, name)].entry.name == name)
  {
  }

  /** Before the call: a creation fits if the name is a file's, which is then opened, or round-trips and is no
      directory's. */
  lemma CreateFitsBefore(g: Geometry, root: nat, m: Mounted, ev: Event, t: Mounted)
    requires Mirrors(g, root, m) && ev.Create? && Happens(g, m, ev, t)
    ensures NameFits(ev) <==> Taken(g, m.s, ev.p, ev.name, false) || (ev.ok ==> RoundTrips(ev.name) && !Taken(g, m.s, ev.p, ev.name, true))
  {
    hide Sound, Content, FatOf, WellFormed, Loaded, DirMirrored, RoundTrips, FirstNamed, Opens, Tracked, Taken, Added;
    assert DirMirrored(g, m.s, ev.p, m.lists[ev.p], m.stale[ev.p]);
    LoadedMirrored(g, m, ev.p, ev.loaded);
    FirstNamedTells(g, m.s, ev.p, ev.loaded, ev.name);
  }

  /** A new directory has no names of its own taken. */
  lemma NewDirectoryFree(g: Geometry, root: nat, m: Mounted, ev: Event, t: Mounted, name: Name, dir: bool)
    requires Mirrors(g, root, m) && ev.Mkdir? && ev.ok && Happens(g, m, ev, t) && OwnName(name)
    ensures ev.p in t.lists && |t.lists[ev.p]| > 0 && !Taken(g, t.s, t.lists[ev.p][0].entry.cluster, name, dir)
  {
    hide Sound, Content, FatOf, WellFormed, To83, ZeroTail, UniqueNames, Located, Listing, Loaded, OwnName, FirstNamed, Created;
    SoundReadable(g, root, m.s);
    var ws := t.lists[ev.p];
    AddedIsStep(g, m.s, ev.p, ev.name, true, ev.up, ev.loaded, ws, t.s);
    CreatedOthers(g, m.s, CreateOp(ev.p, ev.name, true, ev.up, ws[0].entry.cluster, ws[0].entry.slot), t.s);
    NotOwned(g, t.s, ws[0].entry.cluster, name, dir);
  }

  /** Its own name is taken from then on, by a directory. */
  lemma MadeTaken(g: Geometry, root: nat, m: Mounted, ev: Event, t: Mounted)
    requires Mirrors(g, root, t) && ev.Mkdir? && ev.ok && Happens(g, m, ev, t)
    ensures Taken(g, t.s, ev.p, ev.name, true) && !Taken(g, t.s, ev.p, ev.name, false)
  {
    hide Sound, Content, FatOf, WellFormed, Loaded, To83, Taken, Tracked, DirMirrored, Created, Located;
    ListTracked(g, root, t, ev.p);
    FirstNamedTells(g, t.s, ev.p, t.lists[ev.p], ev.name);
  }

  lemma NotOwned(g: Geometry, s: State, p: nat, name: Name, dir: bool)
    requires g.Holds(s.disk) && p in s.chains && AllInRange(g, s.chains[p]) && Own(Listing(DirOf(g, s, p))) == {} && OwnName(name)
    ensures !Taken(g, s, p, name, dir)
  {
    hide Content, Listing, OwnName;
    if e :| e in Listing(DirOf(g, s, p)) && e.name == name {
      OwnHas(Listing(DirOf(g, s, p)), e);
    }
  }

  /** A name that round-trips is neither "." nor "..". */
  lemma RoundTripsIsOwn(name: Name)
    requires RoundTrips(name)
    ensures OwnName(name)
  {
    ValidIsOwn(name);
  }

  /** A list with something in it is tracked. */
  lemma ListTracked(g: Geometry, root: nat, m: Mounted, p: nat)
    requires Mirrors(g, root, m) && p in m.s.dirs
    ensures p in m.lists && (m.lists[p] != [] ==> Tracked(g, m.s.disk, m.s.chains, p, m.lists[p]))
  {
    hide Sound, Tracked, Orderly;
    assert DirMirrored(g, m.s, p, m.lists[p], m.stale[p]);
  }

  /** A listed directory is one of the volume's. */
  lemma ListedDirectory(g: Geometry, root: nat, m: Mounted, p: nat, n: nat)
    requires Mirrors(g, root, m) && p in m.s.dirs && p in m.lists && n < |m.lists[p]|
    requires m.lists[p][n].entry.dir && OwnName(m.lists[p][n].entry.name)
    ensures m.lists[p][n].entry.cluster in m.s.dirs
  {
    hide Sound, Content, FatOf, WellFormed, ZeroTail, UniqueNames, OwnName, Listing, Matched, Unsettled, SizeOnDisk, Located;
    assert DirMirrored(g, m.s, p, m.lists[p], m.stale[p]);
    MatchedSlots(g, m.s.chains[p], DirContent(g, m.s.disk, m.s.chains, p), m.lists[p]);
    ListedOwn(g, root, m.s, p, OnDisk(g, m.s, p, m.lists[p], n));
  }

  ghost predicate HasPlace(g: Geometry, chains: map<nat, seq<nat>>, p: nat, c: Child)
    requires p in chains
  {
    Located(g, chains[p], c.entry.slot, c.lba, c.off)
  }

  /** An entry's sector is behind the table, so it is not sector 0. */
  lemma LocatedInData(g: Geometry, ch: seq<nat>, c: Child)
    requires g.Valid() && Located(g, ch, c.entry.slot, c.lba, c.off)
    ensures c.lba != 0
  {
    hide Times;
    CopySectorInFat(g, 0, 0);
  }

  ghost predicate Run(g: Geometry, states: seq<Mounted>, evs: seq<Event>)
  {
    |states| == |evs| + 1 && forall i :: 0 <= i < |evs| ==> Happens(g, states[i], evs[i], states[i + 1])
  }

  /** A run from one state to another. */
  ghost predicate Leads(g: Geometry, states: seq<Mounted>, evs: seq<Event>, first: Mounted, last: Mounted)
  {
    Run(g, states, evs) && states[0] == first && states[|evs|] == last
  }

  lemma LeadsNowhere(g: Geometry, m: Mounted)
    ensures Leads(g, [m], [], m, m)
  {
  }

  lemma LeadsOn(g: Geometry, states: seq<Mounted>, evs: seq<Event>, first: Mounted, last: Mounted, ev: Event, t: Mounted)
    requires Leads(g, states, evs, first, last) && Happens(g, last, ev, t)
    ensures Leads(g, states + [t], evs + [ev], first, t)
  {
    hide Happens;
  }

  /** Along a run every directory's list stays in one-to-one correspondence with its entries, all states long, exactly
      if every name used fits. */
  lemma {:induction false} RunMirrors(g: Geometry, root: nat, states: seq<Mounted>, evs: seq<Event>, n: nat)
    requires Run(g, states, evs) && Mirrors(g, root, states[0]) && n < |states|
    ensures (forall i :: 0 <= i <= n ==> Mirrors(g, root, states[i])) <==> (forall i :: 0 <= i < n ==> NameFits(evs[i]))
  {
    hide Mirrors, Happens, NameFits;
    if n > 0 {
      RunMirrors(g, root, states, evs, n - 1);
      if forall i :: 0 <= i < n ==> Mirrors(g, root, states[i]) {
        EventMirrors(g, root, states[n - 1], evs[n - 1], states[n]);
      }
    }
  }

  /** The call opened a file, as vfs_create does, whose entry has a size other than 0. */
  ghost predicate Truncates(g: Geometry, m: Mounted, ev: Event)
  {
    && ev.Create? && At(g, m, ev.p) && Opens(ev.loaded, ev.name)
    && OnDisk(g, m.s, ev.p, ev.loaded, FirstNamed(ev.loaded, ev.name)).size != 0
  }

  ghost predicate NothingStale(m: Mounted) { forall h :: h in m.stale ==> m.stale[h] == {} }

  lemma EventKeepsSizes(g: Geometry, m: Mounted, ev: Event, t: Mounted)
    requires Happens(g, m, ev, t) && NothingStale(m) && !Truncates(g, m, ev)
    ensures NothingStale(t)
  {
    hide CreateOutcome, MkdirOutcome, UnlinkOutcome, FileWritten, EntryUpdated, Loaded, FatOf, Content, FirstNamed, WellFormed, SizeOnDisk, Without;
  }

  lemma {:induction false} RunKeepsSizes(g: Geometry, states: seq<Mounted>, evs: seq<Event>, n: nat)
    requires Run(g, states, evs) && NothingStale(states[0]) && n < |states|
    requires forall i :: 0 <= i < n ==> !Truncates(g, states[i], evs[i])
    ensures NothingStale(states[n])
  {
    hide Happens, Truncates, NothingStale;
    if n > 0 {
      RunKeepsSizes(g, states, evs, n - 1);
      EventKeepsSizes(g, states[n - 1], evs[n - 1], states[n]);
    }
  }

  /** A loaded list without stale sizes is in step. */
  lemma MirroredInStep(g: Geometry, root: nat, m: Mounted, h: nat)
    requires Mirrors(g, root, m) && h in m.s.dirs
    ensures h in m.lists && h in m.stale
    ensures m.lists[h] != [] ==> (InStep(g, m.s.disk, m.s.chains, h, m.lists[h]) <==> m.stale[h] == {})
  {
    hide Sound, Content, ZeroTail, UniqueNames, Matched, Synced, Unsettled;
    assert DirMirrored(g, m.s, h, m.lists[h], m.stale[h]);
    if m.lists[h] != [] {
      InStepIff(g, m.s.disk, m.s.chains, h, m.lists[h]);
    }
  }

  /** With nothing truncated the correspondence includes the sizes: every loaded list is in step, in every state. */
  lemma RunInStep(g: Geometry, root: nat, states: seq<Mounted>, evs: seq<Event>, n: nat, h: nat)
    requires Run(g, states, evs) && Mirrors(g, root, states[0]) && NothingStale(states[0]) && n < |states|
    requires forall i :: 0 <= i < n ==> NameFits(evs[i]) && !Truncates(g, states[i], evs[i])
    requires h in states[n].s.dirs
    ensures h in states[n].lists && (states[n].lists[h] != [] ==> InStep(g, states[n].s.disk, states[n].s.chains, h, states[n].lists[h]))
  {
    hide Happens, NameFits, Truncates, InStep, Mirrors;
    RunMirrors(g, root, states, evs, n);
    RunKeepsSizes(g, states, evs, n);
    MirroredInStep(g, root, states[n], h);
  }

  /** Runs may start from a bare volume with nothing loaded. */
  lemma BareMirrors(g: Geometry, d: Disk)
    requires g.Holds(d) && g.clusters > 0 && FatOf(g, d)[2] >= EOC && ClusterBytes(g, d, 2) == Zeros(ClusterSize(g))
    ensures Mirrors(g, 2, Mounted(Bare(d), map[2 := []], map[2 := {}])) && NothingStale(Mounted(Bare(d), map[2 := []], map[2 := {}]))
  {
    hide Sound, ClusterBytes, FatOf, Times, Listing, ZeroTail, Content;
    BareSound(g, d);
    var content := Content(g, d, [2]);
    assert content == Zeros(ClusterSize(g)) by {
      ContentSnoc(g, d, [], 2);
      assert [] + [2] == [2];
      ContentNone(g, d);
    }
    ZerosEmpty(content);
    NoneStale(content);
  }

  lemma ContentNone(g: Geometry, d: Disk)
    requires g.Holds(d)
    ensures AllInRange(g, []) && Content(g, d, []) == []
  {
  }
}
