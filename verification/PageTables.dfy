/** paging_map_page_on and paging_get_phys_on over memory that holds the tables, with frames from the allocator. */
module PageTables {
  import opened Bytes
  import opened Pmm
  import opened Paging
  import opened PageWalks

  lemma {:induction false} ReachesStep(t: Tables, paths: map<nat, seq<nat>>, root: nat, x: nat, level: nat, v: nat, a: nat, m: nat)
    requires IsTree(t, paths, root) && Reaches(t, x, level, v, a, m) && m <= level <= 3 && |paths[x]| == 3 - level
    requires a in t && Links(t[a][Index(v, m)], m) && |paths[a]| == 3 - m
    ensures Reaches(t, x, level, v, Addr(t[a][Index(v, m)]), m - 1)
    decreases level
  {
    assert GoodEntry(t, paths, x, Index(v, level));
    if level > m {
      ReachesStep(t, paths, root, Addr(t[x][Index(v, level)]), level - 1, v, a, m);
    }
  }

  /** A walk from the root that has come to table `a` at level `m`. */
  ghost predicate Walking(t: Tables, paths: map<nat, seq<nat>>, root: nat, virt: nat, a: nat, m: nat)
  {
    IsTree(t, paths, root) && m <= 3 && Reaches(t, root, 3, virt, a, m) && a in t && a in paths && paths[a] == Prefix(virt, 3 - m)
  }

  /** Along a link, one level down. */
  lemma WalkingDown(t: Tables, paths: map<nat, seq<nat>>, root: nat, virt: nat, a: nat, m: nat)
    requires Walking(t, paths, root, virt, a, m) && Links(t[a][Index(virt, m)], m)
    ensures m > 0 && Walking(t, paths, root, virt, Addr(t[a][Index(virt, m)]), m - 1)
  {
    ReachesStep(t, paths, root, root, 3, virt, a, m);
    ReachesPath(t, paths, root, root, 3, virt, Addr(t[a][Index(virt, m)]), m - 1);
  }

  /** One changed entry whose own answers stay keeps every translation, and the walk. */
  lemma KeptIfLocal(t: Tables, paths: map<nat, seq<nat>>, root: nat, u: Tables, q: map<nat, seq<nat>>, virt: nat, a: nat, m: nat)
    requires Walking(t, paths, root, virt, a, m) && Differs(t, u, a, Index(virt, m)) && IsTree(u, q, root)
    requires forall v :: Uses(v, paths[a], Index(virt, m)) ==> Lookup(u, a, m, v) == Lookup(t, a, m, v)
    ensures SameTranslations(t, u, root) && Walking(u, q, root, virt, a, m)
  {
    hide Lookup, Uses, Reaches;
    forall v: nat
      ensures Lookup(u, root, 3, v) == Lookup(t, root, 3, v)
    {
      EntryChanged(t, paths, root, u, virt, a, m, v);
    }
    EntryChanged(t, paths, root, u, virt, a, m, virt);
    ReachesPath(u, q, root, root, 3, virt, a, m);
  }

  /** A missing table created: no translation changes, and the walk goes on into the new table. */
  lemma CreateKeeps(t: Tables, paths: map<nat, seq<nat>>, root: nat, virt: nat, a: nat, m: nat, n: nat, flags: nat)
    requires Walking(t, paths, root, virt, a, m) && 0 < m && (flags == 3 || flags == 7)
    requires !Present(t[a][Index(virt, m)]) && !(m == 1 && Huge(t[a][Index(virt, m)]))
    requires n !in t && n % 4096 == 0 && 0 < n < 0x10_0000_0000_0000
    ensures var u := Linked(t, a, Index(virt, m), n, EMPTY_TABLE, flags); var q := paths[n := paths[a] + [Index(virt, m)]];
            SameTranslations(t, u, root) && Walking(u, q, root, virt, n, m - 1)
  {
    hide Lookup, Reaches, SameTranslations, Linked, EMPTY_TABLE;
    var i := Index(virt, m);
    LinkedTree(t, paths, root, a, i, n, EMPTY_TABLE, flags);
    forall v | Uses(v, paths[a], i)
      ensures Lookup(Linked(t, a, i, n, EMPTY_TABLE, flags), a, m, v) == Lookup(t, a, m, v)
    {
      LinkedEmpty(t, a, i, n, flags, m, v);
    }
    KeptIfLocal(t, paths, root, Linked(t, a, i, n, EMPTY_TABLE, flags), paths[n := paths[a] + [i]], virt, a, m);
    LinkedEntry(t, a, i, n, EMPTY_TABLE, flags);
    WalkingDown(Linked(t, a, i, n, EMPTY_TABLE, flags), paths[n := paths[a] + [i]], root, virt, a, m);
  }

  lemma LinkedEntry(t: Tables, a: nat, i: nat, n: nat, table: Table, flags: nat)
    requires a in t && i < 512 && n !in t && n % 4096 == 0 && n < 0x10_0000_0000_0000 && (flags == 3 || flags == 7)
    ensures var u := Linked(t, a, i, n, table, flags);
            a in u && Addr(u[a][i]) == n && Present(u[a][i]) && !Huge(u[a][i])
  {
    EntryFields(n, flags);
    FlagBits(flags);
  }

  /** A 2 MiB page split: no translation changes, and the walk goes on into the table of small pages. */
  lemma SplitKeeps(t: Tables, paths: map<nat, seq<nat>>, root: nat, virt: nat, a: nat, n: nat, flags: nat)
    requires Walking(t, paths, root, virt, a, 1) && (flags == 3 || flags == 7) && Huge(t[a][Index(virt, 1)])
    requires n !in t && n % 4096 == 0 && 0 < n < 0x10_0000_0000_0000
    ensures var i := Index(virt, 1); var u := Linked(t, a, i, n, SplitTable(Addr(t[a][i]), flags), flags);
            SameTranslations(t, u, root) && Walking(u, paths[n := paths[a] + [i]], root, virt, a, 1)
            && Present(u[a][i]) && !Huge(u[a][i]) && Addr(u[a][i]) == n
  {
    hide Lookup, Reaches, SameTranslations, Linked, SplitTable;
    var i := Index(virt, 1);
    var table := SplitTable(Addr(t[a][i]), flags);
    assert GoodEntry(t, paths, a, i);
    LinkedTree(t, paths, root, a, i, n, table, flags);
    forall v | Uses(v, paths[a], i)
      ensures Lookup(Linked(t, a, i, n, table, flags), a, 1, v) == Lookup(t, a, 1, v)
    {
      SplitSame(t, a, i, n, flags, v);
    }
    KeptIfLocal(t, paths, root, Linked(t, a, i, n, table, flags), paths[n := paths[a] + [i]], virt, a, 1);
    LinkedEntry(t, a, i, n, table, flags);
  }

  /** The user bit set on the walk: no translation changes, the entry still links where it did. */
  lemma UserKeeps(t: Tables, paths: map<nat, seq<nat>>, root: nat, virt: nat, a: nat, m: nat)
    requires Walking(t, paths, root, virt, a, m) && 0 < m
    ensures var i := Index(virt, m); var u := t[a := t[a][i := WithUser(t[a][i])]];
            SameTranslations(t, u, root) && Walking(u, paths, root, virt, a, m)
  {
    hide Lookup, Reaches, SameTranslations, WithUser;
    var i := Index(virt, m);
    var u := t[a := t[a][i := WithUser(t[a][i])]];
    forall v | Uses(v, paths[a], i)
      ensures Lookup(u, a, m, v) == Lookup(t, a, m, v)
    {
      UserSame(t, paths, root, a, i, m, v);
    }
    UserSame(t, paths, root, a, i, m, virt);
    KeptIfLocal(t, paths, root, u, paths, virt, a, m);
  }

  /** The map with the page of `virt` answering frame `phys`, and every other page as before. */
  ghost predicate PageMapped(t: Tables, u: Tables, root: nat, virt: nat, phys: nat)
  {
    forall v: nat :: Lookup(u, root, 3, v) == if PageOf(v) == PageOf(virt) then Some(Addr(phys) + v % 4096) else Lookup(t, root, 3, v)
  }

  lemma LeafMaps(t: Tables, paths: map<nat, seq<nat>>, root: nat, virt: nat, a: nat, phys: nat, flags: nat)
    requires Walking(t, paths, root, virt, a, 0) && FlagsOnly(flags)
    ensures var i := Index(virt, 0); var u := t[a := t[a][i := Leaf(phys, flags)]];
            IsTree(u, paths, root) && PageMapped(t, u, root, virt, phys)
  {
    hide Lookup, Reaches, Leaf, PageOf, Index, Addr;
    var i := Index(virt, 0);
    var u := t[a := t[a][i := Leaf(phys, flags)]];
    LeafSays(t, paths, root, a, i, phys, flags, virt);
    forall v: nat
      ensures Lookup(u, root, 3, v) == if PageOf(v) == PageOf(virt) then Some(Addr(phys) + v % 4096) else Lookup(t, root, 3, v)
    {
      EntryChanged(t, paths, root, u, virt, a, 0, v);
      UsesIsPage(v, virt);
      if Uses(v, paths[a], i) {
        LeafSays(t, paths, root, a, i, phys, flags, v);
      }
    }
  }

  /** The map with the page of `virt` answering nothing, and every other page as before. */
  ghost predicate PageUnmapped(t: Tables, u: Tables, root: nat, virt: nat)
  {
    forall v: nat :: Lookup(u, root, 3, v) == if PageOf(v) == PageOf(virt) then None else Lookup(t, root, 3, v)
  }

  lemma ZeroLeaf(t: Tables, paths: map<nat, seq<nat>>, root: nat, a: nat, i: nat, v: nat)
    requires IsTree(t, paths, root) && a in t && |paths[a]| == 3 && Index(v, 0) == i
    ensures var u := t[a := t[a][i := 0]];
            && IsTree(u, paths, root) && Differs(t, u, a, i) && Lookup(u, a, 0, v) == None
  {
    var u := t[a := t[a][i := 0]];
    forall x, j | x in u && 0 <= j < 512
      ensures GoodEntry(u, paths, x, j)
    {
      assert GoodEntry(t, paths, x, j);
    }
  }

  lemma LeafClears(t: Tables, paths: map<nat, seq<nat>>, root: nat, virt: nat, a: nat)
    requires Walking(t, paths, root, virt, a, 0)
    ensures var u := t[a := t[a][Index(virt, 0) := 0]];
            IsTree(u, paths, root) && PageUnmapped(t, u, root, virt)
  {
    hide Lookup, Reaches, PageOf, Index;
    var i := Index(virt, 0);
    var u := t[a := t[a][i := 0]];
    ZeroLeaf(t, paths, root, a, i, virt);
    forall v: nat
      ensures Lookup(u, root, 3, v) == if PageOf(v) == PageOf(virt) then None else Lookup(t, root, 3, v)
    {
      EntryChanged(t, paths, root, u, virt, a, 0, v);
      UsesIsPage(v, virt);
      if Uses(v, paths[a], i) {
        ZeroLeaf(t, paths, root, a, i, v);
      }
    }
  }

  /** No other page's walk has changed in any bit. */
  ghost predicate OthersSame(t: Tables, u: Tables, root: nat, virt: nat)
  {
    forall v: nat :: PageOf(v) != PageOf(virt) ==> Walk(u, root, 3, v) == Walk(t, root, 3, v)
  }

  lemma OthersCleared(t: Tables, paths: map<nat, seq<nat>>, root: nat, virt: nat, a: nat)
    requires Walking(t, paths, root, virt, a, 0)
    ensures OthersSame(t, t[a := t[a][Index(virt, 0) := 0]], root, virt)
  {
    hide Walk, Reaches, PageOf, Index, IsTree;
    forall v: nat
      ensures PageOf(v) != PageOf(virt) ==> Walk(t[a := t[a][Index(virt, 0) := 0]], root, 3, v) == Walk(t, root, 3, v)
    {
      LeafWalks(t, paths, root, virt, a, 0, v);
    }
  }

  /** The walk of `virt` meets no 2 MiB page. */
  ghost predicate SmallPages(t: Tables, root: nat, virt: nat)
  {
    forall pd :: pd in t && Reaches(t, root, 3, virt, pd, 1) ==> !Huge(t[pd][Index(virt, 1)])
  }

  /** What the walk answers when it has come to a table at a level. */
  lemma WalkingLookup(t: Tables, paths: map<nat, seq<nat>>, root: nat, virt: nat, a: nat, m: nat)
    requires Walking(t, paths, root, virt, a, m) && (m == 1 ==> !Huge(t[a][Index(virt, m)]))
    ensures !Present(t[a][Index(virt, m)]) ==> Lookup(t, root, 3, virt) == None
    ensures Present(t[a][Index(virt, m)]) && m == 0 ==>
              Lookup(t, root, 3, virt) == Some(Addr(t[a][Index(virt, 0)]) + virt % 4096)
  {
    hide Index, Addr, Present;
    ReachesLookup(t, root, 3, virt, a, m);
  }

  lemma SameThenMapped(t: Tables, u: Tables, w: Tables, root: nat, virt: nat, phys: nat)
    requires SameTranslations(t, u, root)
    ensures PageMapped(u, w, root, virt, phys) ==> PageMapped(t, w, root, virt, phys)
    ensures SameTranslations(u, w, root) ==> SameTranslations(t, w, root)
  {
    hide Lookup;
  }

  class AddressSpace {
    const root: nat
    const pmm: Allocator
    var tables: Tables
    /** The path of indices from the root to each table. */
    ghost var paths: map<nat, seq<nat>>

    /** The tables form a tree in frames the allocator holds as used; frame 0 is reserved. */
    ghost predicate Valid()
      reads this, pmm, pmm.bitmap
    {
      && pmm.Valid() && pmm.Map()[0] && IsTree(tables, paths, root)
      && Held(tables, pmm.Map())
    }

    constructor (root: nat, pmm: Allocator, tables: Tables, ghost paths: map<nat, seq<nat>>)
      requires pmm.Valid() && pmm.Map()[0] && IsTree(tables, paths, root) && Held(tables, pmm.Map())
      ensures Valid() && this.root == root && this.pmm == pmm && this.tables == tables && this.paths == paths
    {
      this.root := root;
      this.pmm := pmm;
      this.tables := tables;
      this.paths := paths;
    }

    /** The frame loop: a frame from the allocator, filled with 512 entries; 0 when no frame is left. */
    method NewTable(contents: Table) returns (table: nat, entries: Table)
      requires Valid()
      modifies pmm, pmm.bitmap
      ensures Valid() && entries == contents
      ensures table == 0 ==> forall f :: 0 <= f < pmm.total ==> pmm.Map()[f]
      ensures table != 0 ==> table !in tables && table % 4096 == 0 && table < 0x1_0000_0000
      ensures table != 0 ==> pmm.Map()[table / 4096]
    {
      hide IsTree, CountUsed, Bit;
      ghost var f;
      table, f := pmm.Alloc();
      entries := *;
      var j := 0;
      while j < 512
        invariant 0 <= j <= 512 && forall k :: 0 <= k < j ==> entries[k] == contents[k]
      {
        entries := entries[j := contents[j]];
        j := j + 1;
      }
      assert entries == contents;
    }

    /** paging_get_or_create_table on the entry of table `a` that the walk of `virt` uses: the table the entry links
        to, or a new empty one; 0 when no frame is left. */
    method GetOrCreateTable(a: nat, i: nat, user: bool, ghost virt: nat, ghost m: nat) returns (table: nat)
      requires Valid() && Walking(tables, paths, root, virt, a, m) && 0 < m && i == Index(virt, m)
      requires m == 1 ==> !Huge(tables[a][i])
      modifies this`tables, this`paths, pmm, pmm.bitmap
      ensures Valid() && SameTranslations(old(tables), tables, root)
      ensures table == 0 ==> forall f :: 0 <= f < pmm.total ==> pmm.Map()[f]
      ensures table != 0 ==> OnWalk(tables, paths, root, virt, a, m, table)
      ensures WalksFollow(old(tables), tables, root, virt, user)
      ensures table != 0 ==> Created(Walk(old(tables), root, 3, virt), Walk(tables, root, 3, virt), 3 - m, user)
    {
      hide Lookup, Reaches, Linked, EMPTY_TABLE, Addr, Index, GoodEntry, CountUsed, Bit, SameTranslations, Present, Huge, IsTree, Held,
           Walk, WalksFollow, Created, Links;
      var e := tables[a][i];
      SameSelf(tables, root);
      FollowSelf(tables, root, virt, user);
      if Present(e) {
        LinkedTo(tables, paths, root, virt, a, m);
        NothingCreated(tables, paths, root, virt, a, m, user);
        return Addr(e);
      }
      var entries: Table;
      table, entries := NewTable(EMPTY_TABLE);
      if table == 0 {
        return;
      }
      var flags := if user then 7 else 3;
      CreateKeeps(tables, paths, root, virt, a, m, table, flags);
      CreateWalks(tables, paths, root, virt, a, m, table, user);
      CreatedOnWalk(tables, paths, root, virt, a, m, table, flags);
      HeldLinked(tables, pmm.Map(), a, i, table, entries, flags);
      paths := paths[table := paths[a] + [i]];
      tables := Linked(tables, a, i, table, entries, flags);
    }

    /** The user bit set in an entry on the walk. */
    method SetUser(a: nat, i: nat, ghost virt: nat, ghost m: nat)
      requires Valid() && Walking(tables, paths, root, virt, a, m) && 0 < m && i == Index(virt, m) && !(m == 1 && Huge(tables[a][i]))
      modifies this`tables
      ensures Valid() && SameTranslations(old(tables), tables, root) && Walking(tables, paths, root, virt, a, m)
      ensures WalksFollow(old(tables), tables, root, virt, true) && UserMarked(Walk(old(tables), root, 3, virt), Walk(tables, root, 3, virt), 3 - m)
      ensures tables == old(tables)[a := old(tables)[a][i := WithUser(old(tables)[a][i])]]
    {
      hide Lookup, Reaches, Index, GoodEntry, CountUsed, Bit, SameTranslations, IsTree, WithUser, Walk, WalksFollow, UserMarked, Huge;
      UserWalks(tables, paths, root, virt, a, m);
      UserKeeps(tables, paths, root, virt, a, m);
      HeldSame(tables, pmm.Map(), a, tables[a][i := WithUser(tables[a][i])]);
      tables := tables[a := tables[a][i := WithUser(tables[a][i])]];
    }

    /** The step one level down that paging_map_page_on takes twice: get or create the table, then mark the entry for
        user access if asked to. */
    method Descend(a: nat, i: nat, user: bool, ghost virt: nat, ghost m: nat) returns (table: nat)
      requires Valid() && Walking(tables, paths, root, virt, a, m) && 1 < m && i == Index(virt, m)
      modifies this`tables, this`paths, pmm, pmm.bitmap
      ensures Valid() && SameTranslations(old(tables), tables, root)
      ensures table == 0 ==> forall f :: 0 <= f < pmm.total ==> pmm.Map()[f]
      ensures table != 0 ==> Walking(tables, paths, root, virt, table, m - 1)
      ensures WalksFollow(old(tables), tables, root, virt, user)
      ensures table != 0 ==> Advanced(Walk(old(tables), root, 3, virt), Walk(tables, root, 3, virt), 3 - m, user)
    {
      hide Lookup, Reaches, Index, GoodEntry, CountUsed, Bit, SameTranslations, IsTree, WithUser, Addr, Held, Links,
           Walk, WalksFollow, Created, UserMarked, Advanced;
      table := GetOrCreateTable(a, i, user, virt, m);
      if table == 0 {
        return;
      }
      ghost var t := tables;
      if user {
        SetUser(a, i, virt, m);
        FollowTwice(old(tables), t, tables, root, virt, user);
        SameTwice(old(tables), t, tables, root);
        UserOnWalk(t, tables, paths, root, virt, a, m, table);
      }
      OnWalkDown(tables, paths, root, virt, a, m, table);
      WalkLong(tables, paths, root, virt, table, m - 1);
      CreatedThenMarked(Walk(old(tables), root, 3, virt), Walk(t, root, 3, virt), Walk(tables, root, 3, virt), 3 - m, user);
    }

    /** The split of a 2 MiB page into 512 small ones with the same frames. */
    method SplitIfHuge(pd: nat, i: nat, user: bool, ghost virt: nat) returns (ok: bool)
      requires Valid() && Walking(tables, paths, root, virt, pd, 1) && i == Index(virt, 1)
      modifies this`tables, this`paths, pmm, pmm.bitmap
      ensures Valid() && SameTranslations(old(tables), tables, root)
      ensures !ok ==> forall f :: 0 <= f < pmm.total ==> pmm.Map()[f]
      ensures ok ==> Walking(tables, paths, root, virt, pd, 1) && !Huge(tables[pd][i])
      ensures WalksFollow(old(tables), tables, root, virt, user)
      ensures ok ==> Split(Walk(old(tables), root, 3, virt), Walk(tables, root, 3, virt), user)
    {
      hide Lookup, Reaches, Index, GoodEntry, CountUsed, Bit, SameTranslations, IsTree, Addr, Held, Linked, SplitTable, Huge, Present,
           Walk, WalksFollow, Split;
      SameSelf(tables, root);
      FollowSelf(tables, root, virt, user);
      ok := true;
      if Huge(tables[pd][i]) {
        var ptNew, entries := NewTable(SplitTable(Addr(tables[pd][i]), if user then 7 else 3));
        if ptNew == 0 {
          return false;
        }
        SplitKeeps(tables, paths, root, virt, pd, ptNew, if user then 7 else 3);
        SplitWalks(tables, paths, root, virt, pd, ptNew, user);
        HeldLinked(tables, pmm.Map(), pd, i, ptNew, entries, if user then 7 else 3);
        paths := paths[ptNew := paths[pd] + [i]];
        tables := Linked(tables, pd, i, ptNew, entries, if user then 7 else 3);
      } else {
        NothingSplit(tables, paths, root, virt, pd, user);
      }
    }

    /** The step to the last table: a 2 MiB page is split first, then the entry marked for user access if asked to, then the
        table created if there is none. */
    method DescendLast(pd: nat, i: nat, user: bool, ghost virt: nat) returns (pt: nat)
      requires Valid() && Walking(tables, paths, root, virt, pd, 1) && i == Index(virt, 1)
      modifies this`tables, this`paths, pmm, pmm.bitmap
      ensures Valid() && SameTranslations(old(tables), tables, root)
      ensures pt == 0 ==> forall f :: 0 <= f < pmm.total ==> pmm.Map()[f]
      ensures pt != 0 ==> Walking(tables, paths, root, virt, pt, 0)
      ensures WalksFollow(old(tables), tables, root, virt, user)
      ensures pt != 0 ==> Advanced(Walk(old(tables), root, 3, virt), Walk(tables, root, 3, virt), 2, user)
    {
      hide Lookup, Reaches, Index, GoodEntry, CountUsed, Bit, SameTranslations, IsTree, WithUser, Addr, Held, Links, Huge, Present,
           Walk, WalksFollow, Created, Split, UserMarked, Advanced;
      ghost var t0 := tables;
      var ok := SplitIfHuge(pd, i, user, virt);
      if !ok {
        return 0;
      }
      ghost var t1 := tables;
      if user {
        SetUser(pd, i, virt, 1);
        UserNotHuge(t1[pd][i]);
        SameTwice(t0, t1, tables, root);
        FollowTwice(t0, t1, tables, root, virt, user);
      }
      ghost var t2 := tables;
      pt := GetOrCreateTable(pd, i, user, virt, 1);
      SameTwice(t0, t2, tables, root);
      FollowTwice(t0, t2, tables, root, virt, user);
      if pt == 0 {
        return;
      }
      OnWalkDown(tables, paths, root, virt, pd, 1, pt);
      WalkLong(tables, paths, root, virt, pt, 0);
      SplitThenCreated(Walk(t0, root, 3, virt), Walk(t1, root, 3, virt), Walk(t2, root, 3, virt), Walk(tables, root, 3, virt), user);
    }

    /** paging_map_page_on. On success the page of `virt` translates to the frame of `phys`, with the caller's bits and the
        user bit all the way down if they have it, and every other page translates as before and keeps its bits, outside a
        split; on failure no page's translation has changed and the allocator is exhausted. */
    method MapPageOn(virt: nat, phys: nat, flags: nat) returns (ret: int)
      requires Valid() && FlagsOnly(flags)
      modifies this`tables, this`paths, pmm, pmm.bitmap
      ensures Valid() && (ret == 0 || ret == -1)
      ensures ret == 0 ==> PageMapped(old(tables), tables, root, virt, phys)
      ensures ret == 0 ==> Granted(old(tables), tables, root, virt, phys, flags) && OthersKeep(old(tables), tables, root, virt, User(flags))
      ensures ret == -1 ==> SameTranslations(old(tables), tables, root) && forall f :: 0 <= f < pmm.total ==> pmm.Map()[f]
      ensures ret == -1 ==> WalksFollow(old(tables), tables, root, virt, User(flags))
    {
      hide Lookup, Reaches, Index, GoodEntry, CountUsed, Bit, SameTranslations, PageMapped, IsTree, WithUser, Addr, Held, Leaf, Huge, Present, User,
           Walk, WalksFollow, Advanced, Opened, Granted, OthersKeep;
      var user := User(flags);
      ghost var t0, p0 := tables, paths;
      StartWalk(tables, paths, root, virt);
      var pdpt := Descend(root, Index(virt, 3), user, virt, 3);
      if pdpt == 0 {
        return -1;
      }
      ghost var t1 := tables;
      var pd := Descend(pdpt, Index(virt, 2), user, virt, 2);
      SameTwice(t0, t1, tables, root);
      FollowTwice(t0, t1, tables, root, virt, user);
      if pd == 0 {
        return -1;
      }
      ghost var t2 := tables;
      var pt := DescendLast(pd, Index(virt, 1), user, virt);
      SameTwice(t0, t2, tables, root);
      FollowTwice(t0, t2, tables, root, virt, user);
      if pt == 0 {
        return -1;
      }
      OpenedAll(t0, p0, root, virt, Walk(t1, root, 3, virt), Walk(t2, root, 3, virt), Walk(tables, root, 3, virt), user);
      SetLeaf(t0, pt, virt, phys, flags);
      ret := 0;
    }

    /** The leaf written, with the way down opened. */
    method SetLeaf(ghost t0: Tables, pt: nat, virt: nat, phys: nat, flags: nat)
      requires Valid() && FlagsOnly(flags) && Walking(tables, paths, root, virt, pt, 0)
      requires SameTranslations(t0, tables, root) && WalksFollow(t0, tables, root, virt, User(flags))
      requires Opened(Walk(t0, root, 3, virt), Walk(tables, root, 3, virt), 3, User(flags))
      modifies this`tables
      ensures Valid() && PageMapped(t0, tables, root, virt, phys)
      ensures Granted(t0, tables, root, virt, phys, flags) && OthersKeep(t0, tables, root, virt, User(flags))
    {
      hide Lookup, Reaches, Index, GoodEntry, CountUsed, Bit, SameTranslations, PageMapped, IsTree, Addr, Held, Leaf, User,
           Walk, WalksFollow, Opened, Granted, OthersKeep;
      LeafMaps(tables, paths, root, virt, pt, phys, flags);
      LeafGrants(t0, tables, paths, root, virt, pt, phys, flags);
      SameThenMapped(t0, tables, tables[pt := tables[pt][Index(virt, 0) := Leaf(phys, flags)]], root, virt, phys);
      HeldSame(tables, pmm.Map(), pt, tables[pt][Index(virt, 0) := Leaf(phys, flags)]);
      tables := tables[pt := tables[pt][Index(virt, 0) := Leaf(phys, flags)]];
    }

    /** The table that the present entry of `a` on the walk links to; 0 if the entry is not present. */
    method StepDown(a: nat, ghost virt: nat, i: nat, ghost m: nat) returns (table: nat)
      requires Valid() && Walking(tables, paths, root, virt, a, m) && 0 < m && i == Index(virt, m)
      requires m == 1 ==> !Huge(tables[a][i])
      ensures table == 0 ==> Lookup(tables, root, 3, virt) == None
      ensures table != 0 ==> Walking(tables, paths, root, virt, table, m - 1)
    {
      hide Lookup, Reaches, Index, GoodEntry, CountUsed, Bit, IsTree, Addr, Held, Huge, Present;
      WalkingLookup(tables, paths, root, virt, a, m);
      if !Present(tables[a][i]) {
        return 0;
      }
      LinkedTo(tables, paths, root, virt, a, m);
      table := Addr(tables[a][i]);
      OnWalkDown(tables, paths, root, virt, a, m, table);
    }

    /** paging_unmap_page, where the walk meets small pages only and the page's frame holds no table: a mapped page
        loses its translation and its frame goes back, every other page translates as before; an unmapped page is
        reported and nothing changes. */
    method UnmapPage(virt: nat) returns (ret: int)
      requires Valid() && SmallPages(tables, root, virt)
      requires forall p :: Lookup(tables, root, 3, virt) == Some(p) ==> forall a :: a in tables ==> a / 4096 != p / 4096
      modifies this`tables, pmm`used, pmm.bitmap
      ensures Valid()
      ensures ret == if Lookup(old(tables), root, 3, virt).Some? then 0 else -1
      ensures ret == -1 ==> tables == old(tables) && pmm.Map() == old(pmm.Map())
      ensures ret == 0 ==> PageUnmapped(old(tables), tables, root, virt) && OthersSame(old(tables), tables, root, virt)
      ensures ret == 0 ==>
                var f := Lookup(old(tables), root, 3, virt).value / 4096;
                pmm.Map() == if 0 < f < pmm.total then old(pmm.Map())[f := false] else old(pmm.Map())
    {
      hide Lookup, Reaches, Index, GoodEntry, CountUsed, Bit, PageUnmapped, IsTree, Addr, Held, Huge, Present, Walk, OthersSame;
      StartWalk(tables, paths, root, virt);
      var pdpt := StepDown(root, virt, Index(virt, 3), 3);
      if pdpt == 0 {
        return -1;
      }
      var pd := StepDown(pdpt, virt, Index(virt, 2), 2);
      if pd == 0 {
        return -1;
      }
      var pt := StepDown(pd, virt, Index(virt, 1), 1);
      if pt == 0 {
        return -1;
      }
      WalkingLookup(tables, paths, root, virt, pt, 0);
      var i := Index(virt, 0);
      if !Present(tables[pt][i]) {
        return -1;
      }
      var phys := Addr(tables[pt][i]);
      SamePage(tables[pt][i], virt);
      LeafClears(tables, paths, root, virt, pt);
      OthersCleared(tables, paths, root, virt, pt);
      HeldSame(tables, pmm.Map(), pt, tables[pt][i := 0]);
      if phys != 0 {
        HeldAfterFree(tables[pt := tables[pt][i := 0]], pmm.Map(), phys / 4096);
        pmm.Free(phys);
      }
      tables := tables[pt := tables[pt][i := 0]];
      ret := 0;
    }

    /** paging_get_phys_on: the walk's answer, or 0. */
    method GetPhysOn(virt: nat) returns (p: nat)
      requires Valid()
      ensures p == match Lookup(tables, root, 3, virt) case Some(x) => x case None => 0
    {
      var a, m := root, 3;
      while m > 1
        invariant 1 <= m <= 3 && a in tables && |paths[a]| == 3 - m
        invariant Lookup(tables, a, m, virt) == Lookup(tables, root, 3, virt)
      {
        assert GoodEntry(tables, paths, a, Index(virt, m));
        if !Present(tables[a][Index(virt, m)]) {
          return 0;
        }
        a := Addr(tables[a][Index(virt, m)]);
        m := m - 1;
      }
      assert GoodEntry(tables, paths, a, Index(virt, 1));
      var pdE := tables[a][Index(virt, 1)];
      if Huge(pdE) {
        return Addr(pdE) + virt % 0x20_0000;
      }
      if !Present(pdE) {
        return 0;
      }
      var ptE := tables[Addr(pdE)][Index(virt, 0)];
      if !Present(ptE) {
        return 0;
      }
      p := Addr(ptE) + virt % 4096;
    }
  }

  /** The entry of `a` on the walk links to `table`, where the walk goes on. */
  ghost predicate OnWalk(t: Tables, paths: map<nat, seq<nat>>, root: nat, virt: nat, a: nat, m: nat, table: nat)
  {
    Walking(t, paths, root, virt, a, m) && Links(t[a][Index(virt, m)], m) && Addr(t[a][Index(virt, m)]) == table
  }

  /** The entry of `a` is on the walk, at its level's place. */
  lemma WalkLong(t: Tables, paths: map<nat, seq<nat>>, root: nat, virt: nat, a: nat, m: nat)
    requires Walking(t, paths, root, virt, a, m)
    ensures |Walk(t, root, 3, virt)| > 3 - m && Walk(t, root, 3, virt)[3 - m] == t[a][Index(virt, m)]
  {
    hide Reaches, Index;
    WalkVia(t, root, 3, virt, a, m);
  }

  /** Three steps down open the way. */
  lemma OpenedAll(t: Tables, paths: map<nat, seq<nat>>, root: nat, virt: nat, x: seq<nat>, y: seq<nat>, z: seq<nat>, user: bool)
    requires IsTree(t, paths, root) && Advanced(Walk(t, root, 3, virt), x, 0, user) && Advanced(x, y, 1, user) && Advanced(y, z, 2, user)
    ensures Opened(Walk(t, root, 3, virt), z, 3, user)
  {
    hide GoodEntry, Walk, Advanced, Opened, Links;
    var w := Walk(t, root, 3, virt);
    forall n | 0 <= n < 3 && n < |w|
      ensures Links(w[n], 3 - n) <==> n + 1 < |w|
    {
      LinksOn(t, paths, root, root, 3, virt, n);
    }
    OpenedStart(w, user);
    OpenedNext(w, w, x, 0, user);
    OpenedNext(w, x, y, 1, user);
    OpenedNext(w, y, z, 2, user);
  }

  lemma NothingCreated(t: Tables, paths: map<nat, seq<nat>>, root: nat, virt: nat, a: nat, m: nat, user: bool)
    requires Walking(t, paths, root, virt, a, m) && 0 < m && Present(t[a][Index(virt, m)]) && !(m == 1 && Huge(t[a][Index(virt, m)]))
    ensures Created(Walk(t, root, 3, virt), Walk(t, root, 3, virt), 3 - m, user)
  {
    hide Reaches, Index, Present, Huge, Walk, Bits;
    WalkLong(t, paths, root, virt, a, m);
  }

  lemma NothingSplit(t: Tables, paths: map<nat, seq<nat>>, root: nat, virt: nat, a: nat, user: bool)
    requires Walking(t, paths, root, virt, a, 1) && !Huge(t[a][Index(virt, 1)])
    ensures Split(Walk(t, root, 3, virt), Walk(t, root, 3, virt), user)
  {
    hide Reaches, Index, Huge, Walk, Bits;
    WalkLong(t, paths, root, virt, a, 1);
  }

  lemma SameSelf(t: Tables, root: nat)
    ensures SameTranslations(t, t, root)
  {
  }

  lemma SameTwice(t: Tables, u: Tables, w: Tables, root: nat)
    requires SameTranslations(t, u, root) && SameTranslations(u, w, root)
    ensures SameTranslations(t, w, root)
  {
    hide Lookup;
  }

  lemma StartWalk(t: Tables, paths: map<nat, seq<nat>>, root: nat, virt: nat)
    requires IsTree(t, paths, root)
    ensures Walking(t, paths, root, virt, root, 3) && SameTranslations(t, t, root)
  {
  }

  lemma LinkedTo(t: Tables, paths: map<nat, seq<nat>>, root: nat, virt: nat, a: nat, m: nat)
    requires Walking(t, paths, root, virt, a, m) && 0 < m && Present(t[a][Index(virt, m)]) && (m == 1 ==> !Huge(t[a][Index(virt, m)]))
    ensures OnWalk(t, paths, root, virt, a, m, Addr(t[a][Index(virt, m)])) && Addr(t[a][Index(virt, m)]) > 0
  {
    hide Reaches;
    WalkingDown(t, paths, root, virt, a, m);
  }

  lemma OnWalkDown(t: Tables, paths: map<nat, seq<nat>>, root: nat, virt: nat, a: nat, m: nat, table: nat)
    requires OnWalk(t, paths, root, virt, a, m, table)
    ensures m > 0 && Walking(t, paths, root, virt, table, m - 1)
  {
    WalkingDown(t, paths, root, virt, a, m);
  }

  lemma UserOnWalk(t: Tables, u: Tables, paths: map<nat, seq<nat>>, root: nat, virt: nat, a: nat, m: nat, table: nat)
    requires OnWalk(t, paths, root, virt, a, m, table) && Walking(u, paths, root, virt, a, m)
    requires u == t[a := t[a][Index(virt, m) := WithUser(t[a][Index(virt, m)])]]
    ensures OnWalk(u, paths, root, virt, a, m, table)
  {
    WithUserFields(t[a][Index(virt, m)]);
  }

  lemma UserNotHuge(e: nat)
    ensures Huge(WithUser(e)) == Huge(e)
  {
    WithUserFields(e);
  }

  lemma CreatedOnWalk(t: Tables, paths: map<nat, seq<nat>>, root: nat, virt: nat, a: nat, m: nat, n: nat, flags: nat)
    requires Walking(t, paths, root, virt, a, m) && 0 < m && (flags == 3 || flags == 7)
    requires !Present(t[a][Index(virt, m)]) && !(m == 1 && Huge(t[a][Index(virt, m)]))
    requires n !in t && n % 4096 == 0 && 0 < n < 0x10_0000_0000_0000
    ensures OnWalk(Linked(t, a, Index(virt, m), n, EMPTY_TABLE, flags), paths[n := paths[a] + [Index(virt, m)]], root, virt, a, m, n)
    ensures IsTree(Linked(t, a, Index(virt, m), n, EMPTY_TABLE, flags), paths[n := paths[a] + [Index(virt, m)]], root)
  {
    hide Lookup, Reaches, SameTranslations, Linked, EMPTY_TABLE;
    var i := Index(virt, m);
    LinkedTree(t, paths, root, a, i, n, EMPTY_TABLE, flags);
    forall v | Uses(v, paths[a], i)
      ensures Lookup(Linked(t, a, i, n, EMPTY_TABLE, flags), a, m, v) == Lookup(t, a, m, v)
    {
      LinkedEmpty(t, a, i, n, flags, m, v);
    }
    KeptIfLocal(t, paths, root, Linked(t, a, i, n, EMPTY_TABLE, flags), paths[n := paths[a] + [i]], virt, a, m);
    LinkedEntry(t, a, i, n, EMPTY_TABLE, flags);
  }

  ghost predicate Held(t: Tables, used: Frames)
  {
    forall a :: a in t ==> a / 4096 < |used| && used[a / 4096]
  }

  lemma HeldLinked(t: Tables, used: Frames, a: nat, i: nat, n: nat, table: Table, flags: nat)
    requires Held(t, used) && a in t && i < 512 && n / 4096 < |used| && used[n / 4096]
    ensures Held(Linked(t, a, i, n, table, flags), used)
  {
  }

  /** Frame and offset of a translated address. */
  lemma SamePage(e: nat, virt: nat)
    ensures (Addr(e) + virt % 4096) / 4096 == Addr(e) / 4096 && (Addr(e) == 0 <==> Addr(e) / 4096 == 0)
  {
    var k := e / 4096 % 0x100_0000_0000;
    assert (k * 4096 + virt % 4096) / 4096 == k;
  }

  lemma HeldAfterFree(t: Tables, used: Frames, f: nat)
    requires Held(t, used) && forall a :: a in t ==> a / 4096 != f
    ensures f < |used| ==> Held(t, used[f := false])
  {
  }

  lemma HeldSame(t: Tables, used: Frames, a: nat, table: Table)
    requires Held(t, used) && a in t
    ensures Held(t[a := table], used)
  {
  }
}
