/** Four-level page tables as a partial map from virtual to physical addresses: mapping a page, with creation of
    missing tables and splitting of 2 MiB pages, changes the answer for that page and no other. */
module Paging {
  import opened Bytes
  import opened Pmm

  type Table = t: seq<nat> | |t| == 512 witness seq(512, _ => 0)

  /** Physical memory that holds tables, by address. */
  type Tables = map<nat, Table>

  predicate Present(e: nat) { e % 2 == 1 }

  predicate User(e: nat) { e / 4 % 2 == 1 }

  predicate Huge(e: nat) { e / 128 % 2 == 1 }

  /** The frame address field: bits 12 to 51. */
  function Addr(e: nat): nat { e / 4096 % 0x100_0000_0000 * 4096 }

  /** An entry for a frame: address, flag bits below bit 12. */
  function Entry(addr: nat, flags: nat): nat { addr + flags }

  function WithUser(e: nat): nat { if User(e) then e else e + 4 }

  lemma EntryFields(addr: nat, flags: nat)
    requires addr % 4096 == 0 && addr < 0x10_0000_0000_0000 && flags < 4096
    ensures Addr(Entry(addr, flags)) == addr
    ensures Present(Entry(addr, flags)) == Present(flags) && Huge(Entry(addr, flags)) == Huge(flags)
  {
    var k := addr / 4096;
    assert Entry(addr, flags) == 4096 * k + flags;
    AddrField(k, flags);
    HugeField(k, flags);
  }

  lemma AddrField(k: nat, flags: nat)
    requires k < 0x100_0000_0000 && flags < 4096
    ensures (4096 * k + flags) / 4096 % 0x100_0000_0000 * 4096 == 4096 * k
    ensures (4096 * k + flags) % 2 == flags % 2
  {
    Pages(k, flags);
    assert k % 0x100_0000_0000 == k;
  }

  lemma Pages(k: nat, r: nat)
    requires r < 4096
    ensures (4096 * k + r) / 4096 == k && (4096 * k + r) % 4096 == r
  {
  }

  lemma HugeField(k: nat, flags: nat)
    requires flags < 4096
    ensures (4096 * k + flags) / 128 % 2 == flags / 128 % 2
  {
    var q, r := flags / 128, flags % 128;
    assert 4096 * k + flags == 128 * (32 * k + q) + r;
    Blocks128(32 * k + q, r);
    Doubles(16 * k, q);
  }

  lemma Blocks128(k: nat, r: nat)
    requires r < 128
    ensures (128 * k + r) / 128 == k
  {
  }

  lemma Doubles(k: nat, q: nat)
    ensures (2 * k + q) % 2 == q % 2
  {
  }

  lemma WithUserFields(e: nat)
    ensures Present(WithUser(e)) == Present(e) && Huge(WithUser(e)) == Huge(e) && Addr(WithUser(e)) == Addr(e)
  {
    if !User(e) {
      var q, r := e / 8, e % 8;
      assert r < 4 && e + 4 == 8 * q + (r + 4);
      Eighths(q, r);
      Eighths(q, r + 4);
    }
  }

  lemma Eighths(q: nat, r: nat)
    requires r < 8
    ensures (8 * q + r) / 128 == q / 16 && (8 * q + r) / 4096 == q / 512 && (8 * q + r) % 2 == r % 2
  {
  }

  /** Flag words a caller may pass: nothing in the address field. Bits above 51 (such as no-execute) are allowed. */
  ghost predicate FlagsOnly(flags: nat) { flags / 4096 % 0x100_0000_0000 == 0 }

  /** The leaf entry paging_map_page_on writes: (phys & address field) | flags | present. */
  function Leaf(phys: nat, flags: nat): nat { Addr(phys) + (if Present(flags) then flags else flags + 1) }

  lemma LeafFields(phys: nat, flags: nat)
    requires FlagsOnly(flags)
    ensures Present(Leaf(phys, flags)) && Addr(Leaf(phys, flags)) == Addr(phys)
  {
    var f := if Present(flags) then flags else flags + 1;
    var a := phys / 4096 % 0x100_0000_0000;
    PresentSameFrame(flags);
    LeafFrame(a, f);
    HighBits(a, f / 4096);
  }

  lemma PresentSameFrame(flags: nat)
    ensures flags % 2 == 0 ==> (flags + 1) / 4096 == flags / 4096 && (flags + 1) % 2 == 1
  {
    var q, r := flags / 4096, flags % 4096;
    LeafFrame(q, r);
    if r < 4095 {
      LeafFrame(q, r + 1);
    }
  }

  lemma LeafFrame(a: nat, f: nat)
    ensures (a * 4096 + f) / 4096 == a + f / 4096 && (a * 4096 + f) % 2 == f % 2
  {
  }

  lemma HighBits(a: nat, h: nat)
    requires a < 0x100_0000_0000 && h % 0x100_0000_0000 == 0
    ensures (a + h) % 0x100_0000_0000 == a
  {
  }

  /** Index into the table at a level: 3 for the root table, 0 for the last. */
  function Index(v: nat, level: nat): (i: nat)
    ensures i < 512
  {
    if level == 3 then v / 0x80_0000_0000 % 512 else if level == 2 then v / 0x4000_0000 % 512
    else if level == 1 then v / 0x20_0000 % 512 else v / 0x1000 % 512
  }

  /** The walk of paging_get_phys_on from a table at a level. A huge entry at level 1 answers even if it is not
      marked present. */
  ghost function Lookup(t: Tables, a: nat, level: nat, v: nat): Option<nat>
    decreases level
  {
    if a !in t then None
    else
      var e := t[a][Index(v, level)];
      if level == 1 && Huge(e) then Some(Addr(e) + v % 0x20_0000)
      else if !Present(e) then None
      else if level == 0 then Some(Addr(e) + v % 4096)
      else Lookup(t, Addr(e), level - 1, v)
  }

  /** First `n` indices of the walk. */
  function Prefix(v: nat, n: nat): (p: seq<nat>)
    requires n <= 3
    ensures |p| == n
  {
    if n == 0 then [] else Prefix(v, n - 1) + [Index(v, 4 - n)]
  }

  /** An entry that leads to a table one level down. */
  predicate Links(e: nat, level: nat) { level > 0 && Present(e) && !(level == 1 && Huge(e)) }

  /** The tables form a tree: each has one path of indices from the root, and every link goes to the table at the
      extended path. Huge entries are 2 MiB aligned, as the processor demands. */
  ghost predicate IsTree(t: Tables, paths: map<nat, seq<nat>>, root: nat)
  {
    && root in t && t.Keys == paths.Keys && paths[root] == []
    && (forall a :: a in t ==> |paths[a]| <= 3 && a % 4096 == 0 && 0 < a < 0x10_0000_0000_0000)
    && (forall a, i :: a in t && 0 <= i < 512 ==> GoodEntry(t, paths, a, i))
  }

  ghost predicate GoodEntry(t: Tables, paths: map<nat, seq<nat>>, a: nat, i: nat)
    requires t.Keys == paths.Keys && a in t && |paths[a]| <= 3 && i < 512
  {
    var e := t[a][i];
    && (Links(e, 3 - |paths[a]|) ==> Addr(e) in t && paths[Addr(e)] == paths[a] + [i])
    && (|paths[a]| == 2 && Huge(e) ==> Addr(e) % 0x20_0000 == 0)
  }

  /** `v`'s walk uses entry `i` of the table with path `p`. */
  ghost predicate Uses(v: nat, p: seq<nat>, i: nat)
    requires |p| <= 3
  {
    p == Prefix(v, |p|) && Index(v, 3 - |p|) == i
  }

  /** Tables that differ in entry `i` of table `a` at most, and in tables that are new. */
  ghost predicate Differs(t: Tables, u: Tables, a: nat, i: nat)
  {
    && a in t && (forall x :: x in t ==> x in u && (x != a ==> u[x] == t[x]))
    && forall j :: 0 <= j < 512 && j != i ==> u[a][j] == t[a][j]
  }

  /** A walk that does not use the changed entry gives the answer it gave. */
  lemma {:induction false} WalkElsewhere(t: Tables, paths: map<nat, seq<nat>>, root: nat, u: Tables, a: nat, i: nat, x: nat, level: nat, v: nat)
    requires IsTree(t, paths, root) && Differs(t, u, a, i) && i < 512
    requires level <= 3 && x in t && paths[x] == Prefix(v, 3 - level)
    requires |paths[a]| <= 3 && (!Uses(v, paths[a], i) || |paths[a]| < 3 - level)
    ensures Lookup(u, x, level, v) == Lookup(t, x, level, v)
    decreases level
  {
    var n := Index(v, level);
    var e := t[x][n];
    assert u[x][n] == e;
    assert GoodEntry(t, paths, x, n);
    if Links(e, level) {
      WalkElsewhere(t, paths, root, u, a, i, Addr(e), level - 1, v);
    }
  }

  /** Walking `v` down from `x` at `level` comes to `a` at level `m`. */
  ghost predicate Reaches(t: Tables, x: nat, level: nat, v: nat, a: nat, m: nat)
    decreases level
  {
    x in t && (if level <= m then level == m && x == a
               else Links(t[x][Index(v, level)], level) && Reaches(t, Addr(t[x][Index(v, level)]), level - 1, v, a, m))
  }

  /** Then the answer for `v` is the one found from `a` on. */
  lemma {:induction false} ReachesLookup(t: Tables, x: nat, level: nat, v: nat, a: nat, m: nat)
    requires Reaches(t, x, level, v, a, m) && level <= 3
    ensures Lookup(t, x, level, v) == Lookup(t, a, m, v)
    decreases level
  {
    if level > m {
      ReachesLookup(t, Addr(t[x][Index(v, level)]), level - 1, v, a, m);
    }
  }

  /** A walk that comes to `a` still does when entries of `a` or of deeper tables change, and for every address with
      the same indices above. */
  lemma {:induction false} ReachesSame(t: Tables, paths: map<nat, seq<nat>>, root: nat, u: Tables, x: nat, level: nat, v: nat, w: nat, a: nat, m: nat, b: nat, i: nat)
    requires IsTree(t, paths, root) && Reaches(t, x, level, v, a, m) && level <= 3 && |paths[x]| == 3 - level
    requires Differs(t, u, b, i) && |paths[b]| >= 3 - m && i < 512
    requires forall l :: m < l <= level ==> Index(w, l) == Index(v, l)
    ensures Reaches(u, x, level, w, a, m)
    decreases level
  {
    if level > m {
      assert GoodEntry(t, paths, x, Index(v, level));
      assert u[x] == t[x];
      ReachesSame(t, paths, root, u, Addr(t[x][Index(v, level)]), level - 1, v, w, a, m, b, i);
    }
  }

  /** The path of a reached table is the prefix of indices that led there. */
  lemma {:induction false} ReachesPath(t: Tables, paths: map<nat, seq<nat>>, root: nat, x: nat, level: nat, v: nat, a: nat, m: nat)
    requires IsTree(t, paths, root) && Reaches(t, x, level, v, a, m) && level <= 3 && paths[x] == Prefix(v, 3 - level) && m <= level
    ensures a in t && paths[a] == Prefix(v, 3 - m)
    decreases level
  {
    if level > m {
      assert GoodEntry(t, paths, x, Index(v, level));
      ReachesPath(t, paths, root, Addr(t[x][Index(v, level)]), level - 1, v, a, m);
    }
  }

  lemma PrefixSame(v: nat, w: nat, n: nat, l: nat)
    requires n <= 3 && 3 - n < l <= 3 && Prefix(v, n) == Prefix(w, n)
    ensures Index(v, l) == Index(w, l)
  {
    assert Prefix(v, n)[|Prefix(v, n)| - 1] == Prefix(w, n)[|Prefix(w, n)| - 1];
    if l > 4 - n {
      assert Prefix(v, n - 1) == Prefix(v, n)[..n - 1] && Prefix(w, n - 1) == Prefix(w, n)[..n - 1];
      PrefixSame(v, w, n - 1, l);
    }
  }

  /** The effect of changing one entry, seen from the root: for addresses whose walk uses it, what the changed table
      now answers; for all others nothing. */
  lemma EntryChanged(t: Tables, paths: map<nat, seq<nat>>, root: nat, u: Tables, virt: nat, a: nat, m: nat, v: nat)
    requires IsTree(t, paths, root) && m <= 3 && Reaches(t, root, 3, virt, a, m) && Differs(t, u, a, Index(virt, m))
    ensures a in t && paths[a] == Prefix(virt, 3 - m)
    ensures Reaches(u, root, 3, virt, a, m)
    ensures if Uses(v, paths[a], Index(virt, m))
            then Lookup(t, root, 3, v) == Lookup(t, a, m, v) && Lookup(u, root, 3, v) == Lookup(u, a, m, v)
            else Lookup(u, root, 3, v) == Lookup(t, root, 3, v)
  {
    ReachesPath(t, paths, root, root, 3, virt, a, m);
    ReachesSame(t, paths, root, u, root, 3, virt, virt, a, m, a, Index(virt, m));
    if Uses(v, paths[a], Index(virt, m)) {
      forall l | m < l <= 3
        ensures Index(v, l) == Index(virt, l)
      {
        PrefixSame(v, virt, 3 - m, l);
      }
      ReachesSame(t, paths, root, u, root, 3, virt, v, a, m, a, Index(virt, m));
      ReachesSame(t, paths, root, t, root, 3, virt, v, a, m, a, Index(virt, m));
      ReachesLookup(u, root, 3, v, a, m);
      ReachesLookup(t, root, 3, v, a, m);
    } else {
      WalkElsewhere(t, paths, root, u, a, Index(virt, m), root, 3, v);
    }
  }

  /** Every virtual address translates as before. */
  ghost predicate SameTranslations(t: Tables, u: Tables, root: nat)
  {
    forall v: nat :: Lookup(u, root, 3, v) == Lookup(t, root, 3, v)
  }

  const EMPTY_TABLE: Table := Filled(0)

  function Filled(e: nat): Table { seq(512, _ => e) }

  /** A zeroed root table alone is a tree that translates nothing. */
  lemma EmptyTree(root: nat)
    requires root % 4096 == 0 && 0 < root < 0x10_0000_0000_0000
    ensures IsTree(map[root := EMPTY_TABLE], map[root := []], root)
    ensures forall v: nat :: Lookup(map[root := EMPTY_TABLE], root, 3, v) == None
  {
  }

  /** The tables after linking the new table `n` into entry `i` of `a`. */
  function Linked(t: Tables, a: nat, i: nat, n: nat, table: Table, flags: nat): Tables
    requires a in t && i < 512
  {
    t[n := table][a := t[a][i := Entry(n, flags)]]
  }

  lemma ZeroEntry()
    ensures !Present(0) && !Huge(0)
  {
  }

  /** A fresh table whose own entries are good keeps the tree. */
  lemma LinkedTree(t: Tables, paths: map<nat, seq<nat>>, root: nat, a: nat, i: nat, n: nat, table: Table, flags: nat)
    requires IsTree(t, paths, root) && a in t && |paths[a]| < 3 && i < 512
    requires n !in t && n % 4096 == 0 && 0 < n < 0x10_0000_0000_0000 && (flags == 3 || flags == 7)
    requires |paths[a]| < 2 ==> table == EMPTY_TABLE
    ensures IsTree(Linked(t, a, i, n, table, flags), paths[n := paths[a] + [i]], root)
    ensures Differs(t, Linked(t, a, i, n, table, flags), a, i)
  {
    hide Addr, Present, Huge;
    EntryFields(n, flags);
    FlagBits(flags);
    ZeroEntry();
    var u, q := Linked(t, a, i, n, table, flags), paths[n := paths[a] + [i]];
    forall x, j | x in u && 0 <= j < 512
      ensures GoodEntry(u, q, x, j)
    {
      if x != n {
        assert GoodEntry(t, paths, x, j);
      }
    }
  }

  /** An entry that answered nothing, now linked to an empty table, still answers nothing. */
  lemma LinkedEmpty(t: Tables, a: nat, i: nat, n: nat, flags: nat, m: nat, v: nat)
    requires a in t && i < 512 && n !in t && n % 4096 == 0 && n < 0x10_0000_0000_0000 && (flags == 3 || flags == 7)
    requires 0 < m <= 3 && Index(v, m) == i && !Present(t[a][i]) && !(m == 1 && Huge(t[a][i]))
    ensures Lookup(Linked(t, a, i, n, EMPTY_TABLE, flags), a, m, v) == Lookup(t, a, m, v)
  {
    EntryFields(n, flags);
  }

  /** The 512 entries a 2 MiB page is split into. */
  function SplitTable(base: nat, flags: nat): Table
  {
    seq(512, j requires 0 <= j < 512 => Entry(base + j * 4096, flags))
  }

  /** A huge entry replaced by a table of its 512 small pages answers as before. */
  lemma SplitSame(t: Tables, a: nat, i: nat, n: nat, flags: nat, v: nat)
    requires a in t && i < 512 && n !in t && n % 4096 == 0 && n < 0x10_0000_0000_0000 && (flags == 3 || flags == 7)
    requires Index(v, 1) == i && Huge(t[a][i]) && Addr(t[a][i]) % 0x20_0000 == 0
    ensures Lookup(Linked(t, a, i, n, SplitTable(Addr(t[a][i]), flags), flags), a, 1, v) == Lookup(t, a, 1, v)
  {
    hide Addr, Present, Huge, Index, Entry;
    EntryFields(n, flags);
    var base, j := Addr(t[a][i]), Index(v, 0);
    AddrBound(t[a][i]);
    EntryFields(base + j * 4096, flags);
    FlagBits(flags);
    OffsetSplits(v);
    var u := Linked(t, a, i, n, SplitTable(base, flags), flags);
    assert u[n][j] == Entry(base + j * 4096, flags);
    assert Lookup(u, n, 0, v) == Some(base + j * 4096 + v % 4096);
  }

  lemma AddrBound(e: nat)
    ensures Addr(e) < 0x10_0000_0000_0000 && Addr(e) % 4096 == 0
    ensures Addr(e) % 0x20_0000 == 0 ==> Addr(e) + 0x20_0000 <= 0x10_0000_0000_0000
  {
  }

  lemma FlagBits(flags: nat)
    requires flags == 3 || flags == 7
    ensures Present(flags) && !Huge(flags)
  {
  }

  lemma OffsetSplits(v: nat)
    ensures v % 0x20_0000 == Index(v, 0) * 4096 + v % 4096
  {
    var p, r := v / 4096, v % 4096;
    var q, i := p / 512, p % 512;
    assert v == 0x20_0000 * q + (i * 4096 + r);
    LargePages(q, i * 4096 + r);
  }

  lemma LargePages(q: nat, r: nat)
    requires r < 0x20_0000
    ensures (0x20_0000 * q + r) % 0x20_0000 == r
  {
  }

  /** Setting the user bit of an entry changes no translation. */
  lemma UserSame(t: Tables, paths: map<nat, seq<nat>>, root: nat, a: nat, i: nat, m: nat, v: nat)
    requires IsTree(t, paths, root) && a in t && |paths[a]| == 3 - m && 0 < m <= 3 && Index(v, m) == i && paths[a] == Prefix(v, 3 - m)
    ensures var u := t[a := t[a][i := WithUser(t[a][i])]];
            && IsTree(u, paths, root) && Differs(t, u, a, i) && Lookup(u, a, m, v) == Lookup(t, a, m, v)
  {
    var e := t[a][i];
    var u := t[a := t[a][i := WithUser(e)]];
    WithUserFields(e);
    forall x, j | x in u && 0 <= j < 512
      ensures GoodEntry(u, paths, x, j)
    {
      assert GoodEntry(t, paths, x, j);
    }
    if Links(e, m) {
      assert GoodEntry(t, paths, a, i);
      WalkElsewhere(t, paths, root, u, a, i, Addr(e), m - 1, v);
    }
  }

  /** The page number of a 48-bit address. */
  function PageOf(v: nat): nat { v / 4096 % 0x10_0000_0000 }

  lemma UsesIsPage(v: nat, virt: nat)
    ensures Uses(v, Prefix(virt, 3), Index(virt, 0)) <==> PageOf(v) == PageOf(virt)
  {
    hide Index, PageOf, Prefix;
    PageDigits(v);
    PageDigits(virt);
    PrefixOf(v);
    PrefixOf(virt);
    assert Uses(v, Prefix(virt, 3), Index(virt, 0)) <==> forall k :: 0 <= k <= 3 ==> Index(v, k) == Index(virt, k);
    SameDigits(Index(v, 3), Index(v, 2), Index(v, 1), Index(v, 0), Index(virt, 3), Index(virt, 2), Index(virt, 1), Index(virt, 0));
  }

  lemma SameDigits(a: nat, b: nat, c: nat, d: nat, a': nat, b': nat, c': nat, d': nat)
    requires b < 512 && c < 512 && d < 512 && b' < 512 && c' < 512 && d' < 512
    ensures a * 0x800_0000 + b * 0x4_0000 + c * 0x200 + d == a' * 0x800_0000 + b' * 0x4_0000 + c' * 0x200 + d'
       <==> a == a' && b == b' && c == c' && d == d'
  {
  }

  lemma PrefixOf(v: nat)
    ensures Prefix(v, 3) == [Index(v, 3), Index(v, 2), Index(v, 1)]
  {
    hide Index;
    assert Prefix(v, 1) == [Index(v, 3)];
    assert Prefix(v, 2) == [Index(v, 3), Index(v, 2)];
  }

  lemma PageDigits(v: nat)
    ensures PageOf(v) == Index(v, 3) * 0x800_0000 + Index(v, 2) * 0x4_0000 + Index(v, 1) * 0x200 + Index(v, 0)
  {
    var p := v / 4096;
    assert v / 0x20_0000 == p / 512 && v / 0x4000_0000 == p / 512 / 512 && v / 0x80_0000_0000 == p / 512 / 512 / 512;
    LowDigits(p);
    MiddleDigits(p / 512);
    HighDigits(p / 512 / 512);
  }

  lemma LowDigits(p: nat)
    ensures p % 0x10_0000_0000 == p / 512 % 0x800_0000 * 512 + p % 512
  {
  }

  lemma MiddleDigits(p: nat)
    ensures p % 0x800_0000 == p / 512 % 0x4_0000 * 512 + p % 512
  {
  }

  lemma HighDigits(p: nat)
    ensures p % 0x4_0000 == p / 512 % 512 * 512 + p % 512
  {
  }

  /** The leaf write answers with the new frame. */
  lemma LeafSays(t: Tables, paths: map<nat, seq<nat>>, root: nat, a: nat, i: nat, phys: nat, flags: nat, v: nat)
    requires IsTree(t, paths, root) && a in t && |paths[a]| == 3 && Index(v, 0) == i && FlagsOnly(flags)
    ensures var u := t[a := t[a][i := Leaf(phys, flags)]];
            && IsTree(u, paths, root) && Differs(t, u, a, i) && Lookup(u, a, 0, v) == Some(Addr(phys) + v % 4096)
  {
    var u := t[a := t[a][i := Leaf(phys, flags)]];
    LeafFields(phys, flags);
    forall x, j | x in u && 0 <= j < 512
      ensures GoodEntry(u, paths, x, j)
    {
      assert GoodEntry(t, paths, x, j);
    }
  }
}
