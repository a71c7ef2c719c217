/** The entries a page walk meets, with all their bits: what mapping a page does to the permissions of that page and of
    every other. */
module PageWalks {
  import opened Bytes
  import opened Paging

  /** The entries from a table at a level on, down to the one that answers or leads nowhere. */
  ghost function Walk(t: Tables, a: nat, level: nat, v: nat): (w: seq<nat>)
    ensures |w| <= level + 1 && (a in t ==> |w| > 0 && w[0] == t[a][Index(v, level)])
    decreases level
  {
    if a !in t then []
    else
      var e := t[a][Index(v, level)];
      [e] + if Links(e, level) then Walk(t, Addr(e), level - 1, v) else []
  }

  /** The walk ends in a 2 MiB page or in a present small one. */
  predicate Mapped(w: seq<nat>) { (|w| == 3 && Huge(w[2])) || (|w| == 4 && Present(w[3])) }

  /** The last entry decides what an address translates to. */
  lemma {:induction false} WalkAnswers(t: Tables, a: nat, level: nat, v: nat)
    requires level <= 3
    ensures var w := Walk(t, a, level, v); var n := |w|;
            Lookup(t, a, level, v) == if n == level && n > 0 && Huge(w[n - 1]) then Some(Addr(w[n - 1]) + v % 0x20_0000)
                                      else if n == level + 1 && Present(w[n - 1]) then Some(Addr(w[n - 1]) + v % 4096) else None
    decreases level
  {
    hide Addr, Index, Present, Huge;
    if a in t && Links(t[a][Index(v, level)], level) {
      WalkAnswers(t, Addr(t[a][Index(v, level)]), level - 1, v);
    }
  }

  /** A walk that comes to table `a` goes on as the walk from there. */
  lemma {:induction false} WalkVia(t: Tables, x: nat, level: nat, v: nat, a: nat, m: nat)
    requires Reaches(t, x, level, v, a, m) && m <= level <= 3
    ensures |Walk(t, x, level, v)| > level - m
    ensures Walk(t, x, level, v) == Walk(t, x, level, v)[..level - m] + Walk(t, a, m, v)
    decreases level
  {
    hide Walk, Index, Addr, Present, Huge;
    if level > m {
      var e := t[x][Index(v, level)];
      var w := Walk(t, Addr(e), level - 1, v);
      WalkVia(t, Addr(e), level - 1, v, a, m);
      WalkStep(t, x, level, v);
      FirstOf(e, w, level - m);
      assert [e] + (w[..level - 1 - m] + Walk(t, a, m, v)) == [e] + w[..level - 1 - m] + Walk(t, a, m, v);
    } else {
      assert Walk(t, a, m, v)[..0] + Walk(t, a, m, v) == Walk(t, a, m, v);
    }
  }

  /** The entries above a changed table are as before, and the same for every address with the same indices. */
  lemma {:induction false} WalkAbove(t: Tables, paths: map<nat, seq<nat>>, root: nat, u: Tables, x: nat, level: nat, v: nat, w: nat, a: nat, m: nat, b: nat, i: nat)
    requires IsTree(t, paths, root) && Reaches(t, x, level, v, a, m) && m <= level <= 3 && |paths[x]| == 3 - level
    requires Differs(t, u, b, i) && |paths[b]| >= 3 - m && i < 512
    requires forall l :: m < l <= level ==> Index(w, l) == Index(v, l)
    ensures |Walk(u, x, level, w)| >= level - m && |Walk(t, x, level, v)| >= level - m
    ensures Walk(u, x, level, w)[..level - m] == Walk(t, x, level, v)[..level - m]
    decreases level
  {
    hide Walk, Index, Addr, Present, Huge;
    if level > m {
      var e := t[x][Index(v, level)];
      assert GoodEntry(t, paths, x, Index(v, level)) && u[x] == t[x];
      WalkAbove(t, paths, root, u, Addr(e), level - 1, v, w, a, m, b, i);
      WalkStep(t, x, level, v);
      WalkStep(u, x, level, w);
      FirstOf(e, Walk(t, Addr(e), level - 1, v), level - m);
      FirstOf(e, Walk(u, Addr(e), level - 1, w), level - m);
    }
  }

  lemma WalkStep(t: Tables, x: nat, level: nat, v: nat)
    requires x in t && Links(t[x][Index(v, level)], level)
    ensures Walk(t, x, level, v) == [t[x][Index(v, level)]] + Walk(t, Addr(t[x][Index(v, level)]), level - 1, v)
  {
  }

  lemma FirstOf(e: nat, w: seq<nat>, n: nat)
    requires 0 < n <= |w| + 1
    ensures ([e] + w)[..n] == [e] + w[..n - 1]
  {
  }

  /** A walk that does not use the changed entry is as before. */
  lemma {:induction false} WalkBeside(t: Tables, paths: map<nat, seq<nat>>, root: nat, u: Tables, a: nat, i: nat, x: nat, level: nat, v: nat)
    requires IsTree(t, paths, root) && Differs(t, u, a, i) && i < 512
    requires level <= 3 && x in t && paths[x] == Prefix(v, 3 - level)
    requires |paths[a]| <= 3 && (!Uses(v, paths[a], i) || |paths[a]| < 3 - level)
    ensures Walk(u, x, level, v) == Walk(t, x, level, v)
    decreases level
  {
    var e := t[x][Index(v, level)];
    assert u[x][Index(v, level)] == e;
    assert GoodEntry(t, paths, x, Index(v, level));
    if Links(e, level) {
      WalkBeside(t, paths, root, u, a, i, Addr(e), level - 1, v);
    }
  }

  /** The walk of `v` uses the entries that the walk of `virt` does, down to number `k`. */
  predicate Shares(v: nat, virt: nat, k: nat)
    requires k <= 3
  {
    forall l :: 3 - k <= l <= 3 ==> Index(v, l) == Index(virt, l)
  }

  lemma UsesShares(v: nat, virt: nat, k: nat)
    requires k <= 3
    ensures Uses(v, Prefix(virt, k), Index(virt, 3 - k)) <==> Shares(v, virt, k)
  {
    hide Index;
    PrefixesOf(v);
    PrefixesOf(virt);
    assert Shares(v, virt, k) <==> Index(v, 3) == Index(virt, 3) && (k >= 1 ==> Index(v, 2) == Index(virt, 2))
                                   && (k >= 2 ==> Index(v, 1) == Index(virt, 1)) && (k == 3 ==> Index(v, 0) == Index(virt, 0));
  }

  lemma PrefixesOf(v: nat)
    ensures Prefix(v, 0) == [] && Prefix(v, 1) == [Index(v, 3)] && Prefix(v, 2) == [Index(v, 3), Index(v, 2)]
    ensures Prefix(v, 3) == [Index(v, 3), Index(v, 2), Index(v, 1)]
  {
    hide Index;
    PrefixOf(v);
  }

  /** What changing one entry does to all walks: those that use it have the same entries above it. */
  lemma WalkChanged(t: Tables, paths: map<nat, seq<nat>>, root: nat, u: Tables, virt: nat, a: nat, m: nat, v: nat)
    requires IsTree(t, paths, root) && m <= 3 && Reaches(t, root, 3, virt, a, m) && Differs(t, u, a, Index(virt, m))
    ensures if Shares(v, virt, 3 - m)
            then |Walk(t, root, 3, virt)| > 3 - m && var p := Walk(t, root, 3, virt)[..3 - m];
                 Walk(t, root, 3, v) == p + Walk(t, a, m, v) && Walk(u, root, 3, v) == p + Walk(u, a, m, v)
            else Walk(u, root, 3, v) == Walk(t, root, 3, v)
  {
    hide Walk, Index, GoodEntry, Addr, Present, Huge, Links, Prefix, Reaches;
    ReachesPath(t, paths, root, root, 3, virt, a, m);
    UsesShares(v, virt, 3 - m);
    PrefixesOf(v);
    PrefixesOf(virt);
    var i := Index(virt, m);
    if Shares(v, virt, 3 - m) {
      WalkVia(t, root, 3, virt, a, m);
      WalkAbove(t, paths, root, t, root, 3, virt, v, a, m, a, i);
      WalkAbove(t, paths, root, u, root, 3, virt, v, a, m, a, i);
      ReachesSame(t, paths, root, t, root, 3, virt, v, a, m, a, i);
      ReachesSame(t, paths, root, u, root, 3, virt, v, a, m, a, i);
      WalkVia(t, root, 3, v, a, m);
      WalkVia(u, root, 3, v, a, m);
    } else {
      WalkBeside(t, paths, root, u, a, i, root, 3, v);
    }
  }

  /** Walks that share entries meet the same ones. */
  lemma {:induction false} WalkShared(t: Tables, x: nat, level: nat, v: nat, virt: nat, k: nat)
    requires level <= 3 && k < |Walk(t, x, level, virt)| && forall l :: level - k <= l <= level ==> Index(v, l) == Index(virt, l)
    ensures k < |Walk(t, x, level, v)| && Walk(t, x, level, v)[k] == Walk(t, x, level, virt)[k]
    ensures k + 1 < |Walk(t, x, level, virt)| ==> k + 1 < |Walk(t, x, level, v)|
    decreases level
  {
    if k > 0 {
      WalkShared(t, Addr(t[x][Index(v, level)]), level - 1, v, virt, k - 1);
    }
  }

  // Permissions

  /** Everything of an entry but its address. */
  function Bits(e: nat): int { e - Addr(e) }

  /** The bits of an entry made for a table or a small page of a split one: present and writable, and user if asked. */
  function FreshBits(user: bool): nat { if user then 7 else 3 }

  /** The entry with the user bit set if asked. */
  function OrUser(e: nat, user: bool): nat { if user then WithUser(e) else e }

  lemma FreshSays(e: nat, user: bool)
    requires Bits(e) == FreshBits(user)
    ensures Present(e) && !Huge(e) && User(e) == user
  {
    hide Addr, Present, Huge, User;
    var k := e / 4096 % 0x100_0000_0000;
    AddrIs(e);
    assert e == 4096 * k + FreshBits(user);
    FlagBits(FreshBits(user));
    LowBits(k, FreshBits(user));
  }

  lemma AddrIs(e: nat)
    ensures Addr(e) == 4096 * (e / 4096 % 0x100_0000_0000)
  {
  }

  lemma LowBits(k: nat, flags: nat)
    requires flags < 4096 && (flags == 3 || flags == 7)
    ensures Present(4096 * k + flags) && !Huge(4096 * k + flags) && User(4096 * k + flags) == (flags == 7)
  {
    HugeField(k, flags);
    Fourths(k, flags);
  }

  lemma Fourths(k: nat, flags: nat)
    requires flags < 8
    ensures (4096 * k + flags) / 4 == 1024 * k + flags / 4 && (4096 * k + flags) % 2 == flags % 2 && (1024 * k + flags / 4) % 2 == flags / 4 % 2
  {
    Quotient4(1024 * k + flags / 4, flags % 4);
    Doubles(2048 * k, flags);
    Doubles(512 * k, flags / 4);
  }

  lemma Quotient4(q: nat, r: nat)
    requires r < 4
    ensures (4 * q + r) / 4 == q
  {
  }

  lemma EntryBits(n: nat, user: bool)
    requires n % 4096 == 0 && n < 0x10_0000_0000_0000
    ensures Bits(Entry(n, FreshBits(user))) == FreshBits(user) && Links(Entry(n, FreshBits(user)), 1) && Addr(Entry(n, FreshBits(user))) == n
  {
    EntryFields(n, FreshBits(user));
    FlagBits(FreshBits(user));
  }

  lemma OrUserOnce(e: nat, user: bool)
    ensures OrUser(OrUser(e, user), user) == OrUser(e, user)
    ensures User(e) ==> OrUser(e, user) == e
    ensures Present(OrUser(e, user)) == Present(e) && Huge(OrUser(e, user)) == Huge(e) && Addr(OrUser(e, user)) == Addr(e)
    ensures user ==> User(OrUser(e, user))
  {
    WithUserFields(e);
    UserSet(e);
  }

  lemma UserSet(e: nat)
    ensures User(WithUser(e))
  {
    if !User(e) {
      assert (e + 4) / 4 == e / 4 + 1;
    }
  }

  /** From the walk `w` of a mapped address to `x`: the last entry stays and those above it get the user bit at most, where
      the walk of `virt` uses them too; or the 2 MiB page at its end was split, into entries for its small pages. */
  predicate Follows(w: seq<nat>, x: seq<nat>, v: nat, virt: nat, user: bool)
    requires Mapped(w)
  {
    if |x| == |w| then x[|w| - 1] == w[|w| - 1] && Above(w, x, |w| - 1, v, virt, user)
    else
      && |w| == 3 && Shares(v, virt, 2) && |x| == 4 && Above(w, x, 2, v, virt, user)
      && Bits(x[2]) == FreshBits(user) && x[3] == Addr(w[2]) + Index(v, 0) * 4096 + FreshBits(user)
  }

  predicate Above(w: seq<nat>, x: seq<nat>, n: nat, v: nat, virt: nat, user: bool)
    requires n <= |w| && n <= |x| && n <= 3
  {
    forall k :: 0 <= k < n ==> x[k] == w[k] || (Shares(v, virt, k) && x[k] == OrUser(w[k], user))
  }

  lemma FollowsTwice(w: seq<nat>, x: seq<nat>, y: seq<nat>, v: nat, virt: nat, user: bool)
    requires Mapped(w) && Follows(w, x, v, virt, user) && Mapped(x) && Follows(x, y, v, virt, user)
    ensures Follows(w, y, v, virt, user)
  {
    hide Index, Shares, WithUser, OrUser, Bits, User, Huge, Present, Addr;
    forall k | 0 <= k < |w| - 1
      ensures OrUser(OrUser(w[k], user), user) == OrUser(w[k], user)
    {
      OrUserOnce(w[k], user);
    }
    if |x| == 4 && Bits(x[2]) == FreshBits(user) {
      FreshSays(x[2], user);
      OrUserOnce(x[2], user);
      FreshStays(x[2], user);
    }
  }

  lemma FreshStays(e: nat, user: bool)
    requires Bits(e) == FreshBits(user)
    ensures OrUser(e, user) == e
  {
    FreshSays(e, user);
  }

  ghost predicate WalksFollow(t: Tables, u: Tables, root: nat, virt: nat, user: bool)
  {
    forall v: nat :: Mapped(Walk(t, root, 3, v)) ==> Follows(Walk(t, root, 3, v), Walk(u, root, 3, v), v, virt, user)
  }

  lemma MappedSame(t: Tables, u: Tables, root: nat, v: nat)
    requires Lookup(u, root, 3, v) == Lookup(t, root, 3, v)
    ensures Mapped(Walk(t, root, 3, v)) <==> Mapped(Walk(u, root, 3, v))
  {
    hide Walk, Addr, Huge, Present;
    WalkAnswers(t, root, 3, v);
    WalkAnswers(u, root, 3, v);
  }

  lemma FollowTwice(t: Tables, u: Tables, w: Tables, root: nat, virt: nat, user: bool)
    requires WalksFollow(t, u, root, virt, user) && WalksFollow(u, w, root, virt, user) && SameTranslations(t, u, root)
    ensures WalksFollow(t, w, root, virt, user)
  {
    hide Walk, Mapped, Follows, Lookup;
    forall v: nat | Mapped(Walk(t, root, 3, v))
      ensures Follows(Walk(t, root, 3, v), Walk(w, root, 3, v), v, virt, user)
    {
      MappedSame(t, u, root, v);
      FollowsTwice(Walk(t, root, 3, v), Walk(u, root, 3, v), Walk(w, root, 3, v), v, virt, user);
    }
  }

  lemma FollowSelf(t: Tables, root: nat, virt: nat, user: bool)
    ensures WalksFollow(t, t, root, virt, user)
  {
    hide Walk, Shares, Bits, OrUser;
  }

  // The steps

  /** The walk with a missing table put in at number `n`, or as it was. */
  predicate Created(x: seq<nat>, y: seq<nat>, n: nat, user: bool)
  {
    && n < |x| && n < 3
    && if Links(x[n], 3 - n) then y == x else |y| == n + 2 && y[..n] == x[..n] && Bits(y[n]) == FreshBits(user) && y[n + 1] == 0
  }

  /** The entries above table `a` on the walk of `virt`, which is at level `m`. */
  ghost function Front(t: Tables, root: nat, virt: nat, m: nat): seq<nat>
    requires m <= 3 && |Walk(t, root, 3, virt)| >= 3 - m
  {
    Walk(t, root, 3, virt)[..3 - m]
  }

  /** One changed entry: it is enough to look at the walks from its table on. */
  lemma FollowIfLocal(t: Tables, paths: map<nat, seq<nat>>, root: nat, u: Tables, virt: nat, a: nat, m: nat, user: bool)
    requires IsTree(t, paths, root) && m <= 3 && Reaches(t, root, 3, virt, a, m) && Differs(t, u, a, Index(virt, m))
    requires |Walk(t, root, 3, virt)| >= 3 - m
    requires forall v: nat {:trigger Walk(u, a, m, v)} :: Shares(v, virt, 3 - m) && Mapped(Front(t, root, virt, m) + Walk(t, a, m, v)) ==>
               Follows(Front(t, root, virt, m) + Walk(t, a, m, v), Front(t, root, virt, m) + Walk(u, a, m, v), v, virt, user)
    ensures WalksFollow(t, u, root, virt, user)
    ensures Walk(t, root, 3, virt) == Front(t, root, virt, m) + Walk(t, a, m, virt)
    ensures Walk(u, root, 3, virt) == Front(t, root, virt, m) + Walk(u, a, m, virt)
  {
    hide Walk, Reaches, Follows, Mapped, IsTree, Differs, Index;
    forall v: nat | Mapped(Walk(t, root, 3, v))
      ensures Follows(Walk(t, root, 3, v), Walk(u, root, 3, v), v, virt, user)
    {
      WalkChanged(t, paths, root, u, virt, a, m, v);
      if !Shares(v, virt, 3 - m) {
        FollowsSelf(Walk(t, root, 3, v), v, virt, user);
      }
    }
    WalkChanged(t, paths, root, u, virt, a, m, virt);
  }

  lemma FollowsSelf(w: seq<nat>, v: nat, virt: nat, user: bool)
    requires Mapped(w)
    ensures Follows(w, w, v, virt, user)
  {
  }

  lemma CreateWalks(t: Tables, paths: map<nat, seq<nat>>, root: nat, virt: nat, a: nat, m: nat, n: nat, user: bool)
    requires IsTree(t, paths, root) && 0 < m <= 3 && Reaches(t, root, 3, virt, a, m) && a in t && paths[a] == Prefix(virt, 3 - m)
    requires !Present(t[a][Index(virt, m)]) && !(m == 1 && Huge(t[a][Index(virt, m)]))
    requires n !in t && n % 4096 == 0 && 0 < n < 0x10_0000_0000_0000
    ensures var u := Linked(t, a, Index(virt, m), n, EMPTY_TABLE, FreshBits(user));
            WalksFollow(t, u, root, virt, user) && Created(Walk(t, root, 3, virt), Walk(u, root, 3, virt), 3 - m, user)
  {
    hide Walk, Reaches, Linked, EMPTY_TABLE, Follows, Bits, Links, WalksFollow, Present, Huge, IsTree, Differs;
    var i := Index(virt, m);
    var u := Linked(t, a, i, n, EMPTY_TABLE, FreshBits(user));
    LinkedTree(t, paths, root, a, i, n, EMPTY_TABLE, FreshBits(user));
    WalkVia(t, root, 3, virt, a, m);
    forall v: nat | Shares(v, virt, 3 - m)
      ensures Walk(t, a, m, v) == [t[a][i]] && Walk(u, a, m, v) == [Entry(n, FreshBits(user)), 0]
    {
      CreatedLocal(t, a, i, m, n, user, v);
    }
    assert !Mapped(Front(t, root, virt, m) + [t[a][i]]);
    FollowIfLocal(t, paths, root, u, virt, a, m, user);
    EntryBits(n, user);
    NoLink(t[a][i], m);
    assert Shares(virt, virt, 3 - m);
  }

  lemma NoLink(e: nat, m: nat)
    requires !Present(e)
    ensures !Links(e, m)
  {
  }

  lemma CreatedLocal(t: Tables, a: nat, i: nat, m: nat, n: nat, user: bool, v: nat)
    requires a in t && i < 512 && 0 < m <= 3 && !Present(t[a][i]) && Index(v, m) == i
    requires n !in t && n % 4096 == 0 && 0 < n < 0x10_0000_0000_0000
    ensures var u := Linked(t, a, i, n, EMPTY_TABLE, FreshBits(user));
            Walk(t, a, m, v) == [t[a][i]] && Walk(u, a, m, v) == [Entry(n, FreshBits(user)), 0]
  {
    hide Addr, Index, Entry, Present, Huge;
    EntryFields(n, FreshBits(user));
    FlagBits(FreshBits(user));
    ZeroEntry();
  }

  /** The walk with the user bit set in entry `n`. */
  predicate UserMarked(x: seq<nat>, y: seq<nat>, n: nat) { n < |x| && y == x[n := WithUser(x[n])] }

  lemma UserWalks(t: Tables, paths: map<nat, seq<nat>>, root: nat, virt: nat, a: nat, m: nat)
    requires IsTree(t, paths, root) && 0 < m <= 3 && Reaches(t, root, 3, virt, a, m) && a in t && paths[a] == Prefix(virt, 3 - m)
    requires !(m == 1 && Huge(t[a][Index(virt, m)]))
    ensures var i := Index(virt, m); var u := t[a := t[a][i := WithUser(t[a][i])]];
            WalksFollow(t, u, root, virt, true) && UserMarked(Walk(t, root, 3, virt), Walk(u, root, 3, virt), 3 - m)
  {
    hide Walk, Reaches, Links, WalksFollow, IsTree, Present, Huge, WithUser, Mapped;
    var i := Index(virt, m);
    var e := t[a][i];
    var u := t[a := t[a][i := WithUser(e)]];
    WalkVia(t, root, 3, virt, a, m);
    var p := Front(t, root, virt, m);
    forall v: nat | Shares(v, virt, 3 - m)
      ensures Walk(t, a, m, v) != [] && Walk(t, a, m, v)[0] == e && Walk(u, a, m, v) == [WithUser(e)] + Walk(t, a, m, v)[1..]
      ensures Mapped(p + Walk(t, a, m, v)) ==> |Walk(t, a, m, v)| > 1
    {
      MarkedLocal(t, paths, root, virt, a, m, v);
      MappedDeeper(p, e, Walk(t, a, m, v), m);
    }
    assert Shares(virt, virt, 3 - m);
    FollowIfLocal(t, paths, root, u, virt, a, m, true);
  }

  lemma MappedDeeper(p: seq<nat>, e: nat, w: seq<nat>, m: nat)
    requires 0 < m <= 3 && |p| == 3 - m && w != [] && w[0] == e && !(m == 1 && Huge(e))
    ensures Mapped(p + w) ==> |w| > 1
  {
    hide Huge, Present;
  }

  lemma MarkedLocal(t: Tables, paths: map<nat, seq<nat>>, root: nat, virt: nat, a: nat, m: nat, v: nat)
    requires IsTree(t, paths, root) && 0 < m <= 3 && a in t && paths[a] == Prefix(virt, 3 - m) && Shares(v, virt, 3 - m)
    ensures var i := Index(virt, m); var u := t[a := t[a][i := WithUser(t[a][i])]];
            Walk(t, a, m, v) != [] && Walk(t, a, m, v)[0] == t[a][i] && Walk(u, a, m, v) == [WithUser(t[a][i])] + Walk(t, a, m, v)[1..]
  {
    hide Reaches, Present, Huge, WithUser, Addr, Index;
    var i := Index(virt, m);
    var e := t[a][i];
    var u := t[a := t[a][i := WithUser(e)]];
    WithUserFields(e);
    UsesShares(v, virt, 3 - m);
    if Links(e, m) {
      assert GoodEntry(t, paths, a, i);
      WalkBeside(t, paths, root, u, a, i, Addr(e), m - 1, v);
    }
  }

  /** The walk of `virt` after a split of the 2 MiB page at its end, if there was one. */
  predicate Split(x: seq<nat>, y: seq<nat>, user: bool)
  {
    |x| > 2 && if Huge(x[2]) then |y| == 4 && y[..2] == x[..2] && Bits(y[2]) == FreshBits(user) else y == x
  }

  lemma SplitWalks(t: Tables, paths: map<nat, seq<nat>>, root: nat, virt: nat, a: nat, n: nat, user: bool)
    requires IsTree(t, paths, root) && Reaches(t, root, 3, virt, a, 1) && a in t && paths[a] == Prefix(virt, 2) && Huge(t[a][Index(virt, 1)])
    requires n !in t && n % 4096 == 0 && 0 < n < 0x10_0000_0000_0000
    ensures var i := Index(virt, 1); var u := Linked(t, a, i, n, SplitTable(Addr(t[a][i]), FreshBits(user)), FreshBits(user));
            WalksFollow(t, u, root, virt, user) && Split(Walk(t, root, 3, virt), Walk(u, root, 3, virt), user)
  {
    hide Walk, Reaches, Linked, Bits, Links, WalksFollow, Present, Huge, IsTree, Addr, SplitTable, Index, Entry;
    var i := Index(virt, 1);
    var e := t[a][i];
    var u := Linked(t, a, i, n, SplitTable(Addr(e), FreshBits(user)), FreshBits(user));
    LinkedTree(t, paths, root, a, i, n, SplitTable(Addr(e), FreshBits(user)), FreshBits(user));
    WalkVia(t, root, 3, virt, a, 1);
    EntryBits(n, user);
    forall v: nat | Shares(v, virt, 2)
      ensures Walk(t, a, 1, v) == [e]
      ensures Walk(u, a, 1, v) == [Entry(n, FreshBits(user)), Addr(e) + Index(v, 0) * 4096 + FreshBits(user)]
    {
      SplitLocal(t, a, i, n, user, v);
    }
    assert Shares(virt, virt, 2);
    FollowIfLocal(t, paths, root, u, virt, a, 1, user);
  }

  lemma SplitLocal(t: Tables, a: nat, i: nat, n: nat, user: bool, v: nat)
    requires a in t && i < 512 && Huge(t[a][i]) && Index(v, 1) == i
    requires n !in t && n % 4096 == 0 && 0 < n < 0x10_0000_0000_0000
    ensures var u := Linked(t, a, i, n, SplitTable(Addr(t[a][i]), FreshBits(user)), FreshBits(user));
            Walk(t, a, 1, v) == [t[a][i]]
            && Walk(u, a, 1, v) == [Entry(n, FreshBits(user)), Addr(t[a][i]) + Index(v, 0) * 4096 + FreshBits(user)]
  {
    hide Addr, Index, Present, Huge;
    EntryFields(n, FreshBits(user));
    FlagBits(FreshBits(user));
  }

  // The whole way down

  /** From the walk `x` of `virt` to `y`: entry `n` leads on, with the user bit if asked, or one made for it does. */
  predicate Advanced(x: seq<nat>, y: seq<nat>, n: nat, user: bool)
  {
    && n < |x| && n < 3 && n + 1 < |y| && y[..n] == x[..n]
    && if Links(x[n], 3 - n) then y[n] == OrUser(x[n], user) && y[n + 1..] == x[n + 1..]
       else Bits(y[n]) == FreshBits(user) && (n < 2 ==> y[n + 1] == 0)
  }

  lemma CreatedThenMarked(x: seq<nat>, y: seq<nat>, z: seq<nat>, n: nat, user: bool)
    requires Created(x, y, n, user) && (if user then UserMarked(y, z, n) else z == y) && n + 1 < |z|
    ensures Advanced(x, z, n, user)
  {
    hide Links, Bits, WithUser;
    if !Links(x[n], 3 - n) {
      FreshStays(y[n], user);
    }
  }

  lemma SplitThenCreated(x: seq<nat>, y: seq<nat>, z: seq<nat>, last: seq<nat>, user: bool)
    requires Split(x, y, user) && (if user then UserMarked(y, z, 2) else z == y) && Created(z, last, 2, user) && 3 < |last|
    ensures Advanced(x, last, 2, user)
  {
    hide Bits, WithUser, Huge, Present, Addr;
    OrUserOnce(y[2], user);
    if Huge(x[2]) {
      FreshStays(y[2], user);
      FreshSays(y[2], user);
    }
  }

  /** The first `n` entries of the walk of `virt` lead on: those that did before have the user bit if asked, the others were
      made. What comes behind them is as it was, or empty. */
  predicate Opened(w: seq<nat>, x: seq<nat>, n: nat, user: bool)
  {
    && n < |x| && n <= 3
    && (forall k :: 0 <= k < n ==> if k + 1 < |w| then x[k] == OrUser(w[k], user) else Bits(x[k]) == FreshBits(user))
    && (n < |w| ==> x[n..] == w[n..]) && (|w| <= n < 3 ==> x[n] == 0)
  }

  lemma OpenedStart(w: seq<nat>, user: bool)
    requires w != []
    ensures Opened(w, w, 0, user)
  {
    hide Bits, OrUser;
  }

  lemma OpenedNext(w: seq<nat>, x: seq<nat>, y: seq<nat>, n: nat, user: bool)
    requires n < 3 && Opened(w, x, n, user) && Advanced(x, y, n, user)
    requires n < |w| ==> (Links(w[n], 3 - n) <==> n + 1 < |w|)
    ensures Opened(w, y, n + 1, user)
  {
    hide Bits, WithUser, OrUser, Links;
    NoLink(0, 3 - n);
    if n < |w| {
      assert x[n] == x[n..][0] == w[n..][0] == w[n];
      assert x[n + 1..] == x[n..][1..] == w[n..][1..] == w[n + 1..];
    } else {
      assert x[n] == 0;
    }
    forall k | 0 <= k < n
      ensures y[k] == x[k]
    {
      assert y[k] == y[..n][k] == x[..n][k];
    }
  }

  /** In a tree an entry leads on exactly if there is one behind it. */
  lemma {:induction false} LinksOn(t: Tables, paths: map<nat, seq<nat>>, root: nat, x: nat, level: nat, v: nat, n: nat)
    requires IsTree(t, paths, root) && level <= 3 && x in t && |paths[x]| == 3 - level && n < |Walk(t, x, level, v)|
    ensures n <= level && (Links(Walk(t, x, level, v)[n], level - n) <==> n + 1 < |Walk(t, x, level, v)|)
    decreases level
  {
    var e := t[x][Index(v, level)];
    assert GoodEntry(t, paths, x, Index(v, level));
    if n > 0 {
      LinksOn(t, paths, root, Addr(e), level - 1, v, n - 1);
    }
  }

  /** A changed entry of a last table: that page's walk ends in it, and no other page's walk changes. */
  lemma LeafWalks(t: Tables, paths: map<nat, seq<nat>>, root: nat, virt: nat, a: nat, e: nat, v: nat)
    requires IsTree(t, paths, root) && Reaches(t, root, 3, virt, a, 0) && a in t
    ensures var u := t[a := t[a][Index(virt, 0) := e]]; var w := Walk(t, root, 3, virt);
            |w| == 4 && Walk(u, root, 3, virt) == w[3 := e] && (PageOf(v) != PageOf(virt) ==> Walk(u, root, 3, v) == Walk(t, root, 3, v))
  {
    hide Reaches, Index, PageOf, IsTree;
    var i := Index(virt, 0);
    var u := t[a := t[a][i := e]];
    WalkVia(t, root, 3, virt, a, 0);
    WalkChanged(t, paths, root, u, virt, a, 0, virt);
    WalkChanged(t, paths, root, u, virt, a, 0, v);
    UsesIsPage(v, virt);
    UsesShares(v, virt, 3);
    assert Shares(virt, virt, 3);
  }

  /** The page of `virt` is mapped with the bits the caller gave and the present bit, and every entry above it leads on with
      its own bits, and the user bit if the caller gave that; entries that led nowhere were made present and writable. */
  ghost predicate Granted(t: Tables, u: Tables, root: nat, virt: nat, phys: nat, flags: nat)
  {
    var w, x := Walk(t, root, 3, virt), Walk(u, root, 3, virt);
    && |x| == 4 && Addr(x[3]) == Addr(phys) && Bits(x[3]) == (if flags % 2 == 1 then flags else flags + 1)
    && forall k :: 0 <= k < 3 ==> if k + 1 < |w| then x[k] == OrUser(w[k], User(flags)) else Bits(x[k]) == FreshBits(User(flags))
  }

  /** Every other mapped page keeps its last entry with all its bits, or has one made for it, present and writable, if it was
      part of the 2 MiB page around `virt`; above it entries get the user bit where `virt` uses them too, if asked. */
  ghost predicate OthersKeep(t: Tables, u: Tables, root: nat, virt: nat, user: bool)
  {
    forall v: nat :: PageOf(v) != PageOf(virt) && Mapped(Walk(t, root, 3, v)) ==>
      Kept(Walk(t, root, 3, v), Walk(u, root, 3, v), v, virt, user)
  }

  predicate Kept(w: seq<nat>, x: seq<nat>, v: nat, virt: nat, user: bool)
    requires Mapped(w)
  {
    var n, split := |w| - 1, |w| == 3 && Shares(v, virt, 2);
    && |x| == (if split then 4 else |w|)
    && (forall k :: 0 <= k < n ==> x[k] == if Shares(v, virt, k) then OrUser(w[k], user) else w[k])
    && if split then Bits(x[2]) == FreshBits(user) && x[3] == Addr(w[2]) + Index(v, 0) * 4096 + FreshBits(user) else x[n] == w[n]
  }

  lemma KeptExactly(t: Tables, u: Tables, root: nat, virt: nat, v: nat, user: bool)
    requires Mapped(Walk(t, root, 3, v)) && Follows(Walk(t, root, 3, v), Walk(u, root, 3, v), v, virt, user)
    requires |Walk(u, root, 3, virt)| == 4 && (user ==> forall k :: 0 <= k < 3 ==> User(Walk(u, root, 3, virt)[k]))
    ensures Kept(Walk(t, root, 3, v), Walk(u, root, 3, v), v, virt, user)
  {
    hide Walk, Index, Bits, WithUser, User, Huge, Present, Addr;
    var w, x := Walk(t, root, 3, v), Walk(u, root, 3, v);
    if Shares(v, virt, 2) {
      WalkShared(u, root, 3, v, virt, 2);
    }
    forall k | 0 <= k < |w| - 1
      ensures x[k] == if Shares(v, virt, k) then OrUser(w[k], user) else w[k]
    {
      if Shares(v, virt, k) {
        WalkShared(u, root, 3, v, virt, k);
        OrUserOnce(w[k], user);
      }
    }
  }

  lemma OpenedUser(w: seq<nat>, x: seq<nat>, n: nat)
    requires Opened(w, x, n, true)
    ensures forall k :: 0 <= k < n ==> User(x[k])
  {
    hide Bits, User, WithUser, OrUser;
    forall k | 0 <= k < n
      ensures User(x[k])
    {
      if k + 1 < |w| {
        OrUserOnce(w[k], true);
      } else {
        FreshSays(x[k], true);
      }
    }
  }

  lemma LeafBits(phys: nat, flags: nat)
    requires FlagsOnly(flags)
    ensures Addr(Leaf(phys, flags)) == Addr(phys) && Bits(Leaf(phys, flags)) == if flags % 2 == 1 then flags else flags + 1
  {
    hide Addr;
    LeafFields(phys, flags);
  }

  /** With the way down opened, the leaf grants what was asked for and every other page keeps what it had. */
  lemma LeafGrants(t: Tables, s: Tables, paths: map<nat, seq<nat>>, root: nat, virt: nat, a: nat, phys: nat, flags: nat)
    requires IsTree(s, paths, root) && Reaches(s, root, 3, virt, a, 0) && a in s && FlagsOnly(flags)
    requires WalksFollow(t, s, root, virt, User(flags)) && Opened(Walk(t, root, 3, virt), Walk(s, root, 3, virt), 3, User(flags))
    ensures var u := s[a := s[a][Index(virt, 0) := Leaf(phys, flags)]];
            Granted(t, u, root, virt, phys, flags) && OthersKeep(t, u, root, virt, User(flags))
  {
    hide Walk, Reaches, Leaf, PageOf, Index, Addr, IsTree, Bits, User, Follows, Kept, Mapped;
    var user := User(flags);
    var u := s[a := s[a][Index(virt, 0) := Leaf(phys, flags)]];
    LeafWalks(s, paths, root, virt, a, Leaf(phys, flags), virt);
    LeafBits(phys, flags);
    if user {
      OpenedUser(Walk(t, root, 3, virt), Walk(s, root, 3, virt), 3);
    }
    forall v: nat | PageOf(v) != PageOf(virt) && Mapped(Walk(t, root, 3, v))
      ensures Kept(Walk(t, root, 3, v), Walk(u, root, 3, v), v, virt, user)
    {
      LeafWalks(s, paths, root, virt, a, Leaf(phys, flags), v);
      KeptExactly(t, s, root, virt, v, user);
    }
  }

  /** Where user access was asked for, all four entries allow it. */
  lemma GrantedUser(t: Tables, u: Tables, root: nat, virt: nat, phys: nat, flags: nat)
    requires Granted(t, u, root, virt, phys, flags)
    ensures User(flags) ==> forall k :: 0 <= k < 4 ==> Walk(u, root, 3, virt)[k] / 4 % 2 == 1
    ensures flags / 2 % 2 == Walk(u, root, 3, virt)[3] / 2 % 2 && Walk(u, root, 3, virt)[3] % 2 == 1
  {
    hide Walk, Bits, WithUser, User, Addr;
    var w, x := Walk(t, root, 3, virt), Walk(u, root, 3, virt);
    UserBits(x[3], flags);
    if User(flags) {
      forall k | 0 <= k < 3
        ensures x[k] / 4 % 2 == 1
      {
        if k + 1 < |w| {
          OrUserOnce(w[k], true);
        } else {
          FreshSays(x[k], true);
        }
        UserIs(x[k]);
      }
      UserIs(flags);
    }
  }

  lemma UserIs(e: nat)
    ensures User(e) <==> e / 4 % 2 == 1
  {
  }

  lemma UserBits(e: nat, flags: nat)
    requires Bits(e) == if flags % 2 == 1 then flags else flags + 1
    ensures e / 4 % 2 == flags / 4 % 2 && e / 2 % 2 == flags / 2 % 2 && e % 2 == 1
  {
    hide Addr;
    AddrIs(e);
    var k, f := e / 4096 % 0x100_0000_0000, if flags % 2 == 1 then flags else flags + 1;
    assert e == 4096 * k + f;
    NextOdd(flags);
    HighAndLow(k, f);
  }

  lemma NextOdd(flags: nat)
    ensures flags % 2 == 0 ==> (flags + 1) / 4 == flags / 4 && (flags + 1) / 2 == flags / 2 && (flags + 1) % 2 == 1
  {
    var q, r := flags / 4, flags % 4;
    if flags % 2 == 0 {
      assert flags + 1 == 4 * q + (r + 1) && flags + 1 == 2 * (flags / 2) + 1;
      Quotient4(q, r + 1);
    }
  }

  lemma HighAndLow(k: nat, f: nat)
    ensures (4096 * k + f) / 4 == 1024 * k + f / 4 && (4096 * k + f) / 2 == 2048 * k + f / 2 && (4096 * k + f) % 2 == f % 2
    ensures (1024 * k + f / 4) % 2 == f / 4 % 2 && (2048 * k + f / 2) % 2 == f / 2 % 2
  {
    Quotient4(1024 * k + f / 4, f % 4);
    Quotient2(2048 * k + f / 2, f % 2);
    Doubles(2048 * k, f);
    Doubles(512 * k, f / 4);
    Doubles(1024 * k, f / 2);
  }

  lemma Quotient2(q: nat, r: nat)
    requires r < 2
    ensures (2 * q + r) / 2 == q
  {
  }

  /** A read-only 2 MiB page, 81 and its address: split, each of its small pages is writable, 3 and its address. */
  lemma SplitLoosens(j: nat)
    requires j < 512
    ensures Huge(0x20_0081) && Present(0x20_0081) && 0x20_0081 / 2 % 2 == 0
    ensures SplitTable(Addr(0x20_0081), FreshBits(false))[j] == 0x20_0003 + j * 4096
    ensures SplitTable(Addr(0x20_0081), FreshBits(false))[j] / 2 % 2 == 1
  {
    assert Addr(0x20_0081) == 0x20_0000;
    HighAndLow(512 + j, 3);
  }
}
