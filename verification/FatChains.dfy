/** Cluster chains in a file allocation table, and what allocating, linking and freeing do to them. */
module FatChains {
  import opened FatTable

  type Table = seq<nat>

  /** `ch` lists the clusters of a chain from its first cluster to the one that holds the end mark. */
  ghost predicate IsChain(fat: Table, ch: seq<nat>)
  {
    && |ch| > 0
    && (forall i :: 0 <= i < |ch| ==> 2 <= ch[i] < |fat|)
    && (forall i :: 0 <= i < |ch| - 1 ==> fat[ch[i]] == ch[i + 1])
    && fat[ch[|ch| - 1]] >= EOC
  }

  ghost predicate Disjoint(a: seq<nat>, b: seq<nat>)
  {
    forall x :: x in a ==> x !in b
  }

  /** The live chains, by first cluster: real chains of the table, pairwise without a common cluster. */
  ghost predicate WellFormed(fat: Table, chains: map<nat, seq<nat>>)
  {
    && |fat| <= EOC
    && (forall h :: h in chains ==> IsChain(fat, chains[h]) && chains[h][0] == h)
    && (forall h, k :: h in chains && k in chains && h != k ==> Disjoint(chains[h], chains[k]))
  }

  /** A chain that ends is acyclic: two equal positions would make two equal tails, and only one of them ends. */
  lemma {:induction false} ChainAcyclic(fat: Table, ch: seq<nat>, i: nat, j: nat)
    requires |fat| <= EOC && IsChain(fat, ch) && i < j < |ch|
    ensures ch[i] != ch[j]
    decreases |ch| - j
  {
    assert fat[ch[i]] == ch[i + 1];
    if j + 1 < |ch| {
      ChainAcyclic(fat, ch, i + 1, j + 1);
      assert fat[ch[j]] == ch[j + 1];
    }
  }

  /** A first cluster has one chain. */
  lemma {:induction false} ChainUnique(fat: Table, a: seq<nat>, b: seq<nat>)
    requires |fat| <= EOC && IsChain(fat, a) && IsChain(fat, b) && a[0] == b[0]
    ensures a == b
    decreases |a|
  {
    assert |a| > 1 ==> fat[a[0]] == a[1];
    assert |b| > 1 ==> fat[b[0]] == b[1];
    if |a| > 1 {
      ChainUnique(fat, a[1..], b[1..]);
      assert a == [a[0]] + a[1..] && b == [b[0]] + b[1..];
    }
  }

  /** No cluster of a chain has a zero entry, so the allocator never picks one. */
  lemma ChainInUse(fat: Table, ch: seq<nat>, c: nat)
    requires IsChain(fat, ch) && c in ch
    ensures c < |fat| && fat[c] != 0
  {
    var i :| 0 <= i < |ch| && ch[i] == c;
    assert i < |ch| - 1 ==> fat[ch[i]] == ch[i + 1];
  }

  /** A chain depends on the entries of its own clusters only. */
  lemma ChainFrame(fat: Table, fat': Table, ch: seq<nat>)
    requires IsChain(fat, ch) && |fat'| == |fat|
    requires forall x :: x in ch && x < |fat| ==> fat'[x] == fat[x]
    ensures IsChain(fat', ch)
  {
    forall i | 0 <= i < |ch|
      ensures fat'[ch[i]] == fat[ch[i]]
    {
      assert ch[i] in ch;
    }
  }

  /** Allocation: a zero entry becomes an end mark. The live chains stay, and the new cluster is in none. */
  lemma AllocKeepsChains(fat: Table, chains: map<nat, seq<nat>>, c: nat)
    requires WellFormed(fat, chains) && 2 <= c < |fat| && fat[c] == 0
    ensures WellFormed(fat[c := EOC], chains)
    ensures c !in chains
    ensures forall h :: h in chains ==> c !in chains[h]
    ensures WellFormed(fat[c := EOC], chains[c := [c]])
  {
    var fat' := fat[c := EOC];
    forall h | h in chains
      ensures c !in chains[h] && IsChain(fat', chains[h]) && h != c
    {
      if c in chains[h] {
        ChainInUse(fat, chains[h], c);
      }
      assert chains[h][0] in chains[h];
      ChainFrame(fat, fat', chains[h]);
    }
    assert IsChain(fat', [c]);
  }

  /** Linking a fresh one-cluster chain behind the last cluster of a live chain makes that chain one longer. */
  lemma LinkKeepsChains(fat: Table, chains: map<nat, seq<nat>>, h: nat, c: nat)
    requires WellFormed(fat, chains) && h in chains
    requires 2 <= c < |fat| && fat[c] >= EOC
    requires forall k :: k in chains ==> c !in chains[k]
    ensures var last := chains[h][|chains[h]| - 1];
            last < |fat| && WellFormed(fat[last := c], chains[h := chains[h] + [c]])
  {
    var ch := chains[h];
    var last := ch[|ch| - 1];
    var fat' := fat[last := c];
    assert last in ch;
    forall i | 0 <= i < |ch| - 1
      ensures fat'[ch[i]] == fat[ch[i]]
    {
      ChainAcyclic(fat, ch, i, |ch| - 1);
    }
    assert IsChain(fat', ch + [c]);
    forall k | k in chains && k != h
      ensures IsChain(fat', chains[k]) && Disjoint(chains[k], ch + [c])
    {
      assert Disjoint(ch, chains[k]);
      ChainFrame(fat, fat', chains[k]);
    }
  }

  /** From (fat0, ch0) to (fat, ch): the chain only got longer, by clusters that were free, and no entry outside it
      changed. What the chain gained the free clusters lost. */
  ghost predicate Grew(fat0: Table, ch0: seq<nat>, fat: Table, ch: seq<nat>)
  {
    && |fat| == |fat0| && ch0 <= ch
    && (forall x :: 0 <= x < |fat| && x !in ch ==> fat[x] == fat0[x])
    && (forall i :: |ch0| <= i < |ch| ==> ch[i] < |fat0| && fat0[ch[i]] == 0)
    && FreeClusters(fat) + |ch| == FreeClusters(fat0) + |ch0|
  }

  /** The entry of a chain's cluster names the next one, or is an end mark exactly at the last. */
  lemma FollowOrEnd(fat: Table, chains: map<nat, seq<nat>>, h: nat, i: nat)
    requires WellFormed(fat, chains) && h in chains && i < |chains[h]|
    ensures var ch := chains[h];
            && ch[i] < |fat|
            && (i + 1 < |ch| ==> fat[ch[i]] == ch[i + 1] && 2 <= ch[i + 1] < |fat| <= EOC)
            && (i + 1 == |ch| ==> fat[ch[i]] >= EOC)
  {
    assert IsChain(fat, chains[h]);
  }

  /** Allocate, then link behind the end of a live chain: the step by which files grow. */
  lemma GrowKeepsChains(fat: Table, chains: map<nat, seq<nat>>, h: nat, c: nat)
    requires WellFormed(fat, chains) && h in chains && 2 <= c < |fat| && fat[c] == 0
    ensures var ch := chains[h]; var last := ch[|ch| - 1];
            && last < |fat|
            && WellFormed(fat[c := EOC][last := c], chains[h := ch + [c]])
            && Grew(fat, ch, fat[c := EOC][last := c], ch + [c])
  {
    hide CountFree;
    AllocKeepsChains(fat, chains, c);
    LinkKeepsChains(fat[c := EOC], chains, h, c);
    var last := chains[h][|chains[h]| - 1];
    assert last in chains[h];
    ChainInUse(fat, chains[h], last);
    FreeClustersUpdate(fat, c, EOC);
    FreeClustersUpdate(fat[c := EOC], last, c);
  }

  lemma GrewNothing(fat: Table, ch: seq<nat>)
    ensures Grew(fat, ch, fat, ch)
  {
  }

  lemma GrewMore(fat0: Table, ch0: seq<nat>, fat1: Table, ch1: seq<nat>, fat2: Table, ch2: seq<nat>)
    requires Grew(fat0, ch0, fat1, ch1) && Grew(fat1, ch1, fat2, ch2)
    requires forall i :: |ch1| <= i < |ch2| ==> ch2[i] !in ch1
    ensures Grew(fat0, ch0, fat2, ch2)
  {
  }

  /** The walk of fat_free_cluster_chain(c), zeroing as it goes, meets only clusters the table has. */
  ghost predicate WalkInRange(fat: Table, c: nat)
    decreases FreeMeasure(fat), if 2 <= c < EOC then 1 else 0
  {
    2 <= c < EOC ==>
      && c < |fat|
      && (CountFreeUpdate(fat, c);
          CountFreeBound(fat[c := 0]);
          WalkInRange(fat[c := 0], fat[c]))
  }

  /** The table after fat_free_cluster_chain(c): every entry met on the way is zeroed. */
  ghost function Freed(fat: Table, c: nat): (r: Table)
    requires WalkInRange(fat, c)
    ensures |r| == |fat|
    decreases FreeMeasure(fat), if 2 <= c < EOC then 1 else 0
  {
    if 2 <= c < EOC then
      CountFreeUpdate(fat, c);
      CountFreeBound(fat[c := 0]);
      Freed(fat[c := 0], fat[c])
    else fat
  }

  /** Number of entries in use: what the freeing loop counts down. */
  ghost function FreeMeasure(fat: Table): int { |fat| - CountFree(fat) }

  lemma FreedStep(fat: Table, c: nat)
    requires WalkInRange(fat, c) && 2 <= c < EOC
    ensures c < |fat| && WalkInRange(fat[c := 0], fat[c])
    ensures Freed(fat, c) == Freed(fat[c := 0], fat[c])
    ensures 0 <= FreeMeasure(fat[c := 0]) <= FreeMeasure(fat)
    ensures FreeMeasure(fat[c := 0]) == FreeMeasure(fat) ==> fat[c] == 0
  {
    CountFreeUpdate(fat, c);
    CountFreeBound(fat[c := 0]);
  }

  lemma FreedEnd(fat: Table, c: nat)
    requires WalkInRange(fat, c) && !(2 <= c < EOC)
    ensures Freed(fat, c) == fat
  {
  }

  /** Following an entry never leaves the table. */
  ghost predicate InRangeEntries(fat: Table)
  {
    forall c :: 0 <= c < |fat| && 2 <= fat[c] < EOC ==> fat[c] < |fat|
  }

  /** With every entry in range the walk is safe from anywhere, cycles included. */
  lemma {:induction false} InRangeIsSafe(fat: Table, c: nat)
    requires InRangeEntries(fat) && (2 <= c < EOC ==> c < |fat|)
    ensures WalkInRange(fat, c)
    decreases FreeMeasure(fat), if 2 <= c < EOC then 1 else 0
  {
    if 2 <= c < EOC {
      CountFreeUpdate(fat, c);
      CountFreeBound(fat[c := 0]);
      InRangeIsSafe(fat[c := 0], fat[c]);
    }
  }

  ghost function CountFree(fat: Table): nat
  {
    if fat == [] then 0 else CountFree(fat[..|fat| - 1]) + if fat[|fat| - 1] == 0 then 1 else 0
  }

  lemma {:induction false} CountFreeBound(fat: Table)
    ensures CountFree(fat) <= |fat|
  {
    if fat != [] {
      CountFreeBound(fat[..|fat| - 1]);
    }
  }

  lemma {:induction false} CountFreeUpdate(fat: Table, c: nat)
    requires c < |fat|
    ensures CountFree(fat[c := 0]) == CountFree(fat) + if fat[c] == 0 then 0 else 1
    decreases |fat|
  {
    var n := |fat| - 1;
    if c < n {
      CountFreeUpdate(fat[..n], c);
      assert fat[c := 0][..n] == fat[..n][c := 0];
    } else {
      assert fat[c := 0][..n] == fat[..n];
    }
  }

  /** Clusters the allocator can still hand out; the first two entries belong to none. */
  ghost function FreeClusters(fat: Table): nat { if |fat| < 2 then 0 else CountFree(fat[2..]) }

  lemma FreeClustersUpdate(fat: Table, c: nat, v: nat)
    requires 2 <= c < |fat|
    ensures FreeClusters(fat[c := v]) + (if v == 0 then 0 else 1) == FreeClusters(fat) + (if fat[c] == 0 then 0 else 1)
  {
    var s := fat[2..];
    assert fat[c := v][2..] == s[c - 2 := v];
    assert s[c - 2 := v][c - 2 := 0] == s[c - 2 := 0];
    CountFreeUpdate(s, c - 2);
    CountFreeUpdate(s[c - 2 := v], c - 2);
  }

  ghost predicate NoFree(fat: Table)
  {
    forall x :: 2 <= x < |fat| ==> fat[x] != 0
  }

  lemma NoFreeIs(fat: Table)
    ensures NoFree(fat) <==> FreeClusters(fat) == 0
  {
    if |fat| >= 2 {
      CountFreeNone(fat[2..]);
      assert forall x :: 2 <= x < |fat| ==> fat[x] == fat[2..][x - 2];
      assert forall x :: 0 <= x < |fat| - 2 ==> fat[2..][x] == fat[x + 2];
    }
  }

  lemma {:induction false} CountFreeNone(fat: Table)
    ensures CountFree(fat) == 0 <==> forall x :: 0 <= x < |fat| ==> fat[x] != 0
  {
    if fat != [] {
      CountFreeNone(fat[..|fat| - 1]);
    }
  }

  /** `fat` with every entry of a cluster in `cs` set to zero. */
  ghost function Zeroed(fat: Table, cs: seq<nat>): (r: Table)
    ensures |r| == |fat|
  {
    seq(|fat|, x requires 0 <= x < |fat| => if x in cs then 0 else fat[x])
  }

  /** On a chain, freeing zeroes that chain's entries and no others, and raises the free count by its length. */
  lemma {:induction false} FreedIsZeroed(fat: Table, ch: seq<nat>)
    requires |fat| <= EOC && IsChain(fat, ch)
    ensures WalkInRange(fat, ch[0])
    ensures Freed(fat, ch[0]) == Zeroed(fat, ch)
    ensures CountFree(Freed(fat, ch[0])) == CountFree(fat) + |ch|
    decreases |ch|
  {
    var c, fat' := ch[0], fat[ch[0] := 0];
    CountFreeUpdate(fat, c);
    CountFreeBound(fat');
    if |ch| == 1 {
      assert Freed(fat', fat[c]) == fat';
      assert Zeroed(fat, ch) == fat';
    } else {
      var t := ch[1..];
      forall x | x in t
        ensures x != c
      {
        var i :| 0 <= i < |t| && t[i] == x;
        ChainAcyclic(fat, ch, 0, i + 1);
      }
      assert IsChain(fat, t);
      ChainFrame(fat, fat', t);
      FreedIsZeroed(fat', t);
      forall x | 0 <= x < |fat|
        ensures Zeroed(fat', t)[x] == Zeroed(fat, ch)[x]
      {
        assert x in ch <==> x == c || x in t;
      }
      assert Zeroed(fat', t) == Zeroed(fat, ch);
    }
  }

  /** Freeing one live chain keeps all the others. */
  lemma FreeKeepsChains(fat: Table, chains: map<nat, seq<nat>>, h: nat)
    requires WellFormed(fat, chains) && h in chains
    ensures WellFormed(Zeroed(fat, chains[h]), chains - {h})
  {
    var fat' := Zeroed(fat, chains[h]);
    forall k | k in chains && k != h
      ensures IsChain(fat', chains[k])
    {
      assert Disjoint(chains[k], chains[h]);
      ChainFrame(fat, fat', chains[k]);
    }
  }
}
