/** Block lists of the user-space allocator: first fit, carving, growing and coalescing on the list, and what they
    keep: the blocks tile the heap, no two free ones touch, and live blocks stay where and as large as they are. */
module HeapBlocks {
  import opened BlockLists

  /** The blocks lie end to end from `base` to `brk`, with sizes of 32 bits. */
  ghost predicate Tiled(b: Blocks, base: nat, brk: nat)
  {
    && |b| > 0 && b[0].addr == base && b[|b| - 1].End(16) == brk
    && (forall i :: 0 <= i < |b| - 1 ==> b[i].End(16) == b[i + 1].addr)
    && (forall i :: 0 <= i < |b| ==> b[i].size < 0x1_0000_0000)
  }

  lemma {:induction false} TiledOrder(b: Blocks, base: nat, brk: nat, i: nat, j: nat)
    requires Tiled(b, base, brk) && i < j < |b|
    ensures b[i].End(16) <= b[j].addr
    decreases j
  {
    if i < j - 1 {
      TiledOrder(b, base, brk, i, j - 1);
    }
  }

  lemma TiledIncreasing(b: Blocks, base: nat, brk: nat)
    requires Tiled(b, base, brk) && base > 0
    ensures Increasing(b)
  {
    forall i, j | 0 <= i < j < |b|
      ensures b[i].addr < b[j].addr
    {
      TiledOrder(b, base, brk, i, j);
    }
    forall i | 0 <= i < |b|
      ensures b[i].addr > 0
    {
      if i > 0 {
        TiledOrder(b, base, brk, 0, i);
      }
    }
  }

  /** Payload ranges of different blocks, headers included, never overlap, and all lie inside the heap. */
  lemma PayloadsApart(b: Blocks, base: nat, brk: nat, i: nat, j: nat)
    requires Tiled(b, base, brk) && i < |b| && j < |b| && i != j
    ensures b[i].End(16) <= b[j].addr || b[j].End(16) <= b[i].addr
    ensures base <= b[i].addr && b[i].End(16) <= brk
  {
    if i < j {
      TiledOrder(b, base, brk, i, j);
    } else {
      TiledOrder(b, base, brk, j, i);
    }
    if i > 0 {
      TiledOrder(b, base, brk, 0, i);
    }
    if i < |b| - 1 {
      TiledOrder(b, base, brk, i, |b| - 1);
    }
  }

  /** Block `i` handed out for `size` bytes, the rest split off if it can hold a header and 16 bytes. */
  function Carve(b: Blocks, i: nat, size: nat): Blocks
    requires i < |b|
  {
    var x := b[i];
    if x.size >= size + 32 then
      b[..i] + [Block(x.addr, size, false), Block(x.addr + 16 + size, x.size - size - 16, true)] + b[i + 1..]
    else b[i := x.(free := false)]
  }

  /** Replacing the single block `i` by the blocks `m`. */
  lemma LiveReplaced(b: Blocks, i: nat, m: Blocks)
    requires i < |b| && b[i].free
    ensures Live(b[..i] + m + b[i + 1..]) == Live(b) + Live(m)
  {
    hide Live;
    assert b == b[..i] + [b[i]] + b[i + 1..];
    LiveApp(b[..i] + m, b[i + 1..]);
    LiveApp(b[..i], m);
    LiveApp(b[..i] + [b[i]], b[i + 1..]);
    LiveApp(b[..i], [b[i]]);
    LiveOne(b[i]);
  }

  lemma CarveLive(b: Blocks, i: nat, size: nat)
    requires i < |b| && Fits(b[i], size)
    ensures i < |Carve(b, i, size)| && Live(Carve(b, i, size)) == Live(b) + {Carve(b, i, size)[i]}
  {
    hide Live;
    var x := b[i];
    if x.size >= size + 32 {
      var y, z := Block(x.addr, size, false), Block(x.addr + 16 + size, x.size - size - 16, true);
      LiveReplaced(b, i, [y, z]);
      LiveApp([y], [z]);
      LiveOne(y);
      LiveOne(z);
      assert [y, z] == [y] + [z];
    } else {
      LiveReplaced(b, i, [x.(free := false)]);
      LiveOne(x.(free := false));
      assert b[i := x.(free := false)] == b[..i] + [x.(free := false)] + b[i + 1..];
    }
  }

  lemma CarveTiled(b: Blocks, base: nat, brk: nat, i: nat, size: nat)
    requires Tiled(b, base, brk) && i < |b| && Fits(b[i], size)
    ensures Tiled(Carve(b, i, size), base, brk)
  {
    var r := Carve(b, i, size);
    if b[i].size >= size + 32 {
      assert forall j :: 0 <= j < i ==> r[j] == b[j];
      assert forall j :: i + 1 < j < |r| ==> r[j] == b[j - 1];
    }
  }

  /** The free block that malloc takes is carved without disturbing anything else. */
  lemma CarveKeeps(b: Blocks, base: nat, brk: nat, i: nat, size: nat)
    requires Tiled(b, base, brk) && i < |b| && Fits(b[i], size)
    ensures var r := Carve(b, i, size);
            && Tiled(r, base, brk) && i < |r|
            && r[i].addr == b[i].addr && size <= r[i].size < size + 32 && !r[i].free
            && Live(r) == Live(b) + {r[i]}
            && (NoFreeNeighbours(b) ==> NoFreeNeighbours(r))
  {
    hide Tiled, Live;
    CarveTiled(b, base, brk, i, size);
    CarveLive(b, i, size);
  }

  function GrowBy(size: nat): nat { if 16 + size > 0x1_0000 then 16 + size else 0x1_0000 }

  /** The list after growing the break: the last block enlarged if it is free, in 32 bits, else a new free block. */
  function Grown(b: Blocks, brk: nat, grow: nat): (r: Blocks)
    requires |b| > 0 && grow >= 16
    ensures |r| > 0
  {
    var last := b[|b| - 1];
    if last.free then b[|b| - 1 := last.(size := (last.size + grow) % 0x1_0000_0000)]
    else b + [Block(brk, grow - 16, true)]
  }

  /** The growth overflows the 32-bit size of a free last block. */
  predicate Wraps(b: Blocks, size: nat)
    requires |b| > 0
  {
    b[|b| - 1].free && b[|b| - 1].size + GrowBy(size) >= 0x1_0000_0000
  }

  /** Growing keeps the tiling exactly if it does not overflow; then the last block fits the request. */
  lemma GrownKeeps(b: Blocks, base: nat, brk: nat, size: nat)
    requires Tiled(b, base, brk) && 0 < size < 0x1_0000_0000
    ensures var g := GrowBy(size); var r := Grown(b, brk, g); var last := |r| - 1;
            if Wraps(b, size) then r[last].End(16) < brk + g && r[last].addr == b[|b| - 1].addr && r[last].free
            else && Tiled(r, base, brk + g) && Fits(r[last], size) && Live(r) == Live(b)
                 && (NoFreeNeighbours(b) ==> NoFreeNeighbours(r))
  {
    var g := GrowBy(size);
    var r := Grown(b, brk, g);
    if !Wraps(b, size) {
      forall x | x in Live(b)
        ensures x in Live(r)
      {
        var j :| 0 <= j < |b| && !b[j].free && b[j] == x;
        assert r[j] == x;
      }
    }
  }

  /** An overflowed last block, carved or not, leaves the end of the heap uncovered. */
  lemma WrappedNotTiled(b: Blocks, base: nat, brk: nat, size: nat)
    requires |b| > 0 && b[|b| - 1].End(16) < brk
    ensures !Tiled(Carve(b, |b| - 1, size), base, brk)
  {
    var r := Carve(b, |b| - 1, size);
    assert r[|r| - 1].End(16) == b[|b| - 1].End(16);
  }

  /** Two blocks put together, in 32 bits. */
  function Joined(x: Block, y: Block): (j: Block)
    ensures j.addr == x.addr && j.free
  {
    Block(x.addr, (x.size + 16 + y.size) % 0x1_0000_0000, true)
  }

  /** One pass of coalescing from the left. */
  function Merge(b: Blocks): Blocks
    decreases |b|
  {
    if |b| < 2 then b
    else if b[0].free && b[1].free then Merge([Joined(b[0], b[1])] + b[2..])
    else [b[0]] + Merge(b[1..])
  }

  lemma {:induction false} MergeNothing(b: Blocks)
    requires NoFreeNeighbours(b)
    ensures Merge(b) == b
    decreases |b|
  {
    if |b| >= 2 {
      MergeNothing(b[1..]);
    }
  }

  lemma MergeStep(b: Blocks)
    requires |b| >= 2
    ensures Merge(b) == if b[0].free && b[1].free then Merge([Joined(b[0], b[1])] + b[2..]) else [b[0]] + Merge(b[1..])
  {
    hide Joined;
  }

  /** A front without free neighbours, ending in a used block, is passed over. */
  lemma {:induction false} MergeFront(p: Blocks, s: Blocks)
    requires NoFreeNeighbours(p) && (p != [] && s != [] ==> !(p[|p| - 1].free && s[0].free))
    ensures Merge(p + s) == p + Merge(s)
    decreases |p|
  {
    hide Merge, NoFreeNeighbours;
    var b := p + s;
    if p == [] {
      assert b == s && p + Merge(s) == Merge(s);
    } else if |b| < 2 {
      assert b == p && s == [];
      MergeShort(p);
      MergeShort(s);
    } else {
      FrontStep(p, s);
      MergeStep(b);
      MergeFront(p[1..], s);
      assert [p[0]] + (p[1..] + Merge(s)) == p + Merge(s);
    }
  }

  lemma MergeShort(b: Blocks)
    requires |b| < 2
    ensures Merge(b) == b
  {
  }

  lemma FrontStep(p: Blocks, s: Blocks)
    requires p != [] && |p + s| >= 2 && NoFreeNeighbours(p) && (s != [] ==> !(p[|p| - 1].free && s[0].free))
    ensures (p + s)[0] == p[0] && (p + s)[1..] == p[1..] + s && !(p[0].free && (p + s)[1].free) && NoFreeNeighbours(p[1..])
    ensures p[1..] != [] ==> p[1..][|p| - 2] == p[|p| - 1]
  {
    assert (p + s)[1] == if |p| > 1 then p[1] else s[0];
  }

  /** First and last block that freeing block `i` joins, and the joined size before it is cut to 32 bits. */
  function JoinFrom(b: Blocks, i: nat): (lo: nat)
    requires i < |b|
    ensures lo <= i
  {
    if i > 0 && b[i - 1].free then i - 1 else i
  }

  function JoinTo(b: Blocks, i: nat): (hi: nat)
    requires i < |b|
    ensures i <= hi < |b|
  {
    if i + 1 < |b| && b[i + 1].free then i + 1 else i
  }

  function JoinSize(b: Blocks, i: nat): int
    requires i < |b|
  {
    b[JoinTo(b, i)].End(16) - b[JoinFrom(b, i)].addr - 16
  }

  /** The list after freeing block `i`. */
  function Released(b: Blocks, i: nat): Blocks
    requires i < |b|
  {
    Merge(b[i := b[i].(free := true)])
  }

  lemma MergeOne(x: Block, tail: Blocks)
    requires NoFreeNeighbours(tail) && (tail != [] ==> !tail[0].free)
    ensures Merge([x] + tail) == [x] + tail
  {
    MergeNothing([x] + tail);
  }

  lemma MergeTwo(x: Block, y: Block, tail: Blocks)
    requires x.free && y.free && NoFreeNeighbours(tail) && (tail != [] ==> !tail[0].free)
    ensures Merge([x, y] + tail) == [Joined(x, y)] + tail
  {
    assert ([x, y] + tail)[2..] == tail;
    MergeOne(Joined(x, y), tail);
  }

  lemma MergeThree(x: Block, y: Block, z: Block, tail: Blocks)
    requires x.free && y.free && z.free && NoFreeNeighbours(tail) && (tail != [] ==> !tail[0].free)
    ensures Merge([x, y, z] + tail) == [Joined(Joined(x, y), z)] + tail
  {
    assert ([x, y, z] + tail)[2..] == [z] + tail;
    assert [Joined(x, y)] + ([z] + tail) == [Joined(x, y), z] + tail;
    MergeTwo(Joined(x, y), z, tail);
  }

  /** The block that takes the place of block `i` and its free neighbours. */
  function Replacement(b: Blocks, i: nat): Block
    requires i < |b| && JoinSize(b, i) >= 0
  {
    Block(b[JoinFrom(b, i)].addr, JoinSize(b, i) % 0x1_0000_0000, true)
  }

  lemma JoinEnds(b: Blocks, i: nat)
    requires NoFreeNeighbours(b) && i < |b| && !b[i].free
    ensures var lo, hi := JoinFrom(b, i), JoinTo(b, i);
            && NoFreeNeighbours(b[..lo]) && NoFreeNeighbours(b[hi + 1..])
            && (lo > 0 ==> !b[lo - 1].free) && (hi + 1 < |b| ==> !b[hi + 1].free)
            && (lo < i ==> b[lo].free) && (hi > i ==> b[hi].free)
  {
  }

  /** In closed form: the block and its free neighbours become one. */
  lemma ReleasedIs(b: Blocks, base: nat, brk: nat, i: nat)
    requires Tiled(b, base, brk) && NoFreeNeighbours(b) && i < |b| && !b[i].free
    ensures JoinSize(b, i) >= 0
    ensures Released(b, i) == b[..JoinFrom(b, i)] + ([Replacement(b, i)] + b[JoinTo(b, i) + 1..])
  {
    hide Merge, Joined, Tiled, NoFreeNeighbours, Replacement, JoinSize;
    var x, lo, hi := b[i].(free := true), JoinFrom(b, i), JoinTo(b, i);
    var f := b[i := x];
    JoinEnds(b, i);
    JoinedIs(b, base, brk, i);
    FrontAndRest(b, x, i, lo, hi);
    MergeFront(b[..lo], f[lo..]);
    var tail := b[hi + 1..];
    if lo == i && hi == i {
      MergeOne(x, tail);
    } else if lo < i && hi == i {
      MergeTwo(b[lo], x, tail);
    } else if lo == i {
      MergeTwo(x, b[hi], tail);
    } else {
      MergeThree(b[lo], x, b[hi], tail);
    }
  }

  lemma FrontAndRest(b: Blocks, x: Block, i: nat, lo: nat, hi: nat)
    requires lo <= i <= hi < |b| && i <= lo + 1 && hi <= i + 1
    ensures b[i := x] == b[..lo] + b[i := x][lo..]
    ensures b[i := x][lo..] == (if lo < i then [b[lo]] else []) + [x] + (if i < hi then [b[hi]] else []) + b[hi + 1..]
    ensures [b[lo], x] == [b[lo]] + [x] && [x, b[hi]] == [x] + [b[hi]] && [b[lo], x, b[hi]] == [b[lo]] + [x] + [b[hi]]
    ensures [] + [x] == [x] && [b[lo]] + [x] + [] == [b[lo]] + [x] && [] + [x] + [b[hi]] == [x] + [b[hi]] && [] + [x] + [] == [x]
  {
  }

  lemma JoinedIs(b: Blocks, base: nat, brk: nat, i: nat)
    requires Tiled(b, base, brk) && i < |b| && !b[i].free
    ensures JoinSize(b, i) >= 0
    ensures var x, lo, hi := b[i].(free := true), JoinFrom(b, i), JoinTo(b, i);
            if lo == i && hi == i then x == Replacement(b, i)
            else if lo < i && hi == i then Joined(b[lo], x) == Replacement(b, i)
            else if lo == i then Joined(x, b[hi]) == Replacement(b, i)
            else Joined(Joined(b[lo], x), b[hi]) == Replacement(b, i)
  {
    hide Joined, Block.End;
    var x, lo, hi := b[i].(free := true), JoinFrom(b, i), JoinTo(b, i);
    EndIs(b[lo]);
    EndIs(b[i]);
    EndIs(x);
    EndIs(b[hi]);
    JoinedOnce(b[lo], x);
    JoinedOnce(x, b[hi]);
    if lo < i && hi > i {
      JoinedTwice(b[lo], x, b[hi]);
    }
  }

  lemma EndIs(x: Block)
    ensures x.End(16) == x.addr + 16 + x.size
  {
  }

  lemma JoinedOnce(x: Block, y: Block)
    ensures x.End(16) == y.addr ==> Joined(x, y) == Block(x.addr, (y.End(16) - x.addr - 16) % 0x1_0000_0000, true)
  {
  }

  lemma JoinedTwice(x: Block, y: Block, z: Block)
    requires x.End(16) == y.addr && y.End(16) == z.addr
    ensures Joined(Joined(x, y), z) == Block(x.addr, (z.End(16) - x.addr - 16) % 0x1_0000_0000, true)
  {
    ModAdd(x.size + 16 + y.size, 16 + z.size);
  }

  lemma ModAdd(a: nat, b: nat)
    ensures (a % 0x1_0000_0000 + b) % 0x1_0000_0000 == (a + b) % 0x1_0000_0000
  {
  }

  /** Freeing keeps the tiling exactly when the joined block's size fits in 32 bits; then no two free blocks touch
      and exactly the freed block is no longer live. */
  lemma ReleasedKeeps(b: Blocks, base: nat, brk: nat, i: nat)
    requires Tiled(b, base, brk) && NoFreeNeighbours(b) && i < |b| && !b[i].free
    ensures Tiled(Released(b, i), base, brk) <==> JoinSize(b, i) < 0x1_0000_0000
    ensures NoFreeNeighbours(Released(b, i))
    ensures Live(Released(b, i)) == Live(b) - {b[i]}
  {
    hide Merge, Released, Tiled, NoFreeNeighbours, Live, JoinSize;
    ReleasedIs(b, base, brk, i);
    var lo, hi, r := JoinFrom(b, i), JoinTo(b, i), Released(b, i);
    assert forall j :: 0 <= j < lo ==> r[j] == b[j];
    assert forall j :: lo < j < |r| ==> r[j] == b[j + (hi - lo)];
    ReleasedTiled(b, base, brk, i, r);
    ReleasedApart(b, i, r);
    ReleasedLive(b, base, brk, i);
  }

  lemma ReleasedTiled(b: Blocks, base: nat, brk: nat, i: nat, r: Blocks)
    requires Tiled(b, base, brk) && i < |b| && !b[i].free && JoinSize(b, i) >= 0
    requires var lo, hi := JoinFrom(b, i), JoinTo(b, i);
             && |r| == |b| - (hi - lo) && r[lo] == Replacement(b, i)
             && (forall j :: 0 <= j < lo ==> r[j] == b[j]) && (forall j :: lo < j < |r| ==> r[j] == b[j + (hi - lo)])
    ensures Tiled(r, base, brk) <==> JoinSize(b, i) < 0x1_0000_0000
  {
    hide JoinSize, JoinFrom, JoinTo;
    var lo, hi := JoinFrom(b, i), JoinTo(b, i);
    assert lo + 1 < |r| ==> b[hi].End(16) == b[hi + 1].addr && r[lo + 1] == b[hi + 1];
    assert Tiled(r, base, brk) ==> r[lo].End(16) == b[hi].End(16);
    assert r[lo].End(16) == b[hi].End(16) <==> JoinSize(b, i) < 0x1_0000_0000 by { ReplacementEnd(b, i); }
    if JoinSize(b, i) < 0x1_0000_0000 {
      forall j | 0 <= j < |r| - 1
        ensures r[j].End(16) == r[j + 1].addr
      {
        var k := if j < lo then j else j + (hi - lo);
        assert b[k].End(16) == b[k + 1].addr && r[j].End(16) == b[k].End(16);
        assert r[j + 1].addr == b[k + 1].addr by { ReplacementEnd(b, i); }
      }
      ReplacementEnd(b, i);
    }
  }

  lemma ReplacementEnd(b: Blocks, i: nat)
    requires i < |b| && JoinSize(b, i) >= 0
    ensures var lo, hi, x := JoinFrom(b, i), JoinTo(b, i), Replacement(b, i);
            && x.addr == b[lo].addr && x.size < 0x1_0000_0000
            && (x.End(16) == b[hi].End(16) <==> JoinSize(b, i) < 0x1_0000_0000)
  {
  }

  lemma ReleasedApart(b: Blocks, i: nat, r: Blocks)
    requires NoFreeNeighbours(b) && i < |b| && !b[i].free && |r| == |b| - (JoinTo(b, i) - JoinFrom(b, i))
    requires forall j :: 0 <= j < JoinFrom(b, i) ==> r[j] == b[j]
    requires forall j :: JoinFrom(b, i) < j < |r| ==> r[j] == b[j + (JoinTo(b, i) - JoinFrom(b, i))]
    ensures NoFreeNeighbours(r)
  {
    JoinEnds(b, i);
  }

  lemma ReleasedLive(b: Blocks, base: nat, brk: nat, i: nat)
    requires Tiled(b, base, brk) && i < |b| && !b[i].free && JoinSize(b, i) >= 0
    ensures Live(b[..JoinFrom(b, i)] + ([Replacement(b, i)] + b[JoinTo(b, i) + 1..])) == Live(b) - {b[i]}
  {
    hide Live, Tiled, Replacement, JoinSize, JoinFrom, JoinTo;
    var lo, hi := JoinFrom(b, i), JoinTo(b, i);
    LiveApp(b[..lo], [Replacement(b, i)] + b[hi + 1..]);
    LiveApp([Replacement(b, i)], b[hi + 1..]);
    LiveOne(Replacement(b, i));
    LiveAround(b, i);
    LiveOther(b, base, brk, i);
  }

  /** The joined neighbours being free, the live blocks are those outside and block `i` itself. */
  lemma LiveAround(b: Blocks, i: nat)
    requires i < |b| && !b[i].free && JoinSize(b, i) >= 0
    ensures Live(b) == Live(b[..JoinFrom(b, i)]) + {b[i]} + Live(b[JoinTo(b, i) + 1..])
    ensures Replacement(b, i).free
  {
    hide Live, JoinSize, JoinFrom, JoinTo;
    assert b == b[..i] + ([b[i]] + b[i + 1..]);
    LiveApp(b[..i], [b[i]] + b[i + 1..]);
    LiveApp([b[i]], b[i + 1..]);
    LiveOne(b[i]);
    LiveBefore(b, i);
    LiveBehind(b, i);
  }

  lemma LiveBefore(b: Blocks, i: nat)
    requires i < |b|
    ensures Live(b[..i]) == Live(b[..JoinFrom(b, i)])
  {
    hide Live;
    var lo := JoinFrom(b, i);
    if lo < i {
      assert b[..i] == b[..lo] + [b[lo]];
      LiveApp(b[..lo], [b[lo]]);
      LiveOne(b[lo]);
    }
  }

  lemma LiveBehind(b: Blocks, i: nat)
    requires i < |b|
    ensures Live(b[i + 1..]) == Live(b[JoinTo(b, i) + 1..])
  {
    hide Live;
    var hi := JoinTo(b, i);
    if hi > i {
      assert b[i + 1..] == [b[hi]] + b[hi + 1..];
      LiveApp([b[hi]], b[hi + 1..]);
      LiveOne(b[hi]);
    }
  }

  lemma LiveOther(b: Blocks, base: nat, brk: nat, i: nat)
    requires Tiled(b, base, brk) && i < |b|
    ensures b[i] !in Live(b[..JoinFrom(b, i)]) && b[i] !in Live(b[JoinTo(b, i) + 1..])
  {
    forall j | 0 <= j < |b| && j != i
      ensures b[j] != b[i]
    {
      PayloadsApart(b, base, brk, i, j);
    }
  }

  /** A heap of at most 4 GiB never overflows, in growing or in freeing. */
  lemma SmallHeapFits(b: Blocks, base: nat, brk: nat, i: nat, size: nat)
    requires Tiled(b, base, brk) && i < |b|
    ensures brk - base <= 0x1_0000_0000 ==> JoinSize(b, i) < 0x1_0000_0000
    ensures brk + GrowBy(size) - base <= 0x1_0000_0000 ==> !Wraps(b, size)
  {
    var lo, hi, n := JoinFrom(b, i), JoinTo(b, i), |b| - 1;
    if lo > 0 {
      TiledOrder(b, base, brk, 0, lo);
    }
    if hi < n {
      TiledOrder(b, base, brk, hi, n);
    }
    if n > 0 {
      TiledOrder(b, base, brk, 0, n);
    }
  }

  /** The overflow is real: a heap whose free last block and request together pass 4 GiB. */
  lemma GrowthCanWrap()
    ensures var b := [Block(16, 0xFFFF_0000, true)];
            Tiled(b, 16, 0xFFFF_0020) && NoFreeNeighbours(b) && FirstFit(b, 0xFFFF_0001) == 1 && Wraps(b, 0xFFFF_0001)
  {
    var b := [Block(16, 0xFFFF_0000, true)];
    assert FirstFit(b[1..], 0xFFFF_0001) == 0;
  }
}
