/** Block lists of the kernel heap: a block's size includes its packed header of 25 bytes, every block spans at least
    64 bytes, and freeing joins at most one neighbour. */
module KernelBlocks {
  import opened BlockLists

  /** The blocks lie end to end from `start` to `top`, each at least 64 bytes. */
  ghost predicate Whole(b: Blocks, start: nat, top: nat)
  {
    && |b| > 0 && b[0].addr == start && b[|b| - 1].End(0) == top
    && (forall i :: 0 <= i < |b| - 1 ==> b[i].End(0) == b[i + 1].addr)
    && (forall i :: 0 <= i < |b| ==> b[i].size >= 64)
  }

  lemma {:induction false} WholeOrder(b: Blocks, start: nat, top: nat, i: nat, j: nat)
    requires Whole(b, start, top) && i < j < |b|
    ensures b[i].End(0) <= b[j].addr
    decreases j
  {
    if i < j - 1 {
      WholeOrder(b, start, top, i, j - 1);
    }
  }

  lemma WholeIncreasing(b: Blocks, start: nat, top: nat)
    requires Whole(b, start, top) && start > 0
    ensures Increasing(b)
  {
    forall i, j | 0 <= i < j < |b|
      ensures b[i].addr < b[j].addr
    {
      WholeOrder(b, start, top, i, j);
    }
    forall i | 0 <= i < |b|
      ensures b[i].addr > 0
    {
      if i > 0 {
        WholeOrder(b, start, top, 0, i);
      }
    }
  }

  /** Different blocks never overlap, and all lie inside the heap. */
  lemma BlocksApart(b: Blocks, start: nat, top: nat, i: nat, j: nat)
    requires Whole(b, start, top) && i < |b| && j < |b| && i != j
    ensures b[i].End(0) <= b[j].addr || b[j].End(0) <= b[i].addr
    ensures start <= b[i].addr && b[i].End(0) <= top
  {
    if i < j {
      WholeOrder(b, start, top, i, j);
    } else {
      WholeOrder(b, start, top, j, i);
    }
    if i > 0 {
      WholeOrder(b, start, top, 0, i);
    }
    if i < |b| - 1 {
      WholeOrder(b, start, top, i, |b| - 1);
    }
  }

  function Sum(b: Blocks): nat { if b == [] then 0 else b[0].size + Sum(b[1..]) }

  /** The sizes add up to the size of the heap. */
  lemma {:induction false} SizesSum(b: Blocks, start: nat, top: nat)
    requires Whole(b, start, top)
    ensures start + Sum(b) == top
    decreases |b|
  {
    if |b| > 1 {
      assert b[0].End(0) == b[1].addr;
      assert forall i :: 0 <= i < |b| - 2 ==> b[1..][i].End(0) == b[i + 1].End(0);
      SizesSum(b[1..], b[1].addr, top);
    } else {
      assert b[1..] == [];
    }
  }

  /** Putting the blocks `m` in the place of `b[i..j]`. */
  function Swap(b: Blocks, i: nat, j: nat, m: Blocks): Blocks
    requires i <= j <= |b|
  {
    b[..i] + m + b[j..]
  }

  lemma LiveSwap(b: Blocks, i: nat, j: nat, m: Blocks)
    requires i <= j <= |b|
    ensures Live(b) == Live(b[..i]) + Live(b[i..j]) + Live(b[j..])
    ensures Live(Swap(b, i, j, m)) == Live(b[..i]) + Live(m) + Live(b[j..])
  {
    hide Live;
    assert b == b[..i] + b[i..j] + b[j..];
    LiveApp(b[..i] + b[i..j], b[j..]);
    LiveApp(b[..i], b[i..j]);
    LiveApp(b[..i] + m, b[j..]);
    LiveApp(b[..i], m);
  }

  /** Blocks that cover the same span may be put in place of others. */
  lemma WholeSwap(b: Blocks, start: nat, top: nat, i: nat, j: nat, m: Blocks)
    requires Whole(b, start, top) && i < j <= |b|
    requires Whole(m, b[i].addr, b[j - 1].End(0))
    ensures Whole(Swap(b, i, j, m), start, top)
  {
    var r := Swap(b, i, j, m);
    var d := |m| - (j - i);
    assert forall k :: 0 <= k < i ==> r[k] == b[k];
    assert forall k :: i <= k < i + |m| ==> r[k] == m[k - i];
    assert forall k :: i + |m| <= k < |r| ==> r[k] == b[k - d];
    forall k | 0 <= k < |r| - 1
      ensures r[k].End(0) == r[k + 1].addr
    {
      if k + 1 < i || k >= i + |m| {
        var l := if k + 1 < i then k else k - d;
        assert b[l].End(0) == b[l + 1].addr && r[k] == b[l] && r[k + 1] == b[l + 1];
      } else if k + 1 == i {
        assert b[k].End(0) == b[k + 1].addr;
      } else if k + 1 < i + |m| {
        assert m[k - i].End(0) == m[k - i + 1].addr;
      } else {
        assert b[j - 1].End(0) == b[j].addr;
      }
    }
  }

  // size_t arithmetic of kmalloc

  function Rounded(size: nat): nat { if size % 16 == 0 then size else (size + 15) % 0x1_0000_0000_0000_0000 / 16 * 16 }

  /** Header and rounded payload in 64 bits, at least 64. */
  function Total(size: nat): (t: nat)
    ensures t >= 64
  {
    var t := (Rounded(size) + 25) % 0x1_0000_0000_0000_0000;
    if t < 64 then 64 else t
  }

  lemma RoundedIs(size: nat)
    requires size < 0x1_0000_0000_0000_0000
    ensures if size <= 0xFFFF_FFFF_FFFF_FFF0 then size <= Rounded(size) < size + 16 && Rounded(size) % 16 == 0
            else Rounded(size) == 0
  {
  }

  /** The total leaves room for header and request exactly up to 2^64 - 32 bytes; beyond, the sum wraps round. */
  lemma TotalHolds(size: nat)
    requires 0 < size < 0x1_0000_0000_0000_0000
    ensures Total(size) >= size + 25 <==> size <= 0xFFFF_FFFF_FFFF_FFE0
  {
    hide Rounded;
    RoundedIs(size);
  }

  /** And no more than alignment and the smallest block ask for. */
  lemma TotalTight(size: nat)
    requires 0 < size <= 0xFFFF_FFFF_FFFF_FFE0
    ensures Total(size) == 64 || (Total(size) < size + 41 && (Total(size) - 25) % 16 == 0)
    ensures Total(size) == 64 <==> size <= 32
  {
    hide Rounded;
    RoundedIs(size);
    RoundedSmall(size);
  }

  lemma RoundedSmall(size: nat)
    ensures 0 < size <= 32 ==> Rounded(size) <= 32
  {
  }

  /** A request of 2^64 - 16 bytes is served with 64. */
  lemma HugeRequest()
    ensures Total(0xFFFF_FFFF_FFFF_FFF0) == 64
  {
  }

  /** What takes the place of a block handed out: itself, or the part asked for and the rest if both can be 64 bytes. */
  function Pieces(x: Block, total: nat): Blocks
  {
    if x.size >= total + 64 then [Block(x.addr, total, false), Block(x.addr + total, x.size - total, true)]
    else [x.(free := false)]
  }

  function Carve(b: Blocks, i: nat, total: nat): Blocks
    requires i < |b|
  {
    Swap(b, i, i + 1, Pieces(b[i], total))
  }

  lemma PiecesKeep(x: Block, total: nat)
    requires Fits(x, total) && total >= 64
    ensures var m := Pieces(x, total);
            |m| > 0 && Whole(m, x.addr, x.End(0)) && !m[0].free && m[0].addr == x.addr && total <= m[0].size < total + 64 && Live(m) == {m[0]}
  {
    var m := Pieces(x, total);
    LiveOne(m[0]);
    if |m| > 1 {
      assert m == [m[0]] + [m[1]];
      LiveApp([m[0]], [m[1]]);
      LiveOne(m[1]);
    } else {
      assert m == [m[0]];
    }
  }

  /** Block `i` of `r` is new, at least `total` bytes and less than 64 more, and the only change to the live blocks. */
  ghost predicate Handed(b: Blocks, r: Blocks, i: nat, total: nat)
  {
    i < |r| && !r[i].free && total <= r[i].size < total + 64 && r[i] !in Live(b) && Live(r) == Live(b) + {r[i]}
  }

  /** Handing out a free block keeps the heap whole and every live block where and as large as it is. */
  lemma CarveKeeps(b: Blocks, start: nat, top: nat, i: nat, total: nat)
    requires Whole(b, start, top) && i < |b| && Fits(b[i], total) && total >= 64
    ensures i < |Carve(b, i, total)| && Whole(Carve(b, i, total), start, top) && Handed(b, Carve(b, i, total), i, total)
    ensures Carve(b, i, total)[i].addr == b[i].addr
  {
    hide Whole, Live, Pieces;
    var m := Pieces(b[i], total);
    PiecesKeep(b[i], total);
    WholeSwap(b, start, top, i, i + 1, m);
    LiveSwap(b, i, i + 1, m);
    assert b[i..i + 1] == [b[i]];
    LiveOne(b[i]);
    FreshLive(b, start, top, i, m[0]);
  }

  /** A used block at the address of a free one is not among the live blocks. */
  lemma FreshLive(b: Blocks, start: nat, top: nat, i: nat, x: Block)
    requires Whole(b, start, top) && i < |b| && b[i].free && x.addr == b[i].addr && !x.free
    ensures x !in Live(b)
  {
    if x in Live(b) {
      var j :| 0 <= j < |b| && !b[j].free && b[j] == x;
      BlocksApart(b, start, top, i, j);
    }
  }

  /** The blocks from FreedFrom up to FreedTo become one when block `i` is freed: with the block before it if that is
      free, otherwise with the block behind it if that is free. */
  function FreedFrom(b: Blocks, i: nat): (k: nat)
    requires i < |b|
    ensures k <= i
  {
    if i > 0 && b[i - 1].free then i - 1 else i
  }

  function FreedTo(b: Blocks, i: nat): (j: nat)
    requires i < |b|
    ensures FreedFrom(b, i) < j <= FreedFrom(b, i) + 2 && i < j <= |b|
  {
    if FreedFrom(b, i) == i && i + 1 < |b| && b[i + 1].free then i + 2 else i + 1
  }

  function FreedBlock(b: Blocks, i: nat): Block
    requires i < |b|
  {
    var k := FreedFrom(b, i);
    Block(b[k].addr, b[k].size + if FreedTo(b, i) == k + 2 then b[k + 1].size else 0, true)
  }

  function Freed(b: Blocks, i: nat): Blocks
    requires i < |b|
  {
    Swap(b, FreedFrom(b, i), FreedTo(b, i), [FreedBlock(b, i)])
  }

  /** Freeing keeps the heap whole and takes exactly the freed block from the live ones. */
  lemma FreedKeeps(b: Blocks, start: nat, top: nat, i: nat)
    requires Whole(b, start, top) && i < |b| && !b[i].free
    ensures Whole(Freed(b, i), start, top)
    ensures Live(Freed(b, i)) == Live(b) - {b[i]}
  {
    hide Live, Whole, FreedBlock;
    var k, j := FreedFrom(b, i), FreedTo(b, i);
    FreedSpan(b, start, top, i);
    WholeSwap(b, start, top, k, j, [FreedBlock(b, i)]);
    LiveSwap(b, k, j, [FreedBlock(b, i)]);
    LiveOne(FreedBlock(b, i));
    LiveOne(b[i]);
    FreedElsewhere(b, start, top, i);
    if j == k + 2 {
      assert b[k..j] == [b[k]] + [b[k + 1]];
      LiveApp([b[k]], [b[k + 1]]);
      LiveOne(b[k]);
      LiveOne(b[k + 1]);
    } else {
      assert b[k..j] == [b[i]];
    }
  }

  lemma FreedSpan(b: Blocks, start: nat, top: nat, i: nat)
    requires Whole(b, start, top) && i < |b|
    ensures Whole([FreedBlock(b, i)], b[FreedFrom(b, i)].addr, b[FreedTo(b, i) - 1].End(0)) && FreedBlock(b, i).free
  {
    var k := FreedFrom(b, i);
    assert k + 1 < |b| ==> b[k].End(0) == b[k + 1].addr;
  }

  lemma FreedElsewhere(b: Blocks, start: nat, top: nat, i: nat)
    requires Whole(b, start, top) && i < |b|
    ensures b[i] !in Live(b[..FreedFrom(b, i)]) && b[i] !in Live(b[FreedTo(b, i)..])
  {
    forall j | 0 <= j < |b| && j != i
      ensures b[j] != b[i]
    {
      BlocksApart(b, start, top, i, j);
    }
  }

  predicate BothFree(b: Blocks, i: nat)
    requires i < |b|
  {
    0 < i < |b| - 1 && b[i - 1].free && b[i + 1].free
  }

  /** Freeing leaves no two free blocks side by side exactly when the neighbours were not both free: coalescing is
      not maximal. */
  lemma FreedNeighbours(b: Blocks, i: nat)
    requires NoFreeNeighbours(b) && i < |b| && !b[i].free
    ensures NoFreeNeighbours(Freed(b, i)) <==> !BothFree(b, i)
  {
    var k, j, r := FreedFrom(b, i), FreedTo(b, i), Freed(b, i);
    assert r[k].free;
    assert forall l :: 0 <= l < k ==> r[l] == b[l];
    assert forall l :: k < l < |r| ==> r[l] == b[l + (j - k - 1)];
    if BothFree(b, i) {
      assert r[k + 1] == b[i + 1];
    }
  }

  /** Of three blocks in a row the middle one is freed last: two free ones stay. */
  lemma TwoFreeStay()
    ensures var b := [Block(0, 64, true), Block(64, 64, false), Block(128, 64, true)];
            && Whole(b, 0, 192) && NoFreeNeighbours(b) && !NoFreeNeighbours(Freed(b, 1))
  {
    var b := [Block(0, 64, true), Block(64, 64, false), Block(128, 64, true)];
    FreedNeighbours(b, 1);
  }

  // Growing

  function Pages(total: nat): nat
  {
    ((if total > 0x1_0000 then total else 0x1_0000) + 4095) % 0x1_0000_0000_0000_0000 / 4096
  }

  /** The pages of a growth hold the request and 64 KiB, and not a page more. */
  lemma PagesTight(total: nat)
    requires total <= 0xFFFF_FFFF_FFFF_F000
    ensures var bytes := Pages(total) * 4096; total <= bytes && 0x1_0000 <= bytes && (bytes < total + 4096 || bytes == 0x1_0000)
  {
  }

  /** The blocks of a growth by `pages` pages at `top`: cut like any block that serves a request. */
  function NewPieces(top: nat, pages: nat, total: nat): (m: Blocks)
    ensures |m| > 0
  {
    var x := Block(top, pages * 4096, true);
    if x.size >= total then Pieces(x, total) else [x]
  }

  /** The list after a growth hung behind block `k`. */
  function Grown(b: Blocks, k: nat, top: nat, total: nat): Blocks
    requires k < |b|
  {
    b[..k + 1] + NewPieces(top, Pages(total), total)
  }

  /** Growing keeps the heap whole exactly if the new space was hung behind the last block and its page count did not
      wrap round; then the request is served. */
  lemma GrownKeeps(b: Blocks, start: nat, top: nat, k: nat, total: nat)
    requires Whole(b, start, top) && k < |b| && 64 <= total < 0x1_0000_0000_0000_0000
    ensures Whole(Grown(b, k, top, total), start, top + Pages(total) * 4096)
            <==> k == |b| - 1 && total <= 0xFFFF_FFFF_FFFF_F000
    ensures k == |b| - 1 && total <= 0xFFFF_FFFF_FFFF_F000 ==>
              |b| < |Grown(b, k, top, total)| && Handed(b, Grown(b, k, top, total), |b|, total) && Grown(b, k, top, total)[|b|].addr == top
    ensures total <= 0xFFFF_FFFF_FFFF_F000 <==> Pages(total) * 4096 >= total
  {
    hide Live, Handed, Pages;
    PagesHold(total);
    var m, r := NewPieces(top, Pages(total), total), Grown(b, k, top, total);
    if k < |b| - 1 {
      WholeOrder(b, start, top, k, |b| - 1);
      assert r[k] == b[k] && r[k + 1] == m[0];
      assert r[k].End(0) < r[k + 1].addr;
    } else if total > 0xFFFF_FFFF_FFFF_F000 {
      assert r[k + 1] == m[0] && m[0].size < 64;
    } else {
      GrownWhole(b, start, top, total);
      GrownHanded(b, start, top, total);
    }
  }

  lemma PagesHold(total: nat)
    requires total < 0x1_0000_0000_0000_0000
    ensures total <= 0xFFFF_FFFF_FFFF_F000 ==> Pages(total) * 4096 >= total && Pages(total) >= 16
    ensures total > 0xFFFF_FFFF_FFFF_F000 ==> Pages(total) == 0
  {
  }

  lemma GrownWhole(b: Blocks, start: nat, top: nat, total: nat)
    requires Whole(b, start, top) && 64 <= total <= Pages(total) * 4096
    ensures Whole(Grown(b, |b| - 1, top, total), start, top + Pages(total) * 4096)
  {
    hide Pages;
    var m, r := NewPieces(top, Pages(total), total), Grown(b, |b| - 1, top, total);
    assert r == b + m;
    assert forall j :: 0 <= j < |b| ==> r[j] == b[j];
    assert forall j :: |b| <= j < |r| ==> r[j] == m[j - |b|];
    forall j | 0 <= j < |r| - 1
      ensures r[j].End(0) == r[j + 1].addr
    {
      assert j + 1 < |b| ==> b[j].End(0) == b[j + 1].addr;
    }
  }

  lemma GrownHanded(b: Blocks, start: nat, top: nat, total: nat)
    requires |b| > 0 && Whole(b, start, top) && 64 <= total <= Pages(total) * 4096
    ensures Handed(b, Grown(b, |b| - 1, top, total), |b|, total) && Grown(b, |b| - 1, top, total)[|b|].addr == top
  {
    hide Live, Pages, Whole, Pieces;
    var x := Block(top, Pages(total) * 4096, true);
    var m := Pieces(x, total);
    PiecesKeep(x, total);
    assert Grown(b, |b| - 1, top, total) == b + m;
    LiveApp(b, m);
    NoneAtTop(b, start, top, m[0]);
  }

  lemma NoneAtTop(b: Blocks, start: nat, top: nat, x: Block)
    requires Whole(b, start, top) && x.addr == top
    ensures x !in Live(b)
  {
    if x in Live(b) {
      var j :| 0 <= j < |b| && !b[j].free && b[j] == x;
      if j < |b| - 1 {
        WholeOrder(b, start, top, j, |b| - 1);
      }
    }
  }

  // Runs

  /** A call that needs no growth: kmalloc of a total that some free block holds, or kfree of live block `i`; krealloc
      is one of each. */
  datatype Call = Alloc(total: nat) | Release(i: nat)

  ghost predicate Legal(b: Blocks, c: Call)
  {
    match c
    case Alloc(total) => total >= 64 && FirstFit(b, total) < |b|
    case Release(i) => i < |b| && !b[i].free
  }

  ghost function After(b: Blocks, c: Call): Blocks
    requires Legal(b, c)
  {
    match c
    case Alloc(total) => Carve(b, FirstFit(b, total), total)
    case Release(i) => Freed(b, i)
  }

  ghost predicate IsRun(states: seq<Blocks>, calls: seq<Call>)
  {
    && |states| == |calls| + 1
    && forall k :: 0 <= k < |calls| ==> Legal(states[k], calls[k]) && states[k + 1] == After(states[k], calls[k])
  }

  /** Along every run served without growth the heap stays whole: blocks of at least 64 bytes end to end over the same
      range, their sizes summing to its size. */
  lemma {:induction false} RunWhole(states: seq<Blocks>, calls: seq<Call>, start: nat, top: nat, k: nat)
    requires IsRun(states, calls) && Whole(states[0], start, top) && k < |states|
    ensures Whole(states[k], start, top) && start + Sum(states[k]) == top
    decreases k
  {
    hide Whole, Carve, Freed, Handed, Live;
    if k > 0 {
      RunWhole(states, calls, start, top, k - 1);
      var b, c := states[k - 1], calls[k - 1];
      assert Legal(b, c) && states[k] == After(b, c);
      match c
      case Alloc(total) => CarveKeeps(b, start, top, FirstFit(b, total), total);
      case Release(i) => FreedKeeps(b, start, top, i);
    }
    SizesSum(states[k], start, top);
  }

  /** Growth loses space: on a fresh heap of 1 MiB, whose end pointer stays at the first block, a small request splits
      that block and a request of 2 MiB is then hung behind block 0 of 2. */
  lemma GrowthLoses(start: nat)
    requires start > 0
    ensures var b := Carve([Block(start, 0x10_0000, true)], 0, Total(64)); var t := Total(0x20_0000);
            && Whole(b, start, start + 0x10_0000) && |b| == 2 && FirstFit(b, t) == 2
            && !Whole(Grown(b, 0, start + 0x10_0000, t), start, start + 0x10_0000 + Pages(t) * 4096)
  {
    var b, t := [Block(start, 0x10_0000, true)], Total(0x20_0000);
    CarveKeeps(b, start, start + 0x10_0000, 0, Total(64));
    var c := Carve(b, 0, Total(64));
    assert Total(64) == 89 && t == 0x20_0019;
    assert c == [Block(start, 89, false), Block(start + 89, 0x10_0000 - 89, true)];
    GrownKeeps(c, start, start + 0x10_0000, 0, t);
  }
}
