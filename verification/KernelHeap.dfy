/** The kernel heap: doubly linked headers in memory, first fit, splitting, growing by pages, coalescing of one
    neighbour and reallocation. Headers and payload bytes are kept in two maps. */
module KernelHeap {
  import opened Bytes
  import opened BlockLists
  import opened KernelBlocks

  datatype Header = Header(size: nat, free: bool, next: nat, prev: nat)

  type Headers = map<nat, Header>

  function NextOf(b: Blocks, i: nat): nat
    requires i < |b|
  {
    if i + 1 < |b| then b[i + 1].addr else 0
  }

  function PrevOf(b: Blocks, i: nat): nat
    requires i < |b|
  {
    if i > 0 then b[i - 1].addr else 0
  }

  ghost predicate Listed(hdr: Headers, b: Blocks, i: nat)
    requires i < |b|
  {
    b[i].addr in hdr && hdr[b[i].addr] == Header(b[i].size, b[i].free, NextOf(b, i), PrevOf(b, i))
  }

  /** The headers linked from the first block on spell out exactly `b`, forwards and backwards. */
  ghost predicate Rep(hdr: Headers, b: Blocks)
  {
    forall i :: 0 <= i < |b| ==> Listed(hdr, b, i)
  }

  /** Next and prev are mutual inverses along the list. */
  lemma LinksInverse(hdr: Headers, b: Blocks, i: nat)
    requires Rep(hdr, b) && Increasing(b) && i < |b|
    ensures Listed(hdr, b, i)
    ensures var x := hdr[b[i].addr];
            && (x.next != 0 ==> x.next in hdr && hdr[x.next].prev == b[i].addr)
            && (x.prev != 0 ==> x.prev in hdr && hdr[x.prev].next == b[i].addr)
  {
    assert Listed(hdr, b, i);
    assert i > 0 ==> Listed(hdr, b, i - 1);
    assert i + 1 < |b| ==> Listed(hdr, b, i + 1);
  }

  lemma SwapAt(b: Blocks, i: nat, j: nat, m: Blocks, k: nat)
    requires i <= j <= |b| && k < |b| - (j - i) + |m|
    ensures var r := Swap(b, i, j, m);
            && |r| == |b| - (j - i) + |m|
            && r[k] == if k < i then b[k] else if k < i + |m| then m[k - i] else b[k - |m| + (j - i)]
  {
  }

  /** Header writes that put the blocks `m` in the place of `b[i..j]`: the headers of `m`, the back link of the block
      behind, and nothing else that is linked. */
  ghost predicate Patched(hdr: Headers, h: Headers, b: Blocks, i: nat, j: nat, m: Blocks)
    requires i < j <= |b|
  {
    var r := Swap(b, i, j, m);
    && |m| > 0 && m[0].addr == b[i].addr
    && (forall k :: i <= k < i + |m| ==> Listed(h, r, k))
    && (j < |b| ==> b[j].addr in hdr && b[j].addr in h && h[b[j].addr] == hdr[b[j].addr].(prev := m[|m| - 1].addr))
    && (forall k :: 0 <= k < |b| && (k < i || k > j) ==>
          b[k].addr in hdr && b[k].addr in h && h[b[k].addr] == hdr[b[k].addr])
  }

  lemma RepPatched(hdr: Headers, h: Headers, b: Blocks, i: nat, j: nat, m: Blocks)
    requires i < j <= |b| && Rep(hdr, b) && Patched(hdr, h, b, i, j, m)
    ensures Rep(h, Swap(b, i, j, m))
  {
    hide Swap;
    var r, d := Swap(b, i, j, m), |m| - (j - i);
    SwapAt(b, i, j, m, 0);
    forall k | 0 <= k < |r| && !(i <= k < i + |m|)
      ensures Listed(h, r, k)
    {
      SwapAt(b, i, j, m, k);
      if k + 1 < |r| {
        SwapAt(b, i, j, m, k + 1);
      }
      if k > 0 {
        SwapAt(b, i, j, m, k - 1);
      }
      assert Listed(hdr, b, if k < i then k else k - d);
    }
  }

  /** A header whose next link, if any, leads to another one. */
  ghost predicate Linked(hdr: Headers, a: nat)
  {
    a in hdr && (hdr[a].next != 0 ==> hdr[a].next in hdr && hdr[a].next != a)
  }

  /** The header writes of handing out the block at `a`. */
  function HeaderTaken(hdr: Headers, a: nat, total: nat): Headers
    requires a in hdr && (hdr[a].next != 0 ==> hdr[a].next in hdr)
  {
    var x := hdr[a];
    if x.size >= total + 64 then
      var at := a + total;
      var h := hdr[at := Header(x.size - total, true, x.next, a)];
      var h' := if x.next != 0 then h[x.next := h[x.next].(prev := at)] else h;
      h'[a := Header(total, false, at, x.prev)]
    else hdr[a := x.(free := false)]
  }

  lemma TakenPatched(hdr: Headers, b: Blocks, i: nat, total: nat)
    requires Rep(hdr, b) && Increasing(b) && i < |b| && total > 0
    requires i + 1 < |b| ==> b[i].End(0) == b[i + 1].addr
    ensures Linked(hdr, b[i].addr)
    ensures Rep(HeaderTaken(hdr, b[i].addr, total), Carve(b, i, total))
  {
    hide Rep, Increasing, Pieces, HeaderTaken, Swap;
    Neighbours(hdr, b, i);
    var m, h := Pieces(b[i], total), HeaderTaken(hdr, b[i].addr, total);
    TakenHere(hdr, b, i, total);
    forall k | 0 <= k < |b| && (k < i || k > i + 1)
      ensures b[k].addr in hdr && b[k].addr in h && h[b[k].addr] == hdr[b[k].addr]
    {
      TakenElsewhere(hdr, b, i, total, k);
    }
    RepPatched(hdr, h, b, i, i + 1, m);
  }

  lemma Neighbours(hdr: Headers, b: Blocks, i: nat)
    requires Rep(hdr, b) && Increasing(b) && i < |b|
    ensures Listed(hdr, b, i) && (i + 1 < |b| ==> Listed(hdr, b, i + 1))
    ensures b[i].addr > 0 && (i + 1 < |b| ==> b[i].addr < b[i + 1].addr) && (i > 0 ==> b[i - 1].addr < b[i].addr)
  {
  }

  lemma TakenHere(hdr: Headers, b: Blocks, i: nat, total: nat)
    requires i < |b| && Listed(hdr, b, i) && (i + 1 < |b| ==> Listed(hdr, b, i + 1)) && total > 0
    requires b[i].addr > 0 && (i + 1 < |b| ==> b[i].End(0) == b[i + 1].addr && b[i].addr < b[i + 1].addr)
    ensures var m, h := Pieces(b[i], total), HeaderTaken(hdr, b[i].addr, total); var r := Swap(b, i, i + 1, m);
            && |m| > 0 && m[0].addr == b[i].addr
            && (forall k :: i <= k < i + |m| ==> Listed(h, r, k))
            && (i + 1 < |b| ==>
                  b[i + 1].addr in h && h[b[i + 1].addr] == hdr[b[i + 1].addr].(prev := m[|m| - 1].addr))
  {
    var m := Pieces(b[i], total);
    SwapAt(b, i, i + 1, m, i);
    if i > 0 {
      SwapAt(b, i, i + 1, m, i - 1);
    }
    if i + |m| < |b| - 1 + |m| {
      SwapAt(b, i, i + 1, m, i + |m|);
    }
    if |m| == 2 {
      SwapAt(b, i, i + 1, m, i + 1);
    }
  }

  lemma TakenElsewhere(hdr: Headers, b: Blocks, i: nat, total: nat, k: nat)
    requires Rep(hdr, b) && Increasing(b) && k < |b| && i < |b| && (k < i || k > i + 1) && total > 0
    requires Listed(hdr, b, i) && (i + 1 < |b| ==> Listed(hdr, b, i + 1) && b[i].End(0) == b[i + 1].addr)
    ensures var h := HeaderTaken(hdr, b[i].addr, total);
            b[k].addr in hdr && b[k].addr in h && h[b[k].addr] == hdr[b[k].addr]
  {
    assert Listed(hdr, b, k);
    if k < i {
      assert b[k].addr < b[i].addr;
      assert i + 1 < |b| ==> b[i].addr < b[i + 1].addr;
    } else {
      assert b[i].addr < b[i + 1].addr && b[i + 1].addr < b[k].addr;
    }
  }

  /** Block `k` and a free one behind it become one. */
  function Coalesced(b: Blocks, k: nat): Blocks
    requires k < |b|
  {
    if k + 1 < |b| && b[k + 1].free then Swap(b, k, k + 2, [Block(b[k].addr, b[k].size + b[k + 1].size, b[k].free)]) else b
  }

  function HeaderJoined(hdr: Headers, a: nat): Headers
    requires a in hdr && hdr[a].next in hdr && (hdr[hdr[a].next].next != 0 ==> hdr[hdr[a].next].next in hdr)
  {
    var x := hdr[a];
    var y := hdr[x.next];
    var h := hdr[a := Header(x.size + y.size, x.free, y.next, x.prev)];
    if y.next != 0 then h[y.next := h[y.next].(prev := a)] else h
  }

  /** The headers a join changes: of the block, and of the one behind the block that is taken in. */
  lemma JoinedHeaders(hdr: Headers, b: Blocks, k: nat)
    requires k + 1 < |b| && Listed(hdr, b, k) && Listed(hdr, b, k + 1) && (k + 2 < |b| ==> Listed(hdr, b, k + 2)) && Increasing(b)
    ensures var a, h := b[k].addr, HeaderJoined(hdr, b[k].addr);
            && h.Keys == hdr.Keys
            && h[a] == hdr[a].(size := b[k].size + b[k + 1].size, next := NextOf(b, k + 1))
            && (k + 2 < |b| ==> h[b[k + 2].addr] == hdr[b[k + 2].addr].(prev := a))
            && forall x :: x in hdr && x != a && (k + 2 < |b| ==> x != b[k + 2].addr) ==> h[x] == hdr[x]
  {
  }

  lemma JoinedPatched(hdr: Headers, b: Blocks, k: nat)
    requires Rep(hdr, b) && Increasing(b) && k + 1 < |b| && b[k + 1].free
    ensures Listed(hdr, b, k) && Listed(hdr, b, k + 1) && (k + 2 < |b| ==> Listed(hdr, b, k + 2))
    ensures Rep(HeaderJoined(hdr, b[k].addr), Coalesced(b, k))
  {
    hide HeaderJoined;
    assert Listed(hdr, b, k) && Listed(hdr, b, k + 1) && (k + 2 < |b| ==> Listed(hdr, b, k + 2));
    var m, h := [Block(b[k].addr, b[k].size + b[k + 1].size, b[k].free)], HeaderJoined(hdr, b[k].addr);
    JoinedHeaders(hdr, b, k);
    forall l | 0 <= l < |b| && (l < k || l > k + 2)
      ensures b[l].addr in hdr && b[l].addr in h && h[b[l].addr] == hdr[b[l].addr]
    {
      assert Listed(hdr, b, l);
      assert l < k ==> b[l].addr < b[k].addr;
      assert l > k + 2 ==> b[k].addr < b[k + 2].addr < b[l].addr;
    }
    RepPatched(hdr, h, b, k, k + 2, m);
  }

  function Flagged(b: Blocks, i: nat): Blocks
    requires i < |b|
  {
    b[i := b[i].(free := true)]
  }

  lemma FlagPatched(hdr: Headers, b: Blocks, i: nat)
    requires Rep(hdr, b) && Increasing(b) && i < |b|
    ensures Listed(hdr, b, i) && Increasing(Flagged(b, i))
    ensures Rep(hdr[b[i].addr := hdr[b[i].addr].(free := true)], Flagged(b, i))
  {
    var c := Flagged(b, i);
    assert Listed(hdr, b, i);
    var h := hdr[b[i].addr := hdr[b[i].addr].(free := true)];
    forall j | 0 <= j < |c|
      ensures Listed(h, c, j)
    {
      assert Listed(hdr, b, j) && (j < i ==> b[j].addr < b[i].addr) && (j > i ==> b[i].addr < b[j].addr);
      assert NextOf(c, j) == NextOf(b, j) && PrevOf(c, j) == PrevOf(b, j);
    }
  }

  /** Setting the flag and coalescing once from the right place is the list operation Freed. */
  lemma FreedTwoSteps(b: Blocks, i: nat)
    requires i < |b|
    ensures Coalesced(Flagged(b, i), FreedFrom(b, i)) == Freed(b, i)
  {
    var c, k, j := Flagged(b, i), FreedFrom(b, i), FreedTo(b, i);
    if j == k + 2 {
      assert c[..k] == b[..k] && c[k + 2..] == b[j..];
    } else {
      assert c == b[..k] + [FreedBlock(b, i)] + b[j..];
    }
  }

  /** A new header at `top` linked behind block `k`. */
  lemma AppendPatched(hdr: Headers, b: Blocks, k: nat, top: nat, size: nat)
    requires Rep(hdr, b) && Increasing(b) && k < |b| && b[|b| - 1].addr < top
    ensures b[k].addr in hdr
    ensures var h := hdr[top := Header(size, true, 0, b[k].addr)];
            var r := b[..k + 1] + [Block(top, size, true)];
            Rep(h[b[k].addr := h[b[k].addr].(next := top)], r) && Increasing(r)
  {
    assert Listed(hdr, b, k) && (k < |b| - 1 ==> b[k].addr < b[|b| - 1].addr);
    var h := hdr[top := Header(size, true, 0, b[k].addr)];
    var g, r := h[b[k].addr := h[b[k].addr].(next := top)], b[..k + 1] + [Block(top, size, true)];
    forall j | 0 <= j < |r|
      ensures Listed(g, r, j)
    {
      if j <= k {
        assert Listed(hdr, b, j) && r[j] == b[j] && (j < k ==> b[j].addr < b[k].addr);
      }
    }
  }

  ghost predicate HasBlockAt(b: Blocks, a: nat)
  {
    exists k :: 0 <= k < |b| && b[k].addr == a
  }

  /** Links that no listed header is part of leave the list alone. */
  lemma StalePatched(hdr: Headers, b: Blocks, tail: nat, top: nat, x: Header, y: Header)
    requires Rep(hdr, b) && Increasing(b) && |b| > 0 && b[|b| - 1].addr < top
    requires !HasBlockAt(b, tail)
    ensures Rep(hdr[top := x][tail := y], b)
  {
    var h := hdr[top := x][tail := y];
    forall j | 0 <= j < |b|
      ensures Listed(h, b, j)
    {
      assert Listed(hdr, b, j) && (j < |b| - 1 ==> b[j].addr < b[|b| - 1].addr);
    }
  }

  lemma StaleTaken(hdr: Headers, b: Blocks, a: nat, total: nat)
    requires Rep(hdr, b) && Increasing(b) && |b| > 0 && b[|b| - 1].addr < a && a in hdr && hdr[a].next == 0
    ensures Rep(HeaderTaken(hdr, a, total), b)
  {
    var h := HeaderTaken(hdr, a, total);
    forall j | 0 <= j < |b|
      ensures Listed(h, b, j)
    {
      assert Listed(hdr, b, j) && (j < |b| - 1 ==> b[j].addr < b[|b| - 1].addr);
    }
  }

  lemma OnlyOne(b: Blocks, k: nat)
    requires Increasing(b) && k < |b|
    ensures forall j :: 0 <= j < |b| && b[j].addr == b[k].addr ==> j == k
  {
  }

  lemma LastBelow(b: Blocks, start: nat, top: nat)
    requires Whole(b, start, top) && start > 0
    ensures |b| > 0 && b[|b| - 1].addr < top && Increasing(b)
  {
    WholeIncreasing(b, start, top);
  }

  /** The list `r` is `b` grown behind the block at `tail`, or still `b` if there is no such block. */
  ghost predicate Extended(b: Blocks, tail: nat, top: nat, total: nat, r: Blocks)
  {
    if HasBlockAt(b, tail) then exists k :: 0 <= k < |b| && b[k].addr == tail && r == Grown(b, k, top, total)
    else r == b
  }

  /** The heap stays whole exactly if `tail` was the last block; then the request is served. */
  lemma ExtendedKeeps(b: Blocks, start: nat, tail: nat, top: nat, total: nat, r: Blocks)
    requires |b| > 0 && Whole(b, start, top) && start > 0 && 64 <= total <= 0xFFFF_FFFF_FFFF_F000
    requires Extended(b, tail, top, total, r)
    ensures Pages(total) > 0
    ensures Whole(r, start, top + Pages(total) * 4096) <==> tail == b[|b| - 1].addr
    ensures tail == b[|b| - 1].addr ==> |b| < |r| && Handed(b, r, |b|, total) && r[|b|].addr == top
  {
    hide Whole, Handed, Increasing, Grown, Pages;
    PagesHold(total);
    LastBelow(b, start, top);
    if HasBlockAt(b, tail) {
      var k :| 0 <= k < |b| && b[k].addr == tail && r == Grown(b, k, top, total);
      OnlyOne(b, k);
      GrownKeeps(b, start, top, k, total);
    } else {
      NotLonger(b, start, top, top + Pages(total) * 4096);
    }
  }

  lemma NotLonger(b: Blocks, start: nat, top: nat, other: nat)
    requires Whole(b, start, top)
    ensures Whole(b, start, other) ==> top == other
  {
  }

  lemma TakenGrown(b: Blocks, k: nat, top: nat, size: nat, total: nat)
    requires k < |b| && total > 0
    ensures var c := b[..k + 1] + [Block(top, size, true)];
            Carve(c, k + 1, total) == b[..k + 1] + Pieces(Block(top, size, true), total)
  {
    var c := b[..k + 1] + [Block(top, size, true)];
    assert c[..k + 1] == b[..k + 1] && c[k + 2..] == [];
  }

  ghost predicate ServedInPlace(b: Blocks, size: nat) { FirstFit(b, Total(size)) < |b| }

  /** `ptr` is the payload of block `i` of `r`, newly handed out for `size` bytes. */
  ghost predicate Gives(b: Blocks, r: Blocks, i: nat, size: nat, ptr: nat)
  {
    i < |r| && Handed(b, r, i, Total(size)) && ptr == r[i].addr + 25
  }

  lemma AbutsNext(b: Blocks, start: nat, top: nat, i: nat)
    requires Whole(b, start, top) && i < |b|
    ensures i + 1 < |b| ==> b[i].End(0) == b[i + 1].addr
  {
  }

  lemma NextListed(hdr: Headers, b: Blocks, k: nat)
    requires Rep(hdr, b) && Increasing(b) && k < |b|
    ensures b[k].addr in hdr && hdr[b[k].addr].next == NextOf(b, k)
    ensures if k + 1 < |b| then
              var n := b[k + 1].addr;
              && n != 0 && n in hdr && hdr[n].free == b[k + 1].free && n != b[k].addr
              && (hdr[n].next != 0 ==> hdr[n].next in hdr && hdr[n].next != b[k].addr && hdr[n].next != n)
            else NextOf(b, k) == 0
  {
    assert Listed(hdr, b, k);
    assert k + 1 < |b| ==> Listed(hdr, b, k + 1);
    assert k + 2 < |b| ==> Listed(hdr, b, k + 2);
  }

  lemma PrevListed(hdr: Headers, b: Blocks, k: nat)
    requires Rep(hdr, b) && Increasing(b) && k < |b|
    ensures b[k].addr in hdr && hdr[b[k].addr].prev == PrevOf(b, k)
    ensures k > 0 ==> PrevOf(b, k) != 0 && PrevOf(b, k) in hdr && hdr[PrevOf(b, k)].free == b[k - 1].free
  {
    assert Listed(hdr, b, k);
    assert k > 0 ==> Listed(hdr, b, k - 1);
  }

  function At(mem: map<nat, byte>, a: nat): byte { if a in mem then mem[a] else 0 }

  /** `n` bytes copied from `src` to `dst`, and no other byte changed. */
  ghost predicate CopiedOver(was: map<nat, byte>, mem: map<nat, byte>, src: nat, dst: nat, n: nat)
  {
    forall a: nat {:trigger At(mem, a)} :: At(mem, a) == if dst <= a < dst + n then At(was, a - dst + src) else At(was, a)
  }

  lemma CopiedOne(was: map<nat, byte>, mem: map<nat, byte>, src: nat, dst: nat, j: nat)
    requires CopiedOver(was, mem, src, dst, j) && (src + j < dst || dst + j <= src)
    ensures CopiedOver(was, mem[dst + j := At(mem, src + j)], src, dst, j + 1)
  {
    var m := mem[dst + j := At(mem, src + j)];
    assert At(mem, src + j) == At(was, src + j);
    assert forall a: nat {:trigger At(m, a)} :: At(m, a) == if a == dst + j then At(was, src + j) else At(mem, a);
  }

  /** The live block `x` gave way to a new one that is large enough, with its payload at `ptr`; the other live blocks
      are the same. */
  ghost predicate Moved(b: Blocks, r: Blocks, x: Block, size: nat, ptr: nat)
  {
    exists y: Block ::
      && y !in Live(b) && !y.free && y.size >= Total(size) && ptr == y.addr + 25
      && Live(r) == Live(b) - {x} + {y}
  }

  lemma SizeListed(hdr: Headers, b: Blocks, i: nat)
    requires Rep(hdr, b) && i < |b|
    ensures b[i].addr in hdr && hdr[b[i].addr].size == b[i].size
  {
    assert Listed(hdr, b, i);
  }

  /** A live block is still listed after another one was handed out. */
  lemma StillThere(b: Blocks, r: Blocks, i: nat, n: nat, size: nat, ptr: nat) returns (k: nat)
    requires i < |b| && !b[i].free && Gives(b, r, n, size, ptr)
    ensures k < |r| && r[k] == b[i] && k != n && !r[k].free
    ensures n < |r| && r[n].size >= Total(size) && ptr == r[n].addr + 25
  {
    assert b[i] in Live(b);
    assert b[i] in Live(r);
    k :| 0 <= k < |r| && !r[k].free && r[k] == b[i];
  }

  /** Source and destination of the copy do not overlap. */
  lemma MovedApart(r: Blocks, start: nat, top: nat, k: nat, n: nat, size: nat, len: nat)
    requires Whole(r, start, top) && k < |r| && n < |r| && k != n && len + 25 <= r[k].size && len <= size
    requires r[n].size >= size + 25
    ensures r[k].addr + 25 + len <= r[n].addr + 25 || r[n].addr + 25 + len <= r[k].addr + 25
  {
    BlocksApart(r, start, top, k, n);
  }

  lemma MovedIs(b: Blocks, c: Blocks, r: Blocks, i: nat, k: nat, n: nat, size: nat, ptr: nat)
    requires i < |b| && !b[i].free && Gives(b, c, n, size, ptr) && k < |c| && c[k] == b[i] && Live(r) == Live(c) - {c[k]}
    ensures Moved(b, r, b[i], size, ptr)
  {
    assert b[i] in Live(b);
    var y := c[n];
    assert y !in Live(b) && Live(r) == Live(b) - {b[i]} + {y};
  }

  class Heap {
    var start: nat
    var tail: nat
    var top: nat
    var hdr: Headers
    var mem: map<nat, byte>
    var frames: nat
    ghost var blocks: Blocks

    /** The list from the first block on tiles the mapped range. */
    ghost predicate Valid()
      reads this
    {
      start > 0 && Rep(hdr, blocks) && Whole(blocks, start, top) && tail in hdr && tail < top
    }

    /** `heap_init`: one free block of 256 pages; `frames` counts the frames still to be had. */
    constructor (virt: nat, frames: nat)
      requires virt > 0
      ensures Valid() && start == virt && top == virt + 0x10_0000 && this.frames == frames
      ensures blocks == [Block(virt, 0x10_0000, true)] && tail == virt
    {
      start, tail, top := virt, virt, virt + 0x10_0000;
      hdr := map[virt := Header(0x10_0000, true, 0, 0)];
      mem, this.frames := map[], frames;
      blocks := [Block(virt, 0x10_0000, true)];
    }

    method FindFit(total: nat) returns (curr: nat)
      requires Valid()
      ensures var i := FirstFit(blocks, total); curr == if i < |blocks| then blocks[i].addr else 0
      ensures curr != 0 <==> FirstFit(blocks, total) < |blocks|
    {
      WholeIncreasing(blocks, start, top);
      curr := start;
      ghost var i := 0;
      while curr != 0
        invariant i <= |blocks| && curr == if i < |blocks| then blocks[i].addr else 0
        invariant forall j :: 0 <= j < i ==> !Fits(blocks[j], total)
        decreases |blocks| - i
      {
        assert Listed(hdr, blocks, i);
        if hdr[curr].free && hdr[curr].size >= total {
          return;
        }
        curr := hdr[curr].next;
        i := i + 1;
      }
    }

    /** Marks the block at `curr` used, splitting it if what is left can be a block of its own. */
    method Take(curr: nat, total: nat)
      requires Linked(hdr, curr) && total > 0
      modifies this`hdr
      ensures hdr == HeaderTaken(old(hdr), curr, total) && old(hdr).Keys <= hdr.Keys
    {
      if hdr[curr].size >= total + 64 {
        var newH := curr + total;
        var next := hdr[curr].next;
        hdr := hdr[newH := Header(hdr[curr].size - total, true, next, curr)];
        if next != 0 {
          hdr := hdr[next := hdr[next].(prev := newH)];
        }
        hdr := hdr[curr := hdr[curr].(next := newH)];
        hdr := hdr[curr := hdr[curr].(size := total)];
      }
      hdr := hdr[curr := hdr[curr].(free := false)];
    }

    /** Hangs a free block of `size` bytes at the top of the heap behind the block at `tail`, which need not be the
        last one. */
    method Append(size: nat)
      requires Valid()
      modifies this`hdr, this`blocks, this`tail, this`top
      ensures tail == old(top) && top == old(top) + size && tail in hdr && old(hdr).Keys <= hdr.Keys
      ensures hdr[tail] == Header(size, true, 0, old(tail)) && Rep(hdr, blocks) && Increasing(blocks)
      ensures !HasBlockAt(old(blocks), old(tail)) ==> blocks == old(blocks) && |blocks| > 0 && blocks[|blocks| - 1].addr < tail
      ensures forall k :: 0 <= k < |old(blocks)| && old(blocks)[k].addr == old(tail) ==>
                blocks == old(blocks)[..k + 1] + [Block(old(top), size, true)]
    {
      hide Rep, Increasing, Whole;
      ghost var h, b := hdr, blocks;
      LastBelow(b, start, top);
      var newH := top;
      top := top + size;
      hdr := hdr[newH := Header(size, true, 0, tail)];
      hdr := hdr[tail := hdr[tail].(next := newH)];
      if HasBlockAt(b, tail) {
        ghost var k :| 0 <= k < |b| && b[k].addr == tail;
        AppendPatched(h, b, k, newH, size);
        blocks := b[..k + 1] + [Block(newH, size, true)];
        OnlyOne(b, k);
      } else {
        StalePatched(h, b, tail, newH, Header(size, true, 0, tail), hdr[tail]);
      }
      tail := newH;
    }

    /** Maps fresh pages at the top of the heap and serves the request from them. */
    method Grow(total: nat) returns (ptr: nat)
      requires Valid() && 64 <= total < 0x1_0000_0000_0000_0000
      modifies this`hdr, this`blocks, this`tail, this`top, this`frames
      ensures old(frames) < Pages(total) ==> ptr == 0 && frames == 0 && blocks == old(blocks) && Valid()
      ensures old(frames) < Pages(total) ==> top == old(top) && tail == old(tail)
      ensures old(frames) >= Pages(total) ==>
                && frames == old(frames) - Pages(total)
                && top == old(top) + Pages(total) * 4096 && tail == old(top) && tail in hdr
                && Rep(hdr, blocks) && Extended(old(blocks), old(tail), old(top), total, blocks)
                && ptr == if Pages(total) * 4096 >= total then old(top) + 25 else 0
    {
      hide Rep, Increasing, Whole, HeaderTaken, Listed, Carve, Pieces;
      var grow := if total > 0x1_0000 then total else 0x1_0000;
      var pages := (grow + 4095) % 0x1_0000_0000_0000_0000 / 4096;
      var i := 0;
      while i < pages
        invariant i <= pages && frames == old(frames) - i
        modifies this`frames
      {
        if frames == 0 {
          return 0;
        }
        frames := frames - 1;
        i := i + 1;
      }
      Append(pages * 4096);
      ghost var b := old(blocks);
      ghost var hit := HasBlockAt(b, old(tail));
      ghost var k := if hit then var k :| 0 <= k < |b| && b[k].addr == old(tail); k else 0;
      assert hit ==> blocks == b[..k + 1] + [Block(old(top), pages * 4096, true)];
      if hdr[tail].size >= total {
        if hit {
          TakenPatched(hdr, blocks, k + 1, total);
          TakenGrown(b, k, old(top), pages * 4096, total);
        } else {
          StaleTaken(hdr, blocks, tail, total);
        }
        Take(tail, total);
        if hit {
          blocks := Carve(blocks, k + 1, total);
        }
        ptr := tail + 25;
      } else {
        ptr := 0;
      }
      assert hit ==> blocks == Grown(b, k, old(top), total);
    }

    /** A request that fits some free block never disturbs the heap. One that does not is served from fresh pages if
        there are frames enough, and then the heap stays whole exactly if `tail` was the last block. */
    method KMalloc(size: nat) returns (ptr: nat)
      requires Valid() && size < 0x1_0000_0000_0000_0000
      modifies this`hdr, this`blocks, this`tail, this`top, this`frames
      ensures size == 0 ==> ptr == 0
      ensures size == 0 || (ServedInPlace(old(blocks), size) || old(frames) < Pages(Total(size))) ==>
                Valid() && top == old(top) && tail == old(tail)
      ensures size > 0 && ServedInPlace(old(blocks), size) ==> frames == old(frames)
      ensures size > 0 && ServedInPlace(old(blocks), size) ==>
                Gives(old(blocks), blocks, FirstFit(old(blocks), Total(size)), size, ptr)
      ensures size == 0 || (!ServedInPlace(old(blocks), size) && old(frames) < Pages(Total(size))) ==>
                ptr == 0 && blocks == old(blocks)
      ensures size > 0 && !ServedInPlace(old(blocks), size) && old(frames) >= Pages(Total(size)) ==>
                && frames == old(frames) - Pages(Total(size)) && Rep(hdr, blocks)
                && Extended(old(blocks), old(tail), old(top), Total(size), blocks)
      ensures size > 0 && !ServedInPlace(old(blocks), size) && old(frames) >= Pages(Total(size))
              && Total(size) <= 0xFFFF_FFFF_FFFF_F000 ==>
                && ptr != 0 && |old(blocks)| > 0 && (Valid() <==> old(tail) == old(blocks)[|old(blocks)| - 1].addr)
                && (Valid() ==> Gives(old(blocks), blocks, |old(blocks)|, size, ptr))
      ensures size > 0 && !ServedInPlace(old(blocks), size) && Total(size) > 0xFFFF_FFFF_FFFF_F000 ==> ptr == 0
    {
      hide Rep, Increasing, Whole, HeaderTaken, Handed, Pages, Listed, Carve, Extended;
      if size == 0 {
        return 0;
      }
      var total := Total(size);
      var curr := FindFit(total);
      ghost var b, i := blocks, FirstFit(blocks, total);
      if curr != 0 {
        LastBelow(blocks, start, top);
        CarveKeeps(blocks, start, top, i, total);
        AbutsNext(blocks, start, top, i);
        TakenPatched(hdr, blocks, i, total);
        Take(curr, total);
        blocks := Carve(blocks, i, total);
        return curr + 25;
      }
      LastBelow(blocks, start, top);
      PagesHold(total);
      ptr := Grow(total);
      if old(frames) >= Pages(total) && total <= 0xFFFF_FFFF_FFFF_F000 {
        ExtendedKeeps(b, start, old(tail), old(top), total, blocks);
      }
    }

    method Coalesce(h: nat, ghost k: nat)
      requires Rep(hdr, blocks) && Increasing(blocks) && k < |blocks| && h == blocks[k].addr
      modifies this`hdr, this`blocks
      ensures blocks == Coalesced(old(blocks), k) && Rep(hdr, blocks) && old(hdr).Keys <= hdr.Keys
    {
      hide Rep, Increasing;
      NextListed(hdr, blocks, k);
      var next := hdr[h].next;
      if next != 0 && hdr[next].free {
        JoinedPatched(hdr, blocks, k);
        ghost var joined := HeaderJoined(hdr, h);
        hdr := hdr[h := hdr[h].(size := hdr[h].size + hdr[next].size)];
        hdr := hdr[h := hdr[h].(next := hdr[next].next)];
        if hdr[h].next != 0 {
          hdr := hdr[hdr[h].next := hdr[hdr[h].next].(prev := h)];
        }
        assert hdr == joined;
      }
      blocks := Coalesced(blocks, k);
    }

    /** Frees the block whose payload is at `ptr`; the heap stays whole and the other live blocks stay as they are. */
    method KFree(ptr: nat, ghost i: nat)
      requires Valid()
      requires ptr != 0 ==> i < |blocks| && !blocks[i].free && ptr == blocks[i].addr + 25
      modifies this`hdr, this`blocks
      ensures Valid()
      ensures blocks == if ptr == 0 then old(blocks) else Freed(old(blocks), i)
      ensures ptr != 0 ==> Live(blocks) == Live(old(blocks)) - {old(blocks)[i]}
    {
      hide Rep, Increasing, Whole, Live, Freed, Coalesced;
      if ptr == 0 {
        return;
      }
      LastBelow(blocks, start, top);
      FreedKeeps(blocks, start, top, i);
      FlagPatched(hdr, blocks, i);
      FreedTwoSteps(blocks, i);
      var h := ptr - 25;
      hdr := hdr[h := hdr[h].(free := true)];
      blocks := Flagged(blocks, i);
      PrevListed(hdr, blocks, i);
      var prev := hdr[h].prev;
      if prev != 0 && hdr[prev].free {
        Coalesce(prev, i - 1);
      } else {
        Coalesce(h, i);
      }
    }

    method CopyBytes(dst: nat, src: nat, n: nat)
      modifies this`mem
      ensures src + n <= dst || dst + n <= src ==> CopiedOver(old(mem), mem, src, dst, n)
    {
      var j := 0;
      while j < n
        invariant j <= n
        invariant src + n <= dst || dst + n <= src ==> CopiedOver(old(mem), mem, src, dst, j)
      {
        if src + n <= dst || dst + n <= src {
          CopiedOne(old(mem), mem, src, dst, j);
        }
        mem := mem[dst + j := At(mem, src + j)];
        j := j + 1;
      }
    }

    /** The request fits a free block, or fails for want of frames, or grows a heap whose end pointer is right. */
    ghost predicate Servable(size: nat)
      reads this
    {
      || ServedInPlace(blocks, size) || frames < Pages(Total(size))
      || (Total(size) <= 0xFFFF_FFFF_FFFF_F000 && |blocks| > 0 && tail == blocks[|blocks| - 1].addr)
    }

    /** A resize: the new block holds the first bytes of the old one, as many as both sizes allow,
        every other byte of memory is untouched, and the old block is given back. A request that wraps round in
        Total gets no promise about its bytes. Without memory for the new block nothing changes. */
    method KRealloc(ptr: nat, newSize: nat, ghost i: nat) returns (newPtr: nat)
      requires Valid() && newSize < 0x1_0000_0000_0000_0000
      requires ptr != 0 ==> i < |blocks| && !blocks[i].free && blocks[i].size >= 64 && ptr == blocks[i].addr + 25
      requires newSize == 0 || Servable(newSize)
      modifies this
      ensures Valid()
      ensures ptr == 0 || newSize == 0 ==> mem == old(mem)
      ensures ptr == 0 && newSize == 0 ==> newPtr == 0 && blocks == old(blocks)
      ensures ptr != 0 && newSize == 0 ==> newPtr == 0 && blocks == Freed(old(blocks), i)
      ensures newSize > 0 ==> (newPtr == 0 <==> !ServedInPlace(old(blocks), newSize) && old(frames) < Pages(Total(newSize)))
      ensures newSize > 0 && newPtr == 0 ==> blocks == old(blocks) && mem == old(mem)
      ensures ptr == 0 && newPtr != 0 ==>
                Gives(old(blocks), blocks, if ServedInPlace(old(blocks), newSize) then FirstFit(old(blocks), Total(newSize)) else |old(blocks)|,
                      newSize, newPtr)
      ensures ptr != 0 && newPtr != 0 ==> Moved(old(blocks), blocks, old(blocks)[i], newSize, newPtr)
      ensures ptr != 0 && newPtr != 0 && newSize <= 0xFFFF_FFFF_FFFF_FFE0 ==>
                CopiedOver(old(mem), mem, ptr, newPtr, Min(old(blocks)[i].size - 25, newSize))
    {
      hide Rep, Increasing, Whole, Live, Freed, Handed, Listed, Coalesced;
      if ptr == 0 {
        newPtr := KMalloc(newSize);
        return;
      }
      if newSize == 0 {
        KFree(ptr, i);
        return 0;
      }
      WholeIncreasing(blocks, start, top);
      NextListed(hdr, blocks, i);
      SizeListed(hdr, blocks, i);
      var oldData := hdr[ptr - 25].size - 25;
      if oldData > newSize {
        oldData := newSize;
      }
      ghost var b := blocks;
      ghost var n := if ServedInPlace(b, newSize) then FirstFit(b, Total(newSize)) else |b|;
      newPtr := KMalloc(newSize);
      if newPtr != 0 {
        MoveInto(newPtr, ptr, oldData, b, i, n, newSize);
      }
    }

    /** The bytes copied to the block just handed out in place of block `i` of `b`, and that block given back. */
    method MoveInto(newPtr: nat, ptr: nat, oldData: nat, ghost b: Blocks, ghost i: nat, ghost n: nat, ghost newSize: nat)
      requires Valid() && i < |b| && !b[i].free && b[i].size >= 64 && ptr == b[i].addr + 25 && Gives(b, blocks, n, newSize, newPtr)
      requires oldData == Min(b[i].size - 25, newSize) && 0 < newSize < 0x1_0000_0000_0000_0000
      modifies this
      ensures Valid() && Moved(b, blocks, b[i], newSize, newPtr)
      ensures newSize <= 0xFFFF_FFFF_FFFF_FFE0 ==> CopiedOver(old(mem), mem, ptr, newPtr, oldData)
    {
      hide Rep, Increasing, Whole, Live, Freed, Handed, Listed, Coalesced, Total;
      ghost var k := StillThere(b, blocks, i, n, newSize, newPtr);
      if newSize <= 0xFFFF_FFFF_FFFF_FFE0 {
        TotalHolds(newSize);
        MovedApart(blocks, start, top, k, n, newSize, oldData);
      }
      CopyBytes(newPtr, ptr, oldData);
      ghost var c := blocks;
      KFree(ptr, k);
      MovedIs(b, c, blocks, i, k, n, newSize, newPtr);
    }
  }
}
