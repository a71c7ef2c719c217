/** The user-space allocator: headers linked by addresses, searched, split, grown and coalesced in place. A header
    occupies 16 bytes and address 0 is the null pointer; the break is a number that only malloc moves. */
module UserHeap {
  import opened BlockLists
  import opened HeapBlocks

  datatype Header = Header(size: nat, free: bool, next: nat)

  function NextOf(b: Blocks, i: nat): nat
    requires i < |b|
  {
    if i + 1 < |b| then b[i + 1].addr else 0
  }

  /** The linked headers spell out exactly the blocks `b`. */
  ghost predicate Rep(hdr: map<nat, Header>, b: Blocks)
  {
    forall i :: 0 <= i < |b| ==> Listed(hdr, b, i)
  }

  ghost predicate Listed(hdr: map<nat, Header>, b: Blocks, i: nat)
    requires i < |b|
  {
    b[i].addr in hdr && hdr[b[i].addr] == Header(b[i].size, b[i].free, NextOf(b, i))
  }

  /** Block `i` cut to `size` bytes with a free block behind it, if the rest can hold a header and 16 bytes. */
  function Cut(b: Blocks, i: nat, size: nat): Blocks
    requires i < |b|
  {
    var x := b[i];
    if x.size >= size + 32 then
      b[..i] + [Block(x.addr, size, x.free), Block(x.addr + 16 + size, x.size - size - 16, true)] + b[i + 1..]
    else b
  }

  lemma CutThenTaken(b: Blocks, i: nat, size: nat)
    requires i < |b|
    ensures var c := Cut(b, i, size); i < |c| && c[i := c[i].(free := false)] == Carve(b, i, size)
  {
  }

  /** Changing only the flag of one listed header changes only that block. */
  lemma RepFlag(hdr: map<nat, Header>, b: Blocks, i: nat, free: bool)
    requires Rep(hdr, b) && Increasing(b) && i < |b|
    ensures Listed(hdr, b, i)
    ensures Rep(hdr[b[i].addr := hdr[b[i].addr].(free := free)], b[i := b[i].(free := free)])
    ensures Increasing(b[i := b[i].(free := free)])
  {
    assert Listed(hdr, b, i);
    var c, h := b[i := b[i].(free := free)], hdr[b[i].addr := hdr[b[i].addr].(free := free)];
    forall j | 0 <= j < |c|
      ensures Listed(h, c, j)
    {
      assert Listed(hdr, b, j) && (j < i ==> b[j].addr < b[i].addr) && (i < j ==> b[i].addr < b[j].addr);
    }
  }

  /** The two header writes of a split. */
  function HeaderCut(hdr: map<nat, Header>, a: nat, size: nat): map<nat, Header>
    requires a in hdr && hdr[a].size >= size + 32
  {
    var at := a + 16 + size;
    hdr[at := Header(hdr[a].size - size - 16, true, hdr[a].next)][a := Header(size, hdr[a].free, at)]
  }

  lemma CutAt(b: Blocks, i: nat, size: nat, j: nat)
    requires i < |b| && b[i].size >= size + 32 && j <= |b|
    ensures |Cut(b, i, size)| == |b| + 1
    ensures Cut(b, i, size)[j].addr ==
            if j <= i then b[j].addr else if j == i + 1 then b[i].addr + 16 + size else b[j - 1].addr
  {
  }

  lemma CutIncreasing(b: Blocks, i: nat, size: nat)
    requires Increasing(b) && i < |b| && b[i].size >= size + 32
    requires i + 1 < |b| ==> b[i].End(16) <= b[i + 1].addr
    ensures Increasing(Cut(b, i, size))
  {
    hide Cut;
    CutAt(b, i, size, 0);
    var c := Cut(b, i, size);
    forall j | 0 <= j < |c|
      ensures c[j].addr > 0
    {
      CutAt(b, i, size, j);
    }
    forall j, k | 0 <= j < k < |c|
      ensures c[j].addr < c[k].addr
    {
      CutAt(b, i, size, j);
      CutAt(b, i, size, k);
      var f, g := if j <= i then j else j - 1, if k <= i then k else k - 1;
      assert f < g ==> b[f].addr < b[g].addr;
      assert f < i ==> b[f].addr < b[i].addr;
      assert i + 1 < g ==> b[i + 1].addr < b[g].addr;
    }
  }

  lemma RepCut(hdr: map<nat, Header>, b: Blocks, i: nat, size: nat)
    requires Rep(hdr, b) && Increasing(b) && i < |b| && b[i].size >= size + 32
    requires i + 1 < |b| ==> b[i].End(16) <= b[i + 1].addr
    ensures Listed(hdr, b, i) && Rep(HeaderCut(hdr, b[i].addr, size), Cut(b, i, size))
    ensures Increasing(Cut(b, i, size))
  {
    assert Listed(hdr, b, i);
    CutIncreasing(b, i, size);
    var c, h := Cut(b, i, size), HeaderCut(hdr, b[i].addr, size);
    forall j | 0 <= j < |c|
      ensures Listed(h, c, j)
    {
      if j < i {
        assert Listed(hdr, b, j) && c[j] == b[j] && c[j].addr < c[i].addr && c[j].addr < c[i + 1].addr;
      } else if j > i + 1 {
        assert Listed(hdr, b, j - 1) && c[j] == b[j - 1] && c[i].addr < c[j].addr && c[i + 1].addr < c[j].addr;
        assert NextOf(c, j) == NextOf(b, j - 1);
      } else if j == i + 1 {
        assert NextOf(c, j) == NextOf(b, i);
      }
    }
  }

  /** The header write that puts two neighbours together. */
  function HeaderJoin(hdr: map<nat, Header>, a: nat): map<nat, Header>
    requires a in hdr && hdr[a].next in hdr
  {
    var n := hdr[hdr[a].next];
    hdr[a := hdr[a].(size := (hdr[a].size + 16 + n.size) % 0x1_0000_0000, next := n.next)]
  }

  lemma RepJoin(hdr: map<nat, Header>, p: Blocks, r: Blocks)
    requires |r| >= 2 && Rep(hdr, p + r) && Increasing(p + r) && r[0].free
    ensures Listed(hdr, p + r, |p|) && Listed(hdr, p + r, |p| + 1)
    ensures Rep(HeaderJoin(hdr, r[0].addr), p + ([Joined(r[0], r[1])] + r[2..]))
    ensures Increasing(p + ([Joined(r[0], r[1])] + r[2..]))
  {
    hide Joined;
    var b, k := p + r, |p|;
    var x := Joined(r[0], r[1]);
    JoinedPlaces(p, r, x);
    assert Listed(hdr, b, k) && Listed(hdr, b, k + 1);
    var c, h := p + ([x] + r[2..]), HeaderJoin(hdr, r[0].addr);
    JoinIncreasing(b, c, k);
    JoinedIsBlock(r[0], r[1]);
    forall j | 0 <= j < |c|
      ensures Listed(h, c, j)
    {
      if j < k {
        assert Listed(hdr, b, j) && c[j] == b[j] && b[j].addr < b[k].addr && NextOf(c, j) == NextOf(b, j);
      } else if j > k {
        assert Listed(hdr, b, j + 1) && c[j] == b[j + 1] && b[k].addr < b[j + 1].addr && NextOf(c, j) == NextOf(b, j + 1);
      } else {
        assert NextOf(c, k) == NextOf(b, k + 1);
      }
    }
  }

  lemma JoinedIsBlock(a: Block, b: Block)
    ensures Joined(a, b) == Block(a.addr, (a.size + 16 + b.size) % 0x1_0000_0000, true)
  {
  }

  /** Where the blocks are after the first two behind `p` became one. */
  lemma JoinedPlaces(p: Blocks, r: Blocks, x: Block)
    requires |r| >= 2 && x.addr == r[0].addr
    ensures var b, c := p + r, p + ([x] + r[2..]);
            && |c| == |b| - 1 && c[|p|] == x && b[|p|] == r[0] && b[|p| + 1] == r[1]
            && (forall j :: 0 <= j < |p| ==> c[j] == b[j]) && (forall j :: |p| < j < |c| ==> c[j] == b[j + 1])
  {
  }

  lemma JoinIncreasing(b: Blocks, c: Blocks, k: nat)
    requires Increasing(b) && |c| == |b| - 1 && k < |c| && c[k].addr == b[k].addr
    requires (forall j :: 0 <= j < k ==> c[j] == b[j]) && (forall j :: k < j < |c| ==> c[j] == b[j + 1])
    ensures Increasing(c)
  {
    assert forall j :: 0 <= j < |c| ==> c[j].addr == b[if j <= k then j else j + 1].addr;
  }

  lemma RepGrown(hdr: map<nat, Header>, b: Blocks, brk: nat, grow: nat)
    requires Rep(hdr, b) && Increasing(b) && |b| > 0 && b[|b| - 1].End(16) <= brk && grow >= 16
    ensures Listed(hdr, b, |b| - 1) && Increasing(Grown(b, brk, grow))
    ensures var a := b[|b| - 1].addr; var x := hdr[a];
            if x.free then Rep(hdr[a := Header((x.size + grow) % 0x1_0000_0000, true, 0)], Grown(b, brk, grow))
            else Rep(hdr[brk := Header(grow - 16, true, 0)][a := Header(x.size, false, brk)], Grown(b, brk, grow))
  {
    var n := |b| - 1;
    var a, c := b[n].addr, Grown(b, brk, grow);
    assert Listed(hdr, b, n);
    var h := if hdr[a].free then hdr[a := Header((hdr[a].size + grow) % 0x1_0000_0000, true, 0)]
      else hdr[brk := Header(grow - 16, true, 0)][a := Header(hdr[a].size, false, brk)];
    forall j | 0 <= j < |c|
      ensures Listed(h, c, j)
    {
      if j < n {
        assert Listed(hdr, b, j) && c[j] == b[j] && b[j].addr < a && NextOf(c, j) == NextOf(b, j);
      }
    }
  }

  ghost predicate Grows(b: Blocks, size: nat) { FirstFit(b, size) == |b| }

  /** The blocks that the allocator cuts from, and the index of the block it takes. */
  ghost function Source(b: Blocks, brk: nat, size: nat): (r: (Blocks, nat))
    requires |b| > 0
    ensures r.1 < |r.0|
  {
    if Grows(b, size) then var c := Grown(b, brk, GrowBy(size)); (c, |c| - 1) else (b, FirstFit(b, size))
  }

  ghost function Served(b: Blocks, brk: nat, size: nat): Blocks
    requires |b| > 0
  {
    var s := Source(b, brk, size);
    Carve(s.0, s.1, size)
  }

  ghost function NewBreak(b: Blocks, brk: nat, size: nat): nat { if Grows(b, size) then brk + GrowBy(size) else brk }

  /** The break moves exactly if no free block is large enough, by 64 KiB or what the request and its header need. */
  lemma BreakMoves(b: Blocks, brk: nat, size: nat)
    ensures NewBreak(b, brk, size) == if exists i :: 0 <= i < |b| && b[i].free && b[i].size >= size then brk
                                      else brk + if size <= 0xFFF0 then 0x1_0000 else size + 16
  {
    var i := FirstFit(b, size);
    assert forall j :: 0 <= j < i ==> !Fits(b[j], size);
  }

  /** Serving a request keeps the heap whole exactly if it does not overflow the size of a free last block. */
  lemma ServedKeeps(b: Blocks, base: nat, brk: nat, size: nat)
    requires |b| > 0 && Tiled(b, base, brk) && NoFreeNeighbours(b) && 0 < size < 0x1_0000_0000
    ensures Tiled(Served(b, brk, size), base, NewBreak(b, brk, size)) <==> !(Grows(b, size) && Wraps(b, size))
    ensures !(Grows(b, size) && Wraps(b, size)) ==>
              && NoFreeNeighbours(Served(b, brk, size))
              && Handed(b, Served(b, brk, size), Source(b, brk, size).1, size)
  {
    hide Tiled, NoFreeNeighbours, Carve, Grown, Live, Wraps, GrowBy;
    GrownKeeps(b, base, brk, size);
    var s, n := Source(b, brk, size), NewBreak(b, brk, size);
    if Grows(b, size) && Wraps(b, size) {
      WrappedNotTiled(s.0, base, n, size);
    } else {
      CarveKeeps(s.0, base, n, s.1, size);
      FreshLive(s.0, base, n, s.1, Carve(s.0, s.1, size)[s.1]);
    }
  }

  /** Block `i` is new, long enough and less than 32 bytes longer, and the only change to the live blocks. */
  ghost predicate Handed(b: Blocks, r: Blocks, i: nat, size: nat)
  {
    i < |r| && !r[i].free && size <= r[i].size < size + 32 && r[i] !in Live(b) && Live(r) == Live(b) + {r[i]}
  }

  /** A used block at the address of a free one is not among the live blocks. */
  lemma FreshLive(b: Blocks, base: nat, brk: nat, i: nat, x: Block)
    requires Tiled(b, base, brk) && i < |b| && b[i].free && x.addr == b[i].addr && !x.free
    ensures x !in Live(b)
  {
    if x in Live(b) {
      var j :| 0 <= j < |b| && !b[j].free && b[j] == x;
      PayloadsApart(b, base, brk, i, j);
    }
  }

  /** A call on a heap in use: malloc of a non-zero size, or free of the live block at index `i`. */
  datatype Call = Alloc(size: nat) | Release(i: nat)
  datatype State = State(b: Blocks, brk: nat)

  ghost predicate Legal(s: State, c: Call)
  {
    match c
    case Alloc(size) => 0 < size < 0x1_0000_0000
    case Release(i) => i < |s.b| && !s.b[i].free
  }

  ghost function After(s: State, c: Call): State
    requires |s.b| > 0 && Legal(s, c)
  {
    match c
    case Alloc(size) => State(Served(s.b, s.brk, size), NewBreak(s.b, s.brk, size))
    case Release(i) => State(Released(s.b, i), s.brk)
  }

  /** The states a run of legal calls goes through. */
  ghost predicate IsRun(states: seq<State>, calls: seq<Call>)
  {
    && |states| == |calls| + 1
    && forall k :: 0 <= k < |calls| ==>
         |states[k].b| > 0 && Legal(states[k], calls[k]) && states[k + 1] == After(states[k], calls[k])
  }

  lemma {:induction false} BreakGrows(states: seq<State>, calls: seq<Call>, k: nat)
    requires IsRun(states, calls) && k < |states|
    ensures states[k].brk <= states[|calls|].brk
    decreases |calls| - k
  {
    if k < |calls| {
      BreakGrows(states, calls, k + 1);
    }
  }

  /** Along every run of mallocs and frees that ends with at most 4 GiB of heap, in every state, the blocks tile
      the heap and no two free ones touch. */
  lemma {:induction false} RunTiled(states: seq<State>, calls: seq<Call>, base: nat, k: nat)
    requires IsRun(states, calls) && k < |states|
    requires Tiled(states[0].b, base, states[0].brk) && NoFreeNeighbours(states[0].b)
    requires states[|calls|].brk - base <= 0x1_0000_0000
    ensures Tiled(states[k].b, base, states[k].brk) && NoFreeNeighbours(states[k].b)
    decreases k
  {
    hide Tiled, NoFreeNeighbours, Served, Wraps, Grows, Released, JoinSize;
    if k > 0 {
      RunTiled(states, calls, base, k - 1);
      BreakGrows(states, calls, k);
      var s, c := states[k - 1], calls[k - 1];
      assert states[k] == After(s, c) && Legal(s, c);
      match c
      case Alloc(size) =>
        SmallHeapFits(s.b, base, s.brk, 0, size);
        ServedKeeps(s.b, base, s.brk, size);
      case Release(i) =>
        SmallHeapFits(s.b, base, s.brk, i, 0);
        ReleasedKeeps(s.b, base, s.brk, i);
    }
  }

  lemma FirstListed(hdr: map<nat, Header>, p: Blocks, r: Blocks)
    requires Rep(hdr, p + r) && |r| > 0
    ensures Listed(hdr, p + r, |p|) && (p + r)[|p|] == r[0]
  {
  }

  lemma NextListed(hdr: map<nat, Header>, p: Blocks, r: Blocks)
    requires Rep(hdr, p + r) && Increasing(p + r) && |r| > 0
    ensures Listed(hdr, p + r, |p|) && (p + r)[|p|] == r[0]
    ensures if hdr[r[0].addr].next == 0 then |r| == 1 else
              |r| > 1 && Listed(hdr, p + r, |p| + 1) && (p + r)[|p| + 1] == r[1] && hdr[r[0].addr].next == r[1].addr
  {
    FirstListed(hdr, p, r);
    if |r| > 1 {
      assert (p + r)[|p| + 1] == r[1] && Listed(hdr, p + r, |p| + 1);
    }
  }

  class Heap {
    var inited: bool
    var base: nat
    var brk: nat
    var hdr: map<nat, Header>
    ghost var blocks: Blocks

    /** Before the first use nothing; after it, the list tiles [base, brk) and no two free blocks touch. */
    ghost predicate Valid()
      reads this
    {
      && brk > 0
      && (inited ==> base > 0 && Rep(hdr, blocks) && Tiled(blocks, base, brk) && NoFreeNeighbours(blocks))
    }

    /** The blocks a call works on: one free block of 64 KiB, just mapped, if there was no heap yet. */
    ghost function Ready(): Blocks
      reads this
    {
      if inited then blocks else [Block(brk, 0xFFF0, true)]
    }

    ghost function ReadyBase(): nat
      reads this
    {
      if inited then base else brk
    }

    ghost function ReadyBreak(): nat
      reads this
    {
      if inited then brk else brk + 0x1_0000
    }

    constructor (start: nat)
      requires start > 0
      ensures Valid() && !inited && brk == start
    {
      inited, base, brk, hdr, blocks := false, 0, start, map[], [];
    }

    method HeapInit()
      requires Valid()
      modifies this
      ensures Valid() && inited
      ensures blocks == old(Ready()) && base == old(ReadyBase()) && brk == old(ReadyBreak())
    {
      if inited {
        return;
      }
      inited := true;
      base := brk;
      brk := brk + 0x1_0000;
      hdr := hdr[base := Header(0x1_0000 - 16, true, 0)];
      blocks := [Block(base, 0xFFF0, true)];
    }

    /** The first free block that is large enough, or null if there is none. */
    method FindFree(size: nat) returns (at: nat)
      requires Valid() && inited
      ensures var i := FirstFit(blocks, size); at == if i < |blocks| then blocks[i].addr else 0
    {
      TiledIncreasing(blocks, base, brk);
      at := base;
      ghost var i := 0;
      while at != 0
        invariant i <= |blocks| && at == if i < |blocks| then blocks[i].addr else 0
        invariant forall j :: 0 <= j < i ==> !Fits(blocks[j], size)
        decreases |blocks| - i
      {
        assert Listed(hdr, blocks, i);
        if hdr[at].free && hdr[at].size >= size {
          return;
        }
        at := hdr[at].next;
        i := i + 1;
      }
    }

    method SplitBlock(blk: nat, size: nat, ghost i: nat)
      requires Rep(hdr, blocks) && Increasing(blocks) && i < |blocks| && blk == blocks[i].addr
      requires i + 1 < |blocks| ==> blocks[i].End(16) <= blocks[i + 1].addr
      modifies this`hdr, this`blocks
      ensures blocks == Cut(old(blocks), i, size) && Rep(hdr, blocks) && Increasing(blocks)
    {
      assert Listed(hdr, blocks, i);
      if hdr[blk].size >= size + 16 + 16 {
        RepCut(hdr, blocks, i, size);
        var at, x := blk + 16 + size, hdr[blk];
        hdr := hdr[at := Header(x.size - size - 16, true, x.next)];
        hdr := hdr[blk := Header(size, x.free, at)];
        blocks := Cut(blocks, i, size);
      }
    }

    method Take(blk: nat, size: nat, ghost i: nat)
      requires Rep(hdr, blocks) && Increasing(blocks) && i < |blocks| && blk == blocks[i].addr
      requires i + 1 < |blocks| ==> blocks[i].End(16) <= blocks[i + 1].addr
      modifies this`hdr, this`blocks
      ensures blocks == Carve(old(blocks), i, size) && Rep(hdr, blocks)
      ensures i < |blocks| && blk == blocks[i].addr
    {
      hide Rep, Increasing, Block.End;
      CutThenTaken(blocks, i, size);
      SplitBlock(blk, size, i);
      RepFlag(hdr, blocks, i, false);
      hdr := hdr[blk := hdr[blk].(free := false)];
      blocks := blocks[i := blocks[i].(free := false)];
    }

    /** Last block of the list. */
    method LastOf() returns (last: nat)
      requires Rep(hdr, blocks) && Increasing(blocks) && |blocks| > 0 && base == blocks[0].addr
      ensures last == blocks[|blocks| - 1].addr
    {
      last := base;
      ghost var i := 0;
      assert Listed(hdr, blocks, 0);
      while hdr[last].next != 0
        invariant i < |blocks| && last == blocks[i].addr && Listed(hdr, blocks, i)
        decreases |blocks| - i
      {
        assert Listed(hdr, blocks, i) && (i + 1 < |blocks| ==> Listed(hdr, blocks, i + 1));
        last := hdr[last].next;
        i := i + 1;
      }
    }

    /** Moves the break and turns the new space into a free block at the end of the list. */
    method Grow(size: nat) returns (blk: nat)
      requires Valid() && inited && size < 0x1_0000_0000
      modifies this
      ensures inited && base == old(base) && brk == old(brk) + GrowBy(size)
      ensures blocks == Grown(old(blocks), old(brk), GrowBy(size)) && blk == blocks[|blocks| - 1].addr
      ensures Rep(hdr, blocks) && Increasing(blocks)
    {
      TiledIncreasing(blocks, base, brk);
      var curBreak := brk;
      var need := 16 + size;
      var grow := if need > 0x1_0000 then need else 0x1_0000;
      brk := curBreak + grow;
      RepGrown(hdr, blocks, curBreak, grow);
      var last := LastOf();
      if hdr[last].free {
        hdr := hdr[last := Header((hdr[last].size + grow) % 0x1_0000_0000, true, hdr[last].next)];
        blk := last;
      } else {
        blk := curBreak;
        hdr := hdr[blk := Header(grow - 16, true, 0)];
        hdr := hdr[last := Header(hdr[last].size, false, blk)];
      }
      blocks := Grown(blocks, curBreak, grow);
    }

    /** Malloc of a non-zero size never fails. The heap stays whole exactly if growing does not overflow the 32-bit
        size of a free last block; then the new block is at least `size` bytes long and joins the live ones. */
    method Malloc(size: nat) returns (ptr: nat)
      requires Valid() && size < 0x1_0000_0000
      modifies this
      ensures size == 0 ==> ptr == 0 && inited == old(inited) && blocks == old(blocks) && brk == old(brk) && Valid()
      ensures size > 0 ==> ptr != 0 && inited && base == old(ReadyBase())
      ensures size > 0 ==> brk == NewBreak(old(Ready()), old(ReadyBreak()), size)
      ensures size > 0 ==> blocks == Served(old(Ready()), old(ReadyBreak()), size)
      ensures size > 0 ==> (Valid() <==> !(Grows(old(Ready()), size) && Wraps(old(Ready()), size)))
      ensures size > 0 && Valid() ==>
                exists i :: 0 <= i < |blocks| && ptr == blocks[i].addr + 16 && Handed(old(Ready()), blocks, i, size)
    {
      hide Carve, Grown, Handed, Live, Wraps, Listed, Block.End;
      if size == 0 {
        return 0;
      }
      HeapInit();
      ghost var b, i := blocks, FirstFit(blocks, size);
      TiledIncreasing(blocks, base, brk);
      var blk := FindFree(size);
      if blk == 0 {
        blk := Grow(size);
        i := |blocks| - 1;
      } else if i + 1 < |blocks| {
        TiledOrder(blocks, base, brk, i, i + 1);
      }
      Take(blk, size, i);
      ServedKeeps(b, base, old(ReadyBreak()), size);
      ptr := blk + 16;
    }

    /** Frees the live block whose payload starts at `ptr` and joins it with its free neighbours. The heap stays whole
        exactly if the joined block's size fits in 32 bits; the other live blocks stay as they are. */
    method Free(ptr: nat, ghost i: nat)
      requires Valid()
      requires ptr != 0 ==> inited && i < |blocks| && !blocks[i].free && ptr == blocks[i].addr + 16
      modifies this
      ensures inited == old(inited) && base == old(base) && brk == old(brk)
      ensures ptr == 0 ==> blocks == old(blocks) && Valid()
      ensures ptr != 0 ==> blocks == Released(old(blocks), i)
      ensures ptr != 0 ==> (Valid() <==> JoinSize(old(blocks), i) < 0x1_0000_0000)
      ensures ptr != 0 ==> Live(blocks) == Live(old(blocks)) - {old(blocks)[i]} && NoFreeNeighbours(blocks)
    {
      if ptr == 0 {
        return;
      }
      ReleasedKeeps(blocks, base, brk, i);
      TiledIncreasing(blocks, base, brk);
      RepFlag(hdr, blocks, i, true);
      var blk := ptr - 16;
      hdr := hdr[blk := hdr[blk].(free := true)];
      blocks := blocks[i := blocks[i].(free := true)];
      Coalesce();
    }

    method Coalesce()
      requires Rep(hdr, blocks) && Increasing(blocks) && |blocks| > 0 && base == blocks[0].addr
      modifies this`hdr, this`blocks
      ensures blocks == Merge(old(blocks)) && Rep(hdr, blocks)
    {
      hide Rep, Increasing, Joined;
      var cur := base;
      ghost var p: Blocks, r: Blocks := [], blocks;
      assert p + r == blocks;
      FirstListed(hdr, p, r);
      while hdr[cur].next != 0
        invariant blocks == p + r && Rep(hdr, blocks) && Increasing(blocks)
        invariant |r| > 0 && cur == r[0].addr && Listed(hdr, blocks, |p|)
        invariant p + Merge(r) == Merge(old(blocks))
        decreases |r|
      {
        NextListed(hdr, p, r);
        var next := hdr[cur].next;
        if hdr[cur].free && hdr[next].free {
          RepJoin(hdr, p, r);
          hdr := hdr[cur := hdr[cur].(size := (hdr[cur].size + 16 + hdr[next].size) % 0x1_0000_0000, next := hdr[next].next)];
          r := [Joined(r[0], r[1])] + r[2..];
          blocks := p + r;
          FirstListed(hdr, p, r);
        } else {
          assert p + [r[0]] + r[1..] == blocks;
          assert p + ([r[0]] + Merge(r[1..])) == p + [r[0]] + Merge(r[1..]);
          p, r := p + [r[0]], r[1..];
          cur := next;
          FirstListed(hdr, p, r);
        }
      }
      NextListed(hdr, p, r);
    }
  }
}
