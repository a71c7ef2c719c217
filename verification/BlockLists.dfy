/** Lists of heap blocks, as both allocators keep them. */
module BlockLists {
  datatype Block = Block(addr: nat, size: nat, free: bool)
  {
    /** First address behind the block, whose size leaves out `header` bytes. */
    function End(header: nat): nat { addr + header + size }
  }

  type Blocks = seq<Block>

  ghost predicate NoFreeNeighbours(b: Blocks)
  {
    forall i :: 0 <= i < |b| - 1 ==> !(b[i].free && b[i + 1].free)
  }

  ghost predicate Increasing(b: Blocks)
  {
    (forall i :: 0 <= i < |b| ==> b[i].addr > 0) && forall i, j :: 0 <= i < j < |b| ==> b[i].addr < b[j].addr
  }

  /** The blocks handed out. */
  ghost function Live(b: Blocks): set<Block> { set i | 0 <= i < |b| && !b[i].free :: b[i] }

  predicate Fits(x: Block, size: nat) { x.free && x.size >= size }

  /** Index of the first free block of at least `size` bytes, or the length. */
  function FirstFit(b: Blocks, size: nat): (i: nat)
    ensures i <= |b| && (i < |b| ==> Fits(b[i], size))
    ensures forall j :: 0 <= j < i ==> !Fits(b[j], size)
  {
    if b == [] then 0 else if Fits(b[0], size) then 0 else
      assert forall j :: 0 < j < 1 + FirstFit(b[1..], size) ==> b[j] == b[1..][j - 1];
      1 + FirstFit(b[1..], size)
  }

  lemma LiveApp(p: Blocks, s: Blocks)
    ensures Live(p + s) == Live(p) + Live(s)
  {
    forall x | x in Live(p) + Live(s)
      ensures x in Live(p + s)
    {
      if x in Live(p) {
        var j :| 0 <= j < |p| && !p[j].free && p[j] == x;
        assert (p + s)[j] == x;
      } else {
        var j :| 0 <= j < |s| && !s[j].free && s[j] == x;
        assert (p + s)[|p| + j] == x;
      }
    }
  }

  lemma LiveOne(x: Block)
    ensures Live([x]) == if x.free then {} else {x}
  {
    assert x.free || [x][0] in Live([x]);
  }
}
