/** Open files: a node and a position that reads and writes advance. */
module VfsFile {
  import opened Bytes
  import opened FatTable
  import opened FatChains
  import opened FatContent
  import opened FatVolume
  import opened FatFile
  import opened FatRead
  import opened FatDirectory

  /** Bytes left behind the position, in 64 bits. */
  function Remaining(size: nat, offset: nat): nat { (size - offset) % 0x1_0000_0000_0000_0000 }

  lemma RemainingInside(size: nat, offset: nat)
    ensures Remaining(size, offset) >= 0
    ensures offset <= size < 0x1_0000_0000 ==> Remaining(size, offset) == size - offset
  {
  }

  function Asked(size: nat, fileSize: nat, offset: nat): nat { Min(size, Remaining(fileSize, offset)) }

  /** A read is cut at the end of the file exactly if it starts inside it. A position behind the end, which truncation
      leaves in files already open, makes the 64-bit difference wrap round, and the read is not cut at all. */
  lemma CutAtEnd(size: nat, fileSize: nat, offset: nat)
    requires 0 < size < 0x8000_0000_0000_0000 && fileSize < 0x1_0000_0000 && offset < 0x8000_0000_0000_0000
    ensures offset + Asked(size, fileSize, offset) <= fileSize <==> offset <= fileSize
    ensures offset > fileSize ==> Asked(size, fileSize, offset) == size
    ensures offset <= fileSize ==> Asked(size, fileSize, offset) == Min(size, fileSize - offset)
  {
    if offset > fileSize {
      assert (fileSize - offset) % 0x1_0000_0000_0000_0000 == fileSize - offset + 0x1_0000_0000_0000_0000;
    }
  }

  /** Ten bytes from behind a truncated file's end. */
  lemma ReadBehindEnd()
    ensures Asked(10, 0, 6) == 10
  {
    CutAtEnd(10, 0, 6);
  }

  /** A whole read of a covered span is that span of the content. */
  lemma ReadIsSlice(content: seq<byte>, cs: nat, off: nat, n: nat, before: seq<byte>, now: seq<byte>)
    requires cs > 0 && cs % 512 == 0 && n > 0 && SpanCovered(off, n, cs) && Reading(content, cs, off, n, before, now, n)
    ensures off + n <= |content| && now[..n] == content[off..off + n]
  {
    hide SpanCovered, Boundary;
    var first := FirstRun(off, n, cs);
    if first < n {
      CoveredBoundary(off, n, cs);
      assert content[off..off + first] + content[off + first..off + n] == content[off..off + n];
    }
  }

  class OpenFile {
    const node: Node
    var offset: nat

    constructor (node: Node)
      ensures this.node == node && offset == 0
    {
      this.node, offset := node, 0;
    }

    /** Reads from the position on and advances it by what was read. From inside the file it stays inside. */
    method Read(v: Volume, size: nat, out: array<byte>) returns (ret: int)
      requires v.Valid() && node.cluster in v.chains && size <= out.Length
      modifies this, out
      ensures AllInRange(v.g, v.chains[node.cluster]) && ClusterSize(v.g) > 0
      ensures var n := Asked(size, node.size, old(offset));
              && ret == ReadCount(|v.chains[node.cluster]|, old(offset), n, ClusterSize(v.g))
              && (0 <= ret ==> Reading(Content(v.g, v.disk, v.chains[node.cluster]), ClusterSize(v.g), old(offset), n,
                                       old(out[..]), out[..], ret))
      ensures offset == old(offset) + Max(ret, 0)
      ensures old(offset) <= node.size < 0x1_0000_0000 ==> offset <= node.size
    {
      hide Reading, ReadCount, Content, ClusterSize, Remaining, WellFormed, FatOf, Geometry.Holds;
      RemainingInside(node.size, offset);
      var remain := Remaining(node.size, offset);
      var n := if size > remain then remain else size;
      ret := FatRead.Read(v, node.cluster, offset, n, out);
      CountWithin(|v.chains[node.cluster]|, offset, n, ClusterSize(v.g));
      if ret > 0 {
        offset := offset + ret;
      }
    }

    /** Writes at the position and advances it by what was written. */
    method Write(v: Volume, data: seq<byte>, ghost p: nat) returns (done: nat)
      requires v.Valid() && node.cluster in v.chains && HasEntry(v.g, v.chains, node, p)
      requires node.size < 0x1_0000_0000 && node.cluster < 0x1_0000_0000
      modifies this, v`disk, v`chains, node`size
      ensures v.Valid() && offset == old(offset) + done
      ensures FileWritten(v.g, old(v.disk), old(v.chains), v.disk, v.chains, node.cluster, old(offset), data, done)
      ensures done == |data| <==> Affordable(v.g, old(v.disk), old(v.chains), node.cluster, old(offset), |data|)
      ensures node.size == if 0 < done == |data| then GrownSize(old(node.size), old(offset), |data|) else old(node.size)
      ensures EntryUpdated(v.g, old(v.disk), v.disk, v.chains, node.cluster, 0 < done == |data| && node.dirLba != 0, p,
                           node.slot, node.size)
    {
      hide FileWritten, EntryUpdated, HasEntry, Affordable;
      done := WriteFile(v, node, offset, data, p);
      offset := offset + done;
    }
  }

  /** After a whole write the cut at the file's end leaves the written range alone, even where the size was cut to
      32 bits: then the range starts behind the end, and a read from there is not cut. */
  lemma WrittenIsAsked(size: nat, offset: nat, n: nat)
    requires size < 0x1_0000_0000 && 0 < n < 0x1_0000_0000 && offset < 0x8000_0000_0000_0000
    ensures Asked(n, GrownSize(size, offset, n), offset) == n
  {
    var after := GrownSize(size, offset, n);
    if offset + n > size && offset + n >= 0x1_0000_0000 {
      SizeCut(offset, n);
      assert (after - offset) % 0x1_0000_0000_0000_0000 == after - offset + 0x1_0000_0000_0000_0000;
    }
  }

  lemma SizeCut(offset: nat, n: nat)
    requires n < 0x1_0000_0000 <= offset + n
    ensures (offset + n) % 0x1_0000_0000 < offset
  {
    var k := (offset + n) / 0x1_0000_0000;
    assert offset + n == 0x1_0000_0000 * k + (offset + n) % 0x1_0000_0000;
  }

  /** What one handle wrote whole, another handle at the same position reads: exactly the data, on every span. The
      hypotheses are what OpenFile.Write and OpenFile.Read promise. */
  lemma HandlesAgree(g: Geometry, d0: Disk, chains0: map<nat, seq<nat>>, d: Disk, chains: map<nat, seq<nat>>, head: nat, size: nat,
                     offset: nat, data: seq<byte>, before: seq<byte>, now: seq<byte>, ret: int)
    requires FileWritten(g, d0, chains0, d, chains, head, offset, data, |data|)
    requires size < 0x1_0000_0000 && 0 < |data| < 0x1_0000_0000 && offset < 0x8000_0000_0000_0000 && |data| <= |before|
    requires ClusterSize(g) > 0 && ret == ReadCount(|chains[head]|, offset, Asked(|data|, GrownSize(size, offset, |data|), offset), ClusterSize(g))
    requires 0 <= ret ==> Reading(Content(g, d, chains[head]), ClusterSize(g), offset, Asked(|data|, GrownSize(size, offset, |data|), offset),
                                  before, now, ret)
    ensures ret == |data| && |data| <= |now| && now[..|data|] == data
  {
    hide Reading, ReadCount, Content, FatOf, Placed, Asked, Grew, Extent;
    WrittenIsAsked(size, offset, |data|);
    WriteThenRead(g, Content(g, d0, chains[head]), Content(g, d, chains[head]), |chains[head]|, offset, data, before, now);
    ReadingFits(Content(g, d, chains[head]), ClusterSize(g), offset, |data|, before, now, |data|);
  }

  lemma ReadingFits(content: seq<byte>, cs: nat, off: nat, size: nat, before: seq<byte>, now: seq<byte>, done: nat)
    requires Reading(content, cs, off, size, before, now, done)
    ensures done <= |now|
  {
  }

  lemma CountWithin(chain: nat, off: nat, n: nat, cs: nat)
    requires cs > 0
    ensures ReadCount(chain, off, n, cs) <= n
  {
  }
}
