/** Directories as arrays of 32-byte entries: which entries are live, what they say, and how the set of live
    entries changes when one entry is written. */
module FatDirent {
  import opened Bytes
  import opened FatNames

  type Slot = s: seq<byte> | |s| == 32 witness seq(32, _ => 0)

  const DELETED: byte := 0xE5
  const ATTR_LFN: byte := 0x0F
  const ATTR_DIR: byte := 0x10
  const ATTR_ARCHIVE: byte := 0x20

  function SlotAt(content: seq<byte>, k: nat): Slot
    requires 32 * k + 32 <= |content|
  {
    content[32 * k..32 * k + 32]
  }

  /** Neither free nor deleted, not part of a long name, not the volume label. */
  predicate IsLive(s: Slot) { s[0] != 0 && s[0] != DELETED && s[11] != ATTR_LFN && s[11] as int / 8 % 2 == 0 }

  predicate IsDirSlot(s: Slot) { s[11] as int / 16 % 2 == 1 }

  function SlotCluster(s: Slot): nat { Le16(s, 20) * 0x1_0000 + Le16(s, 26) }

  function SlotSize(s: Slot): nat { Le32(s, 28) }

  const CLEAR: seq<byte> := [0, 0, 0, 0, 0, 0, 0, 0]

  /** The entry fat_create writes, all 32 bytes of it. */
  function NewSlot(short: Name, dir: bool, cluster: nat, size: nat): (r: Slot)
    requires |short| == 11 && cluster < 0x1_0000_0000 && size < 0x1_0000_0000
  {
    short + [if dir then ATTR_DIR else ATTR_ARCHIVE] + CLEAR + Le16Bytes(cluster / 0x1_0000) + CLEAR[..4]
    + Le16Bytes(cluster % 0x1_0000) + Le32Bytes(size)
  }

  lemma NewSlotSays(short: Name, dir: bool, cluster: nat, size: nat)
    requires |short| == 11 && cluster < 0x1_0000_0000 && size < 0x1_0000_0000
    ensures var r := NewSlot(short, dir, cluster, size);
            && r[..11] == short && r[0] == short[0] && IsDirSlot(r) == dir && SlotCluster(r) == cluster && SlotSize(r) == size
            && (IsLive(r) <==> short[0] != 0 && short[0] != DELETED)
  {
    var r := NewSlot(short, dir, cluster, size);
    assert r[11] == if dir then ATTR_DIR else ATTR_ARCHIVE;
    assert r[20] == Le16Bytes(cluster / 0x1_0000)[0] && r[21] == Le16Bytes(cluster / 0x1_0000)[1];
    assert r[26] == Le16Bytes(cluster % 0x1_0000)[0] && r[27] == Le16Bytes(cluster % 0x1_0000)[1];
    assert r[28..32] == Le32Bytes(size);
    Le32Slice(r, 28, Le32Bytes(size), 0);
  }

  /** The entry with its size and first cluster rewritten, as fat_update_dirent_size does. */
  function Resized(s: Slot, size: nat, cluster: nat): (r: Slot)
    requires cluster < 0x1_0000_0000 && size < 0x1_0000_0000
  {
    s[..20] + Le16Bytes(cluster / 0x1_0000) + s[22..26] + Le16Bytes(cluster % 0x1_0000) + Le32Bytes(size)
  }

  /** The three fields of a slot written one after the other inside its sector. */
  lemma ResizedInPlace(buf: Sector, de: nat, size: nat, cluster: nat)
    requires de + 32 <= 512 && cluster < 0x1_0000_0000 && size < 0x1_0000_0000
    ensures var t: seq<byte> := buf[..de + 28] + Le32Bytes(size) + buf[de + 32..];
            var u := t[..de + 20] + Le16Bytes(cluster / 0x1_0000) + t[de + 22..];
            u[..de + 26] + Le16Bytes(cluster % 0x1_0000) + u[de + 28..] == Splice(buf, de, Resized(buf[de..de + 32], size, cluster))
  {
    hide Le16Bytes, Le32Bytes, Splice, Resized;
    var s: Slot := buf[de..de + 32];
    var hi, lo, n := Le16Bytes(cluster / 0x1_0000), Le16Bytes(cluster % 0x1_0000), Le32Bytes(size);
    var r := Resized(s, size, cluster);
    SpliceRun(buf, de, r);
    ResizedParts(s, size, cluster);
    ThreeFields(buf, de, hi, lo, n);
    SliceOfSlice(buf, de, de + 32, 0, 20);
    SliceOfSlice(buf, de, de + 32, 22, 26);
  }

  lemma ThreeFields(buf: seq<byte>, de: nat, hi: seq<byte>, lo: seq<byte>, n: seq<byte>)
    requires de + 32 <= |buf| && |hi| == |lo| == 2 && |n| == 4
    ensures var t := buf[..de + 28] + n + buf[de + 32..];
            var u := t[..de + 20] + hi + t[de + 22..];
            u[..de + 26] + lo + u[de + 28..]
            == buf[..de] + (buf[de..de + 20] + hi + buf[de + 22..de + 26] + lo + n) + buf[de + 32..]
  {
    var t := buf[..de + 28] + n + buf[de + 32..];
    var u := t[..de + 20] + hi + t[de + 22..];
    assert t[..de + 20] == buf[..de] + buf[de..de + 20];
    assert t[de + 22..] == buf[de + 22..de + 26] + buf[de + 26..de + 28] + n + buf[de + 32..];
    assert u[..de + 26] == buf[..de] + buf[de..de + 20] + hi + buf[de + 22..de + 26];
    assert u[de + 28..] == n + buf[de + 32..];
  }

  lemma ResizedParts(s: Slot, size: nat, cluster: nat)
    requires cluster < 0x1_0000_0000 && size < 0x1_0000_0000
    ensures Resized(s, size, cluster) ==
            s[..20] + Le16Bytes(cluster / 0x1_0000) + s[22..26] + Le16Bytes(cluster % 0x1_0000) + Le32Bytes(size)
  {
    hide Le16Bytes, Le32Bytes;
  }

  lemma ResizedSays(s: Slot, size: nat, cluster: nat)
    requires cluster < 0x1_0000_0000 && size < 0x1_0000_0000
    ensures var r := Resized(s, size, cluster);
            && r[..11] == s[..11] && r[0] == s[0] && r[11] == s[11] && SlotCluster(r) == cluster && SlotSize(r) == size
  {
    var r := Resized(s, size, cluster);
    assert r[20] == Le16Bytes(cluster / 0x1_0000)[0] && r[21] == Le16Bytes(cluster / 0x1_0000)[1];
    assert r[26] == Le16Bytes(cluster % 0x1_0000)[0] && r[27] == Le16Bytes(cluster % 0x1_0000)[1];
    assert r[28..32] == Le32Bytes(size);
    Le32Slice(r, 28, Le32Bytes(size), 0);
  }

  function SlotCount(content: seq<byte>): nat { |content| / 32 }

  /** Number of the first entry whose name starts with 0; reading a directory stops there. */
  function LiveEnd(content: seq<byte>): (n: nat)
    ensures n <= SlotCount(content)
    ensures forall k :: 0 <= k < n ==> SlotAt(content, k)[0] != 0
    ensures n < SlotCount(content) ==> SlotAt(content, n)[0] == 0
  {
    FirstZero(content, 0)
  }

  function FirstZero(content: seq<byte>, from: nat): (n: nat)
    requires from <= SlotCount(content)
    ensures from <= n <= SlotCount(content)
    ensures forall k :: from <= k < n ==> SlotAt(content, k)[0] != 0
    ensures n < SlotCount(content) ==> SlotAt(content, n)[0] == 0
    decreases SlotCount(content) - from
  {
    if from == SlotCount(content) || SlotAt(content, from)[0] == 0 then from else FirstZero(content, from + 1)
  }

  /** Every entry behind the first zero one is zero too, as the format requires. */
  ghost predicate ZeroTail(content: seq<byte>)
  {
    forall k :: LiveEnd(content) <= k < SlotCount(content) ==> SlotAt(content, k)[0] == 0
  }

  lemma LiveEndIs(content: seq<byte>, n: nat)
    requires n <= SlotCount(content)
    requires forall k :: 0 <= k < n ==> SlotAt(content, k)[0] != 0
    requires n < SlotCount(content) ==> SlotAt(content, n)[0] == 0
    ensures LiveEnd(content) == n
  {
  }

  /** Entry `k` replaced by `s`. */
  ghost function WithSlot(content: seq<byte>, k: nat, s: Slot): (r: seq<byte>)
    requires 32 * k + 32 <= |content|
    ensures |r| == |content|
  {
    Splice(content, 32 * k, s)
  }

  lemma WithSlotAt(content: seq<byte>, k: nat, s: Slot, j: nat)
    requires 32 * k + 32 <= |content| && 32 * j + 32 <= |content|
    ensures SlotAt(WithSlot(content, k, s), j) == if j == k then s else SlotAt(content, j)
  {
    if j == k {
      SpliceRun(content, 32 * k, s);
    } else {
      SpliceOutside(content, 32 * k, s, 32 * j, 32 * j + 32);
    }
  }

  /** What a directory says about one of its files, with the entry's number. */
  datatype Entry = Entry(name: Name, size: nat, dir: bool, cluster: nat, slot: nat)

  function EntryOf(s: Slot, k: nat): Entry
  {
    Entry(Trim(s[..11]), SlotSize(s), IsDirSlot(s), SlotCluster(s), k)
  }

  ghost predicate LiveAt(content: seq<byte>, k: nat) { k < LiveEnd(content) && IsLive(SlotAt(content, k)) }

  /** The files and directories a reader of the directory finds. */
  ghost function Listing(content: seq<byte>): set<Entry>
  {
    set k | 0 <= k < LiveEnd(content) && IsLive(SlotAt(content, k)) :: EntryOf(SlotAt(content, k), k)
  }

  lemma ListingHas(content: seq<byte>, e: Entry)
    ensures e in Listing(content) <==> LiveAt(content, e.slot) && e == EntryOf(SlotAt(content, e.slot), e.slot)
  {
  }

  /** A directory of zeros has no entries. */
  lemma ZerosEmpty(content: seq<byte>)
    requires content == Zeros(|content|)
    ensures ZeroTail(content) && Listing(content) == {}
  {
    LiveEndIs(content, 0);
  }

  predicate Available(s: Slot) { s[0] == 0 || s[0] == DELETED }

  /** First free or deleted entry. */
  ghost predicate FirstAvailable(content: seq<byte>, k: nat)
  {
    && k < SlotCount(content) && Available(SlotAt(content, k))
    && forall j :: 0 <= j < k ==> !Available(SlotAt(content, j))
  }

  ghost predicate NoneAvailable(content: seq<byte>) { forall j :: 0 <= j < SlotCount(content) ==> !Available(SlotAt(content, j)) }

  /** First live entry with these 11 name bytes, before the end of the directory. */
  ghost predicate FirstMatch(content: seq<byte>, short: Name, k: nat)
  {
    && LiveAt(content, k) && SlotAt(content, k)[..11] == short
    && forall j :: 0 <= j < k && IsLive(SlotAt(content, j)) ==> SlotAt(content, j)[..11] != short
  }

  ghost predicate NoMatch(content: seq<byte>, short: Name)
  {
    forall j :: LiveAt(content, j) ==> SlotAt(content, j)[..11] != short
  }

  /** Writing a live entry into the first available place adds that entry to the listing and takes none away. */
  lemma ListingAdd(content: seq<byte>, k: nat, s: Slot)
    requires ZeroTail(content) && FirstAvailable(content, k) && IsLive(s)
    ensures ZeroTail(WithSlot(content, k, s))
    ensures Listing(WithSlot(content, k, s)) == Listing(content) + {EntryOf(s, k)}
    ensures forall e :: e in Listing(content) ==> e.slot != k
  {
    hide WithSlot, Trim, SlotSize, SlotCluster;
    var r := WithSlot(content, k, s);
    var n := LiveEnd(content);
    var n' := if k == n then n + 1 else n;
    assert k <= n;
    forall j | 0 <= j < SlotCount(content)
      ensures SlotAt(r, j) == if j == k then s else SlotAt(content, j)
    {
      WithSlotAt(content, k, s, j);
    }
    LiveEndIs(r, n');
  }

  /** Overwriting a live entry with a live entry exchanges the two in the listing. */
  lemma ListingReplace(content: seq<byte>, k: nat, s: Slot)
    requires ZeroTail(content) && LiveAt(content, k) && IsLive(s)
    ensures ZeroTail(WithSlot(content, k, s))
    ensures Listing(WithSlot(content, k, s)) == Listing(content) - {EntryOf(SlotAt(content, k), k)} + {EntryOf(s, k)}
  {
    hide WithSlot, Trim, SlotSize, SlotCluster;
    var r := WithSlot(content, k, s);
    forall j | 0 <= j < SlotCount(content)
      ensures SlotAt(r, j) == if j == k then s else SlotAt(content, j)
    {
      WithSlotAt(content, k, s, j);
    }
    LiveEndIs(r, LiveEnd(content));
  }

  /** Marking a live entry deleted takes it, and nothing else, out of the listing. */
  lemma ListingDrop(content: seq<byte>, k: nat, s: Slot)
    requires ZeroTail(content) && LiveAt(content, k) && s[0] == DELETED
    ensures ZeroTail(WithSlot(content, k, s))
    ensures Listing(WithSlot(content, k, s)) == Listing(content) - {EntryOf(SlotAt(content, k), k)}
  {
    hide WithSlot, Trim, SlotSize, SlotCluster;
    var r := WithSlot(content, k, s);
    forall j | 0 <= j < SlotCount(content)
      ensures SlotAt(r, j) == if j == k then s else SlotAt(content, j)
    {
      WithSlotAt(content, k, s, j);
    }
    LiveEndIs(r, LiveEnd(content));
  }
}
