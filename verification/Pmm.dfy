/** The physical frame allocator: one bit per 4 KiB frame, set for used frames, and a count of the used ones. */
module Pmm {
  import opened Bytes

  /** A memory range as the firmware reports it; type 1 is usable RAM. */
  datatype E820 = E820(base: nat, len: nat, kind: nat)
  {
    /** First frame and first frame behind the range, in 64-bit arithmetic. */
    function Start(): nat { (base + 4095) % 0x1_0000_0000_0000_0000 / 4096 }

    function Stop(): nat { (base + len) % 0x1_0000_0000_0000_0000 / 4096 }

    predicate Covers(f: nat) { kind == 1 && Start() <= f < Stop() }
  }

  /** On ranges that do not wrap, the covered frames are those that lie wholly inside the range. */
  lemma CoversMeansInside(e: E820, f: nat)
    requires e.base + 4095 < 0x1_0000_0000_0000_0000 && e.base + e.len < 0x1_0000_0000_0000_0000
    ensures e.Covers(f) <==> e.kind == 1 && e.base <= 4096 * f && 4096 * f + 4096 <= e.base + e.len
  {
  }

  /** 1 shifted left by `i`. */
  function Mask(i: nat): bv8
    requires i < 8
  {
    if i == 0 then 1 else if i == 1 then 2 else if i == 2 then 4 else if i == 3 then 8
    else if i == 4 then 16 else if i == 5 then 32 else if i == 6 then 64 else 128
  }

  function Bit(b: bv8, i: nat): bool
    requires i < 8
  {
    b & Mask(i) != 0
  }

  lemma SetBit(b: bv8, i: nat, j: nat)
    requires i < 8 && j < 8
    ensures Bit(b | Mask(i), j) == (j == i || Bit(b, j))
    ensures Bit(b & !Mask(i), j) == (j != i && Bit(b, j))
  {
    assert i == j || Mask(i) & Mask(j) == 0;
    MaskLaws(b, Mask(i), Mask(j));
  }

  lemma MaskLaws(b: bv8, m: bv8, n: bv8)
    requires m == 1 || m == 2 || m == 4 || m == 8 || m == 16 || m == 32 || m == 64 || m == 128
    ensures (b | m) & m != 0 && b & !m & m == 0
    ensures m & n == 0 ==> (b | m) & n == b & n && b & !m & n == b & n
  {
  }

  /** Used frames as a sequence of truth values. */
  type Frames = seq<bool>

  function CountUsed(s: Frames, n: nat): nat
    requires n <= |s|
  {
    if n == 0 then 0 else CountUsed(s, n - 1) + if s[n - 1] then 1 else 0
  }

  lemma {:induction false} CountUpdate(s: Frames, f: nat, v: bool, n: nat)
    requires f < |s| && n <= |s|
    ensures CountUsed(s[f := v], n)
         == CountUsed(s, n) + (if f < n && v && !s[f] then 1 else 0) - (if f < n && !v && s[f] then 1 else 0)
  {
    if n > 0 {
      CountUpdate(s, f, v, n - 1);
    }
  }

  /** `s` with frames f..f+n marked used. */
  function Marked(s: Frames, f: nat, n: nat): (r: Frames)
    requires f + n <= |s|
    ensures |r| == |s|
    ensures forall k :: 0 <= k < |s| ==> r[k] == (s[k] || f <= k < f + n)
  {
    if n == 0 then s else Marked(s, f, n - 1)[f + n - 1 := true]
  }

  lemma {:induction false} CountMarked(s: Frames, f: nat, n: nat, m: nat)
    requires f + n <= m <= |s| && forall k :: f <= k < f + n ==> !s[k]
    ensures CountUsed(Marked(s, f, n), m) == CountUsed(s, m) + n
  {
    if n > 0 {
      CountMarked(s, f, n - 1, m);
      CountUpdate(Marked(s, f, n - 1), f + n - 1, true, m);
    }
  }

  ghost predicate CoveredBy(ranges: seq<E820>, f: nat) { exists i :: 0 <= i < |ranges| && ranges[i].Covers(f) }

  /** `count` clear frames from `f` on. */
  ghost predicate ClearRun(s: Frames, f: nat, count: nat)
  {
    f + count <= |s| && forall k :: f <= k < f + count ==> !s[k]
  }

  /** Frames 2 and 3 of four are clear, but 2 is not below 4 - 2. */
  lemma LastRunOverlooked()
    ensures var m := [true, true, false, false]; ClearRun(m, 2, 2) && forall k :: 0 <= k < 4 - 2 ==> !ClearRun(m, k, 2)
  {
    var m := [true, true, false, false];
    assert m[0] && m[1];
  }

  class Allocator {
    const bitmap: array<bv8>
    var total: nat
    var used: nat

    /** Frame states read off the bitmap. */
    ghost function Map(): (s: Frames)
      requires bitmap.Length == 0x2_0000
      reads bitmap
      ensures |s| == 0x10_0000
      ensures forall f :: 0 <= f < 0x10_0000 ==> s[f] == Bit(bitmap[f / 8], f % 8)
    {
      seq(0x10_0000, f requires 0 <= f < 0x10_0000 reads bitmap => Bit(bitmap[f / 8], f % 8))
    }

    ghost predicate Valid()
      reads this, bitmap
    {
      bitmap.Length == 0x2_0000 && total <= 0x10_0000 && used == CountUsed(Map(), total)
    }

    method BmSet(f: nat)
      requires bitmap.Length == 0x2_0000 && f < 0x10_0000
      modifies bitmap
      ensures Map() == old(Map())[f := true]
    {
      forall j | 0 <= j < 8
        ensures Bit(bitmap[f / 8] | Mask(f % 8), j) == (j == f % 8 || Bit(bitmap[f / 8], j))
      {
        SetBit(bitmap[f / 8], f % 8, j);
      }
      bitmap[f / 8] := bitmap[f / 8] | Mask(f % 8);
      assert Map() == old(Map())[f := true];
    }

    method BmClear(f: nat)
      requires bitmap.Length == 0x2_0000 && f < 0x10_0000
      modifies bitmap
      ensures Map() == old(Map())[f := false]
    {
      forall j | 0 <= j < 8
        ensures Bit(bitmap[f / 8] & !Mask(f % 8), j) == (j != f % 8 && Bit(bitmap[f / 8], j))
      {
        SetBit(bitmap[f / 8], f % 8, j);
      }
      bitmap[f / 8] := bitmap[f / 8] & !Mask(f % 8);
      assert Map() == old(Map())[f := false];
    }

    method BmTest(f: nat) returns (r: bool)
      requires bitmap.Length == 0x2_0000 && f < 0x10_0000
      ensures r == Map()[f]
    {
      r := bitmap[f / 8] & Mask(f % 8) != 0;
    }

    /** pmm_init, as a constructor over the firmware's range list: clear are exactly the covered frames from
        2 MiB up. */
    constructor Init(ranges: seq<E820>)
      ensures Valid() && fresh(bitmap)
      ensures forall f :: 0 <= f < 0x10_0000 ==> (!Map()[f] <==> f >= 512 && CoveredBy(ranges, f))
      ensures forall f :: total <= f < 0x10_0000 ==> Map()[f]
    {
      bitmap := new bv8[0x2_0000];
      total := 0;
      used := 0;
      new;
      SetAll();
      ReleaseRanges(ranges);
      if total > 0x10_0000 {
        total := 0x10_0000;
      }
      ReserveLow();
      CountAll();
    }

    method CountAll()
      requires bitmap.Length == 0x2_0000 && total <= 0x10_0000
      modifies this`used
      ensures used == CountUsed(Map(), total)
    {
      used := 0;
      var f := 0;
      while f < total
        invariant 0 <= f <= total <= 0x10_0000 && used == CountUsed(Map(), f)
      {
        var t := BmTest(f);
        if t {
          used := used + 1;
        }
        f := f + 1;
      }
    }

    method SetAll()
      requires bitmap.Length == 0x2_0000
      modifies bitmap
      ensures forall f :: 0 <= f < 0x10_0000 ==> Map()[f]
    {
      var i := 0;
      while i < bitmap.Length
        invariant 0 <= i <= bitmap.Length
        invariant forall k :: 0 <= k < i ==> bitmap[k] == 0xFF
      {
        bitmap[i] := 0xFF;
        i := i + 1;
      }
      AllSet(bitmap[..]);
      assert forall k :: 0 <= k < bitmap.Length ==> bitmap[..][k] == bitmap[k];
    }

    /** The loop over the firmware's ranges. */
    method ReleaseRanges(ranges: seq<E820>)
      requires bitmap.Length == 0x2_0000 && total == 0 && forall f :: 0 <= f < 0x10_0000 ==> Map()[f]
      modifies this`total, bitmap
      ensures forall f :: 0 <= f < 0x10_0000 ==> (!Map()[f] <==> CoveredBy(ranges, f))
      ensures forall f :: total <= f < 0x10_0000 ==> Map()[f]
    {
      hide Bit, Mask, CountUsed;
      var i := 0;
      while i < |ranges|
        invariant 0 <= i <= |ranges|
        invariant forall f :: 0 <= f < 0x10_0000 ==> (!Map()[f] <==> CoveredBy(ranges[..i], f))
        invariant forall f :: total <= f < 0x10_0000 ==> Map()[f]
      {
        CoveredMore(ranges, i);
        if ranges[i].kind == 1 {
          var stop := ranges[i].Stop();
          ReleaseRange(ranges[i].Start(), stop);
          if stop > total {
            total := stop;
          }
        }
        i := i + 1;
      }
      assert ranges[..i] == ranges;
    }

    method ReleaseRange(start: nat, stop: nat)
      requires bitmap.Length == 0x2_0000
      modifies bitmap
      ensures forall k :: 0 <= k < 0x10_0000 ==> (Map()[k] <==> old(Map())[k] && !(start <= k < stop))
    {
      hide Bit, Mask, CountUsed;
      var f := start;
      while f < stop && f < 0x10_0000
        invariant start <= f && (f <= stop || f == start)
        invariant forall k :: 0 <= k < 0x10_0000 ==> (Map()[k] <==> old(Map())[k] && !(start <= k < f))
      {
        BmClear(f);
        f := f + 1;
      }
    }

    method ReserveLow()
      requires bitmap.Length == 0x2_0000
      modifies bitmap
      ensures forall k :: 0 <= k < 0x10_0000 ==> (Map()[k] <==> old(Map())[k] || k < 512)
    {
      hide Bit, Mask, CountUsed;
      var f := 0;
      while f < 512
        invariant 0 <= f <= 512
        invariant forall k :: 0 <= k < 0x10_0000 ==> (Map()[k] <==> old(Map())[k] || k < f)
      {
        BmSet(f);
        f := f + 1;
      }
    }

    /** pmm_alloc: the first clear frame below the total, marked used; its address, or 0 when there is none. A clear
        frame 0 would be taken and reported as 0. */
    method Alloc() returns (addr: nat, ghost f: nat)
      requires Valid()
      modifies this`used, bitmap
      ensures Valid() && f <= total
      ensures forall k :: 0 <= k < f ==> old(Map())[k]
      ensures f == total ==> addr == 0 && Map() == old(Map())
      ensures f < total ==> addr == 4096 * f && !old(Map())[f] && Map() == old(Map())[f := true]
    {
      hide Bit, Mask;
      f := 0;
      var i := 0;
      while i < total
        invariant 0 <= i <= total && f == i && Map() == old(Map()) && used == old(used)
        invariant forall k :: 0 <= k < i ==> Map()[k]
      {
        var t := BmTest(i);
        if !t {
          CountUpdate(Map(), i, true, total);
          BmSet(i);
          used := used + 1;
          return 4096 * i, i;
        }
        i := i + 1;
        f := i;
      }
      addr := 0;
    }

    /** Whether `count` frames from `i` on are clear. */
    method TestRun(i: nat, count: nat) returns (ok: bool)
      requires Valid() && i + count <= total
      ensures ok <==> ClearRun(Map(), i, count)
    {
      hide Bit, Mask, CountUsed;
      var j := 0;
      while j < count
        invariant 0 <= j <= count && forall k :: i <= k < i + j ==> !Map()[k]
      {
        var t := BmTest(i + j);
        if t {
          return false;
        }
        j := j + 1;
      }
      ok := true;
    }

    /** Takes them. */
    method MarkRun(i: nat, count: nat)
      requires Valid() && i + count <= total && ClearRun(Map(), i, count)
      modifies this`used, bitmap
      ensures Valid() && Map() == Marked(old(Map()), i, count)
    {
      hide Bit, Mask, CountUsed;
      CountMarked(Map(), i, count, total);
      var j := 0;
      while j < count
        invariant 0 <= j <= count && used == old(used)
        invariant Map() == Marked(old(Map()), i, j)
      {
        BmSet(i + j);
        j := j + 1;
      }
      used := used + count;
    }

    /** pmm_alloc_contiguous for up to `total` frames: the first clear run that starts below total - count. A run
        that ends exactly at the last frame is not considered, unless it is a single frame. */
    method AllocContiguous(count: nat) returns (addr: nat, ghost f: nat)
      requires Valid() && count <= total
      modifies this`used, bitmap
      ensures Valid()
      ensures count == 0 ==> addr == 0 && Map() == old(Map())
      ensures count > 0 ==> var last := if count == 1 then total else total - count;
                && f <= last
                && (forall k :: 0 <= k < f ==> !ClearRun(old(Map()), k, count))
                && (f == last ==> addr == 0 && Map() == old(Map()))
                && (f < last ==> addr == 4096 * f && ClearRun(old(Map()), f, count) && Map() == Marked(old(Map()), f, count))
    {
      hide Bit, Mask, CountUsed;
      f := 0;
      if count == 0 {
        return 0, 0;
      }
      if count == 1 {
        addr, f := Alloc();
        forall k | 0 <= k < f
          ensures !ClearRun(old(Map()), k, 1)
        {
          assert old(Map())[k];
        }
        return;
      }
      var i := 0;
      while i < total - count
        invariant 0 <= i <= total - count && f == i
        invariant Map() == old(Map()) && used == old(used)
        invariant forall k :: 0 <= k < i ==> !ClearRun(Map(), k, count)
      {
        var ok := TestRun(i, count);
        if ok {
          MarkRun(i, count);
          return 4096 * i, i;
        }
        i := i + 1;
        f := i;
      }
      addr := 0;
    }

    /** pmm_free: clears a used frame below the total; anything else is ignored. */
    method Free(addr: nat)
      requires Valid()
      modifies this`used, bitmap
      ensures Valid()
      ensures Map() == if addr / 4096 < total then old(Map())[addr / 4096 := false] else old(Map())
    {
      var f := addr / 4096;
      if f < total {
        var t := BmTest(f);
        if t {
          CountUpdate(Map(), f, false, total);
          CountPositive(Map(), f, total);
          BmClear(f);
          used := used - 1;
        } else {
          assert Map()[f := false] == Map();
        }
      }
    }
  }

  lemma CountPositive(s: Frames, f: nat, n: nat)
    requires f < n <= |s| && s[f]
    ensures CountUsed(s, n) > 0
  {
    if f < n - 1 {
      CountPositive(s, f, n - 1);
    }
  }

  lemma CoveredMore(ranges: seq<E820>, i: nat)
    requires i < |ranges|
    ensures forall f :: CoveredBy(ranges[..i + 1], f) <==> CoveredBy(ranges[..i], f) || ranges[i].Covers(f)
  {
    forall f
      ensures CoveredBy(ranges[..i + 1], f) <==> CoveredBy(ranges[..i], f) || ranges[i].Covers(f)
    {
      assert forall k :: 0 <= k < i ==> ranges[..i + 1][k] == ranges[..i][k];
      assert ranges[..i + 1][i] == ranges[i];
    }
  }

  lemma AllSet(b: seq<bv8>)
    requires forall k :: 0 <= k < |b| ==> b[k] == 0xFF
    ensures forall k, j :: 0 <= k < |b| && 0 <= j < 8 ==> Bit(b[k], j)
  {
  }
}
