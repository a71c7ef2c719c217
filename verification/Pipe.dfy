/** The kernel's pipes: a 4096-byte ring buffer with a head and a count, refining a bounded queue of bytes. */
module Pipe {
  import opened Bytes

  /** The queued bytes, oldest first: `count` bytes that end just before the head. */
  ghost predicate Queued(buf: seq<byte>, head: nat, count: nat, q: seq<byte>)
  {
    && |buf| == 4096 && head < 4096 && count == |q| <= 4096
    && forall i :: 0 <= i < |q| ==> q[i] == buf[(head + 4096 - count + i) % 4096]
  }

  /** The slot at the head is not one of the queued ones while the buffer is not full. */
  lemma PushKeeps(buf: seq<byte>, head: nat, count: nat, q: seq<byte>, b: byte)
    requires Queued(buf, head, count, q) && count < 4096
    ensures Queued(buf[head := b], (head + 1) % 4096, count + 1, q + [b])
  {
  }

  lemma QueuedBounds(buf: seq<byte>, head: nat, count: nat, q: seq<byte>)
    requires Queued(buf, head, count, q)
    ensures head < 4096 && count == |q| <= 4096
  {
  }

  lemma PopKeeps(buf: seq<byte>, head: nat, count: nat, q: seq<byte>)
    requires Queued(buf, head, count, q) && count > 0
    ensures q[0] == buf[(head + 4096 - count) % 4096] && Queued(buf, head, count - 1, q[1..])
  {
  }

  class Ring {
    const buf: array<byte>
    var head: nat
    var count: nat
    var used: bool
    /** All bytes ever accepted and all bytes ever delivered since the pipe was opened. */
    ghost var accepted: seq<byte>
    ghost var delivered: seq<byte>

    /** What was accepted is what was delivered followed by what is queued. */
    ghost predicate Valid()
      reads this, buf
    {
      buf.Length == 4096 && |delivered| <= |accepted| && delivered == accepted[..|delivered|]
      && Queued(buf[..], head, count, accepted[|delivered|..])
    }

    constructor ()
      ensures buf.Length == 4096 && fresh(buf) && !used
    {
      head, count, used, accepted, delivered := 0, 0, false, [], [];
      buf := new byte[4096];
    }

    method Open()
      requires buf.Length == 4096
      modifies this
      ensures Valid() && used && accepted == [] && delivered == []
    {
      used, head, count := true, 0, 0;
      accepted, delivered := [], [];
    }

    /** Delivers the oldest bytes, as many as asked for and there are. */
    method Read(n: nat) returns (dst: seq<byte>)
      requires Valid()
      modifies this`count, this`delivered
      ensures Valid() && accepted == old(accepted) && delivered == old(delivered) + dst
      ensures |dst| == Min(n, old(count)) && count == old(count) - |dst|
    {
      hide Queued;
      QueuedBounds(buf[..], head, count, accepted[|delivered|..]);
      dst := [];
      while |dst| < n && count > 0
        invariant Valid() && head < 4096 && count <= 4096 && count == |accepted| - |delivered|
        invariant delivered == old(delivered) + dst
        invariant |dst| <= n && count == old(count) - |dst|
      {
        var tail := (head + 4096 - count) % 4096;
        ghost var q := accepted[|delivered|..];
        PopKeeps(buf[..], head, count, q);
        assert accepted[..|delivered| + 1] == delivered + [q[0]];
        dst := dst + [buf[tail]];
        count := count - 1;
        delivered := delivered + [buf[tail]];
        assert accepted[|delivered|..] == q[1..];
      }
    }

    /** Accepts the first bytes given, as many as there is room for. */
    method Write(src: seq<byte>) returns (n: nat)
      requires Valid()
      modifies this`head, this`count, this`accepted, buf
      ensures n == Min(|src|, 4096 - old(count)) && count == old(count) + n
      ensures Valid() && delivered == old(delivered) && accepted == old(accepted) + src[..n]
    {
      hide Queued;
      QueuedBounds(buf[..], head, count, accepted[|delivered|..]);
      n := 0;
      while n < |src| && count < 4096
        invariant n <= |src| && count == old(count) + n && Valid() && head < 4096 && count <= 4096
        invariant accepted == old(accepted) + src[..n]
      {
        ghost var q := accepted[|delivered|..];
        PushKeeps(buf[..], head, count, q, src[n]);
        ghost var was := buf[..];
        buf[head] := src[n];
        assert buf[..] == was[head := src[n]];
        accepted := accepted + [src[n]];
        assert accepted[|delivered|..] == q + [src[n]];
        n := n + 1;
        head := (head + 1) % 4096;
        count := count + 1;
      }
    }
  }

  /** The pipe table: the first unused pipe is handed out. */
  class Table {
    const pipes: seq<Ring>

    ghost predicate Valid()
      reads this, pipes
    {
      |pipes| == 16 && (forall i :: 0 <= i < 16 ==> pipes[i].buf.Length == 4096)
      && forall i, j :: 0 <= i < j < 16 ==> pipes[i] != pipes[j] && pipes[i].buf != pipes[j].buf
    }

    constructor (pipes: seq<Ring>)
      requires |pipes| == 16 && (forall i :: 0 <= i < 16 ==> pipes[i].buf.Length == 4096)
      requires forall i, j :: 0 <= i < j < 16 ==> pipes[i] != pipes[j] && pipes[i].buf != pipes[j].buf
      ensures Valid() && this.pipes == pipes
    {
      this.pipes := pipes;
    }

    /** Fails only if all sixteen are in use; never hands out a pipe in use, and leaves the others alone. */
    method Alloc() returns (p: Ring?)
      requires Valid()
      modifies pipes
      ensures p == null <==> forall i :: 0 <= i < 16 ==> old(pipes[i].used)
      ensures p != null ==> p in pipes && !old(p.used) && p.Valid() && p.used && p.accepted == []
      ensures forall i :: 0 <= i < 16 && pipes[i] != p ==> unchanged(pipes[i])
    {
      var i := 0;
      while i < 16
        invariant i <= 16 && forall k :: 0 <= k < i ==> old(pipes[k].used)
        invariant unchanged(pipes)
      {
        if !pipes[i].used {
          p := pipes[i];
          p.Open();
          return;
        }
        i := i + 1;
      }
      p := null;
    }
  }
}
