/** The shell's path handling: collapsing "." , ".." and repeated slashes of an absolute path, and resolving a path
    against the working directory. Strings are byte sequences without their terminating zero. */
module ShellPath {
  import opened Bytes

  type Text = seq<byte>

  const SLASH: byte := 47

  /** Index of the first slash, or the length. */
  function NextSlash(s: Text): (n: nat)
    ensures n <= |s| && (n < |s| ==> s[n] == 47) && forall i :: 0 <= i < n ==> s[i] != 47
  {
    if s == [] || s[0] == 47 then 0 else
      assert forall i :: 1 <= i < 1 + NextSlash(s[1..]) ==> s[i] == s[1..][i - 1];
      1 + NextSlash(s[1..])
  }

  /** The non-empty pieces between slashes. */
  function Components(s: Text): seq<Text>
    decreases |s|
  {
    if s == [] then []
    else if s[0] == 47 then Components(s[1..])
    else [s[..NextSlash(s)]] + Components(s[NextSlash(s)..])
  }

  predicate IsDot(c: Text) { c == [46] }

  predicate IsDotDot(c: Text) { c == [46, 46] }

  /** A component as it may stand in a normal path. */
  predicate Plain(c: Text) { c != [] && !IsDot(c) && !IsDotDot(c) && 47 !in c }

  /** Walking the components over a stack of names: "." stays, ".." goes up but not above the root, a name goes down,
      33 levels deep fails. */
  function Walk(stack: seq<Text>, comps: seq<Text>): Option<seq<Text>>
    decreases |comps|
  {
    if comps == [] then Some(stack)
    else if IsDot(comps[0]) then Walk(stack, comps[1..])
    else if IsDotDot(comps[0]) then Walk(if stack == [] then [] else stack[..|stack| - 1], comps[1..])
    else if |stack| >= 32 then None
    else Walk(stack + [comps[0]], comps[1..])
  }

  function Joined(stack: seq<Text>): Text { if stack == [] then [] else [SLASH] + stack[0] + Joined(stack[1..]) }

  /** The absolute path that names the stack. */
  function Rendered(stack: seq<Text>): Text { if stack == [] then [SLASH] else Joined(stack) }

  /** The normal form of a path, for a buffer of `max` bytes with the terminator. */
  function Normal(s: Text, max: nat): Option<Text>
  {
    match Walk([], Components(s))
    case None => None
    case Some(stack) => if |Rendered(stack)| < max then Some(Rendered(stack)) else None
  }

  lemma {:induction false} ComponentsPlain(s: Text, i: nat)
    requires i < |Components(s)|
    ensures Components(s)[i] != [] && 47 !in Components(s)[i]
    decreases |s|
  {
    if s != [] && s[0] == 47 {
      ComponentsPlain(s[1..], i);
    } else if i > 0 {
      ComponentsPlain(s[NextSlash(s)..], i - 1);
    }
  }

  predicate AllPlain(stack: seq<Text>) { forall i :: 0 <= i < |stack| ==> Plain(stack[i]) }

  lemma {:induction false} WalkPlain(stack: seq<Text>, comps: seq<Text>)
    requires AllPlain(stack) && |stack| <= 32
    requires forall i :: 0 <= i < |comps| ==> comps[i] != [] && 47 !in comps[i]
    ensures Walk(stack, comps).Some? ==> AllPlain(Walk(stack, comps).value) && |Walk(stack, comps).value| <= 32
    decreases |comps|
  {
    if comps != [] {
      var next := if IsDot(comps[0]) then stack
                  else if IsDotDot(comps[0]) then if stack == [] then [] else stack[..|stack| - 1]
                  else stack + [comps[0]];
      if |next| <= 32 {
        WalkPlain(next, comps[1..]);
      }
    }
  }

  /** Components of a text that starts with a slash-free piece followed by a slash or the end. */
  lemma FirstComponent(c: Text, rest: Text)
    requires c != [] && 47 !in c && (rest != [] ==> rest[0] == 47)
    ensures Components(c + rest) == [c] + Components(rest)
  {
    var s := c + rest;
    assert s[0] == c[0] && c[0] in c;
    forall i | 0 <= i < |c|
      ensures s[i] != 47
    {
      assert s[i] == c[i] && c[i] in c;
    }
    assert rest != [] ==> s[|c|] == rest[0];
    assert NextSlash(s) == |c|;
    assert s[..|c|] == c && s[|c|..] == rest;
  }

  lemma {:induction false} JoinedComponents(stack: seq<Text>)
    requires AllPlain(stack)
    ensures Components(Joined(stack)) == stack && (stack != [] ==> Joined(stack)[0] == 47)
    decreases |stack|
  {
    if stack != [] {
      assert Plain(stack[0]);
      JoinedComponents(stack[1..]);
      assert Joined(stack) == [SLASH] + (stack[0] + Joined(stack[1..]));
      assert Joined(stack)[1..] == stack[0] + Joined(stack[1..]);
      FirstComponent(stack[0], Joined(stack[1..]));
    }
  }

  /** Walking plain components just goes down. */
  lemma {:induction false} WalkDown(stack: seq<Text>, comps: seq<Text>)
    requires AllPlain(comps) && |stack| + |comps| <= 32
    ensures Walk(stack, comps) == Some(stack + comps)
    decreases |comps|
  {
    if comps == [] {
      assert stack + [] == stack;
    } else {
      assert Plain(comps[0]);
      WalkDown(stack + [comps[0]], comps[1..]);
      assert stack + [comps[0]] + comps[1..] == stack + comps;
    }
  }

  /** A normal form fits its buffer with the terminator, has only plain components, and is its own normal form. */
  lemma NormalIsNormal(s: Text, max: nat)
    requires Normal(s, max).Some?
    ensures var r := Normal(s, max).value;
            |r| + 1 <= max && r[0] == SLASH && AllPlain(Components(r)) && |Components(r)| <= 32
            && Normal(r, max) == Some(r)
  {
    hide Components, Walk, Joined;
    forall i | 0 <= i < |Components(s)|
      ensures Components(s)[i] != [] && 47 !in Components(s)[i]
    {
      ComponentsPlain(s, i);
    }
    WalkPlain([], Components(s));
    var stack := Walk([], Components(s)).value;
    JoinedComponents(stack);
    RootComponents();
    WalkDown([], stack);
    assert [] + stack == stack;
  }

  lemma RootComponents()
    ensures Components([SLASH]) == []
  {
    assert [SLASH][1..] == [];
  }

  /** Walking in two parts. */
  lemma {:induction false} WalkApp(stack: seq<Text>, a: seq<Text>, b: seq<Text>)
    ensures Walk(stack, a + b) == match Walk(stack, a) case None => None case Some(t) => Walk(t, b)
    decreases |a|
  {
    if a == [] {
      assert a + b == b;
    } else {
      assert (a + b)[1..] == a[1..] + b && (a + b)[0] == a[0];
      if IsDot(a[0]) {
        WalkApp(stack, a[1..], b);
      } else if IsDotDot(a[0]) {
        WalkApp(if stack == [] then [] else stack[..|stack| - 1], a[1..], b);
      } else if |stack| < 32 {
        WalkApp(stack + [a[0]], a[1..], b);
      }
    }
  }

  lemma SlashSame(a: Text, b: Text)
    ensures NextSlash(a + [SLASH] + b) == NextSlash(a)
  {
    var s, n := a + [SLASH] + b, NextSlash(a);
    assert forall i :: 0 <= i < |a| ==> s[i] == a[i];
    assert s[n] == if n < |a| then a[n] else SLASH;
  }

  lemma ComponentsStep(s: Text)
    requires s != []
    ensures Components(s) == if s[0] == 47 then Components(s[1..]) else [s[..NextSlash(s)]] + Components(s[NextSlash(s)..])
    ensures s[0] != 47 ==> NextSlash(s) > 0
  {
  }

  lemma {:induction false} ComponentsJoin(a: Text, b: Text)
    ensures Components(a + [SLASH] + b) == Components(a) + Components(b)
    decreases |a|
  {
    hide NextSlash, Components;
    var s := a + [SLASH] + b;
    ComponentsStep(s);
    if a == [] {
      assert s[1..] == b;
      NoComponents();
    } else {
      ComponentsStep(a);
      if a[0] == 47 {
        assert s[1..] == a[1..] + [SLASH] + b;
        ComponentsJoin(a[1..], b);
      } else {
        var n := NextSlash(a);
        SlashSame(a, b);
        assert s[..n] == a[..n] && s[n..] == a[n..] + [SLASH] + b;
        ComponentsJoin(a[n..], b);
      }
    }
  }

  /** The components of an absolute path walked from where the working directory leads: what a relative path means. */
  lemma RelativeMeans(cwd: Text, input: Text)
    ensures Walk([], Components(cwd + [SLASH] + input)) ==
            match Walk([], Components(cwd)) case None => None case Some(t) => Walk(t, Components(input))
  {
    ComponentsJoin(cwd, input);
    WalkApp([], Components(cwd), Components(input));
  }

  // What the dots do

  /** The names that are left, seen from the end: each ".." takes the nearest name in front of it that is not taken
      yet; `taken` of them are still to be. */
  function Surviving(comps: seq<Text>, taken: nat): seq<Text>
    decreases |comps|
  {
    if comps == [] then []
    else
      var front, c := comps[..|comps| - 1], comps[|comps| - 1];
      if IsDot(c) then Surviving(front, taken)
      else if IsDotDot(c) then Surviving(front, taken + 1)
      else if taken > 0 then Surviving(front, taken - 1)
      else Surviving(front, 0) + [c]
  }

  /** Some part of the way is more than 32 names deep. */
  predicate TooDeep(comps: seq<Text>) { exists i :: 0 <= i <= |comps| && |Surviving(comps[..i], 0)| > 32 }

  function WithoutLast(stack: seq<Text>, n: nat): (r: seq<Text>)
    ensures n == 0 ==> r == stack
  {
    if n <= |stack| then stack[..|stack| - n] else []
  }

  /** One more component at the end of a path. */
  lemma WalkSnoc(comps: seq<Text>, c: Text)
    ensures Walk([], comps + [c]) ==
            match Walk([], comps)
            case None => None
            case Some(t) => if IsDot(c) then Some(t) else if IsDotDot(c) then Some(WithoutLast(t, 1))
                            else if |t| >= 32 then None else Some(t + [c])
  {
    WalkApp([], comps, [c]);
    assert [c][1..] == [] && [c][0] == c;
  }

  lemma {:induction false} SurvivingWalk(comps: seq<Text>, taken: nat)
    ensures Walk([], comps).Some? ==> Surviving(comps, taken) == WithoutLast(Walk([], comps).value, taken)
    ensures Walk([], comps).Some? ==> |Walk([], comps).value| <= 32
    decreases |comps|
  {
    hide Walk;
    WalkNothing();
    if comps != [] {
      var front, c := comps[..|comps| - 1], comps[|comps| - 1];
      assert comps == front + [c];
      WalkSnoc(front, c);
      SurvivingWalk(front, taken);
      SurvivingWalk(front, taken + 1);
      SurvivingWalk(front, if taken > 0 then taken - 1 else 0);
    }
  }

  lemma WalkNothing()
    ensures Walk([], []) == Some([]) && Surviving([], 0) == []
  {
  }

  /** Walking from the front over a stack and taking names from the end come to the same. */
  lemma {:induction false} WalkIs(comps: seq<Text>)
    ensures Walk([], comps) == if TooDeep(comps) then None else Some(Surviving(comps, 0))
    decreases |comps|
  {
    hide Walk, Surviving, TooDeep;
    WalkNothing();
    NeverDeep();
    if comps != [] {
      var front, c := comps[..|comps| - 1], comps[|comps| - 1];
      assert comps == front + [c];
      WalkIs(front);
      WalkSnoc(front, c);
      SurvivingWalk(front, 0);
      SurvivingWalk(comps, 0);
      SurvivingSnoc(front, c);
      TooDeepSnoc(front, c);
    }
  }

  lemma NeverDeep()
    ensures !TooDeep([])
  {
  }

  lemma TooDeepSnoc(front: seq<Text>, c: Text)
    ensures TooDeep(front + [c]) <==> TooDeep(front) || |Surviving(front + [c], 0)| > 32
  {
    hide Surviving;
    var comps := front + [c];
    assert comps[..|comps|] == comps;
    assert forall i :: 0 <= i <= |front| ==> comps[..i] == front[..i];
    if TooDeep(front) {
      var i :| 0 <= i <= |front| && |Surviving(front[..i], 0)| > 32;
      assert comps[..i] == front[..i];
    }
  }

  lemma SurvivingSnoc(front: seq<Text>, c: Text)
    ensures !IsDot(c) && !IsDotDot(c) ==> Surviving(front + [c], 0) == Surviving(front, 0) + [c]
  {
    assert (front + [c])[..|front|] == front;
  }

  /** The normal form of any path: the slashes' pieces that survive. */
  lemma NormalIs(s: Text, max: nat)
    ensures Normal(s, max) == if TooDeep(Components(s)) || |Rendered(Surviving(Components(s), 0))| >= max then None
                              else Some(Rendered(Surviving(Components(s), 0)))
  {
    hide Walk, Surviving, TooDeep, Components;
    WalkIs(Components(s));
  }

  lemma OnePiece(c: Text)
    requires c != [] && 47 !in c
    ensures Components(c) == [c]
  {
    FirstComponent(c, []);
    NoComponents();
    assert c + [] == c;
  }

  const DOT: Text := [46]
  const DOTDOT: Text := [46, 46]

  /** Behind any path: "." and a slash at the end change nothing, a name and ".." behind it nothing either unless the name
      lies too deep. */
  lemma DotsDo(p: Text, n: Text, max: nat)
    requires Plain(n)
    ensures Normal(p + [SLASH] + DOT, max) == Normal(p + [SLASH], max) == Normal(p, max)
    ensures Normal(p + [SLASH] + n + [SLASH] + DOTDOT, max) ==
            if Walk([], Components(p)).Some? && |Walk([], Components(p)).value| == 32 then None else Normal(p, max)
  {
    hide Walk, Components, Joined;
    var a, b := Components(p), Components(p + [SLASH] + n);
    ComponentsJoin(p, DOT);
    ComponentsJoin(p, []);
    ComponentsJoin(p, n);
    ComponentsJoin(p + [SLASH] + n, DOTDOT);
    OnePiece(DOT);
    OnePiece(n);
    OnePiece(DOTDOT);
    NoComponents();
    assert p + [SLASH] + [] == p + [SLASH] && a + [] == a;
    WalkSnoc(a, DOT);
    WalkSnoc(a, n);
    WalkSnoc(b, DOTDOT);
    SurvivingWalk(a, 0);
  }

  /** Few components never lie too deep. */
  lemma {:induction false} WalkShallow(stack: seq<Text>, comps: seq<Text>)
    requires |stack| + |comps| <= 32
    ensures Walk(stack, comps).Some? && |Walk(stack, comps).value| <= |stack| + |comps|
    decreases |comps|
  {
    if comps != [] {
      WalkShallow(if IsDot(comps[0]) then stack else if IsDotDot(comps[0]) then WithoutLast(stack, 1) else stack + [comps[0]], comps[1..]);
    }
  }

  lemma DownAndUp(p: Text, n: Text, max: nat)
    requires Plain(n) && |Components(p)| <= 31
    ensures Normal(p + [SLASH] + n + [SLASH] + DOTDOT, max) == Normal(p, max)
  {
    hide Walk, Components, Normal, Rendered;
    DotsDo(p, n, max);
    WalkShallow([], Components(p));
  }

  /** From a normal path ".." leads to the one without the last name, and from the root to the root; a name leads to the
      one with that name behind it. */
  lemma ParentIs(stack: seq<Text>, n: Text, max: nat)
    requires AllPlain(stack) && |stack| <= 32 && Plain(n)
    ensures var up := if stack == [] then [] else stack[..|stack| - 1];
            Normal(Rendered(stack) + [SLASH] + DOTDOT, max) == if |Rendered(up)| < max then Some(Rendered(up)) else None
    ensures Normal(Rendered(stack) + [SLASH] + n, max) ==
            if |stack| < 32 && |Rendered(stack + [n])| < max then Some(Rendered(stack + [n])) else None
  {
    hide Walk, Components, Joined, Rendered;
    RenderedWalked(stack);
    ComponentsJoin(Rendered(stack), DOTDOT);
    ComponentsJoin(Rendered(stack), n);
    OnePiece(DOTDOT);
    OnePiece(n);
    WalkSnoc(Components(Rendered(stack)), DOTDOT);
    WalkSnoc(Components(Rendered(stack)), n);
  }

  // The code

  ghost predicate Holds(s: Text, starts: seq<nat>, lens: seq<nat>, n: nat, stack: seq<Text>)
  {
    && n <= |starts| && |starts| == |lens| && |stack| == n
    && forall i :: 0 <= i < n ==> starts[i] + lens[i] <= |s| && stack[i] == s[starts[i]..starts[i] + lens[i]]
  }

  lemma HoldsNone(s: Text, starts: seq<nat>, lens: seq<nat>)
    requires |starts| == |lens|
    ensures Holds(s, starts, lens, 0, [])
  {
  }

  lemma HoldsPush(s: Text, starts: seq<nat>, lens: seq<nat>, n: nat, stack: seq<Text>, start: nat, len: nat)
    requires Holds(s, starts, lens, n, stack) && n < |starts| && start + len <= |s|
    ensures Holds(s, starts[n := start], lens[n := len], n + 1, stack + [s[start..start + len]])
  {
  }

  lemma HoldsPop(s: Text, starts: seq<nat>, lens: seq<nat>, n: nat, stack: seq<Text>)
    requires Holds(s, starts, lens, n, stack) && n > 0
    ensures Holds(s, starts, lens, n - 1, stack[..n - 1])
  {
  }

  lemma SkipSlash(s: Text, p: nat)
    requires p < |s| && s[p] == 47
    ensures Components(s[p..]) == Components(s[p + 1..])
  {
    assert s[p..][1..] == s[p + 1..];
  }

  lemma TakeComponent(s: Text, start: nat, p: nat)
    requires start < p <= |s| && (p < |s| ==> s[p] == 47) && forall i :: start <= i < p ==> s[i] != 47
    ensures Components(s[start..]) == [s[start..p]] + Components(s[p..])
  {
    var t := s[start..];
    assert p < |s| ==> t[p - start] == 47;
    assert forall i :: 0 <= i < p - start ==> t[i] == s[start + i];
    assert NextSlash(t) == p - start && t[..p - start] == s[start..p] && t[p - start..] == s[p..];
  }

  lemma NameShape(s: Text, start: nat, p: nat)
    requires start < p <= |s|
    ensures IsDot(s[start..p]) <==> p == start + 1 && s[start] == 46
    ensures IsDotDot(s[start..p]) <==> p == start + 2 && s[start] == 46 && s[start + 1] == 46
  {
    var c := s[start..p];
    assert c[0] == s[start] && (p == start + 2 ==> c[1] == s[start + 1]);
    assert IsDot(c) ==> |c| == 1;
    assert IsDotDot(c) ==> |c| == 2;
  }

  /** Collects the names a path leads down, as places in `s`. */
  method Collect(s: Text, starts: array<nat>, lens: array<nat>) returns (n: int, ghost stack: seq<Text>)
    requires starts.Length == lens.Length == 32 && starts != lens
    modifies starts, lens
    ensures n == -1 <==> Walk([], Components(s)) == None
    ensures n != -1 ==> 0 <= n == |stack| <= 32 && Walk([], Components(s)) == Some(stack) && Holds(s, starts[..], lens[..], n, stack)
    ensures n != -1 ==> forall i :: 0 <= i < n ==> stack[i] != []
  {
    hide Components, Holds, IsDot, IsDotDot;
    var nseg, p: nat := 0, 0;
    stack := [];
    assert s[0..] == s;
    assert Holds(s, starts[..], lens[..], 0, []) by { HoldsNone(s, starts[..], lens[..]); }
    while p < |s|
      invariant p <= |s| && nseg == |stack| <= 32 && Holds(s, starts[..], lens[..], nseg, stack)
      invariant forall i :: 0 <= i < nseg ==> stack[i] != []
      invariant Walk([], Components(s)) == Walk(stack, Components(s[p..]))
      decreases |s| - p
    {
      ghost var q, a, b := p, starts[..], lens[..];
      while p < |s| && s[p] == 47
        invariant q <= p <= |s| && Components(s[p..]) == Components(s[q..])
        modifies {}
      {
        SkipSlash(s, p);
        p := p + 1;
      }
      if p == |s| {
        assert starts[..] == a && lens[..] == b;
        break;
      }
      var start: nat := p;
      while p < |s| && s[p] != 47
        invariant start <= p <= |s| && forall i :: start <= i < p ==> s[i] != 47
        modifies {}
      {
        p := p + 1;
      }
      var len: nat := p - start;
      assert starts[..] == a && lens[..] == b;
      TakeComponent(s, start, p);
      ghost var c := s[start..p];
      NameShape(s, start, p);
      if len == 1 && s[start] == 46 {
        assert IsDot(c);
      } else if len == 2 && s[start] == 46 && s[start + 1] == 46 {
        assert IsDotDot(c) && !IsDot(c);
        if nseg > 0 {
          HoldsPop(s, a, b, nseg, stack);
          nseg := nseg - 1;
          stack := stack[..nseg];
        }
      } else {
        assert !IsDot(c) && !IsDotDot(c);
        if nseg >= 32 {
          return -1, [];
        }
        HoldsPush(s, a, b, nseg, stack, start, len);
        starts[nseg], lens[nseg] := start, len;
        assert starts[..] == a[nseg := start] && lens[..] == b[nseg := len];
        stack := stack + [c];
        nseg := nseg + 1;
      }
    }
    assert s[|s|..] == [] && Components([]) == [] by { NoComponents(); }
    n := nseg;
  }

  lemma NoComponents()
    ensures Components([]) == []
  {
  }

  /** Puts a name into the buffer, behind a slash unless it is the first one, if it fits with a byte to spare. */
  method AppendName(s: Text, from: nat, len: nat, first: bool, out: array<byte>, start: nat, max: nat) returns (ok: bool, pos: nat)
    requires from + len <= |s| && 0 < len && start <= max <= out.Length && max > 0
    modifies out
    ensures ok <==> start + (if first then 0 else 1) + len < max
    ensures ok ==> pos == start + (if first then 0 else 1) + len
    ensures ok ==> out[..pos] == old(out[..start]) + (if first then [] else [SLASH]) + s[from..from + len]
    ensures out[max..] == old(out[max..])
  {
    pos := start;
    if !first {
      if pos >= max - 1 {
        return false, pos;
      }
      out[pos] := SLASH;
      pos := pos + 1;
    }
    if pos + len >= max {
      return false, pos;
    }
    forall k | 0 <= k < len {
      out[pos + k] := s[from + k];
    }
    SameRun(out[..], pos, s, from, len);
    assert out[pos..pos + len] == out[..][pos..pos + len];
    assert out[..pos + len] == out[..pos] + out[pos..pos + len];
    return true, pos + len;
  }

  lemma SameRun(a: Text, p: nat, s: Text, from: nat, len: nat)
    requires p + len <= |a| && from + len <= |s| && forall k :: p <= k < p + len ==> a[k] == s[from + (k - p)]
    ensures a[p..p + len] == s[from..from + len]
  {
  }

  lemma HoldsAt(s: Text, starts: seq<nat>, lens: seq<nat>, n: nat, stack: seq<Text>, i: nat)
    requires Holds(s, starts, lens, n, stack) && i < n
    ensures i < |starts| && i < |lens| && i < |stack|
    ensures starts[i] + lens[i] <= |s| && stack[i] == s[starts[i]..starts[i] + lens[i]]
  {
  }

  /** The path leads to the root and the buffer has one byte: the code then puts the terminator behind it. */
  predicate Overruns(s: Text, max: nat) { max == 1 && Walk([], Components(s)) == Some([]) }

  lemma RootOverruns()
    ensures Overruns([SLASH], 1) && Overruns([], 1)
  {
  }

  /** Normalises a path into a buffer of `max` bytes at the start of `out`. */
  method NormalizePath(s: Text, out: array<byte>, max: nat) returns (ok: bool)
    requires max <= out.Length && (max == 1 ==> out.Length > 1)
    modifies out
    ensures ok <==> Normal(s, max).Some? || Overruns(s, max)
    ensures Normal(s, max).Some? ==> var r := Normal(s, max).value; |r| < max && out[..|r|] == r && out[|r|] == 0
    ensures out[max..] == if Overruns(s, max) then [0] + old(out[2..]) else old(out[max..])
  {
    hide Components, Walk, Joined, Holds;
    var starts, lens := new nat[32], new nat[32];
    var n, stack := Collect(s, starts, lens);
    if n == -1 {
      return false;
    }
    ok := Render(s, starts, lens, n, stack, out, max);
  }

  method Render(s: Text, starts: array<nat>, lens: array<nat>, n: nat, ghost stack: seq<Text>, out: array<byte>, max: nat)
    returns (ok: bool)
    requires Holds(s, starts[..], lens[..], n, stack) && |stack| == n && max <= out.Length && (max == 1 ==> out.Length > 1)
    requires forall i :: 0 <= i < n ==> stack[i] != []
    modifies out
    ensures ok <==> |Rendered(stack)| < max || (max == 1 && n == 0)
    ensures |Rendered(stack)| < max ==> out[..|Rendered(stack)|] == Rendered(stack) && out[|Rendered(stack)|] == 0
    ensures out[max..] == if max == 1 && n == 0 then [0] + old(out[2..]) else old(out[max..])
  {
    hide Joined, Holds;
    ghost var a, b := starts[..], lens[..];
    RenderedLong(stack);
    if 0 >= max {
      return false;
    }
    out[0] := SLASH;
    var pos: nat, i: nat := 1, 0;
    JoinedNone();
    while i < n
      invariant i <= n && 1 <= pos <= max && (pos == max ==> i == 0 && max == 1) && out[..pos] == (if i == 0 then [SLASH] else Joined(stack[..i]))
      invariant out[max..] == old(out[max..])
      modifies out
    {
      HoldsAt(s, a, b, n, stack, i);
      JoinedNext(stack, i);
      JoinedMore(stack, i + 1);
      var fits, next := AppendName(s, starts[i], lens[i], i == 0, out, pos, max);
      if !fits {
        return false;
      }
      pos := next;
      i := i + 1;
    }
    assert stack[..n] == stack;
    ghost var rest := out[max..];
    out[pos] := 0;
    assert pos == max ==> out[max..] == [0] + rest[1..];
    ok := true;
  }

  lemma RenderedLong(stack: seq<Text>)
    ensures |Rendered(stack)| > 0 && stack[..0] == []
  {
  }

  lemma JoinedNone()
    ensures Joined([]) == []
  {
  }

  lemma {:induction false} JoinedNext(stack: seq<Text>, i: nat)
    requires i < |stack|
    ensures Joined(stack[..i + 1]) == Joined(stack[..i]) + [SLASH] + stack[i]
    decreases i
  {
    var t := stack[..i + 1];
    if i > 0 {
      JoinedNext(stack[1..], i - 1);
      assert t[1..] == stack[1..][..i] && stack[..i][1..] == stack[1..][..i - 1];
    } else {
      assert t[1..] == [] && stack[..0] == [];
    }
  }

  /** A longer stack renders longer. */
  lemma {:induction false} JoinedMore(stack: seq<Text>, i: nat)
    requires i <= |stack|
    ensures |Joined(stack[..i])| <= |Joined(stack)|
    decreases |stack| - i
  {
    if i < |stack| {
      JoinedNext(stack, i);
      JoinedMore(stack, i + 1);
    } else {
      assert stack[..i] == stack;
    }
  }

  // Resolving against the working directory

  /** The text that resolve_path normalises: the working directory for an empty input, an absolute input itself, cut
      to the 512-byte buffer, or both joined if they fit. */
  function Combined(cwd: Text, input: Text): Option<Text>
  {
    if input == [] then Some(if |cwd| <= 511 then cwd else cwd[..511])
    else if input[0] == 47 then Some(if |input| <= 511 then input else input[..511])
    else if |cwd| + 1 + |input| >= 512 then None
    else Some(cwd + [SLASH] + input)
  }

  /** The combined text leaves room for its terminator in 512 bytes, and is all of what it is made of if that does. */
  lemma CombinedFits(cwd: Text, input: Text)
    ensures var whole := if input == [] then cwd else if input[0] == 47 then input else cwd + [SLASH] + input;
            match Combined(cwd, input)
            case None => |whole| >= 512
            case Some(c) => |c| < 512 && c == (if |whole| < 512 then whole else whole[..511])
  {
  }

  method ResolvePath(cwd: Text, input: Text, out: array<byte>, max: nat) returns (ok: bool)
    requires max <= out.Length && (max == 1 ==> out.Length > 1)
    modifies out
    ensures ok <==> Combined(cwd, input).Some? && (Normal(Combined(cwd, input).value, max).Some? || Overruns(Combined(cwd, input).value, max))
    ensures Combined(cwd, input).Some? && Normal(Combined(cwd, input).value, max).Some? ==>
              var r := Normal(Combined(cwd, input).value, max).value; |r| < max && out[..|r|] == r && out[|r|] == 0
    ensures out[max..] == if Combined(cwd, input).Some? && Overruns(Combined(cwd, input).value, max) then [0] + old(out[2..]) else old(out[max..])
  {
    hide Normal, Overruns;
    var combined: Text;
    if |input| == 0 {
      combined := if |cwd| <= 511 then cwd else cwd[..511];
    } else if input[0] == SLASH {
      combined := if |input| <= 511 then input else input[..511];
    } else {
      if |cwd| + 1 + |input| >= 512 {
        return false;
      }
      combined := cwd + [SLASH] + input;
    }
    ok := NormalizePath(combined, out, max);
  }

  /** From a normal working directory, an absolute path of less than 512 bytes leads where it leads from anywhere, a relative
      one, if it fits, where walking its own components from there leads, and the empty path leads nowhere else. */
  lemma ResolveMeans(stack: seq<Text>, input: Text, max: nat)
    requires AllPlain(stack) && |stack| <= 32 && |Rendered(stack)| < max <= 256
    ensures input == [] ==> Normal(Combined(Rendered(stack), input).value, max) == Some(Rendered(stack))
    ensures input != [] && input[0] == 47 && |input| < 512 ==> Combined(Rendered(stack), input) == Some(input)
    ensures input != [] && input[0] != 47 ==> (Combined(Rendered(stack), input) == None <==> |Rendered(stack)| + 1 + |input| >= 512)
    ensures input != [] && input[0] != 47 && |Rendered(stack)| + 1 + |input| < 512 ==>
              Normal(Combined(Rendered(stack), input).value, max) ==
              match Walk(stack, Components(input))
              case None => None
              case Some(t) => if |Rendered(t)| < max then Some(Rendered(t)) else None
  {
    hide Components, Walk, Joined, Rendered;
    RenderedWalked(stack);
    RelativeMeans(Rendered(stack), input);
  }

  lemma RenderedWalked(stack: seq<Text>)
    requires AllPlain(stack) && |stack| <= 32
    ensures Walk([], Components(Rendered(stack))) == Some(stack)
  {
    hide Components, Walk, Joined;
    JoinedComponents(stack);
    RootComponents();
    WalkDown([], stack);
    assert [] + stack == stack;
  }
}
