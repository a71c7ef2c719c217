/** Taking paths apart for the VFS: the mount a path belongs to, and the directory and name it ends in. */
module VfsPath {
  import opened Bytes
  import opened ShellPath

  /** Where the last component starts: behind the last slash, or 0. */
  function NameStart(path: Text): (n: nat)
    ensures n <= |path| && (n > 0 ==> path[n - 1] == 47) && forall i :: n <= i < |path| ==> path[i] != 47
  {
    if path == [] || path[|path| - 1] == 47 then |path| else NameStart(path[..|path| - 1])
  }

  function Cut255(s: Text): Text { if |s| <= 255 then s else s[..255] }

  /** Directory and name; nothing for an empty path or one that ends in a slash. */
  function SplitParent(path: Text): Option<(Text, Text)>
  {
    var n := NameStart(path);
    if n == |path| then None else Some((if n == 0 then [] else Cut255(path[..n - 1]), path[n..]))
  }

  method VfsSplitParent(path: Text) returns (r: Option<(Text, Text)>)
    ensures r == SplitParent(path)
  {
    if |path| == 0 {
      return None;
    }
    var slash: nat := |path|;
    while slash > 0 && path[slash - 1] != SLASH
      invariant slash <= |path| && forall i :: slash <= i < |path| ==> path[i] != 47
    {
      slash := slash - 1;
    }
    StartIs(path, slash);
    if slash == |path| {
      return None;
    }
    var parent: Text := [];
    if slash > 0 {
      var plen := slash - 1;
      if plen > 255 {
        plen := 255;
      }
      parent := path[..plen];
      assert path[..slash - 1][..plen] == path[..plen];
    }
    r := Some((parent, path[slash..]));
  }

  lemma StartIs(path: Text, n: nat)
    requires n <= |path| && (n > 0 ==> path[n - 1] == 47) && forall i :: n <= i < |path| ==> path[i] != 47
    ensures NameStart(path) == n
  {
  }

  /** A name alone has an empty directory; behind a slash it has what stands in front of that, up to 255 bytes; a path
      without a name at its end is not split. */
  lemma SplitText(dir: Text, name: Text)
    requires name != [] && 47 !in name
    ensures SplitParent(name) == Some(([], name)) && SplitParent([]) == SplitParent(dir + [SLASH]) == None
    ensures SplitParent(dir + [SLASH] + name) == Some((if |dir| < 256 then dir else dir[..255], name))
  {
    hide NameStart;
    assert forall i :: 0 <= i < |name| ==> name[i] in name;
    StartIs(name, 0);
    StartIs([], 0);
    StartIs(dir + [SLASH], |dir| + 1);
    var s := dir + [SLASH] + name;
    assert forall i :: |dir| < i < |s| ==> s[i] == name[i - |dir| - 1];
    StartIs(s, |dir| + 1);
    assert s[..|dir|] == dir && s[|dir| + 1..] == name && name[0..] == name;
  }

  /** The parts name what the path names: the directory's components followed by the name. Only a directory part of
      more than 255 bytes is cut. */
  lemma ParentMeans(path: Text)
    requires SplitParent(path).Some? && NameStart(path) <= 256
    ensures var (parent, name) := SplitParent(path).value; Components(path) == Components(parent) + [name] && name != [] && 47 !in name
  {
    hide Components, NameStart;
    var n := NameStart(path);
    var name := path[n..];
    assert 47 !in name;
    FirstComponent(name, []);
    NoComponents();
    assert name + [] == name && [name] + [] == [name];
    if n == 0 {
      assert path == name && [] + [name] == [name];
    } else {
      assert path == path[..n - 1] + [SLASH] + name;
      ComponentsJoin(path[..n - 1], name);
    }
  }

  predicate Prefix(a: Text, b: Text) { |a| <= |b| && b[..|a|] == a }

  /** What is left of a path behind its mount point: without a slash that follows, and as it is otherwise. */
  function Rest(full: Text, mount: Text): Text
    requires Prefix(mount, full)
  {
    if |full| > |mount| && full[|mount|] == 47 then full[|mount| + 1..] else full[|mount|..]
  }

  /** A mount point takes every path that starts with it; what follows, less one slash, is the rest. */
  lemma RestText(mount: Text, tail: Text)
    ensures Prefix(mount, mount + tail)
    ensures Rest(mount + tail, mount) == if tail != [] && tail[0] == 47 then tail[1..] else tail
    ensures Prefix(tail, mount) ==> mount == tail + mount[|tail|..]
  {
    var full := mount + tail;
    assert full[..|mount|] == mount && full[|mount|..] == tail && (tail != [] ==> full[|mount| + 1..] == tail[1..]);
  }

  /** The first longest non-empty mount point that is a prefix of the path, character by character. */
  method VfsSplitPath(mounts: seq<Text>, full: Text) returns (best: int, mount: Text, rest: Text)
    ensures best == -1 <==> full == [] || full[0] != SLASH || forall i :: 0 <= i < |mounts| ==> mounts[i] == [] || !Prefix(mounts[i], full)
    ensures best != -1 ==> 0 <= best < |mounts| && mount == mounts[best] && Prefix(mount, full) && rest == Rest(full, mount)
    ensures best != -1 ==> forall i :: 0 <= i < |mounts| && Prefix(mounts[i], full) ==>
                             |mounts[i]| <= |mount| && (i < best ==> |mounts[i]| < |mount|)
  {
    best, mount, rest := -1, [], [];
    if |full| == 0 || full[0] != SLASH {
      return;
    }
    var bestLen, i := 0, 0;
    while i < |mounts|
      invariant i <= |mounts| && -1 <= best < i
      invariant best == -1 ==> bestLen == 0
      invariant best != -1 ==> Prefix(mounts[best], full) && bestLen == |mounts[best]| > 0
      invariant forall j :: 0 <= j < i && Prefix(mounts[j], full) ==> |mounts[j]| <= bestLen && (j < best ==> |mounts[j]| < bestLen)
    {
      var len := |mounts[i]|;
      if len <= |full| && full[..len] == mounts[i] && len > bestLen {
        best, bestLen := i, len;
      }
      i := i + 1;
    }
    if best < 0 {
      return;
    }
    mount := mounts[best];
    rest := if bestLen < |full| && full[bestLen] == SLASH then full[bestLen + 1..] else full[bestLen..];
  }

  /** The mount point "/a" takes the path "/ab", with the rest "b". */
  lemma MountTakesLetters()
    ensures Prefix([47, 97], [47, 97, 98]) && Rest([47, 97, 98], [47, 97]) == [98]
    ensures Components([47, 97, 98]) != Components([47, 97]) + Components([98])
  {
    RestMeans([47, 97, 98], [47, 97]);
  }

  /** The path names what its rest names below the mount point, exactly if the prefix ends at a component boundary.
      Otherwise a mount point takes paths that merely start with the same letters. */
  lemma RestMeans(full: Text, mount: Text)
    requires Prefix(mount, full) && mount != []
    ensures Components(full) == Components(mount) + Components(Rest(full, mount))
            <==> |full| == |mount| || full[|mount|] == 47 || mount[|mount| - 1] == 47
  {
    hide Components;
    var m := |mount|;
    NoComponents();
    if |full| == m {
      assert full == mount && Components(mount) + [] == Components(mount);
    } else if full[m] == 47 {
      assert full == mount + [SLASH] + full[m + 1..];
      ComponentsJoin(mount, full[m + 1..]);
    } else if mount[m - 1] == 47 {
      var front := mount[..m - 1];
      assert full == front + [SLASH] + full[m..] && mount == front + [SLASH] + [];
      ComponentsJoin(front, full[m..]);
      ComponentsJoin(front, []);
      assert Components(front) + [] == Components(front);
    } else {
      assert full == mount + full[m..];
      MergedComponent(mount, full[m..]);
    }
  }

  /** Two texts glued inside a component have one component less. */
  lemma {:induction false} MergedComponent(a: Text, b: Text)
    requires a != [] && b != [] && a[|a| - 1] != 47 && b[0] != 47
    ensures |Components(a + b)| + 1 == |Components(a)| + |Components(b)|
    decreases |a|
  {
    hide Components, NextSlash;
    var s := a + b;
    ComponentsStep(a);
    ComponentsStep(b);
    ComponentsStep(s);
    if a[0] == 47 {
      assert s[1..] == a[1..] + b;
      MergedComponent(a[1..], b);
    } else {
      var n := NextSlash(a);
      if n < |a| {
        GluedSlash(a, b);
        assert s[n..] == a[n..] + b && a[n..][|a[n..]| - 1] == a[|a| - 1];
        MergedComponent(a[n..], b);
      } else {
        GluedSlash(a, b);
        NoComponents();
        assert a[n..] == [] && s[NextSlash(s)..] == b[NextSlash(b)..];
      }
    }
  }

  lemma GluedSlash(a: Text, b: Text)
    ensures NextSlash(a + b) == if NextSlash(a) < |a| then NextSlash(a) else |a| + NextSlash(b)
  {
    var s := a + b;
    assert forall i :: 0 <= i < |a| ==> s[i] == a[i];
    assert forall i :: 0 <= i < |b| ==> b[i] == s[|a| + i];
    assert NextSlash(a) < |a| ==> s[NextSlash(a)] == a[NextSlash(a)];
    assert NextSlash(b) < |b| ==> s[|a| + NextSlash(b)] == b[NextSlash(b)];
  }
}
