/** 8.3 short names: fat_name_to_83 builds the 11 bytes of a directory entry, fat_trim_name turns them back into
    a file name, and the two undo each other on exactly the names stated below. Characters are byte values. */
module FatNames {
  import opened Bytes

  type Name = seq<byte>

  const SPACE: byte := 0x20
  const DOT: byte := 0x2E

  predicate IsLower(c: byte) { 'a' as int <= c <= 'z' as int }

  predicate IsUpper(c: byte) { 'A' as int <= c <= 'Z' as int }

  predicate Allowed(c: byte) { IsUpper(c) || '0' as int <= c <= '9' as int || c == '_' as int || c == '-' as int }

  function UpChar(c: byte): byte { if IsLower(c) then c - 'a' as int + 'A' as int else c }

  function DownChar(c: byte): byte { if IsUpper(c) then c - 'A' as int + 'a' as int else c }

  function Up(s: Name): (r: Name)
    ensures |r| == |s|
  {
    seq(|s|, i requires 0 <= i < |s| => UpChar(s[i]))
  }

  function Down(s: Name): (r: Name)
    ensures |r| == |s|
  {
    seq(|s|, i requires 0 <= i < |s| => DownChar(s[i]))
  }

  /** Padded with spaces to `n` bytes. */
  function Pad(s: Name, n: nat): (r: Name)
    requires |s| <= n
    ensures |r| == n
  {
    s + seq(n - |s|, _ => SPACE)
  }

  /** Position of the first dot, or the length. */
  function FirstDot(s: Name): (i: nat)
    ensures i <= |s| && DOT !in s[..i] && (i < |s| ==> s[i] == DOT)
  {
    if s == [] then 0 else if s[0] == DOT then 0
    else
      assert s[..1 + FirstDot(s[1..])] == [s[0]] + s[1..][..FirstDot(s[1..])];
      1 + FirstDot(s[1..])
  }

  function Stem(s: Name): Name { s[..FirstDot(s)] }

  function Extension(s: Name): Name { if FirstDot(s) < |s| then s[FirstDot(s) + 1..] else [] }

  predicate AllAllowed(s: Name) { forall i :: 0 <= i < |s| ==> Allowed(UpChar(s[i])) }

  /** A stem of 1 to 8 allowed characters and, behind one optional dot, an extension of at most 3. */
  predicate Valid83(s: Name)
  {
    && 1 <= |Stem(s)| <= 8 && |Extension(s)| <= 3
    && AllAllowed(Stem(s)) && AllAllowed(Extension(s))
  }

  /** The 11 name bytes of the entry. */
  function To83(s: Name): (r: Option<Name>)
    ensures r.Some? ==> |r.value| == 11
  {
    if Valid83(s) then Some(Pad(Up(Stem(s)), 8) + Pad(Up(Extension(s)), 3)) else None
  }

  /** The characters before the first NUL or space. */
  function Until(s: Name): (r: Name)
    ensures |r| <= |s|
  {
    if s == [] || s[0] == 0 || s[0] == SPACE then [] else [s[0]] + Until(s[1..])
  }

  function Trim(short: Name): Name
    requires |short| == 11
  {
    Down(Until(short[..8]) + if Until(short[8..]) == [] then [] else [DOT] + Until(short[8..]))
  }

  lemma {:induction false} UntilPad(s: Name, n: nat)
    requires |s| <= n && forall i :: 0 <= i < |s| ==> Allowed(s[i])
    ensures Until(Pad(s, n)) == s
    decreases |s|
  {
    if s != [] {
      assert Pad(s, n)[1..] == Pad(s[1..], n - 1);
      UntilPad(s[1..], n - 1);
    }
  }

  lemma DownUp(s: Name)
    requires AllAllowed(s)
    ensures Down(Up(s)) == Down(s)
  {
  }

  predicate NoCapitals(s: Name) { forall i :: 0 <= i < |s| ==> !IsUpper(s[i]) }

  lemma DownIsIdentity(s: Name)
    ensures Down(s) == s <==> NoCapitals(s)
  {
    assert forall i :: 0 <= i < |s| ==> (DownChar(s[i]) == s[i] <==> !IsUpper(s[i]));
    if Down(s) == s {
      forall i | 0 <= i < |s|
        ensures !IsUpper(s[i])
      {
        assert Down(s)[i] == s[i];
      }
    }
  }

  /** What a name reads back as: lower-cased, and without a dot that has nothing behind it. */
  lemma TrimOf83(s: Name)
    requires Valid83(s)
    ensures Trim(To83(s).value) == Down(Stem(s)) + if Extension(s) == [] then [] else [DOT] + Down(Extension(s))
  {
    var a, b := Stem(s), Extension(s);
    var short := To83(s).value;
    assert short[..8] == Pad(Up(a), 8) && short[8..] == Pad(Up(b), 3);
    UntilPad(Up(a), 8);
    UntilPad(Up(b), 3);
    DownUp(a);
    DownUp(b);
    assert Down(Up(a) + []) == Down(Up(a));
    assert Down(Up(a) + ([DOT] + Up(b))) == Down(Up(a)) + ([DOT] + Down(Up(b)));
  }

  /** A character that may stand in a short name, in either case. */
  predicate Plain(c: byte)
  {
    || 'a' as int <= c <= 'z' as int || 'A' as int <= c <= 'Z' as int || '0' as int <= c <= '9' as int
    || c == '-' as int || c == '_' as int
  }

  predicate AllPlain(s: Name) { forall i :: 0 <= i < |s| ==> Plain(s[i]) }

  /** The name is a stem alone, or stem, dot and extension. */
  predicate PutTogether(s: Name, a: Name, b: Name)
  {
    && 1 <= |a| <= 8 && |b| <= 3 && AllPlain(a) && AllPlain(b) && (s == a + [46] + b || (b == [] && s == a))
  }

  /** The accepted names are those put together from 1 to 8 and at most 3 letters, digits, hyphens and underscores. */
  lemma ValidIff(s: Name)
    ensures Valid83(s) <==> exists a, b :: PutTogether(s, a, b)
  {
    if Valid83(s) {
      var a, b := Stem(s), Extension(s);
      assert FirstDot(s) < |s| ==> s == a + [46] + b;
      assert forall i :: 0 <= i < |a| ==> Allowed(UpChar(a[i]));
      assert forall i :: 0 <= i < |b| ==> Allowed(UpChar(b[i]));
      assert PutTogether(s, a, b);
    }
    if a, b :| PutTogether(s, a, b) {
      BytesOf(s, a, b);
    }
  }

  /** The 11 bytes: stem and extension in capitals, each padded with blanks. */
  lemma BytesOf(s: Name, a: Name, b: Name)
    requires PutTogether(s, a, b)
    ensures Valid83(s) && To83(s).Some?
    ensures forall i :: 0 <= i < 8 ==> To83(s).value[i] == if i >= |a| then 32 else if 97 <= a[i] <= 122 then a[i] - 32 else a[i]
    ensures forall i :: 0 <= i < 3 ==> To83(s).value[8 + i] == if i >= |b| then 32 else if 97 <= b[i] <= 122 then b[i] - 32 else b[i]
  {
    hide FirstDot;
    StemIs(s, a, b);
    assert forall i :: 0 <= i < |a| ==> Plain(a[i]);
    assert forall i :: 0 <= i < |b| ==> Plain(b[i]);
  }

  lemma DotAt(s: Name, n: nat)
    requires n <= |s| && (n < |s| ==> s[n] == DOT) && forall j :: 0 <= j < n ==> s[j] != DOT
    ensures FirstDot(s) == n
  {
  }

  lemma StemIs(s: Name, a: Name, b: Name)
    requires PutTogether(s, a, b)
    ensures Stem(s) == a && Extension(s) == b
  {
    assert forall j :: 0 <= j < |a| ==> Plain(a[j]) && s[j] == a[j];
    DotAt(s, |a|);
    assert s == a + [46] + b ==> s[..|a|] == a && s[|a| + 1..] == b;
    assert s[..|a|] == a;
  }

  /** The round trip is the identity exactly on names without capitals that do not end in a dot. */
  lemma NameRoundTrip(s: Name)
    requires Valid83(s)
    ensures Trim(To83(s).value) == s <==> NoCapitals(s) && s[|s| - 1] != DOT
  {
    hide Trim, Up, Down, Pad, UpChar, NoCapitals;
    var a, b := Stem(s), Extension(s);
    TrimOf83(s);
    StemSplits(s);
    if b == [] {
      DownIsIdentity(a);
      assert Down(a) + [] == Down(a);
    } else {
      DownJoin(a, b);
      DownIsIdentity(s);
      AllowedNoDot(b[|b| - 1]);
    }
  }

  /** A name is its stem, a dot if there is one, and its extension. */
  lemma StemSplits(s: Name)
    requires Valid83(s)
    ensures var a, b := Stem(s), Extension(s);
            if b == [] then (s == a && a[|a| - 1] != DOT) || (s == a + [DOT] && |Down(a)| == |s| - 1)
            else s == a + ([DOT] + b) && s[|s| - 1] == b[|b| - 1]
  {
    hide Allowed, UpChar;
  }

  lemma DownJoin(a: Name, b: Name)
    ensures Down(a + ([DOT] + b)) == Down(a) + ([DOT] + Down(b))
  {
  }

  lemma AllowedNoDot(c: byte)
    ensures Allowed(UpChar(c)) ==> c != DOT
  {
  }

  /** No valid name yields the entry of the "." or ".." directories. */
  lemma NotADotEntry(s: Name)
    requires Valid83(s)
    ensures To83(s).value[0] != DOT && To83(s).value[0] != 0 && To83(s).value[0] != 0xE5
  {
    assert To83(s).value[0] == UpChar(Stem(s)[0]);
  }

  /** State of the scan before position `i`: `ni` stem and `ei` extension characters taken over, all allowed. */
  ghost predicate Scanned(s: Name, i: nat, ext: bool, ni: nat, ei: nat, outName: Name, outExt: Name)
  {
    && i <= |s| && (ext <==> FirstDot(s) < i)
    && (if ext then ni == FirstDot(s) && ei == i - ni - 1 else ni == i && ei == 0)
    && ni <= 8 && ei <= 3
    && AllAllowed(s[..ni]) && (ext ==> AllAllowed(s[ni + 1..i]))
    && outName == Pad(Up(s[..ni]), 8) && outExt == Pad(if ext then Up(s[ni + 1..i]) else [], 3)
  }

  lemma ScanDot(s: Name, i: nat, ext: bool, ni: nat, ei: nat, outName: Name, outExt: Name)
    requires Scanned(s, i, ext, ni, ei, outName, outExt) && i < |s| && s[i] == DOT
    ensures if ext then To83(s) == None else Scanned(s, i + 1, true, ni, ei, outName, outExt)
  {
    hide Pad, Up, AllAllowed, FirstDot, To83;
    if ext {
      SecondDot(s, i);
    } else {
      OnlyDot(s, i);
    }
  }

  lemma SecondDot(s: Name, i: nat)
    requires FirstDot(s) < i < |s| && s[i] == DOT
    ensures To83(s) == None
  {
    assert Extension(s)[i - FirstDot(s) - 1] == DOT;
  }

  lemma OnlyDot(s: Name, i: nat)
    requires i <= FirstDot(s) && i < |s| && s[i] == DOT
    ensures FirstDot(s) == i && s[i + 1..i + 1] == [] && Up(s[i + 1..i + 1]) == [] && AllAllowed(s[i + 1..i + 1])
  {
    hide To83, Pad, UpChar, Allowed;
    var n := FirstDot(s);
    assert forall k :: 0 <= k < n ==> s[k] in s[..n];
  }

  lemma ScanChar(s: Name, i: nat, ext: bool, ni: nat, ei: nat, outName: Name, outExt: Name)
    requires Scanned(s, i, ext, ni, ei, outName, outExt) && i < |s| && s[i] != DOT
    ensures |outName| == 8 && |outExt| == 3
    ensures if !Allowed(UpChar(s[i])) || (!ext && ni == 8) || (ext && ei == 3) then To83(s) == None
            else if ext then Scanned(s, i + 1, ext, ni, ei + 1, outName, outExt[ei := UpChar(s[i])])
            else Scanned(s, i + 1, ext, ni + 1, ei, outName[ni := UpChar(s[i])], outExt)
  {
    hide UpChar, Allowed, Pad, Up, AllAllowed, FirstDot, To83;
    if ext {
      assert s[ni + 1..i + 1] == s[ni + 1..i] + [s[i]];
      TakeSnoc(s[ni + 1..i], s[i], 3);
      ExtensionChar(s, i);
    } else {
      assert s[..ni + 1] == s[..ni] + [s[i]];
      TakeSnoc(s[..ni], s[i], 8);
      StemChar(s, i);
    }
  }

  /** One more character of a field of `n`. */
  lemma TakeSnoc(s: Name, c: byte, n: nat)
    requires |s| <= n
    ensures AllAllowed(s + [c]) <==> AllAllowed(s) && Allowed(UpChar(c))
    ensures |s| < n ==> Pad(Up(s), n)[|s| := UpChar(c)] == Pad(Up(s + [c]), n)
  {
    hide UpChar, Allowed;
    assert forall i :: 0 <= i < |s| ==> (s + [c])[i] == s[i];
    assert (s + [c])[|s|] == c;
  }

  /** A character in front of the first dot is one of the stem. */
  lemma StemChar(s: Name, i: nat)
    requires i < |s| && i <= FirstDot(s) && s[i] != DOT
    ensures i < FirstDot(s) && (!Allowed(UpChar(s[i])) || i >= 8 ==> To83(s) == None)
  {
    hide UpChar, Allowed;
    assert Stem(s)[i] == s[i];
  }

  /** One behind it is one of the extension. */
  lemma ExtensionChar(s: Name, i: nat)
    requires FirstDot(s) < i < |s|
    ensures !Allowed(UpChar(s[i])) || i - FirstDot(s) - 1 >= 3 ==> To83(s) == None
  {
    hide UpChar, Allowed;
    assert Extension(s)[i - FirstDot(s) - 1] == s[i];
  }

  lemma ScanEnd(s: Name, ext: bool, ni: nat, ei: nat, outName: Name, outExt: Name)
    requires Scanned(s, |s|, ext, ni, ei, outName, outExt)
    ensures To83(s) == if ni > 0 then Some(outName + outExt) else None
  {
    hide UpChar, Allowed, Pad;
    assert s[..ni] == Stem(s);
    if ext {
      assert s[ni + 1..|s|] == s[ni + 1..] == Extension(s);
    } else {
      assert Extension(s) == [] && Up([]) == [];
    }
  }

  /** fat_name_to_83. */
  method NameTo83(name: Name) returns (r: Option<Name>)
    ensures r == To83(name)
  {
    hide Scanned, To83, Allowed, UpChar, Pad;
    var outName, outExt: Name := Pad([], 8), Pad([], 3);
    var ni, ei := 0, 0;
    var ext := false;
    var i := 0;
    ScanStart(name);
    while i < |name|
      invariant 0 <= i && Scanned(name, i, ext, ni, ei, outName, outExt)
      invariant i <= |name| && ni <= 8 && ei <= 3
    {
      var c := name[i];
      if c == DOT {
        ScanDot(name, i, ext, ni, ei, outName, outExt);
        if ext {
          return None;
        }
        ext := true;
        i := i + 1;
        continue;
      }
      ScanChar(name, i, ext, ni, ei, outName, outExt);
      c := UpChar(c);
      if !Allowed(c) {
        return None;
      }
      if !ext {
        if ni >= 8 {
          return None;
        }
        outName := outName[ni := c];
        ni := ni + 1;
      } else {
        if ei >= 3 {
          return None;
        }
        outExt := outExt[ei := c];
        ei := ei + 1;
      }
      i := i + 1;
    }
    ScanEnd(name, ext, ni, ei, outName, outExt);
    r := if ni > 0 then Some(outName + outExt) else None;
  }

  lemma ScanStart(s: Name)
    ensures Scanned(s, 0, false, 0, 0, Pad([], 8), Pad([], 3))
  {
    assert Up([]) == [] && s[..0] == [];
  }

  /** The copy loop of fat_trim_name over one field. */
  method CopyUntil(field: Name) returns (r: Name)
    ensures r == Until(field)
  {
    var i := 0;
    r := [];
    while i < |field| && field[i] != 0 && field[i] != SPACE
      invariant 0 <= i <= |field|
      invariant r + Until(field[i..]) == Until(field)
    {
      assert field[i..][1..] == field[i + 1..];
      r := r + [field[i]];
      i := i + 1;
    }
  }

  /** fat_trim_name. */
  method TrimName(name: Name, ext: Name) returns (r: Name)
    requires |name| == 8 && |ext| == 3
    ensures r == Trim(name + ext)
  {
    assert (name + ext)[..8] == name && (name + ext)[8..] == ext;
    var out := CopyUntil(name);
    if ext[0] != 0 && ext[0] != SPACE {
      var e := CopyUntil(ext);
      out := out + [DOT] + e;
      assert out == Until(name) + ([DOT] + Until(ext));
    } else {
      assert out == Until(name) + [];
    }
    r := LowerCase(out);
  }

  /** The second loop of fat_trim_name. */
  method LowerCase(out: Name) returns (r: Name)
    ensures r == Down(out)
  {
    r := out;
    var i := 0;
    while i < |r|
      invariant 0 <= i <= |r| == |out|
      invariant forall k :: 0 <= k < |r| ==> r[k] == if k < i then DownChar(out[k]) else out[k]
    {
      if IsUpper(r[i]) {
        r := r[i := r[i] - 'A' as int + 'a' as int];
      }
      i := i + 1;
    }
  }
}
