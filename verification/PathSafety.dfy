/**
 What acceptance of a path means, on its bytes. `AcceptedExactly`: a path is accepted if and only if it is ASCII, of
 bounded length, without a backslash, and every stretch between two slashes is a safe name. `StaysInside`: resolving an
 accepted path byte by byte from any directory never leaves that directory, and ends at the path below it.
 */
module PathSafety {
  import opened Prelude
  import opened FileOrder
  import opened PathPolicy

  // ---------------------------------------------------------------- letters and words

  /** The same byte, or the same letter in the other case. */
  predicate SameLetter(x: byte, y: byte) {
    x == y || (65 <= x <= 90 && y == x + 32) || (65 <= y <= 90 && x == y + 32)
  }

  ghost predicate SameLetters(a: Bytes, b: Bytes) {
    |a| == |b| && forall i :: 0 <= i < |a| ==> SameLetter(a[i], b[i])
  }

  /** Two paths collide exactly if they are the same letter by letter, up to ASCII case. */
  lemma CollidesExactly(a: Bytes, b: Bytes)
    ensures Lower(a) == Lower(b) <==> SameLetters(a, b)
  {
    if |a| == |b| {
      forall i | 0 <= i < |a|
        ensures Lower(a)[i] == Lower(b)[i] <==> SameLetter(a[i], b[i])
      {
      }
    }
    assert |Lower(a)| == |a| && |Lower(b)| == |b|;
  }

  /** `b` spells the lower-case word `w`, in any case. */
  ghost predicate SpellsWord(b: Bytes, w: string) {
    |b| == |w| && forall i :: 0 <= i < |b| ==> SameLetter(b[i], w[i] as int % 256)
  }

  predicate PlainWord(w: string) { forall i :: 0 <= i < |w| ==> w[i] < 'A' || 'Z' < w[i] < 128 as char }

  lemma SpellsExactly(b: Bytes, w: string)
    requires PlainWord(w)
    ensures Lower(b) == Ascii(w) <==> SpellsWord(b, w)
  {
    forall i | 0 <= i < |w|
      ensures w[i] as int < 128 && Ascii(w)[i] == w[i] as int && LowerByte(Ascii(w)[i]) == Ascii(w)[i]
    {
    }
    assert Lower(Ascii(w)) == Ascii(w);
    CollidesExactly(b, Ascii(w));
  }

  // ---------------------------------------------------------------- names

  /** The device names of Windows: four words, and two families numbered from 1 to 9. */
  ghost predicate DeviceWord(w: string) {
    || w in {"con", "prn", "aux", "nul"}
    || (&& |w| == 4 && '1' <= w[3] <= '9'
        && ((w[0] == 'c' && w[1] == 'o' && w[2] == 'm') || (w[0] == 'l' && w[1] == 'p' && w[2] == 't')))
  }

  /** What stands before the first dot, if there is one, spells a device. */
  ghost predicate NamesDevice(c: Bytes) {
    exists n, w | 0 <= n <= |c| && DeviceWord(w) :: StemEnds(c, n) && SpellsWord(c[..n], w)
  }

  predicate StemEnds(c: Bytes, n: nat) {
    n <= |c| && (n == |c| || c[n] == DOT) && DOT !in c[..n]
  }

  ghost predicate SafeName(c: Bytes) {
    && 0 < |c| <= 255 && c != [46] && c != [46, 46]
    && (forall b :: b in c ==> 32 <= b && b != 127 && b != 58)
    && c[|c| - 1] != 46 && c[|c| - 1] != 32
    && !SpellsWord(c, ".git") && !NamesDevice(c)
  }

  lemma {:induction false} StemIs(c: Bytes, n: nat)
    requires StemEnds(c, n)
    ensures Stem(c) == c[..n]
  {
    if n == 0 {
    } else {
      assert c[0] in c[..n];
      assert c[1..][..n - 1] == c[..n][1..];
      assert forall b :: b in c[1..][..n - 1] ==> b in c[..n];
      StemIs(c[1..], n - 1);
      assert c[..n] == [c[0]] + c[1..][..n - 1];
    }
  }

  lemma {:induction false} StemFound(c: Bytes) returns (n: nat)
    ensures StemEnds(c, n)
  {
    if c == [] || c[0] == DOT {
      n := 0;
    } else {
      var m := StemFound(c[1..]);
      n := m + 1;
      assert c[..n] == [c[0]] + c[1..][..m];
    }
  }

  /** The list of the source is the rule. */
  lemma DevicesListed(w: string)
    ensures DeviceWord(w) <==> exists i :: 0 <= i < |WINDOWS_DEVICES| && WINDOWS_DEVICES[i] == w
    ensures DeviceWord(w) ==> PlainWord(w)
  {
    if |w| == 4 && DeviceWord(w) {
      var digit := w[3] as int - '1' as int;
      var listed := WINDOWS_DEVICES[if w[0] == 'c' then 4 + digit else 13 + digit];
      assert |listed| == 4 && listed[0] == w[0] && listed[1] == w[1] && listed[2] == w[2] && listed[3] == w[3];
      assert listed == w;
    } else if w in {"con", "prn", "aux", "nul"} {
      assert WINDOWS_DEVICES[0] == "con" && WINDOWS_DEVICES[1] == "prn" && WINDOWS_DEVICES[2] == "aux"
             && WINDOWS_DEVICES[3] == "nul";
    }
    forall i | 0 <= i < |WINDOWS_DEVICES|
      ensures DeviceWord(WINDOWS_DEVICES[i])
    {
    }
  }

  lemma DeviceExactly(c: Bytes)
    ensures IsDevice(Stem(c)) <==> NamesDevice(c)
  {
    hide SpellsWord, Lower, DeviceWord, PlainWord, StemEnds;
    var n := StemFound(c);
    StemIs(c, n);
    if IsDevice(Stem(c)) {
      var i :| 0 <= i < |WINDOWS_DEVICES| && Lower(Stem(c)) == Ascii(WINDOWS_DEVICES[i]);
      var w := WINDOWS_DEVICES[i];
      DevicesListed(w);
      SpellsExactly(Stem(c), w);
      assert n <= |c| by { StemWithin(c, n); }
    }
    if NamesDevice(c) {
      var m, w :| 0 <= m <= |c| && DeviceWord(w) && StemEnds(c, m) && SpellsWord(c[..m], w);
      StemIs(c, m);
      DevicesListed(w);
      SpellsExactly(Stem(c), w);
    }
  }

  lemma StemWithin(c: Bytes, n: nat)
    requires StemEnds(c, n)
    ensures n <= |c|
  {
  }

  lemma NameExactly(c: Bytes)
    ensures ComponentOk(c) <==> SafeName(c)
  {
    hide SpellsWord, Lower, NamesDevice, IsDevice, Stem;
    assert PlainWord(".git");
    SpellsExactly(c, ".git");
    DeviceExactly(c);
    ControlFree(c);
  }

  lemma ControlFree(c: Bytes)
    ensures (forall i :: 0 <= i < |c| ==> !IsControl(c[i])) <==> (forall b :: b in c ==> 32 <= b && b != 127)
  {
    if forall b :: b in c ==> 32 <= b && b != 127 {
      forall i | 0 <= i < |c|
        ensures !IsControl(c[i])
      {
        assert c[i] in c;
      }
    }
  }

  lemma AsciiExactly(path: Bytes)
    ensures IsAscii(path) && BACKSLASH !in path <==> forall b :: b in path ==> b < 128 && b != 92
  {
    if forall b :: b in path ==> b < 128 && b != 92 {
      forall i | 0 <= i < |path|
        ensures path[i] < 128
      {
        assert path[i] in path;
      }
    }
  }

  // ---------------------------------------------------------------- paths

  /** Bytes `i` to `j` are what stands between two slashes, or between a slash and an end of the path. */
  ghost predicate IsName(path: Bytes, i: nat, j: nat) {
    && i <= j <= |path| && SLASH !in path[i..j]
    && (i == 0 || path[i - 1] == SLASH) && (j == |path| || path[j] == SLASH)
  }

  ghost predicate SafePath(path: Bytes, maxPathBytes: nat) {
    && 0 < |path| <= maxPathBytes
    && (forall b :: b in path ==> b < 128 && b != 92)
    && forall i: nat, j: nat :: IsName(path, i, j) ==> SafeName(path[i..j])
  }

  lemma NameInSplit(path: Bytes, i: nat, j: nat)
    requires IsName(path, i, j)
    ensures path[i..j] in Split(path)
  {
    var name := path[i..j];
    SplitPlain(name);
    var tail := path[i..];
    if j < |path| {
      assert tail == name + [SLASH] + path[j + 1..];
      SplitConcat(name, path[j + 1..]);
    } else {
      assert tail == name;
    }
    assert Split(tail)[0] == name;
    if i > 0 {
      assert path == path[..i - 1] + [SLASH] + tail;
      SplitConcat(path[..i - 1], tail);
      assert Split(path)[|Split(path[..i - 1])|] == name;
    } else {
      assert path == tail;
    }
  }

  lemma {:induction false} SplitIsNames(path: Bytes, k: nat) returns (i: nat, j: nat)
    requires k < |Split(path)|
    ensures IsName(path, i, j) && path[i..j] == Split(path)[k]
  {
    hide Split;
    if SLASH !in path {
      SplitPlain(path);
      i, j := 0, |path|;
      assert path[0..|path|] == path;
    } else {
      var n := FirstSlash(path);
      var first, rest := path[..n], path[n + 1..];
      assert path == first + [SLASH] + rest;
      SplitConcat(first, rest);
      SplitPlain(first);
      if k == 0 {
        i, j := 0, n;
        assert path[0..n] == first;
      } else {
        var a, b := SplitIsNames(rest, k - 1);
        i, j := n + 1 + a, n + 1 + b;
        NameFurther(path, n + 1, a, b);
      }
    }
  }

  lemma NameFurther(path: Bytes, n: nat, a: nat, b: nat)
    requires 0 < n <= |path| && path[n - 1] == SLASH && IsName(path[n..], a, b)
    ensures IsName(path, n + a, n + b) && path[n + a..n + b] == path[n..][a..b]
  {
    var rest := path[n..];
    assert path[n + a..n + b] == rest[a..b];
    assert a > 0 ==> rest[a - 1] == path[n + a - 1];
    assert b < |rest| ==> rest[b] == path[n + b];
  }

  lemma {:induction false} FirstSlash(path: Bytes) returns (n: nat)
    requires SLASH in path
    ensures n < |path| && path[n] == SLASH && SLASH !in path[..n]
  {
    if path[0] == SLASH {
      n := 0;
    } else {
      assert path == [path[0]] + path[1..];
      var m := FirstSlash(path[1..]);
      n := m + 1;
      assert path[..n] == [path[0]] + path[1..][..m];
    }
  }

  /** normalize_path accepts exactly the safe paths. */
  lemma AcceptedExactly(path: Bytes, maxPathBytes: nat)
    ensures PathOk(path, maxPathBytes) <==> SafePath(path, maxPathBytes)
  {
    hide ComponentOk, SafeName, Split;
    AsciiExactly(path);
    if PathOk(path, maxPathBytes) {
      forall i: nat, j: nat | IsName(path, i, j)
        ensures SafeName(path[i..j])
      {
        NameInSplit(path, i, j);
        var k :| 0 <= k < |Split(path)| && Split(path)[k] == path[i..j];
        NameExactly(path[i..j]);
      }
    }
    if SafePath(path, maxPathBytes) {
      forall k | 0 <= k < |Split(path)|
        ensures ComponentOk(Split(path)[k])
      {
        var i, j := SplitIsNames(path, k);
        NameExactly(path[i..j]);
      }
      NoLeadingSlash(path);
    }
  }

  lemma NoLeadingSlash(path: Bytes)
    requires path != [] && forall i: nat, j: nat :: IsName(path, i, j) ==> SafeName(path[i..j])
    ensures path[0] != SLASH
  {
    if path[0] == SLASH {
      assert path[0..0] == [] && IsName(path, 0, 0);
    }
  }

  // ---------------------------------------------------------------- resolving

  /** Entering one name: nothing and a dot stay, two dots go up, and the root is its own parent. */
  function Enter(dir: seq<Bytes>, name: Bytes): seq<Bytes> {
    if name == [] || name == [46] then dir
    else if name == [46, 46] then if dir == [] then [] else dir[..|dir| - 1]
    else dir + [name]
  }

  /** The places that the operating system passes through, reading the path byte by byte; `name` is what it has read. */
  function Places(dir: seq<Bytes>, name: Bytes, path: Bytes): seq<seq<Bytes>>
    decreases |path|
  {
    if path == [] then [Enter(dir, name)]
    else if path[0] == 47 then [Enter(dir, name)] + Places(Enter(dir, name), [], path[1..])
    else Places(dir, name + [path[0]], path[1..])
  }

  /** From `dir`, or from the root if the path starts with a slash. */
  function Resolved(dir: seq<Bytes>, path: Bytes): seq<seq<Bytes>> {
    Places(if path != [] && path[0] == 47 then [] else dir, [], path)
  }

  /** One place for each name, one further down each. */
  ghost predicate Descends(dir: seq<Bytes>, names: seq<Bytes>, places: seq<seq<Bytes>>) {
    |places| == |names| && forall k :: 0 <= k < |names| ==> places[k] == dir + names[..k + 1]
  }

  lemma DescendsMore(dir: seq<Bytes>, name: Bytes, names: seq<Bytes>, places: seq<seq<Bytes>>)
    requires Descends(dir + [name], names, places)
    ensures Descends(dir, [name] + names, [dir + [name]] + places)
  {
    var all := [name] + names;
    forall k | 0 <= k < |all|
      ensures ([dir + [name]] + places)[k] == dir + all[..k + 1]
    {
      if k == 0 {
        assert all[..1] == [name];
      } else {
        assert all[..k + 1] == [name] + names[..k];
      }
    }
  }

  ghost predicate AllOk(names: seq<Bytes>) { forall k :: 0 <= k < |names| ==> ComponentOk(names[k]) }

  lemma AllOkRest(name: Bytes, names: seq<Bytes>)
    requires AllOk([name] + names)
    ensures ComponentOk(name) && AllOk(names)
  {
    hide ComponentOk;
    var all := [name] + names;
    assert all[0] == name && forall k :: 0 <= k < |names| ==> names[k] == all[k + 1];
  }

  lemma {:induction false} PlacesOfNames(dir: seq<Bytes>, name: Bytes, path: Bytes)
    requires SLASH !in name && AllOk(Split(name + path))
    ensures Descends(dir, Split(name + path), Places(dir, name, path))
    decreases |path|
  {
    hide AllOk, Split, Enter, Descends;
    if path == [] {
      assert name + path == name && [name] + [] == [name];
      SplitPlain(name);
      AllOkRest(name, []);
      EnterOk(dir, name);
      assert Descends(dir + [name], [], []) by { DescendsNone(dir + [name]); }
      DescendsMore(dir, name, [], []);
      var last: seq<seq<Bytes>> := [dir + [name]];
      assert Places(dir, name, path) == last && last + [] == last;
    } else if path[0] == SLASH {
      var rest := path[1..];
      assert name + path == name + [SLASH] + rest && [] + rest == rest;
      SplitConcat(name, rest);
      SplitPlain(name);
      AllOkRest(name, Split(rest));
      EnterOk(dir, name);
      PlacesOfNames(dir + [name], [], rest);
      DescendsMore(dir, name, Split(rest), Places(dir + [name], [], rest));
    } else {
      assert name + path == (name + [path[0]]) + path[1..];
      PlacesOfNames(dir, name + [path[0]], path[1..]);
    }
  }

  lemma DescendsNone(dir: seq<Bytes>)
    ensures Descends(dir, [], [])
  {
  }

  lemma EnterOk(dir: seq<Bytes>, name: Bytes)
    requires ComponentOk(name)
    ensures Enter(dir, name) == dir + [name]
  {
  }

  /**
   Resolving an accepted path from any directory passes only through places below it, and ends at the names of the path:
   one for each stretch between slashes, joined by slashes the path itself.
   */
  lemma StaysInside(dir: seq<Bytes>, path: Bytes, maxPathBytes: nat) returns (names: seq<Bytes>)
    requires PathOk(path, maxPathBytes)
    ensures var places := Resolved(dir, path);
            && (forall k :: 0 <= k < |places| ==> |dir| < |places[k]| && places[k][..|dir|] == dir)
            && places != [] && places[|places| - 1] == dir + names
    ensures Join(names) == path && forall k :: 0 <= k < |names| ==> SLASH !in names[k] && SafeName(names[k])
  {
    names := Split(path);
    var none: Bytes := [];
    assert none + path == path;
    hide Split, ComponentOk, SafeName;
    PlacesOfNames(dir, none, path);
    JoinSplit(path);
    forall k | 0 <= k < |names|
      ensures SLASH !in names[k] && SafeName(names[k])
    {
      var i, j := SplitIsNames(path, k);
      NameExactly(names[k]);
    }
    assert names[..|names|] == names;
    var places := Resolved(dir, path);
    forall k | 0 <= k < |places|
      ensures |dir| < |places[k]| && places[k][..|dir|] == dir
    {
      assert places[k] == dir + names[..k + 1];
    }
  }

  // ---------------------------------------------------------------- selection

  /** A root selects the paths whose names begin with its own. */
  lemma SelectedExactly(path: Bytes, roots: seq<Bytes>)
    ensures Selected(path, roots) <==> roots == [] || exists root :: root in roots && Split(root) <= Split(path)
  {
    hide Split, Below;
    forall root | true
      ensures (path == root || Below(path, root)) <==> Split(root) <= Split(path)
    {
      BelowExactly(path, root);
    }
    if exists root :: root in roots && Split(root) <= Split(path) {
      var root :| root in roots && Split(root) <= Split(path);
      var i :| 0 <= i < |roots| && roots[i] == root;
    }
  }

  lemma BelowExactly(path: Bytes, root: Bytes)
    ensures (path == root || Below(path, root)) <==> Split(root) <= Split(path)
  {
    if Below(path, root) {
      assert path == root + [SLASH] + path[|root| + 1..];
      SplitConcat(root, path[|root| + 1..]);
    }
    if Split(root) <= Split(path) {
      var rest := Split(path)[|Split(root)|..];
      assert Split(path) == Split(root) + rest;
      JoinSplit(path);
      JoinSplit(root);
      if rest == [] {
        assert Split(path) == Split(root);
      } else {
        JoinAppend(Split(root), rest);
        assert path == root + [SLASH] + Join(rest);
      }
    }
  }

  /** The pruning test is exact: a directory passes if and only if a selected path lies at it or below it. */
  lemma MayContainExactly(dir: Bytes, roots: seq<Bytes>)
    ensures MayContainSelected(dir, roots) <==> exists path ::
      Selected(path, roots) && (path == dir || Below(path, dir))
  {
    if MayContainSelected(dir, roots) {
      if roots == [] || Selected(dir, roots) {
        assert Selected(dir, roots) && dir == dir;
      } else {
        var i :| 0 <= i < |roots| && Below(roots[i], dir);
        assert Selected(roots[i], roots);
      }
    }
    if path :| Selected(path, roots) && (path == dir || Below(path, dir)) {
      if path != dir {
        AncestorsMayContain(path, dir, roots);
      }
    }
  }
}
