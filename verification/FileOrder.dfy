/** Materialized files and the order `sort_by(path)` puts them in. */
module FileOrder {
  import opened Prelude

  datatype File = File(path: Bytes, bytes: Bytes, executable: bool)

  /** Byte-wise lexicographic order of paths. */
  predicate Less(a: Bytes, b: Bytes) {
    if b == [] then false
    else if a == [] then true
    else a[0] < b[0] || (a[0] == b[0] && Less(a[1..], b[1..]))
  }

  /** At the first place where they differ, `a` has the smaller byte or has already ended. */
  ghost predicate FirstDifference(a: Bytes, b: Bytes) {
    exists n: nat :: n <= |a| && n < |b| && a[..n] == b[..n] && (n == |a| || a[n] < b[n])
  }

  lemma {:induction false} LessExactly(a: Bytes, b: Bytes)
    ensures Less(a, b) <==> FirstDifference(a, b)
  {
    if a == [] || b == [] {
      assert a[..0] == b[..0];
    } else {
      LessExactly(a[1..], b[1..]);
      if n: nat :| n <= |a| && n < |b| && a[..n] == b[..n] && (n == |a| || a[n] < b[n]) {
        if n > 0 {
          assert a[0] == a[..n][0] && b[0] == b[..n][0];
          assert a[1..][..n - 1] == a[..n][1..] && b[1..][..n - 1] == b[..n][1..];
        }
      }
      if a[0] == b[0] && FirstDifference(a[1..], b[1..]) {
        var m: nat :| m <= |a[1..]| && m < |b[1..]| && a[1..][..m] == b[1..][..m]
          && (m == |a[1..]| || a[1..][m] < b[1..][m]);
        assert a[..m + 1] == [a[0]] + a[1..][..m] && b[..m + 1] == [b[0]] + b[1..][..m];
      }
      if a[0] < b[0] {
        assert a[..0] == b[..0];
      }
    }
  }

  lemma {:induction false} LessTotal(a: Bytes, b: Bytes)
    ensures a == b || Less(a, b) || Less(b, a)
    ensures Less(a, b) ==> !Less(b, a) && a != b
  {
    if a != [] && b != [] {
      LessTotal(a[1..], b[1..]);
      assert a == [a[0]] + a[1..] && b == [b[0]] + b[1..];
    }
  }

  lemma {:induction false} LessTransitive(a: Bytes, b: Bytes, c: Bytes)
    requires Less(a, b) && Less(b, c)
    ensures Less(a, c)
  {
    if a != [] && a[0] == b[0] == c[0] {
      LessTransitive(a[1..], b[1..], c[1..]);
    }
  }

  /** Strictly increasing paths. */
  ghost predicate Sorted(files: seq<File>) {
    forall i, j :: 0 <= i < j < |files| ==> Less(files[i].path, files[j].path)
  }

  ghost predicate DistinctPaths(files: seq<File>) {
    forall i, j :: 0 <= i < j < |files| ==> files[i].path != files[j].path
  }

  /** One step of a stable sort: before the first file with a greater path. */
  function Insert(f: File, files: seq<File>): seq<File> {
    if files == [] || Less(f.path, files[0].path) then [f] + files
    else [files[0]] + Insert(f, files[1..])
  }

  function SortFiles(files: seq<File>): seq<File> {
    if files == [] then [] else Insert(files[|files| - 1], SortFiles(files[..|files| - 1]))
  }

  lemma {:induction false} InsertContents(f: File, files: seq<File>)
    ensures multiset(Insert(f, files)) == multiset(files) + multiset{f}
  {
    if files == [] || Less(f.path, files[0].path) {
    } else {
      InsertContents(f, files[1..]);
      assert files == [files[0]] + files[1..];
    }
  }

  lemma InsertMembers(f: File, files: seq<File>)
    ensures forall g :: g in Insert(f, files) <==> g == f || g in files
  {
    InsertContents(f, files);
    forall g | true
      ensures g in Insert(f, files) <==> g == f || g in files
    {
      assert g in Insert(f, files) <==> g in multiset(Insert(f, files));
    }
  }

  lemma {:induction false} InsertSorted(f: File, files: seq<File>)
    requires Sorted(files) && forall g :: g in files ==> g.path != f.path
    ensures Sorted(Insert(f, files))
  {
    if files == [] {
    } else if Less(f.path, files[0].path) {
      forall i | 0 < i < |files|
        ensures Less(f.path, files[i].path)
      {
        LessTransitive(f.path, files[0].path, files[i].path);
      }
    } else {
      LessTotal(f.path, files[0].path);
      InsertSorted(f, files[1..]);
      InsertMembers(f, files[1..]);
      var rest := Insert(f, files[1..]);
      forall j | 0 <= j < |rest|
        ensures Less(files[0].path, rest[j].path)
      {
        assert rest[j] in rest;
      }
    }
  }

  lemma {:induction false} SortContents(files: seq<File>)
    ensures multiset(SortFiles(files)) == multiset(files)
  {
    if files != [] {
      var f, rest := files[|files| - 1], files[..|files| - 1];
      SortContents(rest);
      InsertContents(f, SortFiles(rest));
      assert files == rest + [f];
    }
  }

  lemma SortMembers(files: seq<File>)
    ensures |SortFiles(files)| == |files| && forall f :: f in SortFiles(files) <==> f in files
  {
    SortContents(files);
    assert |multiset(SortFiles(files))| == |multiset(files)|;
    forall f | true
      ensures f in SortFiles(files) <==> f in files
    {
      assert f in SortFiles(files) <==> f in multiset(SortFiles(files));
    }
  }

  /** Sorting orders strictly when the paths are distinct. */
  lemma {:induction false} SortOrders(files: seq<File>)
    requires DistinctPaths(files)
    ensures Sorted(SortFiles(files))
  {
    if files != [] {
      var f, rest := files[|files| - 1], files[..|files| - 1];
      SortOrders(rest);
      SortMembers(rest);
      forall g | g in SortFiles(rest)
        ensures g.path != f.path
      {
        var i :| 0 <= i < |rest| && rest[i] == g;
        assert files[i] == g;
      }
      InsertSorted(f, SortFiles(rest));
    }
  }

  /** Two strictly sorted lists with the same members are the same list. */
  lemma {:induction false} SortedUnique(a: seq<File>, b: seq<File>)
    requires Sorted(a) && Sorted(b) && forall f :: f in a <==> f in b
    ensures a == b
  {
    if a == [] {
      NonemptyHasMember(b);
    } else {
      assert a[0] in b && b != [] && b[0] in a;
      var i :| 0 <= i < |b| && b[i] == a[0];
      var j :| 0 <= j < |a| && a[j] == b[0];
      if i != 0 && j != 0 {
        LessTotal(a[0].path, b[0].path);
      }
      assert a[0] == b[0];
      NotInRest(a);
      NotInRest(b);
      forall f | true
        ensures f in a[1..] <==> f in b[1..]
      {
        assert f in a <==> f == a[0] || f in a[1..];
        assert f in b <==> f == b[0] || f in b[1..];
      }
      SortedUnique(a[1..], b[1..]);
      assert a == [a[0]] + a[1..] && b == [b[0]] + b[1..];
    }
  }

  lemma NonemptyHasMember(files: seq<File>)
    ensures files != [] ==> exists f :: f in files
  {
    if files != [] {
      assert files[0] in files;
    }
  }

  lemma NotInRest(a: seq<File>)
    requires Sorted(a) && a != []
    ensures a[0] !in a[1..]
  {
    forall k | 0 < k < |a|
      ensures a[k] != a[0]
    {
      LessTotal(a[0].path, a[k].path);
    }
  }
}
