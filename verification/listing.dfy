/**
 * The folder listing of explorer.php: the current directory's entries split into
 * folders and files, each list then sorted.
 */
module Listing {
  import opened Tree

  /** Byte-wise string order: the first differing character decides, a proper prefix comes first. */
  predicate StrLess(a: string, b: string)
    decreases |a|
  {
    if a == [] then b != []
    else if b == [] then false
    else a[0] < b[0] || (a[0] == b[0] && StrLess(a[1..], b[1..]))
  }

  predicate StrLeq(a: string, b: string)
  {
    !StrLess(b, a)
  }

  lemma {:induction false} StrLessIrreflexive(a: string)
    ensures !StrLess(a, a)
    decreases |a|
  {
    if a != [] {
      StrLessIrreflexive(a[1..]);
    }
  }

  lemma {:induction false} StrLessTransitive(a: string, b: string, c: string)
    requires StrLess(a, b) && StrLess(b, c)
    ensures StrLess(a, c)
    decreases |a|
  {
    if a != [] && a[0] == b[0] && b[0] == c[0] {
      StrLessTransitive(a[1..], b[1..], c[1..]);
    }
  }

  lemma {:induction false} StrLessTotal(a: string, b: string)
    ensures a == b || StrLess(a, b) || StrLess(b, a)
    decreases |a|
  {
    if a != [] && b != [] && a[0] == b[0] {
      StrLessTotal(a[1..], b[1..]);
      if a[1..] == b[1..] {
        assert a == [a[0]] + a[1..] && b == [b[0]] + b[1..];
      }
    }
  }

  /** `StrLeq` is a total order: reflexive, antisymmetric, transitive and total. */
  lemma StrLeqTotalOrder(a: string, b: string, c: string)
    ensures StrLeq(a, a)
    ensures StrLeq(a, b) && StrLeq(b, a) ==> a == b
    ensures StrLeq(a, b) && StrLeq(b, c) ==> StrLeq(a, c)
    ensures StrLeq(a, b) || StrLeq(b, a)
  {
    StrLessIrreflexive(a);
    StrLessTotal(a, b);
    StrLessTotal(b, c);
    StrLessTotal(a, c);
    if StrLess(c, a) {
      if StrLess(c, b) && StrLess(b, a) {
        StrLessTransitive(c, b, a);
      }
      if StrLess(a, b) {
        StrLessTransitive(c, a, b);
      }
      if StrLess(b, c) {
        StrLessTransitive(b, c, a);
      }
    }
    if StrLess(a, b) && StrLess(b, a) {
      StrLessTransitive(a, b, a);
    }
  }

  predicate Ordered(s: seq<string>)
  {
    forall i, j :: 0 <= i < j < |s| ==> StrLeq(s[i], s[j])
  }

  /** Puts `x` after every element not above it. */
  method Insert(r: seq<string>, x: string) returns (t: seq<string>)
    requires Ordered(r)
    ensures Ordered(t) && multiset(t) == multiset(r) + multiset{x}
  {
    var i := |r|;
    while i > 0 && StrLess(x, r[i - 1])
      invariant 0 <= i <= |r|
      invariant forall k :: i <= k < |r| ==> StrLess(x, r[k])
    {
      i := i - 1;
    }
    t := r[..i] + [x] + r[i..];
    assert r == r[..i] + r[i..];
    forall a, b | 0 <= a < b < |t|
      ensures StrLeq(t[a], t[b])
    {
      if a < i && b == i {
        // r[a] <= r[i - 1] <= x
        StrLeqTotalOrder(r[a], r[i - 1], x);
      } else if a == i {
        StrLeqTotalOrder(x, t[b], x);
      }
    }
  }

  /** PHP `sort()` on a list of names, under byte-wise order. */
  method Sort(s: seq<string>) returns (r: seq<string>)
    ensures Ordered(r) && multiset(r) == multiset(s)
  {
    r := [];
    var n := 0;
    while n < |s|
      invariant n <= |s|
      invariant Ordered(r) && multiset(r) == multiset(s[..n])
    {
      r := Insert(r, s[n]);
      assert s[..n + 1] == s[..n] + [s[n]];
      n := n + 1;
    }
    assert s[..n] == s;
  }

  /** The entries shown as folders: every directory except "." and "..". */
  function FolderNames(m: map<string, Node>): set<string>
  {
    set n | n in m && n != "." && n != ".." && m[n].Dir?
  }

  /** The entries shown as files: everything else except "." and "..". */
  function FileNames(m: map<string, Node>): set<string>
  {
    set n | n in m && n != "." && n != ".." && m[n].File?
  }

  /** Every entry but "." and ".." is a folder or a file, never both. */
  lemma NamesPartition(m: map<string, Node>)
    ensures FolderNames(m) !! FileNames(m)
    ensures FolderNames(m) + FileNames(m) == m.Keys - {".", ".."}
  {
  }

  /** The foreach over the directory's entries: directories to `$folders`, the rest to `$files`. */
  method Partition(m: map<string, Node>) returns (folders: seq<string>, files: seq<string>)
    ensures multiset(folders) == multiset(FolderNames(m))
    ensures multiset(files) == multiset(FileNames(m))
  {
    folders, files := [], [];
    var todo := m.Keys;
    while todo != {}
      invariant todo <= m.Keys
      invariant forall x :: multiset(folders)[x] == if x in FolderNames(m) && x !in todo then 1 else 0
      invariant forall x :: multiset(files)[x] == if x in FileNames(m) && x !in todo then 1 else 0
      decreases todo
    {
      var one :| one in todo;
      if one != "." && one != ".." {
        if m[one].Dir? {
          folders := folders + [one];
        } else {
          files := files + [one];
        }
      }
      todo := todo - {one};
    }
    assert forall x :: multiset(folders)[x] == multiset(FolderNames(m))[x];
    assert forall x :: multiset(files)[x] == multiset(FileNames(m))[x];
  }

  /**
   * The listing of the current directory: each entry lands once in the folder list
   * or once in the file list, and both lists come out sorted. A current "directory"
   * that is a file lists nothing.
   */
  method ListDir(dir: Node) returns (folders: seq<string>, files: seq<string>)
    ensures dir.File? ==> folders == [] && files == []
    ensures dir.Dir? ==> multiset(folders) == multiset(FolderNames(dir.children))
    ensures dir.Dir? ==> multiset(files) == multiset(FileNames(dir.children))
    ensures Ordered(folders) && Ordered(files)
  {
    folders, files := [], [];
    if dir.Dir? {
      folders, files := Partition(dir.children);
    }
    folders := Sort(folders);
    files := Sort(files);
  }

  /** A sorted list holding each name once is strictly increasing. */
  lemma OrderedDistinct(s: seq<string>, names: set<string>)
    requires Ordered(s) && multiset(s) == multiset(names)
    ensures forall i, j :: 0 <= i < j < |s| ==> StrLess(s[i], s[j])
  {
    forall i, j | 0 <= i < j < |s|
      ensures StrLess(s[i], s[j])
    {
      StrLessTotal(s[i], s[j]);
      DistinctAt(s, names, i, j);
    }
  }

  /** Two positions of a list holding each name of a set once carry different names. */
  lemma DistinctAt(s: seq<string>, names: set<string>, i: nat, j: nat)
    requires multiset(s) == multiset(names) && i < j < |s|
    ensures s[i] != s[j]
  {
    var a, b, c := s[..i], s[i + 1..j], s[j + 1..];
    assert s == a + [s[i]] + b + [s[j]] + c;
    assert multiset(s) == multiset(a) + multiset{s[i]} + multiset(b) + multiset{s[j]} + multiset(c);
    assert multiset(names)[s[i]] <= 1;
  }
}
