/** Directory creation and the storage meter of explorer.php. */
module Storage {
  import opened Wrappers
  import opened Tree

  /** The 10 GiB quota the storage meter is drawn against. */
  const TotalStorage: nat := 10 * 1024 * 1024 * 1024

  /** `mkdir($p)`: a new empty directory where nothing exists yet and the parent is a directory. */
  function Mkdir(n: Node, p: Path): (r: Option<Node>)
    ensures r.Some? <==> p != [] && Lookup(n, p).None? && IsDirAt(n, p[..|p| - 1])
    ensures r.Some? ==> IsDirAt(r.value, p) && Lookup(r.value, p) == Some(Dir(map[]))
  {
    if p != [] && Lookup(n, p).None? && IsDirAt(n, p[..|p| - 1]) then
      LookupPutInside(n, p, Dir(map[]), p);
      assert p[|p|..] == [];
      Some(Put(n, p, Dir(map[])))
    else None
  }

  /** A successful `mkdir` changes nothing apart from the new directory. */
  lemma MkdirFrame(n: Node, p: Path, q: Path)
    requires Mkdir(n, p).Some? && Apart(p, q)
    ensures Lookup(Mkdir(n, p).value, q) == Lookup(n, q)
  {
    LookupPutApart(n, p, Dir(map[]), q);
  }

  /** `mkdir($p, 0777, true)`: every missing directory along `p`; it fails where a file is in the way. */
  function MkdirAll(n: Node, p: Path): Option<Node>
    decreases p
  {
    if p == [] then (if n.Dir? then Some(n) else None)
    else match n
      case File(_) => None
      case Dir(m) =>
        var child := if p[0] in m then m[p[0]] else Dir(map[]);
        match MkdirAll(child, p[1..])
        case None => None
        case Some(c) => Some(Dir(m[p[0] := c]))
  }

  /** After `mkdir -p` the whole path is a directory; it fails exactly when a file lies on the path. */
  lemma {:induction false} MkdirAllSpec(n: Node, p: Path)
    ensures MkdirAll(n, p).Some? ==> IsDirAt(MkdirAll(n, p).value, p)
    ensures MkdirAll(n, p).None? <==> exists i :: 0 <= i <= |p| && IsFileAt(n, p[..i])
    decreases p
  {
    if p == [] {
      if n.File? {
        assert IsFileAt(n, p[..0]);
      }
    } else if n.File? {
      assert IsFileAt(n, p[..0]);
    } else {
      var m := n.children;
      var child := if p[0] in m then m[p[0]] else Dir(map[]);
      MkdirAllSpec(child, p[1..]);
      if p[0] in m {
        forall i | 1 <= i <= |p|
          ensures IsFileAt(n, p[..i]) == IsFileAt(child, p[1..][..i - 1])
        {
          assert p[..i][0] == p[0] && p[..i][1..] == p[1..][..i - 1];
        }
        if MkdirAll(n, p).None? {
          var j :| 0 <= j <= |p[1..]| && IsFileAt(child, p[1..][..j]);
          assert IsFileAt(n, p[..j + 1]);
        }
      } else {
        assert forall i :: 1 <= i <= |p| ==> Lookup(n, p[..i]) == None by {
          forall i | 1 <= i <= |p|
            ensures Lookup(n, p[..i]) == None
          {
            assert p[..i][0] == p[0];
          }
        }
        assert !IsFileAt(n, p[..0]);
      }
    }
  }

  /** `mkdir -p` touches nothing apart from the path it creates. */
  lemma {:induction false} MkdirAllFrame(n: Node, p: Path, q: Path)
    requires MkdirAll(n, p).Some? && Apart(p, q)
    ensures Lookup(MkdirAll(n, p).value, q) == Lookup(n, q)
    decreases p
  {
    var m := n.children;
    if q != [] && p[0] == q[0] {
      var child := if p[0] in m then m[p[0]] else Dir(map[]);
      MkdirAllFrame(child, p[1..], q[1..]);
      if p[0] !in m {
        EmptyDirLookup(q[1..]);
      }
    }
  }

  lemma EmptyDirLookup(q: Path)
    requires q != []
    ensures Lookup(Dir(map[]), q) == None
  {
  }

  /**
   * getDirSize(): the directory's children are visited one by one, subdirectories
   * recursively, and the sizes of the files found are added up.
   */
  method DirSize(dir: Node) returns (size: nat)
    requires dir.Dir?
    ensures size == TreeSize(dir)
    decreases dir
  {
    size := 0;
    var todo := dir.children.Keys - {".", ".."};
    while todo != {}
      invariant todo <= dir.children.Keys
      invariant size + SumSizes(dir, todo) == TreeSize(dir)
      decreases todo
    {
      var item :| item in todo;
      SumSizesPick(dir, todo, item);
      var child := dir.children[item];
      if child.Dir? {
        var sub := DirSize(child);
        size := size + sub;
      } else {
        size := size + |child.data|;
      }
      todo := todo - {item};
    }
  }
}
