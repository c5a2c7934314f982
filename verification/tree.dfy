/**
 * The filesystem seen by the handlers: one tree rooted at "/". A path is the
 * sequence of its segments, so "/var/www" is ["var", "www"] and "/" is [].
 */
module Tree {
  import opened Wrappers

  newtype byte = x: int | 0 <= x < 256

  datatype Node = File(data: seq<byte>) | Dir(children: map<string, Node>)

  type Path = seq<string>

  /** The node a path leads to, if every step goes through an existing directory. */
  function Lookup(n: Node, p: Path): Option<Node>
    decreases p
  {
    if p == [] then Some(n)
    else match n
      case File(_) => None
      case Dir(m) => if p[0] in m then Lookup(m[p[0]], p[1..]) else None
  }

  predicate IsDirAt(n: Node, p: Path)
  {
    Lookup(n, p).Some? && Lookup(n, p).value.Dir?
  }

  predicate IsFileAt(n: Node, p: Path)
  {
    Lookup(n, p).Some? && Lookup(n, p).value.File?
  }

  /** Neither path lies inside the other. */
  predicate Apart(p: Path, q: Path)
  {
    !(p <= q) && !(q <= p)
  }

  /** Places `v` at `p` (creating or replacing the last entry); a path whose parent is missing changes nothing. */
  function Put(n: Node, p: Path, v: Node): Node
    decreases p
  {
    if p == [] then v
    else match n
      case File(_) => n
      case Dir(m) =>
        if |p| == 1 then Dir(m[p[0] := v])
        else if p[0] in m then Dir(m[p[0] := Put(m[p[0]], p[1..], v)])
        else n
  }

  /** Unlinks the entry at `p` with everything below it; the root itself cannot be removed. */
  function RemoveAt(n: Node, p: Path): Node
    decreases p
  {
    if p == [] then n
    else match n
      case File(_) => n
      case Dir(m) =>
        if |p| == 1 then Dir(m - {p[0]})
        else if p[0] in m then Dir(m[p[0] := RemoveAt(m[p[0]], p[1..])])
        else n
  }

  /** What was put at `p` is found at `p`, and below it is what lies below `v`. */
  lemma {:induction false} LookupPutInside(n: Node, p: Path, v: Node, q: Path)
    requires p != [] ==> IsDirAt(n, p[..|p| - 1])
    requires p <= q
    ensures Lookup(Put(n, p, v), q) == Lookup(v, q[|p|..])
    decreases p
  {
    if p != [] {
      var m := n.children;
      if |p| > 1 {
        assert p[1..][..|p| - 2] == p[..|p| - 1][1..];
        LookupPutInside(m[p[0]], p[1..], v, q[1..]);
        assert q[1..][|p| - 1..] == q[|p|..];
      } else {
        assert q[1..] == q[|p|..];
      }
    }
  }

  /** Putting at `p` leaves every path apart from `p` as it was. */
  lemma {:induction false} LookupPutApart(n: Node, p: Path, v: Node, q: Path)
    requires Apart(p, q)
    ensures Lookup(Put(n, p, v), q) == Lookup(n, q)
    decreases p
  {
    if p != [] && q != [] && n.Dir? && p[0] == q[0] && |p| > 1 && p[0] in n.children {
      LookupPutApart(n.children[p[0]], p[1..], v, q[1..]);
    }
  }

  /** A directory above `p` stays a directory when something is put at `p`. */
  lemma {:induction false} PutKeepsAncestorDir(n: Node, p: Path, v: Node, q: Path)
    requires q < p && IsDirAt(n, q)
    ensures IsDirAt(Put(n, p, v), q)
    decreases q
  {
    if q != [] {
      PutKeepsAncestorDir(n.children[p[0]], p[1..], v, q[1..]);
    }
  }

  /** Nothing is left at or below a removed path. */
  lemma {:induction false} LookupRemoveInside(n: Node, p: Path, q: Path)
    requires p != [] && p <= q
    ensures Lookup(RemoveAt(n, p), q) == None
    decreases p
  {
    if n.Dir? && |p| > 1 && p[0] in n.children {
      LookupRemoveInside(n.children[p[0]], p[1..], q[1..]);
    }
  }

  /** Removing `p` leaves every path apart from `p` as it was. */
  lemma {:induction false} LookupRemoveApart(n: Node, p: Path, q: Path)
    requires Apart(p, q)
    ensures Lookup(RemoveAt(n, p), q) == Lookup(n, q)
    decreases p
  {
    if q != [] && n.Dir? && p[0] == q[0] && |p| > 1 && p[0] in n.children {
      LookupRemoveApart(n.children[p[0]], p[1..], q[1..]);
    }
  }

  /** A directory above a removed path stays a directory. */
  lemma {:induction false} RemoveKeepsAncestorDir(n: Node, p: Path, q: Path)
    requires q < p && IsDirAt(n, q)
    ensures IsDirAt(RemoveAt(n, p), q)
    decreases q
  {
    if q != [] {
      RemoveKeepsAncestorDir(n.children[p[0]], p[1..], q[1..]);
    }
  }

  lemma {:induction false} PutPut(n: Node, p: Path, x: Node, y: Node)
    ensures Put(Put(n, p, x), p, y) == Put(n, p, y)
    decreases p
  {
    if p != [] && n.Dir? && |p| > 1 && p[0] in n.children {
      PutPut(n.children[p[0]], p[1..], x, y);
    }
  }

  lemma {:induction false} PutSelf(n: Node, p: Path)
    requires Lookup(n, p).Some?
    ensures Put(n, p, Lookup(n, p).value) == n
    decreases p
  {
    if p != [] {
      var m := n.children;
      if |p| > 1 {
        PutSelf(m[p[0]], p[1..]);
      }
      assert m[p[0] := m[p[0]]] == m;
    }
  }

  /** Unlinking one entry of a directory put at `p` is putting the smaller directory. */
  lemma {:induction false} RemoveChildOfPut(n: Node, p: Path, c: map<string, Node>, k: string)
    ensures RemoveAt(Put(n, p, Dir(c)), p + [k]) == Put(n, p, Dir(c - {k}))
    decreases p
  {
    if p == [] {
      assert p + [k] == [k];
    } else if n.Dir? {
      var m := n.children;
      assert (p + [k])[0] == p[0] && (p + [k])[1..] == p[1..] + [k];
      if |p| > 1 && p[0] in m {
        RemoveChildOfPut(m[p[0]], p[1..], c, k);
      }
    }
  }

  lemma {:induction false} RemoveAfterPut(n: Node, p: Path, v: Node)
    requires p != []
    ensures RemoveAt(Put(n, p, v), p) == RemoveAt(n, p)
    decreases p
  {
    if n.Dir? {
      var m := n.children;
      if |p| == 1 {
        assert m[p[0] := v] - {p[0]} == m - {p[0]};
      } else if p[0] in m {
        RemoveAfterPut(m[p[0]], p[1..], v);
      }
    }
  }

  /** An existing path's parent is a directory. */
  lemma {:induction false} LookupParent(n: Node, p: Path)
    requires p != [] && Lookup(n, p).Some?
    ensures IsDirAt(n, p[..|p| - 1])
    decreases p
  {
    if |p| > 1 {
      LookupParent(n.children[p[0]], p[1..]);
      assert p[1..][..|p| - 2] == p[..|p| - 1][1..];
    }
  }

  /** Looking up a + r is looking up r from the node at a. */
  lemma {:induction false} LookupConcat(n: Node, a: Path, r: Path)
    requires Lookup(n, a).Some?
    ensures Lookup(n, a + r) == Lookup(Lookup(n, a).value, r)
    decreases a
  {
    if a != [] {
      assert (a + r)[0] == a[0] && (a + r)[1..] == a[1..] + r;
      LookupConcat(n.children[a[0]], a[1..], r);
    } else {
      assert a + r == r;
    }
  }

  /** Every prefix of an existing path exists. */
  lemma LookupPrefix(n: Node, p: Path, q: Path)
    requires Lookup(n, p).Some? && q <= p
    ensures Lookup(n, q).Some?
  {
    assert p == q + p[|q|..];
    if Lookup(n, q).None? {
      LookupNoneConcat(n, q, p[|q|..]);
    }
  }

  lemma {:induction false} LookupNoneConcat(n: Node, q: Path, r: Path)
    requires Lookup(n, q).None?
    ensures Lookup(n, q + r).None?
    decreases q
  {
    assert q != [];
    assert (q + r)[0] == q[0] && (q + r)[1..] == q[1..] + r;
    if n.Dir? && q[0] in n.children {
      LookupNoneConcat(n.children[q[0]], q[1..], r);
    }
  }

  /** The bytes stored in a tree: the sizes of all its files, at any depth; entries named "." or ".." are not counted. */
  ghost function TreeSize(n: Node): nat
    decreases n, 1
  {
    match n
    case File(d) => |d|
    case Dir(m) => SumSizes(n, m.Keys - {".", ".."})
  }

  /** The sizes of the children of `dir` named in `keys`, summed. */
  ghost function SumSizes(dir: Node, keys: set<string>): nat
    requires dir.Dir? && keys <= dir.children.Keys
    decreases dir, 0, keys
  {
    if keys == {} then 0
    else
      var k :| k in keys;
      TreeSize(dir.children[k]) + SumSizes(dir, keys - {k})
  }

  /** The sum does not depend on the order in which the children are visited. */
  lemma {:induction false} SumSizesPick(dir: Node, keys: set<string>, k: string)
    requires dir.Dir? && keys <= dir.children.Keys && k in keys
    ensures SumSizes(dir, keys) == TreeSize(dir.children[k]) + SumSizes(dir, keys - {k})
    decreases |keys|
  {
    var j :| j in keys && SumSizes(dir, keys) == TreeSize(dir.children[j]) + SumSizes(dir, keys - {j});
    if j != k {
      SumSizesPick(dir, keys - {j}, k);
      SumSizesPick(dir, keys - {k}, j);
      assert keys - {j} - {k} == keys - {k} - {j};
    }
  }
}
