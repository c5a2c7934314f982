/**
 * The explorer page of explorer.php: the prologue every request runs (login check,
 * the user's Home directory, the current folder) and the handlers that change the
 * tree. One `Explorer` object holds the filesystem the handlers work on.
 */
module Explorer {
  import opened Wrappers
  import opened Text
  import opened Tree
  import opened Paths
  import opened Sessions
  import Names
  import Storage
  import Upload

  const LoginPage: string := "/selfhostedgdrive/index.php"
  const HomePage: string := "/selfhostedgdrive/explorer.php?folder=Home"

  /** `$baseDir`, `$currentDir` and `$currentRel` of one request. */
  datatype Context = Context(base: Path, cur: Path, rel: string)

  /** A context as the prologue produces it: a proper sandbox root with the current folder inside it. */
  predicate ValidContext(ctx: Context)
  {
    ctx.base != [] && ValidPath(ctx.base) && ValidPath(ctx.cur) && ctx.base <= ctx.cur
  }

  /** How the prologue ends: a redirect, a 500 page, or a page to render for a context. */
  datatype Page = Redirect(location: string) | ServerError(text: string) | Ready(ctx: Context)

  /** `rename($from, $to)` to a name that does not exist yet: the target's parent must be a directory, and a directory cannot move into itself. */
  predicate CanRename(fs: Node, from: Path, to: Path)
  {
    from != [] && to != [] && IsDirAt(fs, to[..|to| - 1]) && !(from <= to)
  }

  /** The tree after `rename`: the node and everything below it now live under the new path. */
  function Move(fs: Node, from: Path, to: Path): Node
    requires Lookup(fs, from).Some?
  {
    Put(RemoveAt(fs, from), to, Lookup(fs, from).value)
  }

  /** A rename carries the whole subtree to the new path and leaves nothing at the old one. */
  lemma MoveSpec(fs: Node, from: Path, to: Path, r: Path)
    requires Lookup(fs, from).Some? && Lookup(fs, to).None? && CanRename(fs, from, to)
    ensures Lookup(Move(fs, from, to), to + r) == Lookup(fs, from + r)
    ensures Lookup(Move(fs, from, to), from) == None
  {
    var v := Lookup(fs, from).value;
    var mid := RemoveAt(fs, from);
    var parent := to[..|to| - 1];
    assert parent <= to;
    if parent <= from && parent != from {
      RemoveKeepsAncestorDir(fs, from, parent);
    } else {
      assert !(from <= parent);
      LookupRemoveApart(fs, from, parent);
    }
    LookupPutInside(mid, to, v, to + r);
    assert (to + r)[|to|..] == r;
    LookupConcat(fs, from, r);
    if to <= from {
      LookupPrefix(fs, from, to);
    }
    LookupPutApart(mid, to, v, from);
    LookupRemoveInside(fs, from, from);
  }

  /** A rename leaves every path apart from both names as it was. */
  lemma MoveFrame(fs: Node, from: Path, to: Path, q: Path)
    requires Lookup(fs, from).Some?
    requires Apart(q, from) && Apart(q, to)
    ensures Lookup(Move(fs, from, to), q) == Lookup(fs, q)
  {
    LookupPutApart(RemoveAt(fs, from), to, Lookup(fs, from).value, q);
    LookupRemoveApart(fs, from, q);
  }

  /** `$currentDir . '/' . $name`, as the filesystem resolves it. */
  function Under(cur: Path, name: string): Path
  {
    Normalize(Abs(cur) + "/" + name)
  }

  /** A name that climbs out with ".." pieces reaches any existing path, inside the sandbox or not. */
  lemma NamesReachAnywhere(fs: Node, cur: Path, target: Path)
    requires cur != [] && ValidPath(cur) && ValidPath(target) && Lookup(fs, target).Some?
    ensures Realpath(fs, Abs(cur) + "/" + Join(Ups(|cur|) + target)) == Some(target)
    ensures Under(cur, Join(Ups(|cur|) + target)) == target
  {
    ReachAnywhere(cur, target);
  }

  /** The current folder is always a canonical path: the base itself or a normalised path. */
  lemma ResolveRelValid(fs: Node, base: Path, rel: string)
    requires ValidPath(base)
    ensures ValidPath(ResolveRel(fs, base, rel).dir)
  {
    var s := Abs(base) + "/" + rel;
    NormalizeValid(s);
  }

  /**
   * The outcome of create folder for a target path: an existing entry is left alone;
   * otherwise `mkdir` makes the directory, and its failure is reported.
   */
  predicate MadeFolder(fs: Node, fs': Node, target: Path, mkdirOk: bool, error: Option<string>, error': Option<string>)
  {
    var made := Storage.Mkdir(fs, target);
    if Lookup(fs, target).Some? then fs' == fs && error' == error
    else if made.Some? && mkdirOk then fs' == made.value && error' == error
    else fs' == fs && error' == Some("Failed to create folder.")
  }

  class Explorer {
    var fs: Node

    constructor(fs: Node)
      ensures this.fs == fs
    {
      this.fs := fs;
    }

    /**
     * The prologue: the login check, `mkdir -p` of the user's Home when it is not a
     * directory, `realpath` of it as the sandbox root, the redirect when no folder is
     * given, and the current folder with its fallback to Home.
     */
    method Enter(session: Session, folder: Option<string>, mkdirOk: bool) returns (page: Page)
      modifies this
      ensures session.User().None? ==> page == Redirect(LoginPage) && fs == old(fs)
      ensures session.User().Some? ==>
        var home := Normalize(HomeDirPath(session.User().value));
        var made := Storage.MkdirAll(old(fs), home);
        var fails := !IsDirAt(old(fs), home) && (!mkdirOk || made.None?);
        fs == (if IsDirAt(old(fs), home) || fails then old(fs) else made.value) &&
        (page.ServerError? <==> fails) &&
        (fails ==> page == ServerError("Server configuration error.")) &&
        (!fails && folder.None? ==> page == Redirect(HomePage)) &&
        (!fails && folder.Some? ==> page.Ready?)
      ensures page.Ready? ==>
        session.User().Some? && folder.Some? && ValidContext(page.ctx) &&
        BaseDir(fs, session.User().value) == Some(page.ctx.base) &&
        Folder(page.ctx.cur, page.ctx.rel) == ResolveFolder(fs, page.ctx.base, folder.value) &&
        Lookup(fs, page.ctx.cur).Some? && CleanRel(page.ctx.rel)
    {
      var user := session.User();
      if user.None? {
        return Redirect(LoginPage);
      }
      var home := Normalize(HomeDirPath(user.value));
      if !IsDirAt(fs, home) {
        var made := Storage.MkdirAll(fs, home);
        if !mkdirOk || made.None? {
          return ServerError("Server configuration error.");
        }
        Storage.MkdirAllSpec(fs, home);
        fs := made.value;
      }
      // `realpath` of an existing directory always succeeds here.
      var base := BaseDir(fs, user.value).value;
      if folder.None? {
        return Redirect(HomePage);
      }
      var f := ResolveFolder(fs, base, folder.value);
      ResolveFolderConfined(fs, base, folder.value);
      ResolveRelValid(fs, base, FolderRel(folder.value));
      page := Ready(Context(base, f.dir, f.rel));
    }

    /** Create folder: a trimmed, non-empty name that does not exist yet becomes a new empty directory. */
    method CreateFolder(ctx: Context, folderName: Option<string>, mkdirOk: bool, session: Session)
      modifies this, session
      ensures var name := Trim(if folderName.Some? then folderName.value else "", Whitespace);
        name == "" ==> fs == old(fs) && session.error == old(session.error)
      ensures var name := Trim(if folderName.Some? then folderName.value else "", Whitespace);
        name != "" ==> MadeFolder(old(fs), fs, Under(ctx.cur, name), mkdirOk, old(session.error), session.error)
      ensures session.loggedin == old(session.loggedin) && session.username == old(session.username)
      ensures session.message == old(session.message)
    {
      var name := Trim(if folderName.Some? then folderName.value else "", Whitespace);
      if name != "" {
        MakeFolder(Under(ctx.cur, name), mkdirOk, session);
      }
    }

    /** The `mkdir` step of create folder, for a name already known to be non-empty. */
    method MakeFolder(target: Path, mkdirOk: bool, session: Session)
      modifies this, session
      ensures MadeFolder(old(fs), fs, target, mkdirOk, old(session.error), session.error)
      ensures session.loggedin == old(session.loggedin) && session.username == old(session.username)
      ensures session.message == old(session.message)
    {
      if Lookup(fs, target).None? {
        var made := Storage.Mkdir(fs, target);
        if made.None? || !mkdirOk {
          session.error := Some("Failed to create folder.");
        } else {
          fs := made.value;
        }
      }
    }

    /**
     * deleteRecursive(): every entry below `p` is unlinked, subdirectories first, then
     * `p` itself is removed.
     */
    method DeleteRecursive(p: Path, ghost node: Node)
      requires p != [] && Lookup(fs, p) == Some(node) && node.Dir?
      modifies this
      ensures fs == RemoveAt(old(fs), p)
      decreases node
    {
      ghost var r0 := fs;
      var m := Lookup(fs, p).value.children;
      PutSelf(fs, p);
      LookupParent(fs, p);
      var todo := m.Keys;
      assert Restrict(m, todo) == m;
      while todo != {}
        invariant todo <= m.Keys
        invariant fs == Put(r0, p, Dir(Restrict(m, todo)))
        decreases todo
      {
        var item :| item in todo;
        var full := p + [item];
        ghost var rest := Restrict(m, todo);
        LookupPutInside(r0, p, Dir(rest), full);
        assert full[|p|..] == [item];
        var child := m[item];
        if child.Dir? {
          DeleteRecursive(full, child);
        } else {
          fs := RemoveAt(fs, full);
        }
        RemoveChildOfPut(r0, p, rest, item);
        assert rest - {item} == Restrict(m, todo - {item});
        todo := todo - {item};
      }
      assert Restrict(m, {}) == map[];
      RemoveAfterPut(r0, p, Dir(map[]));
      fs := RemoveAt(fs, p);
    }

    /**
     * Delete: the item is resolved under the current folder; only a path that has the
     * current folder as a string prefix is removed, a directory with all its content.
     */
    method Delete(ctx: Context, item: string)
      requires ValidContext(ctx)
      modifies this
      ensures var target := Realpath(old(fs), Abs(ctx.cur) + "/" + item);
        fs == if target.Some? && Abs(ctx.cur) <= Abs(target.value) then RemoveAt(old(fs), target.value) else old(fs)
    {
      var target := Realpath(fs, Abs(ctx.cur) + "/" + item);
      if target.Some? && Abs(ctx.cur) <= Abs(target.value) {
        NormalizeValid(Abs(ctx.cur) + "/" + item);
        PrefixReach(ctx.cur, target.value);
        var node := Lookup(fs, target.value).value;
        if node.Dir? {
          DeleteRecursive(target.value, node);
        } else {
          fs := RemoveAt(fs, target.value);
        }
      }
    }

    /** Rename folder: an existing directory moves to a name that does not exist yet. */
    method RenameFolder(ctx: Context, oldName: Option<string>, newName: Option<string>)
      modifies this
      ensures var from := Realpath(old(fs), Abs(ctx.cur) + "/" + (if oldName.Some? then oldName.value else ""));
        var to := Under(ctx.cur, if newName.Some? then newName.value else "");
        fs == if from.Some? && IsDirAt(old(fs), from.value) && Lookup(old(fs), to).None? && CanRename(old(fs), from.value, to)
              then Move(old(fs), from.value, to) else old(fs)
    {
      var oldFolderName := if oldName.Some? then oldName.value else "";
      var newFolderName := if newName.Some? then newName.value else "";
      var from := Realpath(fs, Abs(ctx.cur) + "/" + oldFolderName);
      if from.Some? && IsDirAt(fs, from.value) {
        var to := Under(ctx.cur, newFolderName);
        if Lookup(fs, to).None? && CanRename(fs, from.value, to) {
          fs := Move(fs, from.value, to);
        }
      }
    }

    /**
     * Rename file: an existing file moves to a name that does not exist yet, and only
     * when the lower-cased extensions of the two names agree; otherwise the extension
     * error is recorded and nothing moves.
     */
    method RenameFile(ctx: Context, oldName: Option<string>, newName: Option<string>, session: Session)
      modifies this, session
      ensures var oldFileName := if oldName.Some? then oldName.value else "";
        var newFileName := if newName.Some? then newName.value else "";
        var from := Realpath(old(fs), Abs(ctx.cur) + "/" + oldFileName);
        var to := Under(ctx.cur, newFileName);
        var isFile := from.Some? && IsFileAt(old(fs), from.value);
        var sameExt := Names.LowerExtension(oldFileName) == Names.LowerExtension(newFileName);
        fs == (if isFile && sameExt && Lookup(old(fs), to).None? && CanRename(old(fs), from.value, to)
               then Move(old(fs), from.value, to) else old(fs)) &&
        session.error == (if isFile && !sameExt then Some("Modification of file extension is not allowed.") else old(session.error))
      ensures session.loggedin == old(session.loggedin) && session.username == old(session.username)
      ensures session.message == old(session.message)
    {
      var oldFileName := if oldName.Some? then oldName.value else "";
      var newFileName := if newName.Some? then newName.value else "";
      var from := Realpath(fs, Abs(ctx.cur) + "/" + oldFileName);
      if from.Some? && IsFileAt(fs, from.value) {
        var oldExt := Names.LowerExtension(oldFileName);
        var newExt := Names.LowerExtension(newFileName);
        if oldExt != newExt {
          session.error := Some("Modification of file extension is not allowed.");
        } else {
          var to := Under(ctx.cur, newFileName);
          if Lookup(fs, to).None? && CanRename(fs, from.value, to) {
            fs := Move(fs, from.value, to);
          }
        }
      }
    }

    /**
     * One upload entry: open the destination ('wb' for chunk 0, 'ab' otherwise), open
     * the temporary file, copy it 8192 bytes at a time, and unlink the destination when
     * a read or write fails.
     */
    method UploadEntry(cur: Path, form: Upload.Form, e: Upload.Entry) returns (outcome: Upload.Outcome)
      modifies this
      ensures (fs, outcome) == Upload.UploadOne(old(fs), cur, form, e)
    {
      if e.error != Upload.UPLOAD_ERR_OK {
        return Upload.Failed("Upload error for " + e.name + ": " + Upload.ErrorMessage(e.error));
      }
      var name := Upload.OriginalName(form, e);
      var dest := Upload.Dest(cur, name);
      if !Upload.Writable(fs, dest) || !e.destOpens {
        return Upload.Failed("Failed to open file for writing: " + name);
      }
      ghost var fs0 := fs;
      var before := Upload.Before(fs, dest, form.chunkStart);
      fs := Put(fs, dest, File(before));
      if !e.tmpOpens {
        return Upload.Failed("Failed to read uploaded file: " + name);
      }
      var copied := CopyChunks(dest, fs0, before, e);
      if !copied {
        return Upload.Failed("Failed to write chunk for " + name);
      }
      outcome := Upload.Written(dest, |before + e.tmp| >= Upload.Total(form, e));
    }

    /**
     * The copy loop of one entry: 8192-byte pieces of the temporary file are appended to
     * the destination until a short piece; a failing round unlinks the destination.
     */
    method CopyChunks(dest: Path, ghost fs0: Node, before: seq<byte>, e: Upload.Entry) returns (copied: bool)
      requires dest != [] && fs == Put(fs0, dest, File(before))
      modifies this
      ensures copied == !Upload.CopyFails(e)
      ensures fs == if copied then Put(fs0, dest, File(before + e.tmp)) else RemoveAt(fs0, dest)
    {
      var content := before;
      var pos := 0;
      var round := 0;
      var eof := false;
      while !eof
        invariant pos <= |e.tmp| && content == before + e.tmp[..pos]
        invariant fs == Put(fs0, dest, File(content))
        invariant !eof ==> pos == Upload.ChunkSize * round
        invariant eof ==> pos == |e.tmp| && |e.tmp| < Upload.ChunkSize * round
        invariant forall r :: 0 <= r < round ==> e.failAt != Some(r)
        decreases |e.tmp| - pos, if eof then 0 else 1
      {
        if e.failAt == Some(round) {
          RemoveAfterPut(fs0, dest, File(content));
          fs := RemoveAt(fs, dest);
          return false;
        }
        var piece := if pos + Upload.ChunkSize <= |e.tmp| then e.tmp[pos..pos + Upload.ChunkSize] else e.tmp[pos..];
        eof := |piece| < Upload.ChunkSize;
        assert e.tmp[..pos + |piece|] == e.tmp[..pos] + piece;
        content := content + piece;
        PutPut(fs0, dest, File(content[..|content| - |piece|]), File(content));
        fs := Put(fs, dest, File(content));
        pos := pos + |piece|;
        round := round + 1;
      }
      assert e.tmp[..pos] == e.tmp;
      copied := true;
    }

    /** The upload handler: every entry in turn; the session keeps the last failure's message. */
    method UploadFiles(ctx: Context, form: Upload.Form, entries: seq<Upload.Entry>, session: Session)
      returns (outcomes: seq<Upload.Outcome>)
      modifies this, session
      ensures (fs, outcomes) == Upload.UploadAll(old(fs), ctx.cur, form, entries)
      ensures session.error == Upload.LastError(outcomes, old(session.error))
      ensures session.loggedin == old(session.loggedin) && session.username == old(session.username)
      ensures session.message == old(session.message)
    {
      outcomes := [];
      var i := 0;
      while i < |entries|
        invariant i <= |entries|
        invariant (fs, outcomes) == Upload.UploadAll(old(fs), ctx.cur, form, entries[..i])
        invariant session.error == Upload.LastError(outcomes, old(session.error))
        invariant session.loggedin == old(session.loggedin) && session.username == old(session.username)
        invariant session.message == old(session.message)
      {
        Upload.UploadAllStep(old(fs), ctx.cur, form, entries, i);
        var outcome := UploadEntry(ctx.cur, form, entries[i]);
        if outcome.Failed? {
          session.error := Some(outcome.message);
        }
        Upload.LastErrorStep(outcomes, outcome, old(session.error));
        outcomes := outcomes + [outcome];
        i := i + 1;
      }
      assert entries[..i] == entries;
    }
  }

  /** The "Back" link's `?folder=`: present only below the sandbox root, the relative folder without its last piece. */
  function ParentLink(ctx: Context): (r: Option<string>)
    ensures r.Some? <==> ctx.cur != ctx.base
    ensures r.Some? ==> r.value == Names.ParentRel(ctx.rel)
  {
    if ctx.cur == ctx.base then None else Some(Names.ParentRel(ctx.rel))
  }

  /**
   * Following the "Back" link from a folder the prologue resolved lands in its parent
   * directory, unless the folder was reached through a final "." piece.
   */
  lemma BackLinkLeadsUp(fs: Node, base: Path, folder: string)
    requires base != [] && ValidPath(base)
    requires var f := ResolveFolder(fs, base, folder); f.dir != base && Names.LastPiece(f.rel) != "."
    ensures var f := ResolveFolder(fs, base, folder);
      var link := ParentLink(Context(base, f.dir, f.rel));
      link.Some? && f.dir != [] && ResolveFolder(fs, base, link.value).dir == f.dir[..|f.dir| - 1]
  {
    var f := ResolveFolder(fs, base, folder);
    var rel := FolderRel(folder);
    ResolveFolderFallback(fs, base, folder);
    FolderRelClean(folder);
    RealpathUnder(base, rel);
    assert f == Folder(Resolve(base, Split(rel)), rel);
    var parent := Names.ParentRel(rel);
    ParentPieces(base, rel);
    var up := Resolve(base, Split(FolderRel(parent)));
    LookupPrefix(fs, f.dir, up);
    RealpathUnder(base, FolderRel(parent));
    ResolveFolderFallback(fs, base, parent);
  }

  /** A clean relative folder resolves to where its parent link's folder resolves, plus its last piece. */
  lemma ParentPieces(base: Path, rel: string)
    requires NoDoubleDot(rel) && ".." !in Split(rel)
    requires rel != [] && rel[|rel| - 1] != '/' && Names.LastPiece(rel) != "."
    ensures Resolve(base, Split(rel))
      == Resolve(base, Split(FolderRel(Names.ParentRel(rel)))) + [Names.LastPiece(rel)]
  {
    var parent := Names.ParentRel(rel);
    Names.ParentRelSplit(rel);
    if '/' in rel {
      ParentPiecesNested(base, rel, parent, Names.LastPiece(rel));
      assert rel[..|parent|] == parent;
      SubstringNoDoubleDot(rel, 0, |parent|);
    } else {
      SplitNoSlash(rel);
    }
    FolderRelResolves(base, parent);
  }

  /** The step for a relative folder "parent/last": resolving it is resolving the parent, then going down into `last`. */
  lemma ParentPiecesNested(base: Path, rel: string, parent: string, last: string)
    requires rel == parent + "/" + last && ".." !in Split(rel) && last == Split(rel)[|Split(rel)| - 1]
    requires last != "" && last != "."
    ensures Resolve(base, Split(rel)) == Resolve(base, Split(parent)) + [last]
  {
    SplitConcat(parent, last);
    SplitNoSlash(last);
    ResolveConcat(base, Split(parent), [last]);
  }

  /** The entries of `m` named in `keys`. */
  function Restrict(m: map<string, Node>, keys: set<string>): map<string, Node>
  {
    map k | k in keys && k in m :: m[k]
  }

  /** Delete with "." resolves to the current folder itself, which passes the prefix test and is removed. */
  lemma DeleteDotRemovesCurrent(fs: Node, ctx: Context)
    requires ValidContext(ctx) && Lookup(fs, ctx.cur).Some?
    ensures var target := Realpath(fs, Abs(ctx.cur) + "/" + ".");
      target == Some(ctx.cur) && Abs(ctx.cur) <= Abs(target.value)
  {
    RealpathUnder(ctx.cur, ".");
    assert Split(".") == ["."];
    assert Resolve(ctx.cur, ["."]) == ctx.cur;
  }

  /** What Delete may remove: the current folder, what lies below it, or a sibling whose name extends the folder's last segment. */
  lemma DeleteReach(fs: Node, ctx: Context, item: string)
    requires ValidContext(ctx)
    requires var t := Realpath(fs, Abs(ctx.cur) + "/" + item); t.Some? && Abs(ctx.cur) <= Abs(t.value)
    ensures var p := Realpath(fs, Abs(ctx.cur) + "/" + item).value;
      var c := ctx.cur;
      c[..|c| - 1] <= p && |p| >= |c| && c[|c| - 1] <= p[|c| - 1]
  {
    NormalizeValid(Abs(ctx.cur) + "/" + item);
    PrefixReach(ctx.cur, Realpath(fs, Abs(ctx.cur) + "/" + item).value);
  }
}
