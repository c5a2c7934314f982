/**
 * The chunked upload of explorer.php as a function of the tree: what one entry of
 * `$_FILES['upload_files']` does to the destination file, and what the whole batch
 * does. The imperative loops that carry it out are `Explorer.Explorer.Upload` and
 * `Explorer.Explorer.UploadEntry`.
 */
module Upload {
  import opened Wrappers
  import opened Tree
  import opened Text
  import opened Paths
  import Names

  /** Bytes per `fread` of the temporary file. */
  const ChunkSize: nat := 8192

  const UPLOAD_ERR_OK: int := 0
  const UPLOAD_ERR_INI_SIZE: int := 1
  const UPLOAD_ERR_FORM_SIZE: int := 2
  const UPLOAD_ERR_PARTIAL: int := 3
  const UPLOAD_ERR_NO_FILE: int := 4
  const UPLOAD_ERR_NO_TMP_DIR: int := 6
  const UPLOAD_ERR_CANT_WRITE: int := 7
  const UPLOAD_ERR_EXTENSION: int := 8

  /**
   * One uploaded entry: the client's file name, PHP's error code, the temporary file's
   * bytes, and what the environment does: whether the destination and the temporary
   * file open, and the round of the copy loop whose read or write fails, if any.
   */
  datatype Entry = Entry(name: string, error: int, tmp: seq<byte>,
                         destOpens: bool, tmpOpens: bool, failAt: Option<nat>)

  /** The form fields shared by every entry: `file_name`, `(int)chunk_start`, `(int)total_size`. */
  datatype Form = Form(fileName: Option<string>, chunkStart: int, totalSize: Option<int>)

  /** What happened to one entry: written (and whether the file reached its total size), or failed. */
  datatype Outcome = Written(dest: Path, complete: bool) | Failed(message: string)

  /** The message for an upload error code (the `match` of the upload handler). */
  function ErrorMessage(code: int): string
  {
    if code == UPLOAD_ERR_INI_SIZE then "File too large (exceeds upload_max_filesize)"
    else if code == UPLOAD_ERR_FORM_SIZE then "File too large (exceeds form max size)"
    else if code == UPLOAD_ERR_PARTIAL then "File upload was partial"
    else if code == UPLOAD_ERR_NO_FILE then "No file was uploaded"
    else if code == UPLOAD_ERR_NO_TMP_DIR then "Missing temporary directory"
    else if code == UPLOAD_ERR_CANT_WRITE then "Failed to write file to disk"
    else if code == UPLOAD_ERR_EXTENSION then "File upload stopped by extension"
    else "Unknown upload error"
  }

  /** Each of the seven known codes has a message of its own; every other code is "Unknown upload error". */
  lemma ErrorMessageTable(code: int, other: int)
    ensures ErrorMessage(code) == "Unknown upload error" <==> code !in {1, 2, 3, 4, 6, 7, 8}
    ensures code in {1, 2, 3, 4, 6, 7, 8} && ErrorMessage(code) == ErrorMessage(other) ==> code == other
  {
  }

  /** `$_POST['file_name'] ?? basename($fname)`. */
  function OriginalName(form: Form, e: Entry): string
  {
    if form.fileName.Some? then form.fileName.value else Names.Basename(e.name)
  }

  /** `$currentDir . '/' . $originalName`, as the filesystem resolves it. */
  function Dest(cur: Path, name: string): Path
  {
    Normalize(Abs(cur) + "/" + name)
  }

  /** `fopen` for writing succeeds on a file or a new name inside an existing directory. */
  predicate Writable(fs: Node, dest: Path)
  {
    dest != [] && IsDirAt(fs, dest[..|dest| - 1]) && !IsDirAt(fs, dest)
  }

  /** The destination's bytes before the copy: 'wb' (chunk_start 0) truncates, 'ab' keeps them. */
  function Before(fs: Node, dest: Path, chunkStart: int): seq<byte>
  {
    if chunkStart != 0 && IsFileAt(fs, dest) then Lookup(fs, dest).value.data else []
  }

  /** The declared total: `total_size`, else the temporary file's size. */
  function Total(form: Form, e: Entry): int
  {
    if form.totalSize.Some? then form.totalSize.value else |e.tmp|
  }

  /** The copy loop fails when the round that fails is one it reaches: it runs |tmp| / 8192 + 1 rounds. */
  predicate CopyFails(e: Entry)
  {
    e.failAt.Some? && ChunkSize * e.failAt.value <= |e.tmp|
  }

  /** One entry, as the handler processes it. */
  function UploadOne(fs: Node, cur: Path, form: Form, e: Entry): (Node, Outcome)
  {
    if e.error != UPLOAD_ERR_OK then
      (fs, Failed("Upload error for " + e.name + ": " + ErrorMessage(e.error)))
    else
      var name := OriginalName(form, e);
      var dest := Dest(cur, name);
      if !Writable(fs, dest) || !e.destOpens then
        (fs, Failed("Failed to open file for writing: " + name))
      else
        var before := Before(fs, dest, form.chunkStart);
        if !e.tmpOpens then
          (Put(fs, dest, File(before)), Failed("Failed to read uploaded file: " + name))
        else if CopyFails(e) then
          (RemoveAt(fs, dest), Failed("Failed to write chunk for " + name))
        else
          (Put(fs, dest, File(before + e.tmp)), Written(dest, |before + e.tmp| >= Total(form, e)))
  }

  /** The foreach over all entries: each one sees the tree the previous ones left. */
  function UploadAll(fs: Node, cur: Path, form: Form, es: seq<Entry>): (r: (Node, seq<Outcome>))
    ensures |r.1| == |es|
    decreases |es|
  {
    if es == [] then (fs, [])
    else
      var prev := UploadAll(fs, cur, form, es[..|es| - 1]);
      var last := UploadOne(prev.0, cur, form, es[|es| - 1]);
      (last.0, prev.1 + [last.1])
  }

  /** `$_SESSION['error']` after the batch: the message of the last failed entry, else what it held. */
  function LastError(outcomes: seq<Outcome>, prior: Option<string>): Option<string>
  {
    if outcomes == [] then prior
    else if outcomes[|outcomes| - 1].Failed? then Some(outcomes[|outcomes| - 1].message)
    else LastError(outcomes[..|outcomes| - 1], prior)
  }

  /** One more entry: the batch so far, then that entry on the tree it left. */
  lemma UploadAllStep(fs: Node, cur: Path, form: Form, es: seq<Entry>, i: nat)
    requires i < |es|
    ensures var prev := UploadAll(fs, cur, form, es[..i]);
      var last := UploadOne(prev.0, cur, form, es[i]);
      UploadAll(fs, cur, form, es[..i + 1]) == (last.0, prev.1 + [last.1])
  {
    assert es[..i + 1][..i] == es[..i];
  }

  /** One more outcome: its message when it failed, otherwise the error so far. */
  lemma LastErrorStep(outcomes: seq<Outcome>, o: Outcome, prior: Option<string>)
    ensures LastError(outcomes + [o], prior) == if o.Failed? then Some(o.message) else LastError(outcomes, prior)
  {
    assert (outcomes + [o])[..|outcomes|] == outcomes;
  }

  /** Only the last failure's message survives; with no failure the session error is left alone. */
  lemma {:induction false} LastErrorIsLastFailure(outcomes: seq<Outcome>, prior: Option<string>, i: nat)
    requires i < |outcomes| && outcomes[i].Failed?
    requires forall j :: i < j < |outcomes| ==> !outcomes[j].Failed?
    ensures LastError(outcomes, prior) == Some(outcomes[i].message)
    decreases |outcomes|
  {
    if i < |outcomes| - 1 {
      LastErrorIsLastFailure(outcomes[..|outcomes| - 1], prior, i);
    }
  }

  lemma {:induction false} LastErrorNoFailure(outcomes: seq<Outcome>, prior: Option<string>)
    requires forall j :: 0 <= j < |outcomes| ==> !outcomes[j].Failed?
    ensures LastError(outcomes, prior) == prior
    decreases |outcomes|
  {
    if outcomes != [] {
      LastErrorNoFailure(outcomes[..|outcomes| - 1], prior);
    }
  }

  /** An entry PHP already rejected changes nothing on disk. */
  lemma RejectedEntryChangesNothing(fs: Node, cur: Path, form: Form, e: Entry)
    requires e.error != UPLOAD_ERR_OK
    ensures UploadOne(fs, cur, form, e).0 == fs
    ensures UploadOne(fs, cur, form, e).1 == Failed("Upload error for " + e.name + ": " + ErrorMessage(e.error))
  {
  }

  /** Chunk 0 opens with 'wb': the destination becomes exactly the uploaded bytes. */
  lemma FirstChunkTruncates(fs: Node, cur: Path, form: Form, e: Entry)
    requires form.chunkStart == 0
    requires UploadOne(fs, cur, form, e).1.Written?
    ensures var dest := Dest(cur, OriginalName(form, e));
      Lookup(UploadOne(fs, cur, form, e).0, dest) == Some(File(e.tmp))
  {
    var dest := Dest(cur, OriginalName(form, e));
    LookupPutInside(fs, dest, File(e.tmp), dest);
    assert dest[|dest|..] == [];
    assert [] + e.tmp == e.tmp;
  }

  /**
   * Any other chunk opens with 'ab', where writes go to the end whatever `fseek` said:
   * a chunk at 0 followed by a chunk at any non-zero offset leaves their concatenation.
   */
  lemma AppendIgnoresOffset(fs: Node, cur: Path, name: string, a: Entry, b: Entry, offset: int)
    requires offset != 0
    requires UploadOne(fs, cur, Form(Some(name), 0, None), a).1.Written?
    requires UploadOne(UploadOne(fs, cur, Form(Some(name), 0, None), a).0, cur, Form(Some(name), offset, None), b).1.Written?
    ensures var mid := UploadOne(fs, cur, Form(Some(name), 0, None), a).0;
      Lookup(UploadOne(mid, cur, Form(Some(name), offset, None), b).0, Dest(cur, name)) == Some(File(a.tmp + b.tmp))
  {
    var dest := Dest(cur, name);
    var mid := UploadOne(fs, cur, Form(Some(name), 0, None), a).0;
    FirstChunkTruncates(fs, cur, Form(Some(name), 0, None), a);
    assert Before(mid, dest, offset) == a.tmp;
    LookupPutInside(mid, dest, File(a.tmp + b.tmp), dest);
    assert dest[|dest|..] == [];
  }

  /**
   * A chunk sent twice (a client retry) is appended twice: chunk A at 0, then B at |A|,
   * then B again at |A| leaves A + B + B, not A + B.
   */
  lemma RetriedChunkDuplicates(fs: Node, cur: Path, name: string, a: Entry, b: Entry)
    requires |a.tmp| > 0
    requires var f1 := UploadOne(fs, cur, Form(Some(name), 0, None), a);
      var f2 := UploadOne(f1.0, cur, Form(Some(name), |a.tmp|, None), b);
      var f3 := UploadOne(f2.0, cur, Form(Some(name), |a.tmp|, None), b);
      f1.1.Written? && f2.1.Written? && f3.1.Written?
    ensures var f1 := UploadOne(fs, cur, Form(Some(name), 0, None), a).0;
      var f2 := UploadOne(f1, cur, Form(Some(name), |a.tmp|, None), b).0;
      var f3 := UploadOne(f2, cur, Form(Some(name), |a.tmp|, None), b).0;
      Lookup(f3, Dest(cur, name)) == Some(File(a.tmp + b.tmp + b.tmp))
  {
    var dest := Dest(cur, name);
    var f1 := UploadOne(fs, cur, Form(Some(name), 0, None), a).0;
    var f2 := UploadOne(f1, cur, Form(Some(name), |a.tmp|, None), b).0;
    AppendIgnoresOffset(fs, cur, name, a, b, |a.tmp|);
    assert Before(f2, dest, |a.tmp|) == a.tmp + b.tmp;
    LookupPutInside(f2, dest, File(a.tmp + b.tmp + b.tmp), dest);
    assert dest[|dest|..] == [];
  }

  /**
   * What the chunk protocol intends: the chunk's bytes land at `start` (chunk 0
   * replaces the file), as a write after a working `fseek` would place them.
   */
  function WriteChunkAt(content: seq<byte>, start: nat, chunk: seq<byte>): (r: seq<byte>)
    ensures start == 0 ==> r == chunk
    ensures start > 0 ==> |r| >= start + |chunk| && r[start..start + |chunk|] == chunk
    ensures start > 0 ==> r[..start] == (if start <= |content| then content[..start] else content + Zeros(start - |content|))
  {
    if start == 0 then chunk
    else
      var padded := if start <= |content| then content else content + Zeros(start - |content|);
      var tail := if start + |chunk| <= |padded| then padded[start + |chunk|..] else [];
      padded[..start] + chunk + tail
  }

  /** The zero bytes a write past the end leaves in the gap. */
  function Zeros(n: nat): (z: seq<byte>)
    ensures |z| == n && forall i :: 0 <= i < n ==> z[i] == 0
  {
    seq(n, _ => 0)
  }

  /** Under the intended placement, chunks in order rebuild the file and a retried chunk changes nothing. */
  lemma WriteChunkAtRetry(a: seq<byte>, b: seq<byte>)
    ensures WriteChunkAt(WriteChunkAt([], 0, a), |a|, b) == a + b
    ensures var once := WriteChunkAt(WriteChunkAt([], 0, a), |a|, b);
      WriteChunkAt(once, |a|, b) == once
  {
    if |a| > 0 {
      assert a[..|a|] == a;
      assert (a + b)[..|a|] == a;
      assert (a + b)[|a|..] == b;
    }
  }

  /** The destination a failed copy was writing to is unlinked, earlier chunks included. */
  lemma FailedCopyUnlinks(fs: Node, cur: Path, form: Form, e: Entry)
    requires e.error == UPLOAD_ERR_OK && e.destOpens && e.tmpOpens && CopyFails(e)
    requires Writable(fs, Dest(cur, OriginalName(form, e)))
    ensures Lookup(UploadOne(fs, cur, form, e).0, Dest(cur, OriginalName(form, e))) == None
    ensures UploadOne(fs, cur, form, e).1 == Failed("Failed to write chunk for " + OriginalName(form, e))
  {
    var dest := Dest(cur, OriginalName(form, e));
    LookupRemoveInside(fs, dest, dest);
  }

  /** The outcome records completion exactly when the file has reached the declared total size. */
  lemma CompletionReported(fs: Node, cur: Path, form: Form, e: Entry)
    requires UploadOne(fs, cur, form, e).1.Written?
    ensures var dest := Dest(cur, OriginalName(form, e));
      var after := UploadOne(fs, cur, form, e).0;
      IsFileAt(after, dest) &&
      (UploadOne(fs, cur, form, e).1.complete <==> |Lookup(after, dest).value.data| >= Total(form, e))
  {
    var dest := Dest(cur, OriginalName(form, e));
    var content := Before(fs, dest, form.chunkStart) + e.tmp;
    LookupPutInside(fs, dest, File(content), dest);
    assert dest[|dest|..] == [];
  }

  /** Every path apart from the destination is left as it was. */
  lemma UploadOneFrame(fs: Node, cur: Path, form: Form, e: Entry, q: Path)
    requires Apart(Dest(cur, OriginalName(form, e)), q)
    ensures Lookup(UploadOne(fs, cur, form, e).0, q) == Lookup(fs, q)
  {
    var dest := Dest(cur, OriginalName(form, e));
    LookupPutApart(fs, dest, File(Before(fs, dest, form.chunkStart)), q);
    LookupPutApart(fs, dest, File(Before(fs, dest, form.chunkStart) + e.tmp), q);
    LookupRemoveApart(fs, dest, q);
  }

  /** `file_name` is not checked: with enough ".." pieces an upload lands at any path of the tree. */
  lemma UploadAnywhere(cur: Path, target: Path, e: Entry)
    requires cur != [] && ValidPath(cur) && ValidPath(target)
    ensures Dest(cur, OriginalName(Form(Some(Join(Ups(|cur|) + target)), 0, None), e)) == target
  {
    ReachAnywhere(cur, target);
  }
}
