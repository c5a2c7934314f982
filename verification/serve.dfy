/**
 * The `action=serve` branch of explorer.php: the MIME choice, the Range header,
 * the response head and the chunked streaming loops.
 */
module Serve {
  import opened Wrappers
  import opened Text
  import opened Tree
  import opened Paths
  import Names

  /** Bytes per `fread` in both streaming loops. */
  const ChunkSize: nat := 8192

  /* ---------------- MIME type ---------------- */

  /** The fixed extension table, keyed by the lower-cased extension. */
  function MimeTable(ext: string): (r: Option<string>)
    ensures r.Some? ==> r.value != ""
  {
    if ext == "pdf" then Some("application/pdf")
    else if ext == "png" then Some("image/png")
    else if ext == "jpg" || ext == "jpeg" then Some("image/jpeg")
    else if ext == "gif" then Some("image/gif")
    else if ext == "heic" then Some("image/heic")
    else if ext == "mp4" then Some("video/mp4")
    else if ext == "webm" then Some("video/webm")
    else if ext == "mov" then Some("video/quicktime")
    else if ext == "avi" then Some("video/x-msvideo")
    else if ext == "mkv" then Some("video/x-matroska")
    else None
  }

  /**
   * The Content-Type as written, for the lower-cased extension `ext`: the table, else
   * the content sniffer's answer. The sniffer reports failure with `false`, never
   * null, so `?? 'application/octet-stream'` never fires and `false` is sent as "".
   */
  function MimeType(ext: string, sniffed: Option<string>): (mime: string)
    ensures MimeTable(ext).Some? ==> mime == MimeTable(ext).value
    ensures MimeTable(ext).None? && sniffed.Some? ==> mime == sniffed.value
  {
    match MimeTable(ext)
    case Some(m) => m
    case None => if sniffed.Some? then sniffed.value else ""
  }

  /** The table knows exactly the previewable extensions and "pdf". */
  lemma MimeTableKnown(ext: string)
    ensures MimeTable(ext).Some? <==> ext in Names.ImageExtensions + Names.VideoExtensions + ["pdf"]
  {
    var known := Names.ImageExtensions + Names.VideoExtensions + ["pdf"];
    if ext in known {
      var i :| 0 <= i < |known| && known[i] == ext;
      assert MimeTable(known[i]).Some?;
    }
  }

  /** A file previewed as an image is served with an image Content-Type, whatever the sniffer says. */
  lemma ImagesServedAsImages(name: string, sniffed: Option<string>)
    requires Names.IsImage(name)
    ensures "image/" <= MimeType(Names.LowerExtension(name), sniffed)
  {
    MimeTableImage(Names.LowerExtension(name));
  }

  lemma MimeTableImage(ext: string)
    requires ext in Names.ImageExtensions
    ensures MimeTable(ext).Some? && "image/" <= MimeTable(ext).value
  {
    var i :| 0 <= i < |Names.ImageExtensions| && Names.ImageExtensions[i] == ext;
    if i == 0 {
      assert MimeTable(ext) == Some("image/png");
    } else if i == 1 || i == 2 {
      assert MimeTable(ext) == Some("image/jpeg");
    } else if i == 3 {
      assert MimeTable(ext) == Some("image/gif");
    } else {
      assert MimeTable(ext) == Some("image/heic");
    }
  }

  /** A file previewed as a video is served with a video Content-Type, whatever the sniffer says. */
  lemma VideosServedAsVideos(name: string, sniffed: Option<string>)
    requires Names.IsVideo(name)
    ensures "video/" <= MimeType(Names.LowerExtension(name), sniffed)
  {
    MimeTableVideo(Names.LowerExtension(name));
  }

  lemma MimeTableVideo(ext: string)
    requires ext in Names.VideoExtensions
    ensures MimeTable(ext).Some? && "video/" <= MimeTable(ext).value
  {
    var i :| 0 <= i < |Names.VideoExtensions| && Names.VideoExtensions[i] == ext;
    if i == 0 {
      assert MimeTable(ext) == Some("video/mp4");
    } else if i == 1 {
      assert MimeTable(ext) == Some("video/webm");
    } else if i == 2 {
      assert MimeTable(ext) == Some("video/quicktime");
    } else if i == 3 {
      assert MimeTable(ext) == Some("video/x-msvideo");
    } else {
      assert MimeTable(ext) == Some("video/x-matroska");
    }
  }

  /** An unknown extension whose sniff fails gets an empty Content-Type. */
  lemma MimeTypeFallbackUnreachable(ext: string)
    requires MimeTable(ext).None?
    ensures MimeType(ext, None) == ""
  {
  }

  /** The Content-Type the last `??` was meant to give: never empty, application/octet-stream as the last resort. */
  function MimeTypeIntended(ext: string, sniffed: Option<string>): (mime: string)
    ensures mime != ""
    ensures MimeTable(ext).Some? ==> mime == MimeTable(ext).value
    ensures MimeTable(ext).None? && sniffed.Some? && sniffed.value != "" ==> mime == sniffed.value
    ensures MimeTable(ext).None? && (sniffed.None? || sniffed.value == "") ==> mime == "application/octet-stream"
  {
    match MimeTable(ext)
    case Some(m) => m
    case None => if sniffed.Some? && sniffed.value != "" then sniffed.value else "application/octet-stream"
  }

  /* ---------------- Range header ---------------- */

  /** The length of the run of digits `s` starts with. */
  function DigitRun(s: string): (n: nat)
    ensures n <= |s| && AllDigits(s[..n])
    ensures n < |s| ==> !IsDigit(s[n])
  {
    if s != [] && IsDigit(s[0]) then
      var n := 1 + DigitRun(s[1..]);
      assert s[..n] == [s[0]] + s[1..][..n - 1];
      n
    else 0
  }

  /** The two captures of `bytes=(\d+)-(\d*)?`. */
  datatype RangeMatch = RangeMatch(first: string, second: string)

  /** The pattern anchored at the start of `s`; both digit runs are greedy. */
  function MatchHere(s: string): (m: Option<RangeMatch>)
    ensures m.Some? ==> m.value.first != [] && AllDigits(m.value.first) && AllDigits(m.value.second)
  {
    if !("bytes=" <= s) then None else MatchBounds(s[6..])
  }

  /** `(\d+)-(\d*)` anchored at the start of `t`. */
  function MatchBounds(t: string): (m: Option<RangeMatch>)
    ensures m.Some? ==> m.value.first != [] && AllDigits(m.value.first) && AllDigits(m.value.second)
  {
    var n := DigitRun(t);
    if n == 0 || n == |t| || t[n] != '-' then None
    else
      var u := t[n + 1..];
      Some(RangeMatch(t[..n], u[..DigitRun(u)]))
  }

  /** `preg_match`: the match at the leftmost position where the pattern matches. */
  function FindMatch(s: string): (m: Option<RangeMatch>)
    ensures m.Some? ==> m.value.first != [] && AllDigits(m.value.first) && AllDigits(m.value.second)
  {
    if s == [] then None
    else if MatchHere(s).Some? then MatchHere(s)
    else FindMatch(s[1..])
  }

  /** The captures occur in `t` as matched: the first run, a dash, then the longest run of digits after it. */
  lemma MatchBoundsOccurs(t: string)
    ensures var m := MatchBounds(t);
      m.Some? ==>
        var w := m.value.first + "-" + m.value.second;
        w <= t && (|w| < |t| ==> !IsDigit(t[|w|]))
  {
    var m := MatchBounds(t);
    if m.Some? {
      var n := DigitRun(t);
      var u := t[n + 1..];
      var w := m.value.first + "-" + m.value.second;
      assert t == t[..n] + [t[n]] + u;
      assert u == u[..DigitRun(u)] + u[DigitRun(u)..];
      if |w| < |t| {
        assert t[|w|] == u[DigitRun(u)];
      }
    }
  }

  /** A match at the start of `s` spells out "bytes=", the first capture, a dash and the second capture. */
  lemma MatchHereOccurs(s: string)
    ensures var m := MatchHere(s);
      m.Some? ==> "bytes=" + m.value.first + "-" + m.value.second <= s
  {
    if "bytes=" <= s {
      MatchBoundsOccurs(s[6..]);
      assert s == s[..6] + s[6..];
    }
  }

  /** `preg_match` reports the match at the leftmost position, and no match only when no position matches. */
  lemma {:induction false} FindMatchLeftmost(s: string)
    ensures FindMatch(s).Some? ==>
      exists i :: 0 <= i < |s| && MatchHere(s[i..]) == FindMatch(s) &&
        forall j :: 0 <= j < i ==> MatchHere(s[j..]).None?
    ensures FindMatch(s).None? ==> forall i :: 0 <= i < |s| ==> MatchHere(s[i..]).None?
    decreases |s|
  {
    if s == [] {
    } else if MatchHere(s).Some? {
      assert s[0..] == s;
    } else {
      var t := s[1..];
      FindMatchLeftmost(t);
      if FindMatch(t).Some? {
        var k :| 0 <= k < |t| && MatchHere(t[k..]) == FindMatch(t) &&
          forall j :: 0 <= j < k ==> MatchHere(t[j..]).None?;
        assert s[k + 1..] == t[k..];
        NoMatchBefore(s, k + 1);
      } else {
        NoMatchBefore(s, |s|);
      }
    }
  }

  /** The step of FindMatchLeftmost: no match at position 0 and none in the tail before n - 1 means none before n. */
  lemma NoMatchBefore(s: string, n: nat)
    requires 0 < n <= |s| && MatchHere(s).None?
    requires forall j :: 0 <= j < n - 1 ==> MatchHere(s[1..][j..]).None?
    ensures forall j :: 0 <= j < n ==> MatchHere(s[j..]).None?
  {
    forall j | 0 <= j < n
      ensures MatchHere(s[j..]).None?
    {
      if j == 0 {
        assert s[0..] == s;
      } else {
        assert s[j..] == s[1..][j - 1..];
      }
    }
  }

  /** What the serve branch does with the Range header. */
  datatype Decision = WholeFile | Partial(start: nat, end: nat) | NotSatisfiable

  /**
   * No header: the whole file. A header the pattern does not match, or whose bounds fall
   * outside the file or are reversed: 416. Otherwise the first range, an empty end
   * meaning the last byte. The numbers are PHP `(int)` casts, saturating at PHP_INT_MAX.
   */
  function Decide(range: Option<string>, size: nat): (d: Decision)
    ensures d.WholeFile? <==> range.None?
    ensures d.Partial? ==> d.start <= d.end < size
  {
    match range
    case None => WholeFile
    case Some(h) =>
      match FindMatch(h)
      case None => NotSatisfiable
      case Some(m) =>
        var start := ParseInt(m.first);
        var end: int := if m.second != "" then ParseInt(m.second) else size - 1;
        if start >= size || end >= size || start > end then NotSatisfiable
        else Partial(start, end)
  }

  lemma ParseDecimal(n: nat)
    requires n <= IntMax
    ensures ParseInt(Decimal(n)) == n
  {
    DecimalRoundTrip(n);
  }

  /** The header `bytes=<s>-<e>` followed by any text not starting with a digit. */
  lemma MatchExplicit(s: nat, e: nat, tail: string)
    requires tail == [] || !IsDigit(tail[0])
    ensures FindMatch("bytes=" + Decimal(s) + "-" + Decimal(e) + tail) == Some(RangeMatch(Decimal(s), Decimal(e)))
  {
    MatchDigits(Decimal(s), Decimal(e), tail);
  }

  /** Two digit runs around a '-', after "bytes=", are the two captures. */
  lemma MatchDigits(ds: string, de: string, tail: string)
    requires ds != [] && AllDigits(ds) && AllDigits(de)
    requires tail == [] || !IsDigit(tail[0])
    ensures FindMatch("bytes=" + ds + "-" + de + tail) == Some(RangeMatch(ds, de))
  {
    var h := "bytes=" + ds + "-" + de + tail;
    MatchHereDigits(ds, de, tail);
    assert h != [];
  }

  lemma MatchHereDigits(ds: string, de: string, tail: string)
    requires ds != [] && AllDigits(ds) && AllDigits(de)
    requires tail == [] || !IsDigit(tail[0])
    ensures MatchHere("bytes=" + ds + "-" + de + tail) == Some(RangeMatch(ds, de))
  {
    var t := ds + "-" + de + tail;
    var h := "bytes=" + t;
    assert h == "bytes=" + ds + "-" + de + tail;
    assert "bytes=" <= h && h[6..] == t;
    MatchBoundsDigits(ds, de, tail);
  }

  lemma MatchBoundsDigits(ds: string, de: string, tail: string)
    requires ds != [] && AllDigits(ds) && AllDigits(de)
    requires tail == [] || !IsDigit(tail[0])
    ensures MatchBounds(ds + "-" + de + tail) == Some(RangeMatch(ds, de))
  {
    var u := de + tail;
    var rest := "-" + u;
    var t := ds + rest;
    assert t == ds + "-" + de + tail;
    DigitRunOf(ds, rest);
    DigitRunOf(de, tail);
    assert t[|ds|] == '-' && t[|ds| + 1..] == u;
  }

  /** A run of digits followed by a non-digit is exactly the run `DigitRun` finds. */
  lemma {:induction false} DigitRunOf(d: string, rest: string)
    requires AllDigits(d)
    requires rest == [] || !IsDigit(rest[0])
    ensures DigitRun(d + rest) == |d| && (d + rest)[..|d|] == d
  {
    if d != [] {
      assert (d + rest)[1..] == d[1..] + rest;
      DigitRunOf(d[1..], rest);
    }
  }

  /**
   * An explicit range is served exactly when it lies within the file and is not
   * reversed; an end past the last byte is refused, not clamped.
   */
  lemma DecideExplicit(s: nat, e: nat, size: nat)
    requires s <= IntMax && e <= IntMax
    ensures Decide(Some("bytes=" + Decimal(s) + "-" + Decimal(e)), size)
      == if s <= e < size then Partial(s, e) else NotSatisfiable
  {
    assert "bytes=" + Decimal(s) + "-" + Decimal(e) + "" == "bytes=" + Decimal(s) + "-" + Decimal(e);
    DecideExplicitThen(s, e, "", size);
  }

  /** The same decision when anything not starting with a digit follows the range. */
  lemma DecideExplicitThen(s: nat, e: nat, tail: string, size: nat)
    requires s <= IntMax && e <= IntMax
    requires tail == [] || !IsDigit(tail[0])
    ensures Decide(Some("bytes=" + Decimal(s) + "-" + Decimal(e) + tail), size)
      == if s <= e < size then Partial(s, e) else NotSatisfiable
  {
    MatchExplicit(s, e, tail);
    ParseDecimal(s);
    ParseDecimal(e);
  }

  /** Of a multi-range request only the first range counts; the rest is ignored. */
  lemma DecideFirstRangeOnly(s: nat, e: nat, rest: string, size: nat)
    requires s <= IntMax && e <= IntMax
    ensures Decide(Some("bytes=" + Decimal(s) + "-" + Decimal(e) + "," + rest), size)
      == Decide(Some("bytes=" + Decimal(s) + "-" + Decimal(e)), size)
  {
    var ds, de := Decimal(s), Decimal(e);
    assert "bytes=" + ds + "-" + de + "," + rest == "bytes=" + ds + "-" + de + ("," + rest);
    DecideExplicitThen(s, e, "," + rest, size);
    DecideExplicit(s, e, size);
  }

  /** `bytes=<s>-` runs to the last byte when the start is inside the file. */
  lemma DecideOpenEnded(s: nat, size: nat)
    requires s <= IntMax
    ensures Decide(Some("bytes=" + Decimal(s) + "-"), size)
      == if s < size then Partial(s, size - 1) else NotSatisfiable
  {
    var h := "bytes=" + Decimal(s) + "-";
    assert h == "bytes=" + Decimal(s) + "-" + [] + [];
    assert AllDigits([]);
    MatchOpen(s);
    ParseDecimal(s);
  }

  lemma MatchOpen(s: nat)
    ensures FindMatch("bytes=" + Decimal(s) + "-") == Some(RangeMatch(Decimal(s), ""))
  {
    var ds := Decimal(s);
    var h := "bytes=" + ds + "-";
    assert "bytes=" <= h;
    var t := h[6..];
    assert t == ds + "-";
    DigitRunOf(ds, "-");
    assert t[|ds| + 1..] == [];
  }

  /** A text without the letter 'b' never matches. */
  lemma {:induction false} NoMatchWithoutB(s: string)
    requires 'b' !in s
    ensures FindMatch(s) == None
  {
    if s != [] {
      assert !("bytes=" <= s) by {
        assert s[0] != 'b';
      }
      NoMatchWithoutB(s[1..]);
    }
  }

  /** A suffix range `bytes=-<n>` (the last n bytes) is answered with 416. */
  lemma DecideSuffixRefused(n: nat, size: nat)
    ensures Decide(Some("bytes=-" + Decimal(n)), size) == NotSatisfiable
  {
    var h := "bytes=-" + Decimal(n);
    assert h[6] == '-';
    assert MatchHere(h) == None;
    assert h[1..] == "ytes=-" + Decimal(n);
    assert forall i :: 0 <= i < |Decimal(n)| ==> Decimal(n)[i] != 'b';
    assert 'b' !in h[1..] by {
      assert forall i :: 0 <= i < |h[1..]| ==> h[1..][i] != 'b';
    }
    NoMatchWithoutB(h[1..]);
  }

  /* ---------------- Response head ---------------- */

  /** A response: status, headers, body bytes and any text echoed instead of a body. */
  datatype Response = Response(status: nat, headers: map<string, string>, body: seq<byte>, text: string)

  const CacheControl: string := "private, max-age=31536000"

  /** The headers sent before the file is opened. */
  function FileHeaders(mime: string, size: nat): (h: map<string, string>)
    ensures "Content-Length" in h && h["Content-Length"] == Decimal(size)
    ensures "Content-Type" in h && h["Content-Type"] == mime
  {
    map["Content-Type" := mime, "Accept-Ranges" := "bytes", "Content-Length" := Decimal(size),
        "Cache-Control" := CacheControl, "X-Content-Type-Options" := "nosniff"]
  }

  /** The status and headers for a decision; later `header()` calls replace earlier ones. */
  function Head(d: Decision, mime: string, size: nat): (r: (nat, map<string, string>))
    requires d.Partial? ==> d.start <= d.end
    ensures "Content-Length" in r.1 && "Content-Type" in r.1
    ensures d.Partial? ==> r.0 == 206 && r.1["Content-Length"] == Decimal(d.end - d.start + 1)
    ensures d.WholeFile? ==> r.0 == 200 && r.1["Content-Length"] == Decimal(size)
    ensures d.NotSatisfiable? ==> r.0 == 416 && "Content-Range" in r.1 && r.1["Content-Range"] == "bytes */" + Decimal(size)
    ensures d.Partial? ==>
      "Content-Range" in r.1 && r.1["Content-Range"] == "bytes " + Decimal(d.start) + "-" + Decimal(d.end) + "/" + Decimal(size)
    ensures d.WholeFile? ==> "Content-Range" !in r.1
    ensures r.1["Content-Type"] == mime
  {
    var base := FileHeaders(mime, size);
    match d
    case WholeFile => (200, base)
    case Partial(s, e) =>
      (206, base["Content-Length" := Decimal(e - s + 1)]
                ["Content-Range" := "bytes " + Decimal(s) + "-" + Decimal(e) + "/" + Decimal(size)])
    case NotSatisfiable => (416, base["Content-Range" := "bytes */" + Decimal(size)])
  }

  /* ---------------- Streaming ---------------- */

  /** `connection_aborted()` at its n-th call, from a script of answers; false past the script. */
  predicate AbortedAt(aborted: seq<bool>, n: nat)
  {
    n < |aborted| && aborted[n]
  }

  /** The index of the first call that reports an abort. */
  function FirstAbort(aborted: seq<bool>): (r: Option<nat>)
    ensures r.Some? ==> r.value < |aborted| && aborted[r.value] && forall j :: 0 <= j < r.value ==> !aborted[j]
    ensures r.None? ==> forall j :: 0 <= j < |aborted| ==> !aborted[j]
  {
    if aborted == [] then None
    else if aborted[0] then Some(0)
    else
      match FirstAbort(aborted[1..])
      case None => None
      case Some(i) => Some(i + 1)
  }

  /** How many of `len` bytes reach the client: everything, or the whole chunks before the abort. */
  function Sent(len: nat, aborted: seq<bool>): (n: nat)
    ensures n <= len
  {
    match FirstAbort(aborted)
    case None => len
    case Some(i) => if ChunkSize * i < len then ChunkSize * i else len
  }

  /** `fread($fp, n)` at `pos`: up to n bytes, fewer at the end of the file. */
  function Read(data: seq<byte>, pos: nat, n: nat): (piece: seq<byte>)
    requires pos <= |data|
    ensures |piece| <= n && pos + |piece| <= |data| && piece == data[pos..pos + |piece|]
    ensures |piece| < n ==> pos + |piece| == |data|
  {
    if pos + n <= |data| then data[pos..pos + n] else data[pos..]
  }

  /** The 206 loop: at most `remaining` bytes from `start`, 8192 at a time, until done, EOF or abort. */
  method StreamRange(data: seq<byte>, start: nat, end: nat, aborted: seq<bool>) returns (out: seq<byte>)
    requires start <= end < |data|
    ensures out == data[start..start + Sent(end - start + 1, aborted)]
  {
    var len := end - start + 1;
    var pos := start;
    var remaining := len;
    var eof := false;
    var calls := 0;
    out := [];
    while remaining > 0 && !eof && !AbortedAt(aborted, calls)
      invariant start <= pos <= end + 1 && pos + remaining == end + 1
      invariant out == data[start..pos]
      invariant !eof
      invariant remaining > 0 ==> pos - start == ChunkSize * calls
      invariant ChunkSize * calls >= pos - start
      invariant forall j :: 0 <= j < calls ==> !AbortedAt(aborted, j)
      decreases remaining
    {
      var chunk := if remaining < ChunkSize then remaining else ChunkSize;
      var piece := Read(data, pos, chunk);
      eof := |piece| < chunk;
      out := out + piece;
      pos := pos + |piece|;
      remaining := remaining - chunk;
      calls := calls + 1;
    }
    SentAfter(len, aborted, calls, pos - start);
  }

  /** The loop's exit condition pins down `Sent`. */
  lemma SentAfter(len: nat, aborted: seq<bool>, calls: nat, done: nat)
    requires done <= len && ChunkSize * calls >= done
    requires forall j :: 0 <= j < calls ==> !AbortedAt(aborted, j)
    requires done == len || (done == ChunkSize * calls && AbortedAt(aborted, calls))
    ensures Sent(len, aborted) == done
  {
    match FirstAbort(aborted)
    case None =>
    case Some(i) =>
      assert AbortedAt(aborted, i);
      assert i >= calls;
  }

  /** The 200 loop: the file from its start, 8192 bytes at a time, until EOF or abort. */
  method StreamWhole(data: seq<byte>, aborted: seq<bool>) returns (out: seq<byte>)
    ensures out == data[..Sent(|data|, aborted)]
  {
    var pos := 0;
    var eof := false;
    var calls := 0;
    out := [];
    while !eof && !AbortedAt(aborted, calls)
      invariant pos <= |data| && out == data[..pos]
      invariant !eof ==> pos == ChunkSize * calls
      invariant eof ==> pos == |data| && ChunkSize * calls >= |data|
      invariant forall j :: 0 <= j < calls ==> !AbortedAt(aborted, j)
      decreases |data| - pos, if eof then 0 else 1
    {
      var piece := Read(data, pos, ChunkSize);
      eof := |piece| < ChunkSize;
      out := out + piece;
      pos := pos + |piece|;
      calls := calls + 1;
    }
    SentAfter(|data|, aborted, calls, pos);
  }

  /** Without an abort every requested byte is sent. */
  lemma SentNoAbort(len: nat, aborted: seq<bool>)
    requires forall j :: 0 <= j < |aborted| ==> !aborted[j]
    ensures Sent(len, aborted) == len
  {
  }

  /** An abort at the n-th check stops the stream after n whole chunks. */
  lemma SentAbort(len: nat, aborted: seq<bool>, n: nat)
    requires n < |aborted| && aborted[n] && forall j :: 0 <= j < n ==> !aborted[j]
    ensures Sent(len, aborted) == if ChunkSize * n < len then ChunkSize * n else len
  {
    var f := FirstAbort(aborted);
    assert f.Some?;
  }

  /** The bytes a decision sends, given the client's aborts. */
  function Body(data: seq<byte>, d: Decision, aborted: seq<bool>): seq<byte>
    requires d.Partial? ==> d.start <= d.end < |data|
  {
    match d
    case WholeFile => data[..Sent(|data|, aborted)]
    case Partial(s, e) => data[s..s + Sent(e - s + 1, aborted)]
    case NotSatisfiable => []
  }

  /**
   * Everything after the file was found: the headers, `fopen`, then the Range decision
   * and the matching loop. `opens` is false for a directory as well: reading a
   * directory stream is not part of this model.
   */
  method ServeFile(data: seq<byte>, mime: string, range: Option<string>, opens: bool, aborted: seq<bool>)
    returns (resp: Response)
    ensures !opens ==> resp == Response(500, FileHeaders(mime, |data|), [], "Unable to serve file.")
    ensures opens ==>
      var d := Decide(range, |data|);
      (resp.status, resp.headers) == Head(d, mime, |data|) && resp.body == Body(data, d, aborted) && resp.text == ""
  {
    if !opens {
      return Response(500, FileHeaders(mime, |data|), [], "Unable to serve file.");
    }
    var d := Decide(range, |data|);
    var head := Head(d, mime, |data|);
    match d {
      case WholeFile =>
        var body := StreamWhole(data, aborted);
        resp := Response(head.0, head.1, body, "");
      case Partial(s, e) =>
        var body := StreamRange(data, s, e, aborted);
        resp := Response(head.0, head.1, body, "");
      case NotSatisfiable =>
        resp := Response(head.0, head.1, [], "");
    }
  }

  const LoginPage: string := "/selfhostedgdrive/index.php"

  /** The file a serve request reaches, if any: the user's sandbox, then the prefix-checked lookup. */
  function ServeTarget(fs: Node, user: string, file: string): (r: Option<Path>)
    ensures r.Some? ==> (BaseDir(fs, user).Some? && Lookup(fs, r.value).Some? &&
      Abs(BaseDir(fs, user).value) <= Abs(r.value))
  {
    match BaseDir(fs, user)
    case None => None
    case Some(base) => ServeResolve(fs, base, file)
  }

  /**
   * `explorer.php?action=serve&file=…`. `user` is the logged-in user of the session,
   * `file` the decoded parameter, `sniffed` the content sniffer's answer, `opens`
   * whether `fopen` succeeds and `aborted` the answers of `connection_aborted()`.
   */
  method ServeRequest(fs: Node, user: Option<string>, file: string, range: Option<string>,
                      sniffed: Option<string>, opens: bool, aborted: seq<bool>) returns (resp: Response)
    ensures user.None? ==> resp == Response(302, map["Location" := LoginPage], [], "")
    ensures user.Some? && BaseDir(fs, user.value).None? ==> resp == Response(500, map[], [], "Server configuration error.")
    ensures user.Some? && BaseDir(fs, user.value).Some? && ServeTarget(fs, user.value, file).None?
      ==> resp == Response(404, map[], [], "File not found.")
    ensures user.Some? && ServeTarget(fs, user.value, file).Some? ==>
      var target := ServeTarget(fs, user.value, file).value;
      var node := Lookup(fs, target).value;
      var mime := MimeType(Names.LowerExtension(Abs(target)), sniffed);
      var size := if node.File? then |node.data| else 0;
      if node.File? && opens then
        var d := Decide(range, size);
        (resp.status, resp.headers) == Head(d, mime, size) && resp.body == Body(node.data, d, aborted)
      else
        resp == Response(500, FileHeaders(mime, size), [], "Unable to serve file.")
  {
    if user.None? {
      return Response(302, map["Location" := LoginPage], [], "");
    }
    var baseDir := BaseDir(fs, user.value);
    if baseDir.None? {
      return Response(500, map[], [], "Server configuration error.");
    }
    var target := ServeResolve(fs, baseDir.value, file);
    if target.None? {
      return Response(404, map[], [], "File not found.");
    }
    var node := Lookup(fs, target.value).value;
    var mime := MimeType(Names.LowerExtension(Abs(target.value)), sniffed);
    if node.File? {
      resp := ServeFile(node.data, mime, range, opens, aborted);
    } else {
      resp := ServeFile([], mime, range, false, aborted);
    }
  }

  /** Only regular files are streamed, and only from paths that passed the sandbox prefix test. */
  lemma ServeStreamsOnlyPrefixedFiles(fs: Node, user: string, file: string)
    requires ServeTarget(fs, user, file).Some?
    ensures var base := BaseDir(fs, user).value;
      var p := ServeTarget(fs, user, file).value;
      base[..|base| - 1] <= p && |p| >= |base| && base[|base| - 1] <= p[|base| - 1]
  {
    ServeResolveReach(fs, BaseDir(fs, user).value, file);
  }

  /**
   * With no abort the body is exactly what the Content-Length announces: the whole file
   * for 200, bytes start..end for 206.
   */
  lemma ContentLengthMatchesBody(data: seq<byte>, d: Decision, mime: string, aborted: seq<bool>)
    requires forall j :: 0 <= j < |aborted| ==> !aborted[j]
    requires d.Partial? ==> d.start <= d.end < |data|
    ensures d.WholeFile? ==> Head(d, mime, |data|).1["Content-Length"] == Decimal(|data[..Sent(|data|, aborted)]|)
    ensures d.Partial? ==>
      var body := data[d.start..d.start + Sent(d.end - d.start + 1, aborted)];
      body == data[d.start..d.end + 1] && Head(d, mime, |data|).1["Content-Length"] == Decimal(|body|)
  {
    SentNoAbort(|data|, aborted);
    if d.Partial? {
      SentNoAbort(d.end - d.start + 1, aborted);
    }
  }
}
