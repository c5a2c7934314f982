/**
 * Name helpers of explorer.php: `pathinfo(…, PATHINFO_EXTENSION)`, the preview
 * classification (isImage, isVideo, getIconClass) and the "Back" link.
 */
module Names {
  import opened Wrappers
  import opened Text

  /** The index of the last `c` in `s`. */
  function LastIndexOf(s: string, c: char): (r: Option<nat>)
    ensures r.Some? ==> r.value < |s| && s[r.value] == c && c !in s[r.value + 1..]
    ensures r.None? ==> c !in s
  {
    if s == [] then None
    else if s[|s| - 1] == c then Some(|s| - 1)
    else
      var r := LastIndexOf(s[..|s| - 1], c);
      assert s == s[..|s| - 1] + [s[|s| - 1]];
      assert r.Some? ==> s[r.value + 1..] == s[..|s| - 1][r.value + 1..] + [s[|s| - 1]];
      r
  }

  /** `basename($s)`: trailing slashes dropped, then the text after the last slash. */
  function Basename(s: string): (b: string)
    ensures '/' !in b
    ensures '/' !in s ==> b == s
  {
    var t := TrimRight(s, {'/'});
    match LastIndexOf(t, '/')
    case None => t
    case Some(i) => t[i + 1..]
  }

  /** The base name of a name joined to a directory path is the name itself. */
  lemma BasenameOfPath(d: string, x: string)
    requires x != "" && '/' !in x
    ensures Basename(d + "/" + x) == x
  {
    var s := d + "/" + x;
    assert s[|s| - 1] == x[|x| - 1];
    assert TrimRight(s, {'/'}) == s;
    assert s[|d|] == '/';
    assert LastIndexOf(s, '/').value == |d|;
    assert s[|d| + 1..] == x;
  }

  /** `pathinfo($s, PATHINFO_EXTENSION)`: the text after the last dot of the base name, or "". */
  function Extension(s: string): (e: string)
    ensures '.' !in e && '/' !in e
  {
    var b := Basename(s);
    match LastIndexOf(b, '.')
    case None => ""
    case Some(i) => b[i + 1..]
  }

  /** `strtolower(pathinfo($s, PATHINFO_EXTENSION))`. */
  function LowerExtension(s: string): string
  {
    ToLower(Extension(s))
  }

  /** A name built as stem + "." + ext has exactly that extension. */
  lemma ExtensionOfDotted(stem: string, ext: string)
    requires '.' !in ext && '/' !in ext
    ensures Extension(stem + "." + ext) == ext
  {
    var s := stem + "." + ext;
    var t := TrimRight(s, {'/'});
    assert t == s by {
      if ext != [] {
        assert s[|s| - 1] == ext[|ext| - 1];
      } else {
        assert s[|s| - 1] == '.';
      }
    }
    var b := Basename(s);
    assert s[|stem|] == '.';
    match LastIndexOf(t, '/')
    case None =>
      assert b == s;
    case Some(i) =>
      assert i <= |stem|;
      assert b == s[i + 1..];
      assert b == s[i + 1..|stem|] + "." + ext;
    var j := |b| - |ext| - 1;
    assert b[j] == '.' && b[j + 1..] == ext;
    var k := LastIndexOf(b, '.');
    assert k.Some?;
    assert k.value >= j by {
      assert '.' !in b[j + 1..];
    }
    assert k.value == j;
  }

  /** A name without a dot has no extension. */
  lemma ExtensionUndotted(s: string)
    requires '.' !in s
    ensures Extension(s) == ""
  {
    var t := TrimRight(s, {'/'});
    TrimRightPrefix(s, {'/'});
    assert '.' !in Basename(s) by {
      match LastIndexOf(t, '/')
      case None =>
      case Some(i) =>
        assert t[i + 1..] == s[i + 1..|t|];
    }
  }

  const ImageExtensions: seq<string> := ["png", "jpg", "jpeg", "gif", "heic"]
  const VideoExtensions: seq<string> := ["mp4", "webm", "mov", "avi", "mkv"]

  /** The five Font Awesome classes getIconClass() chooses from. */
  datatype Icon = ImageIcon | VideoIcon | PdfIcon | ExeIcon | FileIcon

  /** The class attribute each icon is written as. */
  function CssClass(icon: Icon): string
  {
    match icon
    case ImageIcon => "fas fa-file-image"
    case VideoIcon => "fas fa-file-video"
    case PdfIcon => "fas fa-file-pdf"
    case ExeIcon => "fas fa-file-exclamation"
    case FileIcon => "fas fa-file"
  }

  /** isImage(): previewed as an image. */
  predicate IsImage(name: string)
  {
    LowerExtension(name) in ImageExtensions
  }

  /** isVideo(): previewed as a video. */
  predicate IsVideo(name: string)
  {
    LowerExtension(name) in VideoExtensions
  }

  /** getIconClass(): the first matching rule wins. */
  function IconClass(name: string): Icon
  {
    var ext := LowerExtension(name);
    if ext in ImageExtensions then ImageIcon
    else if ext in VideoExtensions then VideoIcon
    else if ext == "pdf" then PdfIcon
    else if ext == "exe" then ExeIcon
    else FileIcon
  }

  /** The icon agrees with the preview helpers, and no name is both an image and a video. */
  lemma IconClassAgrees(name: string)
    ensures IconClass(name) == ImageIcon <==> IsImage(name)
    ensures IconClass(name) == VideoIcon <==> IsVideo(name)
    ensures !(IsImage(name) && IsVideo(name))
  {
    var ext := LowerExtension(name);
    if ext in ImageExtensions {
      ImageNotVideo(ext);
    }
  }

  /** The two preview lists share no extension: their first letters already differ. */
  lemma ImageNotVideo(ext: string)
    requires ext in ImageExtensions
    ensures ext !in VideoExtensions
  {
    var i :| 0 <= i < |ImageExtensions| && ImageExtensions[i] == ext;
    assert ext[0] in {'p', 'j', 'g', 'h'};
    forall j | 0 <= j < |VideoExtensions|
      ensures VideoExtensions[j][0] in {'m', 'w', 'a'}
    {
    }
  }

  /** The extension is compared lower-cased: any spelling of an image extension previews as an image. */
  lemma IsImageIgnoresCase(stem: string, ext: string)
    requires ToLower(ext) in ImageExtensions && '.' !in ext && '/' !in ext
    ensures IsImage(stem + "." + ext) && IconClass(stem + "." + ext) == ImageIcon
  {
    ExtensionOfDotted(stem, ext);
  }

  /** "Photo.PNG" is an image. */
  lemma UpperPngIsImage(stem: string)
    ensures IsImage(stem + ".PNG") && IconClass(stem + ".PNG") == ImageIcon
  {
    assert stem + ".PNG" == stem + "." + "PNG";
    var lower := ToLower("PNG");
    assert lower[0] == 'p' && lower[1] == 'n' && lower[2] == 'g';
    assert lower == ImageExtensions[0];
    IsImageIgnoresCase(stem, "PNG");
  }

  /** `implode('/', array_pop(explode('/', $rel)))`: the relative folder one level up. */
  function ParentRel(rel: string): (parent: string)
  {
    var parts := Split(rel);
    Join(parts[..|parts| - 1])
  }

  /** The last piece of the relative folder. */
  function LastPiece(rel: string): string
  {
    var parts := Split(rel);
    parts[|parts| - 1]
  }

  lemma JoinSnoc(parts: seq<string>, last: string)
    requires parts != []
    ensures Join(parts + [last]) == Join(parts) + "/" + last
    decreases |parts|
  {
    if |parts| == 1 {
      assert parts + [last] == [parts[0], last];
    } else {
      assert (parts + [last])[1..] == parts[1..] + [last];
      JoinSnoc(parts[1..], last);
    }
  }

  /**
   * The "Back" link undoes one folder step: a nested folder is its parent, a slash and
   * its last piece; a folder without a slash goes back to "".
   */
  lemma ParentRelSplit(rel: string)
    ensures '/' in rel ==> ParentRel(rel) + "/" + LastPiece(rel) == rel
    ensures '/' !in rel ==> ParentRel(rel) == "" && LastPiece(rel) == rel
  {
    var parts := Split(rel);
    JoinSplit(rel);
    if |parts| > 1 {
      assert parts == parts[..|parts| - 1] + [parts[|parts| - 1]];
      JoinSnoc(parts[..|parts| - 1], parts[|parts| - 1]);
    } else {
      assert Join(parts) == parts[0];
      if '/' in rel {
        assert false;
      }
    }
  }
}
