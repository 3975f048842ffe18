/**
 * Validation of an uploaded profile-picture file name (`allowedFile` in
 * index.py): the text after the last '.', lower-cased, must be one of the
 * allowed image extensions.
 */
module Uploads {
  import opened Wrappers
  import opened Strings

  /** `ALLOWED_EXTENSIONS`. */
  const AllowedExtensions: set<string> := {"png", "jpg", "jpeg"}

  /** `filename.rsplit('.', 1)[1]`: the text after the last '.', which holds no '.'. */
  function Extension(filename: string): (ext: string)
    requires '.' in filename
    ensures '.' !in ext
    ensures exists i :: 0 <= i < |filename| && filename[i] == '.' && ext == filename[i + 1..]
  {
    var i := LastIndexOf(filename, '.').value;
    filename[i + 1..]
  }

  /**
   * `allowedFile`: accepted exactly when some '.' of the name has no '.'
   * after it and the text after it, lower-cased, is an allowed extension.
   */
  function AllowedFile(filename: string): (ok: bool)
    ensures ok <==> (exists i :: 0 <= i < |filename| && filename[i] == '.' &&
                                 '.' !in filename[i + 1..] && Lower(filename[i + 1..]) in AllowedExtensions)
  {
    if '.' in filename then
      forall i | 0 <= i < |filename| && filename[i] == '.' && '.' !in filename[i + 1..]
        ensures Extension(filename) == filename[i + 1..]
      {
        LastIndexOfUnique(filename, '.', i);
      }
      Lower(Extension(filename)) in AllowedExtensions
    else
      false
  }

  /** A name built as `stem + "." + ext` with no '.' in `ext` is judged by `ext` alone. */
  lemma AllowedFileOfParts(stem: string, ext: string)
    requires '.' !in ext
    ensures AllowedFile(stem + "." + ext) <==> Lower(ext) in AllowedExtensions
  {
    var f := stem + "." + ext;
    var i := |stem|;
    assert f[i] == '.' && f[i + 1..] == ext;
    if AllowedFile(f) {
      var j :| 0 <= j < |f| && f[j] == '.' && '.' !in f[j + 1..] && Lower(f[j + 1..]) in AllowedExtensions;
      assert j == i;
    }
  }

  /** The check ignores letter case: lower-casing the name first changes nothing. */
  lemma AllowedFileIgnoresCase(filename: string)
    ensures AllowedFile(Lower(filename)) == AllowedFile(filename)
  {
    var g := Lower(filename);
    forall i | 0 <= i < |filename|
      ensures (g[i] == '.') == (filename[i] == '.')
      ensures g[i + 1..] == Lower(filename[i + 1..])
      ensures ('.' in g[i + 1..]) == ('.' in filename[i + 1..])
      ensures Lower(g[i + 1..]) == Lower(filename[i + 1..])
    {
      LowerIdempotent(filename[i + 1..]);
      var t := filename[i + 1..];
      assert g[i + 1..] == Lower(t);
      if '.' in t {
        var k :| 0 <= k < |t| && t[k] == '.';
        assert Lower(t)[k] == '.';
      }
      if '.' in Lower(t) {
        var k :| 0 <= k < |t| && Lower(t)[k] == '.';
        assert t[k] == '.';
      }
    }
    if AllowedFile(filename) {
      var i :| 0 <= i < |filename| && filename[i] == '.' && '.' !in filename[i + 1..] &&
        Lower(filename[i + 1..]) in AllowedExtensions;
      assert g[i] == '.' && '.' !in g[i + 1..] && Lower(g[i + 1..]) in AllowedExtensions;
    }
    if AllowedFile(g) {
      var i :| 0 <= i < |g| && g[i] == '.' && '.' !in g[i + 1..] && Lower(g[i + 1..]) in AllowedExtensions;
      assert filename[i] == '.' && '.' !in filename[i + 1..] && Lower(filename[i + 1..]) in AllowedExtensions;
    }
  }

  /** The last dot decides and case is ignored: "a.tar.PNG" is accepted. */
  lemma AcceptsLastExtensionAnyCase()
    ensures AllowedFile("a.tar.PNG")
  {
    var stem, ext := "a.tar", "PNG";
    assert stem + "." + ext == "a.tar.PNG";
    assert Lower(ext) == "png" by {
      assert |Lower(ext)| == 3 && Lower(ext)[0] == 'p' && Lower(ext)[1] == 'n' && Lower(ext)[2] == 'g';
    }
    AllowedFileOfParts(stem, ext);
  }

  /** A name that is only a dot and an extension is accepted: ".jpg". */
  lemma AcceptsEmptyStem()
    ensures AllowedFile(".jpg")
  {
    var stem, ext := "", "jpg";
    assert stem + "." + ext == ".jpg";
    assert Lower(ext) == "jpg" by {
      assert |Lower(ext)| == 3 && Lower(ext)[0] == 'j' && Lower(ext)[1] == 'p' && Lower(ext)[2] == 'g';
    }
    AllowedFileOfParts(stem, ext);
  }

  /** A bare extension without a dot is refused: "png". */
  lemma RejectsNoDot()
    ensures !AllowedFile("png")
  {
    assert '.' !in "png";
  }

  /** An extension outside the list is refused: "a.gif". */
  lemma RejectsOtherExtension()
    ensures !AllowedFile("a.gif")
  {
    var stem, ext := "a", "gif";
    assert stem + "." + ext == "a.gif";
    assert Lower(ext) == "gif" by {
      assert |Lower(ext)| == 3 && Lower(ext)[0] == 'g' && Lower(ext)[1] == 'i' && Lower(ext)[2] == 'f';
    }
    AllowedFileOfParts(stem, ext);
  }

  /** Only the last extension counts: "<stem>.png.gif" is refused, whatever the stem. */
  lemma RejectsEarlierExtension(stem: string)
    ensures !AllowedFile(stem + ".png.gif")
  {
    var ext := "gif";
    assert Lower(ext) == "gif" by {
      assert |Lower(ext)| == 3 && Lower(ext)[0] == 'g' && Lower(ext)[1] == 'i' && Lower(ext)[2] == 'f';
    }
    AllowedFileOfParts(stem + ".png", ext);
    assert stem + ".png.gif" == (stem + ".png") + "." + ext;
  }

  /** A trailing dot leaves an empty extension, which is refused: "a.". */
  lemma RejectsTrailingDot()
    ensures !AllowedFile("a.")
  {
    var stem, ext := "a", "";
    assert stem + "." + ext == "a.";
    assert Lower(ext) == "";
    AllowedFileOfParts(stem, ext);
  }
}
