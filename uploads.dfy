/**
 * The upload filter of backend/app.py: an image file is accepted when the text
 * after its last dot, lower-cased, is one of four picture extensions.
 */
module Uploads {
  import opened Wrappers
  import opened Text

  const UploadFolder: string := "uploads"
  const AllowedExtensions: set<string> := {"png", "jpg", "jpeg", "gif"}

  /** The text after the last dot (Python's `filename.rsplit('.', 1)[1]`), if there is a dot. */
  function Extension(filename: string): (r: Option<string>)
    ensures r.None? <==> '.' !in filename
    ensures r.Some? ==> '.' !in r.value
  {
    match LastIndexOf(filename, '.')
    case None => None
    case Some(i) =>
      Some(filename[i + 1..])
  }

  /** `allowed_file`: a dot is present and the extension after the last one is allowed. */
  predicate AllowedFile(filename: string) {
    '.' in filename && Lower(Extension(filename).value) in AllowedExtensions
  }

  /** Where an accepted upload is stored (`os.path.join(UPLOAD_FOLDER, name)`). */
  function UploadPath(filename: string): string {
    UploadFolder + "/" + filename
  }

  /** Position `i` of `f` holds its last dot. */
  predicate LastDotAt(f: string, i: int) {
    0 <= i < |f| && f[i] == '.' && forall k :: i < k < |f| ==> f[k] != '.'
  }

  /**
   * `allowed_file(f)` holds exactly when `f` has a last dot and the text after
   * it, lower-cased, is png, jpg, jpeg or gif.
   */
  lemma AllowedFileSpec(f: string)
    ensures AllowedFile(f) <==> exists i :: LastDotAt(f, i) && Lower(f[i + 1..]) in AllowedExtensions
  {
    if '.' !in f {
      forall i | 0 <= i < |f|
        ensures !LastDotAt(f, i)
      {
        assert f[i] in f;
      }
    } else {
      var j := LastIndexOf(f, '.').value;
      assert LastDotAt(f, j) && Extension(f).value == f[j + 1..];
      forall i | LastDotAt(f, i)
        ensures i == j
      {
      }
    }
  }

  /** A name without a dot is never accepted. */
  lemma NoDotRejected(f: string)
    requires '.' !in f
    ensures !AllowedFile(f)
  {
  }

  /** Storing an accepted file under the upload folder keeps its name acceptable. */
  lemma UploadPathAllowed(f: string)
    requires AllowedFile(f)
    ensures AllowedFile(UploadPath(f))
  {
    AllowedFileSpec(f);
    var i :| LastDotAt(f, i) && Lower(f[i + 1..]) in AllowedExtensions;
    var p := UploadPath(f);
    var offset := |UploadFolder + "/"|;
    assert p == (UploadFolder + "/") + f;
    forall m | offset <= m < |p|
      ensures p[m] == f[m - offset]
    {
    }
    assert p[offset + i + 1..] == f[i + 1..];
    assert LastDotAt(p, offset + i);
    AllowedFileSpec(p);
  }

  /** Upper-case extensions pass; only the text after the last dot is judged. */
  lemma AllowedFileExamples()
    ensures AllowedFile("cover.PNG")
    ensures !AllowedFile("photo.png.exe")
    ensures !AllowedFile("notes")
  {
    assert Lower("PNG") == "png";
  }
}
