/** The upload-extension validator `allowed_file` of the badge creator: a file name is
    accepted when it has a dot and the text after its LAST dot, lower-cased, is one of the
    four image extensions. */
module Upload {
  import opened Strings

  const AllowedExtensions: set<string> := {"png", "jpg", "jpeg", "gif"}

  /** The extension of a name that has a dot: everything after its last dot. */
  function Extension(filename: string): (e: string)
    requires '.' in filename
    ensures '.' !in e
    ensures exists p :: filename == p + "." + e
  {
    var e := AfterLast(filename, '.');
    assert filename == filename[..|filename| - |e| - 1] + "." + e;
    e
  }

  /** `allowed_file`. An accepted name has a dot and an extension of three or four letters;
      `AllowedFileIff` gives the decision in full. */
  predicate AllowedFile(filename: string): (ok: bool)
    ensures '.' !in filename ==> !ok
    ensures ok ==> '.' in filename && 3 <= |Extension(filename)| <= 4 && 4 <= |filename|
  {
    '.' in filename && Lower(Extension(filename)) in AllowedExtensions
  }

  /** Reference definition: some dot splits the name into a stem and an allowed, dot-free
      extension. Both directions hold, so the stem may itself contain dots. */
  lemma AllowedFileIff(filename: string)
    ensures AllowedFile(filename) <==>
      exists p, e :: filename == p + "." + e && '.' !in e && Lower(e) in AllowedExtensions
  {
    if AllowedFile(filename) {
      var e := Extension(filename);
      var p :| filename == p + "." + e;
    }
    if exists p, e :: filename == p + "." + e && '.' !in e && Lower(e) in AllowedExtensions {
      var p, e :| filename == p + "." + e && '.' !in e && Lower(e) in AllowedExtensions;
      assert filename[|p|] == '.';
      LastIndexOfSplit(p, '.', e);
    }
  }

  /** A name without a dot is always refused. */
  lemma NoDotRefused(filename: string)
    requires '.' !in filename
    ensures !AllowedFile(filename)
  {
  }

  /** The decision ignores letter case: upper- or lower-casing the whole name changes nothing. */
  lemma AllowedFileIgnoresCase(filename: string)
    ensures AllowedFile(Upper(filename)) == AllowedFile(filename)
    ensures AllowedFile(Lower(filename)) == AllowedFile(filename)
  {
    CaseMappingKeepsNonLetters(filename, '.');
    if '.' in filename {
      CaseMappingAfterLast(filename, '.');
      var e := Extension(filename);
      LowerOfUpper(e);
      assert Lower(Lower(e)) == Lower(e);
    }
  }

  /** Appending `"." + ext` decides by `ext` alone, whatever the stem holds. */
  lemma AllowedWithExtension(stem: string, ext: string)
    requires '.' !in ext
    ensures AllowedFile(stem + "." + ext) <==> Lower(ext) in AllowedExtensions
  {
    LastIndexOfSplit(stem, '.', ext);
    assert (stem + "." + ext)[|stem|] == '.';
  }

  /** Only the last dot counts and case is ignored: `a.b.PNG` is accepted. */
  lemma ExampleMultipleDots()
    ensures AllowedFile("a.b.PNG")
  {
    assert "a.b" + "." + "PNG" == "a.b.PNG";
    assert Lower("PNG") == "png";
    AllowedWithExtension("a.b", "PNG");
  }

  /** An allowed extension before the last dot does not help: `photo.png.txt` is refused. */
  lemma ExampleInnerExtension()
    ensures !AllowedFile("photo.png.txt")
  {
    assert "photo.png" + "." + "txt" == "photo.png.txt";
    assert Lower("txt") !in AllowedExtensions by { assert Lower("txt")[0] == 't'; }
    AllowedWithExtension("photo.png", "txt");
  }

  /** An empty extension is refused: `photo.` fails. */
  lemma ExampleTrailingDot()
    ensures !AllowedFile("photo.")
  {
    assert "photo" + "." + "" == "photo.";
    AllowedWithExtension("photo", "");
  }
}
