/** The `/generate` handler: read and upper-case the names, refuse a request without a
    usable image in a fixed order, otherwise process it and answer with where the badge
    can be downloaded. The processing itself (saving the upload, compositing, writing the
    badge) is represented by its outcome: `None` when it went through, `Some(message)`
    when it raised. */
module Request {
  import opened Strings
  import opened Wrappers
  import Upload
  import Badge

  /** An uploaded file part; only its name matters to the handler. */
  datatype FilePart = FilePart(filename: string)

  /** The form fields and the file parts of a multipart request. */
  datatype FormRequest = FormRequest(form: map<string, string>, files: map<string, FilePart>)

  /** `request.form.get(key, '')` */
  function FormValue(form: map<string, string>, key: string): (v: string)
    ensures key in form ==> v == form[key]
    ensures key !in form ==> v == ""
  {
    if key in form then form[key] else ""
  }

  /** What the checks decide before anything is saved or composited. */
  datatype Decision =
    | Refuse(message: string)
    | Proceed(firstName: string, lastName: string, upload: FilePart)

  /** The handler's checks, in the order the handler makes them. */
  function Classify(req: FormRequest): (d: Decision)
    ensures "image" !in req.files ==> d == Refuse("No image uploaded")
    ensures "image" in req.files && req.files["image"].filename == "" ==> d == Refuse("No image selected")
    ensures ("image" in req.files && req.files["image"].filename != "" &&
             !Upload.AllowedFile(req.files["image"].filename)) ==> d == Refuse("Invalid file type")
    ensures d.Proceed? <==> "image" in req.files && Upload.AllowedFile(req.files["image"].filename)
    ensures d.Proceed? ==>
      (d.upload == req.files["image"] &&
       d.firstName == Upper(FormValue(req.form, "first_name")) &&
       d.lastName == Upper(FormValue(req.form, "last_name")))
  {
    var firstName := Upper(FormValue(req.form, "first_name"));
    var lastName := Upper(FormValue(req.form, "last_name"));
    if "image" !in req.files then Refuse("No image uploaded")
    else
      var file := req.files["image"];
      if file.filename == "" then Refuse("No image selected")
      else if Upload.AllowedFile(file.filename) then Proceed(firstName, lastName, file)
      else Refuse("Invalid file type")
  }

  /** The JSON body of a response. The inline base64 preview is not modelled. */
  datatype Body =
    | Error(error: string)
    | Generated(imageUrl: string, filename: string)

  datatype Response = Response(status: nat, body: Body)

  const GeneratedFolder := "generated"

  /** `os.path.join(GENERATED_FOLDER, name)` for a name that is not absolute. */
  function OutputPath(name: string): (path: string)
    ensures |path| == |GeneratedFolder| + 1 + |name|
    ensures path[..|GeneratedFolder|] == GeneratedFolder && path[|GeneratedFolder|] == '/'
    ensures path[|GeneratedFolder| + 1..] == name
  {
    GeneratedFolder + "/" + name
  }

  /** `os.path.basename(path)`: what follows the last `/`. */
  function Basename(path: string): (b: string)
    ensures '/' !in b
  {
    if '/' in path then AfterLast(path, '/') else path
  }

  /** The whole handler, given the identifier it draws and the outcome of processing. */
  function GenerateImage(req: FormRequest, uniqueId: string, failure: Option<string>): (r: Response)
    ensures r.status == 400 <==> Classify(req).Refuse?
    ensures Classify(req).Refuse? ==> r.body == Error(Classify(req).message)
    ensures Classify(req).Proceed? && failure.Some? ==> r == Response(500, Error(failure.value))
    ensures r.status == 200 <==> Classify(req).Proceed? && failure.None?
  {
    match Classify(req)
    case Refuse(message) => Response(400, Error(message))
    case Proceed(firstName, lastName, _) =>
      match failure
      case Some(message) => Response(500, Error(message))
      case None =>
        var name := Basename(OutputPath(Badge.OutputFilename(uniqueId, firstName, lastName)));
        Response(200, Generated("/download/" + name, name))
  }

  /** A path inside the output folder keeps its file name. */
  lemma BasenameOfOutputPath(name: string)
    requires '/' !in name
    ensures Basename(OutputPath(name)) == name
  {
    LastIndexOfSplit(GeneratedFolder, '/', name);
  }

  /** A refused request never reaches processing: its response does not depend on what
      processing would have done, nor on the identifier. */
  lemma RefusalPrecedesProcessing(req: FormRequest, id1: string, id2: string, f1: Option<string>, f2: Option<string>)
    requires !Upload.AllowedFile(if "image" in req.files then req.files["image"].filename else "")
    ensures GenerateImage(req, id1, f1) == GenerateImage(req, id2, f2)
    ensures GenerateImage(req, id1, f1).status == 400
  {
  }

  /** On success, when neither the identifier nor the names hold a `/`, the response names
      the badge file `kairos_<id>_<FIRST>_<LAST>.png` with the upper-cased names, and links
      to its download page. */
  lemma SuccessNamesBadge(req: FormRequest, uniqueId: string)
    requires "image" in req.files && Upload.AllowedFile(req.files["image"].filename)
    requires '/' !in uniqueId
    requires '/' !in FormValue(req.form, "first_name") && '/' !in FormValue(req.form, "last_name")
    ensures var name := Badge.OutputFilename(uniqueId, Upper(FormValue(req.form, "first_name")),
                                             Upper(FormValue(req.form, "last_name")));
      GenerateImage(req, uniqueId, None) == Response(200, Generated("/download/" + name, name))
  {
    var first := Upper(FormValue(req.form, "first_name"));
    var last := Upper(FormValue(req.form, "last_name"));
    assert Classify(req) == Proceed(first, last, req.files["image"]);
    var name := Badge.OutputFilename(uniqueId, first, last);
    assert '/' !in name by {
      CaseMappingKeepsNonLetters(FormValue(req.form, "first_name"), '/');
      CaseMappingKeepsNonLetters(FormValue(req.form, "last_name"), '/');
      Badge.OutputFilenameSeparator(uniqueId, first, last);
    }
    BasenameOfOutputPath(name);
  }

  /** The names are upper-cased whatever the request: the names that go on to be drawn and
      put in the file name hold no lower-case ASCII letter. */
  lemma NamesUpperCased(req: FormRequest)
    requires Classify(req).Proceed?
    ensures forall i :: 0 <= i < |Classify(req).firstName| ==> !IsLowerAscii(Classify(req).firstName[i])
    ensures forall i :: 0 <= i < |Classify(req).lastName| ==> !IsLowerAscii(Classify(req).lastName[i])
  {
    UpperIsUpper(FormValue(req.form, "first_name"));
    UpperIsUpper(FormValue(req.form, "last_name"));
  }

  /** Worked case: a `.txt` upload is refused as an invalid file type. */
  lemma TextFileRefused(form: map<string, string>)
    ensures Classify(FormRequest(form, map["image" := FilePart("notes.txt")])) == Refuse("Invalid file type")
  {
    assert !Upload.AllowedFile("notes.txt") by {
      assert "notes" + "." + "txt" == "notes.txt";
      assert Lower("txt") !in Upload.AllowedExtensions by { assert Lower("txt")[0] == 't'; }
      Upload.AllowedWithExtension("notes", "txt");
    }
  }
}
