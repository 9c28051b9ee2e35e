/**
 * The admission rule of POST /upload (backend.py, upload_file): the checks
 * that decide whether an upload is accepted, the image/video classification
 * and the defaulting of the geotag and time form fields. Everything here
 * happens before the table is touched.
 */
module Admission {
  import opened Wrappers
  import opened Text
  import opened Requests

  /** The allow-list, in the order of the tuple on backend.py:47-48. */
  const ImageExtensions: seq<string> := [".jpg", ".jpeg", ".png", ".gif", ".bmp", ".webp"]
  const VideoExtensions: seq<string> := [".mp4", ".mov", ".avi", ".mkv", ".flv", ".wmv"]
  const AllowedExtensions: seq<string> := ImageExtensions + VideoExtensions

  /** The same allow-list as bare extensions, the reference the suffix test is checked against. */
  const ImageKinds: seq<string> := ["jpg", "jpeg", "png", "gif", "bmp", "webp"]
  const VideoKinds: seq<string> := ["mp4", "mov", "avi", "mkv", "flv", "wmv"]

  /** The default for an absent geotag or time field. */
  const NotProvided: string := "Not provided"

  const NoFileError := HttpError(400, "No file found in request")
  const NoSelectedFileError := HttpError(400, "No selected file")
  const TypeNotAllowedError := HttpError(400, "File type not allowed")

  /** The file_type column: the code only ever writes 'image' or 'video'. */
  datatype FileType = Image | Video {
    /** The text stored in the file_type column. */
    function Name(): string {
      match this
      case Image => "image"
      case Video => "video"
    }

    /** file_type.capitalize(), as used in the success message. */
    function Capitalized(): string {
      match this
      case Image => "Image"
      case Video => "Video"
    }
  }

  /**
   * `filename.lower().endswith(allowed_exts)`: holds exactly when the
   * lower-cased extension is one of the twelve listed kinds.
   */
  predicate Allowed(filename: string)
    ensures Allowed(filename) <==> HasKind(filename, ImageKinds + VideoKinds)
  {
    ExtensionTables();
    EndsWithDottedKinds(Lower(filename), AllowedExtensions, ImageKinds + VideoKinds);
    EndsWithAny(Lower(filename), AllowedExtensions)
  }

  /**
   * 'video' when the lower-cased name ends with a video extension, else
   * 'image': video exactly when the lower-cased extension is a video kind.
   */
  function Classify(filename: string): (t: FileType)
    ensures t == Video <==> HasKind(filename, VideoKinds)
  {
    ExtensionTables();
    EndsWithDottedKinds(Lower(filename), VideoExtensions, VideoKinds);
    if EndsWithAny(Lower(filename), VideoExtensions) then Video else Image
  }

  /**
   * `request.form.get(key, 'Not provided')`: the first value sent under the
   * key, or the default when no field has that key.
   */
  function FormValue(form: MultiDict<string>, key: string): (v: string)
    ensures (forall i :: 0 <= i < |form| ==> form[i].0 != key) ==> v == NotProvided
    ensures (exists i :: 0 <= i < |form| && form[i].0 == key) ==>
      exists i :: 0 <= i < |form| && form[i] == (key, v) && forall j :: 0 <= j < i ==> form[j].0 != key
  {
    match Get(form, key)
    case None => NotProvided
    case Some(v) => v
  }

  /** Reference reading of the allow-list: the lower-cased extension is one of the listed kinds. */
  predicate HasKind(filename: string, kinds: seq<string>) {
    var ext := Extension(Lower(filename));
    ext.Some? && ext.value in kinds
  }

  /** What upload_file hands to the INSERT once every check has passed. */
  datatype Admitted = Admitted(
    filename: string, fileType: FileType, data: seq<byte>, geotag: string, timeSent: string)

  /** A suffix list that is a list of kinds with a dot in front of each. */
  ghost predicate DottedKinds(exts: seq<string>, kinds: seq<string>) {
    |exts| == |kinds| &&
    forall i :: 0 <= i < |kinds| ==> '.' !in kinds[i] && exts[i] == "." + kinds[i]
  }

  /** Testing a dotted suffix list is testing the extension against the kinds. */
  lemma EndsWithDottedKinds(s: string, exts: seq<string>, kinds: seq<string>)
    requires DottedKinds(exts, kinds)
    ensures EndsWithAny(s, exts) <==> Extension(s).Some? && Extension(s).value in kinds
  {
    EndsWithAnyIffSome(s, exts);
    forall i | 0 <= i < |kinds|
      ensures EndsWith(s, exts[i]) <==> Extension(s) == Some(kinds[i])
    {
      EndsWithDotted(s, kinds[i]);
    }
  }

  lemma ExtensionTables()
    ensures DottedKinds(ImageExtensions, ImageKinds)
    ensures DottedKinds(VideoExtensions, VideoKinds)
    ensures DottedKinds(AllowedExtensions, ImageKinds + VideoKinds)
  {
    assert forall i :: 0 <= i < 6 ==> ImageExtensions[i] == "." + ImageKinds[i];
    assert forall i :: 0 <= i < 6 ==> VideoExtensions[i] == "." + VideoKinds[i];
  }

  /** No extension is both an image kind and a video kind. */
  lemma KindsDisjoint()
    ensures forall e :: e in ImageKinds ==> e !in VideoKinds
  {
    assert forall i, j :: 0 <= i < 6 && 0 <= j < 6 ==> ImageKinds[i] != VideoKinds[j];
  }

  /** An accepted upload classified as an image carries an image extension, and no video one. */
  lemma AcceptedImageHasImageExtension(filename: string)
    requires Allowed(filename) && Classify(filename) == Image
    ensures HasKind(filename, ImageKinds) && !HasKind(filename, VideoKinds)
  {
  }

  /** The allow-list and the classification ignore the case of the name. */
  lemma AdmissionIgnoresCase(filename: string)
    ensures Allowed(Upper(filename)) <==> Allowed(filename)
    ensures Classify(Upper(filename)) == Classify(filename)
  {
    LowerOfUpper(filename);
  }

  /**
   * upload_file up to the INSERT: no 'file' part, an empty filename and a
   * name outside the allow-list are each refused with 400, in that order;
   * otherwise the name and bytes pass through unchanged, the type is derived
   * from the extension and the absent form fields take their default.
   */
  function Admit(req: UploadRequest): (r: Result<Admitted, HttpError>)
    ensures Get(req.files, "file").None? ==> r == Failure(NoFileError)
    ensures Get(req.files, "file").Some? && Get(req.files, "file").value.filename == "" ==>
      r == Failure(NoSelectedFileError)
    ensures Get(req.files, "file").Some? && Get(req.files, "file").value.filename != "" &&
              !HasKind(Get(req.files, "file").value.filename, ImageKinds + VideoKinds)
            ==> r == Failure(TypeNotAllowedError)
    ensures r.Success? <==>
      Get(req.files, "file").Some? && Get(req.files, "file").value.filename != "" &&
      HasKind(Get(req.files, "file").value.filename, ImageKinds + VideoKinds)
    ensures r.Success? ==>
      var f := Get(req.files, "file").value;
      && r.value.filename == f.filename
      && r.value.data == f.content
      && (r.value.fileType == Video <==> HasKind(f.filename, VideoKinds))
      && (r.value.geotag == if Get(req.form, "geotag").Some? then Get(req.form, "geotag").value else NotProvided)
      && (r.value.timeSent == if Get(req.form, "time").Some? then Get(req.form, "time").value else NotProvided)
  {
    match Get(req.files, "file")
    case None => Failure(NoFileError)
    case Some(f) =>
      if f.filename == "" then Failure(NoSelectedFileError)
      else
        if !Allowed(f.filename) then Failure(TypeNotAllowedError)
        else
          Success(Admitted(f.filename, Classify(f.filename), f.content,
                           FormValue(req.form, "geotag"), FormValue(req.form, "time")))
  }

  /** `photo.JPG` has a listed extension, and it is an image one. */
  lemma PhotoJpgIsImage()
    ensures HasKind("photo.JPG", ImageKinds + VideoKinds) && !HasKind("photo.JPG", VideoKinds)
  {
    assert Lower("photo.JPG") == "photo.jpg";
    JpgIsImageKind("photo.jpg");
  }

  /** `.jpg` has a listed extension, and it is an image one. */
  lemma BareJpgIsImage()
    ensures HasKind(".jpg", ImageKinds + VideoKinds) && !HasKind(".jpg", VideoKinds)
  {
    assert Lower(".jpg") == ".jpg";
    JpgIsImageKind(".jpg");
  }

  /** A lower-case name ending in ".jpg" has the image kind "jpg". */
  lemma JpgIsImageKind(s: string)
    requires |s| >= 4 && s[|s| - 4..] == ".jpg"
    ensures Extension(s) == Some("jpg")
    ensures "jpg" in ImageKinds + VideoKinds && "jpg" !in VideoKinds
  {
    assert "." + "jpg" == ".jpg";
    EndsWithDotted(s, "jpg");
    KindsDisjoint();
    assert (ImageKinds + VideoKinds)[0] == ImageKinds[0] == "jpg";
  }

  /** `a.mov` has a listed extension, and it is a video one. */
  lemma MovIsVideo()
    ensures HasKind("a.mov", ImageKinds + VideoKinds) && HasKind("a.mov", VideoKinds)
  {
    assert Lower("a.mov") == "a.mov";
    assert "." + "mov" == ".mov";
    EndsWithDotted("a.mov", "mov");
    assert (ImageKinds + VideoKinds)[7] == VideoKinds[1] == "mov";
  }

  /**
   * A `photo.JPG` (of any content, 10 bytes say) with a geotag and no time
   * field is accepted as an image with the time defaulted.
   */
  lemma PhotoJpgAccepted(data: seq<byte>)
    ensures Admit(UploadRequest([("file", FileStorage("photo.JPG", data))], [("geotag", "40.1,-75.2")]))
         == Success(Admitted("photo.JPG", Image, data, "40.1,-75.2", NotProvided))
  {
    var req := UploadRequest([("file", FileStorage("photo.JPG", data))], [("geotag", "40.1,-75.2")]);
    assert Get(req.files, "file") == Some(FileStorage("photo.JPG", data));
    assert Get(req.form, "geotag") == Some("40.1,-75.2");
    assert Get(req.form, "time") == None;
    PhotoJpgIsImage();
    var r := Admit(req);
    assert r.Success? && r.value.fileType == Image;
  }

  /** A bare extension with nothing before the dot is accepted. */
  lemma BareExtensionAccepted(data: seq<byte>)
    ensures Admit(UploadRequest([("file", FileStorage(".jpg", data))], []))
         == Success(Admitted(".jpg", Image, data, NotProvided, NotProvided))
  {
    var req := UploadRequest([("file", FileStorage(".jpg", data))], []);
    assert Get(req.files, "file") == Some(FileStorage(".jpg", data));
    BareJpgIsImage();
    var r := Admit(req);
    assert r.Success? && r.value.fileType == Image;
  }

  /** A listed extension that is not the last one does not pass. */
  lemma InnerExtensionRefused(data: seq<byte>)
    ensures Admit(UploadRequest([("file", FileStorage("clip.mp4.exe", data))], []))
         == Failure(TypeNotAllowedError)
  {
    var req := UploadRequest([("file", FileStorage("clip.mp4.exe", data))], []);
    assert Get(req.files, "file") == Some(FileStorage("clip.mp4.exe", data));
    assert !HasKind("clip.mp4.exe", ImageKinds + VideoKinds) by {
      assert Lower("clip.mp4.exe") == "clip.mp4.exe";
      EndsWithDotted("clip.mp4.exe", "exe");
    }
  }

  /** The time is read from the field 'time'; a 'time_sent' field is ignored. */
  lemma TimeSentFieldIgnored(data: seq<byte>)
    ensures Admit(UploadRequest([("file", FileStorage("a.mov", data))], [("time_sent", "noon")]))
         == Success(Admitted("a.mov", Video, data, NotProvided, NotProvided))
  {
    var req := UploadRequest([("file", FileStorage("a.mov", data))], [("time_sent", "noon")]);
    assert Get(req.files, "file") == Some(FileStorage("a.mov", data));
    assert "time_sent" != "time" && "time_sent" != "geotag";
    assert Get(req.form, "time") == None;
    assert Get(req.form, "geotag") == None;
    MovIsVideo();
    var r := Admit(req);
    assert r.Success? && r.value.fileType == Video;
  }
}
