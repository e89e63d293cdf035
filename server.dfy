/**
 * The request-validation part of the Flask service: the extension check
 * `allowed_file` and the early-return ladder of the `/api/process-image`
 * handler.  The multipart request is abstracted to whether it has an `image`
 * part and that part's file name; saving the upload, running OCR and
 * removing the temporary file are abstracted to one `OcrRun` outcome.
 */
module Server {
  import opened Chars
  import NlpProcessor

  const AllowedExtensions: set<string> := {"png", "jpg", "jpeg", "gif", "bmp", "tiff"}

  const NoImagePartMessage := "No image part in the request"
  const NoImageSelectedMessage := "No image selected"
  const InvalidTypeMessage := "Invalid file type. Allowed types: png, jpg, jpeg, gif, bmp, tiff"
  const ProcessingErrorPrefix := "Error processing image: "
  const TooLargeMessage := "File too large"
  const InternalErrorMessage := "Internal server error"

  /** `filename.rsplit('.', 1)[1]` when there is a dot; the whole name otherwise. */
  function AfterLastDot(f: string): (e: string)
    ensures '.' !in e
    ensures |e| <= |f| && e == f[|f| - |e|..]
    ensures '.' in f ==> |e| < |f| && f[|f| - |e| - 1] == '.'
    ensures '.' !in f ==> e == f
  {
    if f == [] then []
    else if f[|f| - 1] == '.' then []
    else
      var init := f[..|f| - 1];
      assert f == init + [f[|f| - 1]];
      AfterLastDot(init) + [f[|f| - 1]]
  }

  /** `allowed_file`: a dot, and the lower-cased text after the last dot is an allowed extension. */
  function AllowedFile(filename: string): (ok: bool)
    ensures ok ==> '.' in filename && 3 <= |AfterLastDot(filename)| <= 4
  {
    '.' in filename && Lower(AfterLastDot(filename)) in AllowedExtensions
  }

  /** Whatever comes before the last dot, the text after it is what `AfterLastDot` returns. */
  lemma {:induction false} AfterLastDotOfSuffix(base: string, ext: string)
    requires '.' !in ext
    ensures AfterLastDot(base + "." + ext) == ext
    decreases |ext|
  {
    var f := base + "." + ext;
    if ext != [] {
      var init := ext[..|ext| - 1];
      assert f[..|f| - 1] == base + "." + init;
      AfterLastDotOfSuffix(base, init);
      assert ext == init + [ext[|ext| - 1]];
    }
  }

  /** Only the suffix after the last dot counts, compared case-insensitively. */
  lemma AllowedFileBySuffix(base: string, ext: string)
    requires '.' !in ext
    ensures AllowedFile(base + "." + ext) <==> Lower(ext) in AllowedExtensions
  {
    AfterLastDotOfSuffix(base, ext);
    assert (base + "." + ext)[|base|] == '.';
  }

  /** Lower-casing a text split into its front and last character. */
  lemma LowerSnoc(init: string, last: char)
    ensures Lower(init + [last]) == Lower(init) + [LowerChar(last)]
    ensures Lower(init + [last])[..|init|] == Lower(init)
  {
  }

  /** Appending a character other than a dot extends the text after the last dot; appending a dot empties it. */
  lemma AfterLastDotSnoc(init: string, last: char)
    ensures AfterLastDot(init + [last]) == if last == '.' then [] else AfterLastDot(init) + [last]
  {
    var f := init + [last];
    assert f[|f| - 1] == last && f[..|f| - 1] == init;
  }

  /** Lower-casing commutes with taking the text after the last dot. */
  lemma {:induction false} AfterLastDotLower(f: string)
    ensures AfterLastDot(Lower(f)) == Lower(AfterLastDot(f))
    decreases |f|
  {
    if f != [] {
      var init, last := f[..|f| - 1], f[|f| - 1];
      assert f == init + [last];
      LowerSnoc(init, last);
      AfterLastDotSnoc(init, last);
      AfterLastDotSnoc(Lower(init), LowerChar(last));
      assert LowerChar(last) == '.' <==> last == '.';
      if last != '.' {
        AfterLastDotLower(init);
        LowerSnoc(AfterLastDot(init), last);
      }
    }
  }

  /** The check is case-insensitive: a name and its lower-cased form are treated alike. */
  lemma AllowedFileIgnoresCase(f: string)
    ensures AllowedFile(Lower(f)) <==> AllowedFile(f)
  {
    AfterLastDotLower(f);
    LowerIdempotent(AfterLastDot(f));
    assert '.' in f <==> '.' in Lower(f) by {
      if '.' in f {
        var i :| 0 <= i < |f| && f[i] == '.';
        assert Lower(f)[i] == '.';
      }
      if '.' in Lower(f) {
        var i :| 0 <= i < |f| && Lower(f)[i] == '.';
        assert f[i] == '.';
      }
    }
  }

  /** Lower-casing text with no upper-case letters changes nothing. */
  lemma LowerKeepsLowerCase(s: string)
    requires forall i :: 0 <= i < |s| ==> !('A' <= s[i] <= 'Z')
    ensures Lower(s) == s
  {
  }

  /** A name whose final suffix, lower-cased, is `ext` is accepted exactly when `ext` is an allowed extension. */
  lemma AllowedFileByLowerSuffix(f: string, base: string, suffix: string, ext: string)
    requires f == base + "." + suffix && '.' !in suffix && Lower(suffix) == ext
    ensures AllowedFile(f) <==> ext in AllowedExtensions
  {
    AllowedFileBySuffix(base, suffix);
  }

  /** Only the final suffix counts: `a.png.exe` is rejected. */
  lemma InnerSuffixIgnored()
    ensures !AllowedFile("a.png.exe")
  {
    LowerKeepsLowerCase("exe");
    AllowedFileByLowerSuffix("a.png.exe", "a.png", "exe", "exe");
  }

  /** The suffix is compared case-insensitively: `a.exe.PNG` is accepted. */
  lemma UpperCaseSuffixAccepted()
    ensures AllowedFile("a.exe.PNG")
  {
    assert Lower("PNG") == "png";
    AllowedFileByLowerSuffix("a.exe.PNG", "a.exe", "PNG", "png");
  }

  /** A name without a dot is rejected. */
  lemma NoDotRejected(f: string)
    requires '.' !in f
    ensures !AllowedFile(f)
  {
  }

  /** A name ending in a dot has an empty extension and is rejected. */
  lemma TrailingDotRejected(base: string)
    ensures !AllowedFile(base + ".")
  {
    AllowedFileByLowerSuffix(base + ".", base, "", "");
    assert base + "." + "" == base + ".";
  }

  /** The four-letter `tiff` is allowed, the three-letter `tif` is not, whatever comes before it. */
  lemma TifRejected(base: string)
    ensures !AllowedFile(base + ".tif")
  {
    LowerKeepsLowerCase("tif");
    assert base + "." + "tif" == base + ".tif";
    AllowedFileByLowerSuffix(base + ".tif", base, "tif", "tif");
  }

  /** The multipart request, reduced to what the handler inspects. */
  datatype UploadRequest = UploadRequest(hasImagePart: bool, filename: string)

  /** What saving the upload, running OCR on it and removing it produced: text, or an exception's message. */
  datatype OcrRun = Recognized(text: string) | Raised(message: string)

  datatype ReplyBody =
    | ErrorBody(error: string)
    | TextBody(originalText: string, enhancedText: string)

  /** A JSON reply with its status; `reachedSave` tells whether validation let the request through to the save step. */
  datatype Reply = Reply(status: nat, body: ReplyBody, reachedSave: bool)

  /** The request passes all three checks of the handler. */
  predicate Acceptable(req: UploadRequest) {
    req.hasImagePart && req.filename != "" && AllowedFile(req.filename)
  }

  /**
   * `process_handwriting`: three early 400 replies in a fixed order, none of
   * which reaches the save; then 200 with the OCR text and its enhancement,
   * or 500 naming the exception.
   */
  function ProcessHandwriting(req: UploadRequest, run: OcrRun): (rep: Reply)
    ensures rep.status == 400 <==> !Acceptable(req)
    ensures rep.status == 400 <==> !rep.reachedSave
    ensures !req.hasImagePart ==> rep.body == ErrorBody(NoImagePartMessage)
    ensures req.hasImagePart && req.filename == "" ==> rep.body == ErrorBody(NoImageSelectedMessage)
    ensures req.hasImagePart && req.filename != "" && !AllowedFile(req.filename) ==> rep.body == ErrorBody(InvalidTypeMessage)
    ensures Acceptable(req) && run.Recognized? ==>
      rep.status == 200 && rep.body == TextBody(run.text, NlpProcessor.EnhanceText(run.text))
    ensures Acceptable(req) && run.Raised? ==>
      rep.status == 500 && rep.body == ErrorBody(ProcessingErrorPrefix + run.message)
    ensures rep.status != 200 <==> rep.body.ErrorBody?
    ensures rep.body.ErrorBody? ==> rep.body.error != ""
  {
    if !req.hasImagePart then Reply(400, ErrorBody(NoImagePartMessage), false)
    else if req.filename == "" then Reply(400, ErrorBody(NoImageSelectedMessage), false)
    else if !AllowedFile(req.filename) then Reply(400, ErrorBody(InvalidTypeMessage), false)
    else
      match run
      case Recognized(text) => Reply(200, TextBody(text, NlpProcessor.EnhanceText(text)), true)
      case Raised(message) => Reply(500, ErrorBody(ProcessingErrorPrefix + message), true)
  }

  /** The errors Flask routes to the registered handlers instead of the view. */
  datatype HttpError = EntityTooLarge | InternalServerError

  /** The 413 and 500 error handlers: a JSON error with a non-empty message and the same status. */
  function ErrorHandlerReply(e: HttpError): (rep: Reply)
    ensures rep.body.ErrorBody? && rep.body.error != "" && !rep.reachedSave
    ensures e == EntityTooLarge ==> rep.status == 413 && rep.body.error == TooLargeMessage
    ensures e == InternalServerError ==> rep.status == 500 && rep.body.error == InternalErrorMessage
  {
    match e
    case EntityTooLarge => Reply(413, ErrorBody(TooLargeMessage), false)
    case InternalServerError => Reply(500, ErrorBody(InternalErrorMessage), false)
  }
}
