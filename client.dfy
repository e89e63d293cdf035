/**
 * The browser-side upload controller.  The page state the script reads and
 * writes (the selected file, the error banner, which panels are visible, the
 * progress bar, the result text, the notifications issued) is the record
 * `Ui`; each handler of the script is a transition function on it, and the
 * class `Controller` at the end keeps the same state in fields and updates it
 * step by step as the handlers do.  Timers, the file reader and the network
 * appear as events: `Tick`, `PreviewLoaded`, `Respond` and `TransportFailure`.
 */
module Client {
  import opened Wrappers

  // ---------------------------------------------------------------------
  // Constants
  // ---------------------------------------------------------------------

  const ValidTypes: set<string> := {"image/jpeg", "image/png", "image/gif", "image/bmp", "image/tiff"}
  const MaxFileSize: nat := 10 * 1024 * 1024

  const InvalidTypeMessage := "Invalid file type. Please select an image (JPG, PNG, GIF, BMP, TIFF)."
  const TooLargeMessage := "File is too large. Maximum size is 10MB."
  const NoFileMessage := "Please select an image first."
  const FailedMessage := "Failed to process image"
  const GenericErrorMessage := "An error occurred during processing"
  const NoTextDetected := "No text detected"
  const NoTextToCopy := "No text to copy!"
  const NoTextToDownload := "No text to download!"

  // ---------------------------------------------------------------------
  // Values exchanged with the browser
  // ---------------------------------------------------------------------

  /** A chosen file, reduced to what the script inspects: its declared MIME type and its size in bytes. */
  datatype FileInfo = FileInfo(mimeType: string, size: nat)

  datatype Severity = Info | Warning

  /** A notification as `showToast` issues it. */
  datatype Toast = Toast(message: string, severity: Severity)

  /** The fields of the parsed JSON body the script reads; an absent field is `None`. */
  datatype ResponseData = ResponseData(enhancedText: Option<string>, originalText: Option<string>, error: Option<string>)

  /** `response.json()` either yields data or rejects with an error message. */
  datatype Payload = Parsed(data: ResponseData) | Unparsable(message: string)

  /** A download the browser is asked to save. */
  datatype DownloadFile = DownloadFile(name: string, content: string)

  // ---------------------------------------------------------------------
  // Decisions
  // ---------------------------------------------------------------------

  datatype Intake = Accepted | InvalidType | TooLarge

  /** The validation ladder of `handleFileSelection`: the type check first, then the inclusive size bound. */
  function Validate(f: FileInfo): (v: Intake)
    ensures v == Accepted <==> f.mimeType in ValidTypes && f.size <= MaxFileSize
    ensures v == InvalidType <==> f.mimeType !in ValidTypes
    ensures v == TooLarge <==> f.mimeType in ValidTypes && f.size > 10485760
  {
    if f.mimeType !in ValidTypes then InvalidType
    else if f.size > MaxFileSize then TooLarge
    else Accepted
  }

  /** Exactly 10 MiB is accepted, one byte more is too large, and a wrong type wins over any size. */
  lemma SizeBoundary(t: string, size: nat)
    ensures t in ValidTypes ==> Validate(FileInfo(t, 10485760)) == Accepted
    ensures t in ValidTypes ==> Validate(FileInfo(t, 10485761)) == TooLarge
    ensures t !in ValidTypes ==> Validate(FileInfo(t, size)) == InvalidType
  {
  }

  /** JavaScript truthiness of an optional string: present and non-empty. */
  predicate Truthy(o: Option<string>) {
    o.Some? && o.value != ""
  }

  /** `o || fallback` on an optional string. */
  function OrElse(o: Option<string>, fallback: string): (r: string)
    ensures Truthy(o) ==> r == o.value
    ensures !Truthy(o) ==> r == fallback
  {
    if Truthy(o) then o.value else fallback
  }

  /** `data.enhanced_text || data.original_text || 'No text detected'`. */
  function DisplayedText(d: ResponseData): (t: string)
    ensures t != ""
    ensures Truthy(d.enhancedText) ==> t == d.enhancedText.value
    ensures !Truthy(d.enhancedText) && Truthy(d.originalText) ==> t == d.originalText.value
    ensures !Truthy(d.enhancedText) && !Truthy(d.originalText) ==> t == NoTextDetected
  {
    OrElse(d.enhancedText, OrElse(d.originalText, NoTextDetected))
  }

  /** `error.message || 'An error occurred during processing'` in the catch handler. */
  function CaughtMessage(message: string): (m: string)
    ensures m != ""
    ensures message != "" ==> m == message
    ensures message == "" ==> m == GenericErrorMessage
  {
    if message != "" then message else GenericErrorMessage
  }

  /**
   * The message of the error that reaches the catch handler when a response
   * is not shown as a result: `data.error || 'Failed to process image'` for a
   * parsed non-ok body, the parser's own message for a body that is not JSON.
   */
  function ThrownMessage(p: Payload): (m: string)
    ensures p.Parsed? ==> m != ""
    ensures p.Parsed? && Truthy(p.data.error) ==> m == p.data.error.value
    ensures p.Unparsable? ==> m == p.message
  {
    match p
    case Parsed(d) => OrElse(d.error, FailedMessage)
    case Unparsable(message) => message
  }

  /** The message shown for a response that is not a result is never empty, and prefers the server's. */
  lemma FailureMessageChoice(p: Payload)
    ensures CaughtMessage(ThrownMessage(p)) != ""
    ensures p.Parsed? && Truthy(p.data.error) ==> CaughtMessage(ThrownMessage(p)) == p.data.error.value
    ensures p.Parsed? && !Truthy(p.data.error) ==> CaughtMessage(ThrownMessage(p)) == FailedMessage
  {
  }

  /** The progress tick: five more while below 90. */
  function TickValue(p: nat): (q: nat)
    ensures p < 90 ==> q == p + 5
    ensures p >= 90 ==> q == p
  {
    if p < 90 then p + 5 else p
  }

  /** The progress after `n` ticks starting from `p`. */
  function TicksFrom(p: nat, n: nat): nat
    decreases n
  {
    if n == 0 then p else TicksFrom(TickValue(p), n - 1)
  }

  function Min(a: int, b: int): int {
    if a < b then a else b
  }

  /** From any multiple of 5 up to 90, `n` ticks add 5 each time until 90 is reached. */
  lemma {:induction false} TicksClosedForm(p: nat, n: nat)
    requires p % 5 == 0 && p <= 90
    ensures TicksFrom(p, n) == Min(p + 5 * n, 90)
    decreases n
  {
    if n > 0 {
      TicksClosedForm(TickValue(p), n - 1);
    }
  }

  /** Starting from 0, progress is a multiple of 5, never above 90, and never decreases. */
  lemma ProgressFromZero(n: nat)
    ensures TicksFrom(0, n) == Min(5 * n, 90)
    ensures TicksFrom(0, n) % 5 == 0 && TicksFrom(0, n) <= 90
    ensures TicksFrom(0, n) <= TicksFrom(0, n + 1)
  {
    TicksClosedForm(0, n);
    TicksClosedForm(0, n + 1);
  }

  /** `toISOString().replace(/[:.]/g, '-')`. */
  function ReplaceSeparators(s: string): (r: string)
    ensures |r| == |s|
    ensures forall i :: 0 <= i < |s| ==> r[i] == (if s[i] == ':' || s[i] == '.' then '-' else s[i])
  {
    seq(|s|, i requires 0 <= i < |s| => if s[i] == ':' || s[i] == '.' then '-' else s[i])
  }

  /** `.substring(0, 19)`: at most the first 19 characters. */
  function Prefix19(s: string): (r: string)
    ensures |r| == Min(|s|, 19) && r == s[..|r|]
  {
    if |s| <= 19 then s else s[..19]
  }

  /** The download name built from an ISO timestamp. */
  function DownloadName(iso: string): (name: string)
    ensures |name| == 15 + Min(|iso|, 19) + 4
    ensures name[..15] == "extracted-text-" && name[|name| - 4..] == ".txt"
    ensures forall k :: 0 <= k < Min(|iso|, 19) ==>
      name[15 + k] == (if iso[k] == ':' || iso[k] == '.' then '-' else iso[k])
  {
    var stamp := Prefix19(ReplaceSeparators(iso));
    var name := "extracted-text-" + stamp + ".txt";
    assert forall k :: 15 <= k < |name| - 4 ==> name[k] == stamp[k - 15];
    name
  }

  /** A full ISO timestamp loses its milliseconds and zone and keeps whole seconds. */
  lemma DownloadNameExample()
    ensures DownloadName("2024-05-06T07:08:09.123Z") == "extracted-text-2024-05-06T07-08-09.txt"
  {
    var iso := "2024-05-06T07:08:09.123Z";
    assert Prefix19(ReplaceSeparators(iso)) == "2024-05-06T07-08-09";
  }

  // ---------------------------------------------------------------------
  // Page state and transitions
  // ---------------------------------------------------------------------

  /**
   * What the script keeps: the module-level `selectedFile`; the error banner;
   * the prompt and preview panels and the preview image; the number of file
   * reads still to deliver a preview; the progress and status panels and the
   * progress bar's value; the private progress counter of each submission
   * whose interval is still running, by request number; the results panel
   * and the text area; and the notifications shown so far.
   */
  datatype Ui = Ui(
    selectedFile: Option<FileInfo>,
    errorVisible: bool, errorText: string,
    promptVisible: bool, previewVisible: bool, previewSrc: string, pendingReads: nat,
    progressVisible: bool, statusVisible: bool, bar: nat,
    tickers: map<nat, nat>, nextRequest: nat,
    resultsVisible: bool, text: string,
    toasts: seq<Toast>)

  /** The page as loaded. */
  const Initial: Ui := Ui(None, false, "", true, false, "", 0, false, false, 0, map[], 0, false, "", [])

  /** What every handler keeps true. */
  ghost predicate Inv(u: Ui) {
    && (u.errorVisible <==> u.errorText != "")
    && (u.selectedFile.Some? ==> Validate(u.selectedFile.value) == Accepted)
    && u.progressVisible == u.statusVisible
    && (u.bar == 100 || (u.bar % 5 == 0 && u.bar <= 90))
    && (forall id :: id in u.tickers ==> id < u.nextRequest && u.tickers[id] % 5 == 0 && u.tickers[id] <= 90)
  }

  lemma InitialInv()
    ensures Inv(Initial)
  {
  }

  /** `showError`. */
  function ShowError(u: Ui, message: string): (v: Ui)
    ensures v.errorVisible && v.errorText == message
    ensures message != "" && Inv(u) ==> Inv(v)
  {
    u.(errorVisible := true, errorText := message)
  }

  /** `hideError`. */
  function HideError(u: Ui): (v: Ui)
    ensures !v.errorVisible && v.errorText == ""
    ensures Inv(u) ==> Inv(v)
  {
    u.(errorVisible := false, errorText := "")
  }

  /** `handleFileSelection` on the list of chosen files. */
  function SelectFile(u: Ui, files: seq<FileInfo>): (v: Ui)
    ensures files == [] ==> v == HideError(u)
    ensures v.selectedFile == if files != [] && Validate(files[0]) == Accepted then Some(files[0]) else u.selectedFile
    ensures v.errorVisible <==> files != [] && Validate(files[0]) != Accepted
    ensures files != [] && Validate(files[0]) == InvalidType ==> v.errorText == InvalidTypeMessage
    ensures files != [] && Validate(files[0]) == TooLarge ==> v.errorText == TooLargeMessage
    ensures v.pendingReads == if files != [] && Validate(files[0]) == Accepted then u.pendingReads + 1 else u.pendingReads
    ensures v.(selectedFile := u.selectedFile, errorVisible := u.errorVisible, errorText := u.errorText,
               pendingReads := u.pendingReads) == u
    ensures Inv(u) ==> Inv(v)
  {
    var u1 := HideError(u);
    if files == [] then u1
    else
      var f := files[0];
      match Validate(f)
      case InvalidType => ShowError(u1, InvalidTypeMessage)
      case TooLarge => ShowError(u1, TooLargeMessage)
      case Accepted => u1.(selectedFile := Some(f), pendingReads := u.pendingReads + 1)
  }

  /** `handleDrop`: a drop with files goes through the same ladder; a drop of nothing changes nothing, not even the banner. */
  function Drop(u: Ui, files: seq<FileInfo>): (v: Ui)
    ensures files == [] ==> v == u
    ensures files != [] ==> v == SelectFile(u, files)
    ensures Inv(u) ==> Inv(v)
  {
    if files == [] then u else SelectFile(u, files)
  }

  /** The reader's `onload`: shows the preview and hides the prompt, whatever is selected by then. */
  function PreviewLoaded(u: Ui, dataUrl: string): (v: Ui)
    requires u.pendingReads > 0
    ensures v.previewVisible && !v.promptVisible && v.previewSrc == dataUrl
    ensures v.pendingReads == u.pendingReads - 1
    ensures v.(promptVisible := u.promptVisible, previewVisible := u.previewVisible, previewSrc := u.previewSrc,
               pendingReads := u.pendingReads) == u
    ensures Inv(u) ==> Inv(v)
  {
    u.(previewSrc := dataUrl, promptVisible := false, previewVisible := true, pendingReads := u.pendingReads - 1)
  }

  /** `resetUpload`. */
  function ResetUploadState(u: Ui): (v: Ui)
    ensures v.selectedFile.None? && !v.errorVisible && v.errorText == ""
    ensures v.promptVisible && !v.previewVisible
    ensures v.(selectedFile := u.selectedFile, errorVisible := u.errorVisible, errorText := u.errorText,
               promptVisible := u.promptVisible, previewVisible := u.previewVisible) == u
    ensures Inv(u) ==> Inv(v)
  {
    HideError(u.(promptVisible := true, previewVisible := false, selectedFile := None))
  }

  /** `resetAll`: `resetUpload`, then the results are hidden and the text emptied. */
  function ResetAllState(u: Ui): (v: Ui)
    ensures v.selectedFile.None? && !v.errorVisible && v.errorText == ""
    ensures v.promptVisible && !v.previewVisible && !v.resultsVisible && v.text == ""
    ensures v.(selectedFile := u.selectedFile, errorVisible := u.errorVisible, errorText := u.errorText,
               promptVisible := u.promptVisible, previewVisible := u.previewVisible,
               resultsVisible := u.resultsVisible, text := u.text) == u
    ensures Inv(u) ==> Inv(v)
  {
    ResetUploadState(u).(resultsVisible := false, text := "")
  }

  /** Both resets are idempotent. */
  lemma ResetsIdempotent(u: Ui)
    ensures ResetUploadState(ResetUploadState(u)) == ResetUploadState(u)
    ensures ResetAllState(ResetAllState(u)) == ResetAllState(u)
  {
  }

  /**
   * `processImage` up to the request: without a selected file only the
   * banner changes; otherwise the progress and status panels are shown, the
   * banner is hidden, and a new request starts with its own counter at 0.
   * The bar itself is not reset.
   */
  function Submit(u: Ui): (v: Ui)
    ensures u.selectedFile.None? ==> v == ShowError(u, NoFileMessage)
    ensures u.selectedFile.Some? ==>
      && v.progressVisible && v.statusVisible && !v.errorVisible
      && v.tickers == u.tickers[u.nextRequest := 0] && v.nextRequest == u.nextRequest + 1
      && v.(progressVisible := u.progressVisible, statusVisible := u.statusVisible,
            errorVisible := u.errorVisible, errorText := u.errorText,
            tickers := u.tickers, nextRequest := u.nextRequest) == u
    ensures Inv(u) && u.selectedFile.Some? ==> u.nextRequest !in u.tickers
    ensures Inv(u) ==> Inv(v)
  {
    if u.selectedFile.None? then ShowError(u, NoFileMessage)
    else
      HideError(u.(progressVisible := true, statusVisible := true)).(
        tickers := u.tickers[u.nextRequest := 0], nextRequest := u.nextRequest + 1)
  }

  /** One firing of request `id`'s interval. */
  function Tick(u: Ui, id: nat): (v: Ui)
    requires id in u.tickers
    ensures id in v.tickers && v.tickers[id] == TickValue(u.tickers[id])
    ensures u.tickers[id] < 90 ==> v == u.(tickers := u.tickers[id := u.tickers[id] + 5], bar := u.tickers[id] + 5)
    ensures u.tickers[id] >= 90 ==> v == u
    ensures Inv(u) ==> u.tickers[id] <= v.tickers[id] <= 90
    ensures Inv(u) ==> Inv(v)
  {
    var p := u.tickers[id];
    if p < 90 then u.(tickers := u.tickers[id := p + 5], bar := p + 5) else u
  }

  /**
   * The response chain of request `id`: the interval is cleared and the bar
   * forced to 100, whatever the outcome; then either the result is shown or,
   * for a non-ok status or a body that is not JSON, the catch handler runs.
   */
  function Respond(u: Ui, id: nat, ok: bool, p: Payload): (v: Ui)
    requires id in u.tickers
    ensures v.bar == 100 && v.tickers == u.tickers - {id}
    ensures !v.progressVisible && !v.statusVisible
    ensures ok && p.Parsed? ==>
      v == u.(tickers := u.tickers - {id}, bar := 100, progressVisible := false, statusVisible := false,
              text := DisplayedText(p.data), resultsVisible := true)
    ensures !(ok && p.Parsed?) ==>
      v == u.(tickers := u.tickers - {id}, bar := 100, progressVisible := false, statusVisible := false,
              errorVisible := true, errorText := CaughtMessage(ThrownMessage(p)))
    ensures Inv(u) ==> Inv(v)
  {
    var settled := u.(tickers := u.tickers - {id}, bar := 100, progressVisible := false, statusVisible := false);
    if ok && p.Parsed? then settled.(text := DisplayedText(p.data), resultsVisible := true)
    else ShowError(settled, CaughtMessage(ThrownMessage(p)))
  }

  /** The request itself failed: the interval is cleared, the panels hidden and the error shown; the bar keeps its value. */
  function TransportFailure(u: Ui, id: nat, message: string): (v: Ui)
    requires id in u.tickers
    ensures v.bar == u.bar && v.tickers == u.tickers - {id}
    ensures v == u.(tickers := u.tickers - {id}, progressVisible := false, statusVisible := false,
                    errorVisible := true, errorText := CaughtMessage(message))
    ensures v.errorText != ""
    ensures Inv(u) ==> Inv(v)
  {
    ShowError(u.(tickers := u.tickers - {id}, progressVisible := false, statusVisible := false), CaughtMessage(message))
  }

  /** `copyTextToClipboard`: empty text gives one warning and nothing else; otherwise the whole text is copied. */
  function Copy(u: Ui): (r: (Ui, Option<string>))
    ensures u.text == "" ==> r == (u.(toasts := u.toasts + [Toast(NoTextToCopy, Warning)]), None)
    ensures u.text != "" ==> r == (u, Some(u.text))
    ensures Inv(u) ==> Inv(r.0)
  {
    if u.text == "" then (u.(toasts := u.toasts + [Toast(NoTextToCopy, Warning)]), None)
    else (u, Some(u.text))
  }

  /** `downloadText` at the moment `iso`: empty text gives one warning and nothing else; otherwise the text is offered as a file. */
  function Download(u: Ui, iso: string): (r: (Ui, Option<DownloadFile>))
    ensures u.text == "" ==> r == (u.(toasts := u.toasts + [Toast(NoTextToDownload, Warning)]), None)
    ensures u.text != "" ==> r == (u, Some(DownloadFile(DownloadName(iso), u.text)))
    ensures Inv(u) ==> Inv(r.0)
  {
    if u.text == "" then (u.(toasts := u.toasts + [Toast(NoTextToDownload, Warning)]), None)
    else (u, Some(DownloadFile(DownloadName(iso), u.text)))
  }

  /** A reader load that arrives after `resetUpload` still shows a preview, with nothing selected. */
  lemma LatePreviewAfterReset(u: Ui, dataUrl: string)
    requires u.pendingReads > 0
    ensures PreviewLoaded(ResetUploadState(u), dataUrl).selectedFile.None?
    ensures PreviewLoaded(ResetUploadState(u), dataUrl).previewVisible
    ensures !PreviewLoaded(ResetUploadState(u), dataUrl).promptVisible
  {
  }

  // ---------------------------------------------------------------------
  // The controller, with the state in fields
  // ---------------------------------------------------------------------

  class Controller {
    var selectedFile: Option<FileInfo>
    var errorVisible: bool
    var errorText: string
    var promptVisible: bool
    var previewVisible: bool
    var previewSrc: string
    var pendingReads: nat
    var progressVisible: bool
    var statusVisible: bool
    var bar: nat
    var tickers: map<nat, nat>
    var nextRequest: nat
    var resultsVisible: bool
    var text: string
    var toasts: seq<Toast>

    /** The fields as one value. */
    function View(): Ui
      reads this
    {
      Ui(selectedFile, errorVisible, errorText, promptVisible, previewVisible, previewSrc, pendingReads,
         progressVisible, statusVisible, bar, tickers, nextRequest, resultsVisible, text, toasts)
    }

    ghost predicate Valid()
      reads this
    {
      Inv(View())
    }

    constructor ()
      ensures View() == Initial && Valid()
    {
      selectedFile := None;
      errorVisible, errorText := false, "";
      promptVisible, previewVisible, previewSrc, pendingReads := true, false, "", 0;
      progressVisible, statusVisible, bar := false, false, 0;
      tickers, nextRequest := map[], 0;
      resultsVisible, text := false, "";
      toasts := [];
    }

    method ShowErrorMessage(message: string)
      modifies this
      ensures View() == ShowError(old(View()), message)
    {
      errorText := message;
      errorVisible := true;
    }

    method HideErrorMessage()
      modifies this
      ensures View() == HideError(old(View()))
    {
      errorText := "";
      errorVisible := false;
    }

    method HandleFileSelection(files: seq<FileInfo>)
      requires Valid()
      modifies this
      ensures Valid() && View() == SelectFile(old(View()), files)
    {
      HideErrorMessage();
      if files == [] {
        return;
      }
      var file := files[0];
      if file.mimeType !in ValidTypes {
        ShowErrorMessage(InvalidTypeMessage);
        return;
      }
      if file.size > 10 * 1024 * 1024 {
        ShowErrorMessage(TooLargeMessage);
        return;
      }
      selectedFile := Some(file);
      pendingReads := pendingReads + 1;
    }

    method HandleDrop(files: seq<FileInfo>)
      requires Valid()
      modifies this
      ensures Valid() && View() == Drop(old(View()), files)
    {
      if |files| > 0 {
        HandleFileSelection(files);
      }
    }

    method OnPreviewLoaded(dataUrl: string)
      requires Valid() && pendingReads > 0
      modifies this
      ensures Valid() && View() == PreviewLoaded(old(View()), dataUrl)
    {
      previewSrc := dataUrl;
      promptVisible := false;
      previewVisible := true;
      pendingReads := pendingReads - 1;
    }

    method ResetUpload()
      requires Valid()
      modifies this
      ensures Valid() && View() == ResetUploadState(old(View()))
    {
      promptVisible := true;
      previewVisible := false;
      selectedFile := None;
      HideErrorMessage();
    }

    method ResetAll()
      requires Valid()
      modifies this
      ensures Valid() && View() == ResetAllState(old(View()))
    {
      ResetUpload();
      resultsVisible := false;
      text := "";
    }

    /** Returns the number of the request it started, if any. */
    method ProcessImage() returns (started: Option<nat>)
      requires Valid()
      modifies this
      ensures Valid() && View() == Submit(old(View()))
      ensures started.Some? <==> old(selectedFile).Some?
      ensures started.Some? ==> started.value == old(nextRequest) && started.value in tickers
    {
      if selectedFile.None? {
        ShowErrorMessage(NoFileMessage);
        return None;
      }
      progressVisible := true;
      statusVisible := true;
      HideErrorMessage();
      var id := StartRequest();
      started := Some(id);
    }

    /** `setInterval` for a new request: the next request number, with its counter at 0. */
    method StartRequest() returns (id: nat)
      modifies this
      ensures id == old(nextRequest)
      ensures View() == old(View()).(tickers := old(tickers)[id := 0], nextRequest := id + 1)
    {
      id := nextRequest;
      tickers := tickers[id := 0];
      nextRequest := id + 1;
    }

    method OnTick(id: nat)
      requires Valid() && id in tickers
      modifies this
      ensures Valid() && View() == Tick(old(View()), id)
    {
      var progress := tickers[id];
      if progress < 90 {
        progress := progress + 5;
        tickers := tickers[id := progress];
        bar := progress;
      }
    }

    /** The start of the response handler: `clearInterval`, the bar at 100%, and both panels hidden. */
    method SettleRequest(id: nat)
      modifies this
      ensures View() == old(View()).(tickers := old(tickers) - {id}, bar := 100,
                                     progressVisible := false, statusVisible := false)
    {
      tickers := tickers - {id};
      bar := 100;
      statusVisible := false;
      progressVisible := false;
    }

    method OnResponse(id: nat, ok: bool, p: Payload)
      requires Valid() && id in tickers
      modifies this
      ensures Valid() && View() == Respond(old(View()), id, ok, p)
    {
      SettleRequest(id);
      if ok && p.Parsed? {
        text := DisplayedText(p.data);
        resultsVisible := true;
      } else {
        var message := ThrownMessage(p);
        ShowErrorMessage(if message != "" then message else GenericErrorMessage);
      }
    }

    method OnTransportFailure(id: nat, message: string)
      requires Valid() && id in tickers
      modifies this
      ensures Valid() && View() == TransportFailure(old(View()), id, message)
    {
      tickers := tickers - {id};
      statusVisible := false;
      progressVisible := false;
      ShowErrorMessage(if message != "" then message else GenericErrorMessage);
    }

    method ShowToast(message: string, severity: Severity)
      modifies this
      ensures View() == old(View()).(toasts := old(toasts) + [Toast(message, severity)])
    {
      toasts := toasts + [Toast(message, severity)];
    }

    method CopyTextToClipboard() returns (copied: Option<string>)
      requires Valid()
      modifies this
      ensures Valid() && (View(), copied) == Copy(old(View()))
    {
      if text == "" {
        ShowToast(NoTextToCopy, Warning);
        return None;
      }
      copied := Some(text);
    }

    method DownloadText(iso: string) returns (file: Option<DownloadFile>)
      requires Valid()
      modifies this
      ensures Valid() && (View(), file) == Download(old(View()), iso)
    {
      if text == "" {
        ShowToast(NoTextToDownload, Warning);
        return None;
      }
      var timestamp := Prefix19(ReplaceSeparators(iso));
      file := Some(DownloadFile("extracted-text-" + timestamp + ".txt", text));
    }
  }
}
