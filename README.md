# Handwritten OCR web app — a Dafny model of its logic

The application lets a user pick or drop one image in the browser, sends it
to a Flask endpoint that runs OCR on it, cleans the recognised text up, and
shows the result in an editable text area that can be copied or downloaded.
This project models the three parts of it that are logic rather than library
calls, and proves what they promise:

- **The browser controller** (`static/js/app.js`), in `client.dfy`. The page
  state the script keeps is the record `Client.Ui`. It holds the module-level
  `selectedFile`, the error banner, the prompt, preview, progress, status and
  results panels, the progress bar, the text area and the notifications shown.
  Each handler is a transition function on `Ui` with the property it keeps in
  its contract. `Client.Inv` is the invariant every handler preserves:
  - the banner is visible exactly when its text is non-empty;
  - a selected file always passed validation;
  - the progress and status panels are shown together;
  - the bar is 100 or a multiple of 5 up to 90.
  The class `Client.Controller` keeps the same state in fields. Its methods
  update them step by step, as the script does. Each method's contract ties
  the new fields to the transition function. The file reader, the progress
  interval and `fetch` appear as the events `OnPreviewLoaded`, `OnTick`,
  `OnResponse` and `OnTransportFailure`. The script has no guard against a
  second submission while one is pending. So each submission gets a request
  number and its own progress counter (`tickers`).
- **The text pipeline** (`nlp_processor.py`), in `nlp_processor.dfy`.
  `normalize_text`, `str.split`, `' '.join`, the per-token spell-correction
  step and `enhance_text` are functions. The loop of `correct_spelling` is a
  method proved against the function `CorrectedText`. The spell checker is a
  value with two functions, so the general per-token logic is modelled. The
  shipped `SimpleSpellChecker` is `SimpleContains` / `SimpleCorrection`.
- **The server's request validation** (`app.py`), in `server.dfy`.
  `allowed_file` and the early-return ladder of `process_handwriting` are
  modelled over an abstract request `{hasImagePart, filename}`. Saving the
  upload, running OCR and removing the file are one abstract outcome. It is
  either the text OCR returned or the message of an exception raised by
  `image_file.save` (`app.py:50`) or `os.remove` (`app.py:62`). `enhance_text`
  catches its own exceptions and returns its input. `process_image` in `ocr_processor.py` catches
  its own failures and returns `"OCR Error: …"` as text. So an OCR failure is a
  `Server.Recognized` outcome with that text and a 200 reply, never a 500.

`exchange.dfy` joins the two sides. It covers how a reply of the handler
reaches the page: what text is shown, and which message appears in the banner.

Character classes are restricted to ASCII (`chars.dfy`):
- `\w` is `[A-Za-z0-9_]`;
- whitespace (`\s`, `split`, `strip`, `isspace`) is characters 9–13 and 28–32;
- `string.punctuation` is the 32 ASCII punctuation characters.

## Model

| member | source | states |
|---|---|---|
| `NlpProcessor.CollapseSpaces` | nlp_processor.py:38 | a whitespace run becomes one character: the result is no longer than the input, is empty exactly when the input is, and starts with whitespace exactly when the input does (its end is stated by `CollapseSpacesLast`, its content by `CollapseSpacesKeepsWords`) |
| `NlpProcessor.CollapseSpacesLast` | nlp_processor.py:38 | the collapsed text ends in whitespace exactly when the input does: a trailing whitespace run survives as one space |
| `NlpProcessor.CollapseSpacesKeepsWords` | nlp_processor.py:38 | collapsing keeps every word: `str.split()` of the collapsed text equals `str.split()` of the input, for every input |
| `NlpProcessor.CollapseSpacesPlain` | nlp_processor.py:38 | every whitespace character of the collapsed text is a plain space |
| `NlpProcessor.CollapseSpacesSeparated` | nlp_processor.py:38 | the collapsed text never has two whitespace characters next to each other |
| `NlpProcessor.CollapseSpacesChars` | nlp_processor.py:38 | collapsing adds no characters other than plain spaces |
| `NlpProcessor.ReplaceChar` | nlp_processor.py:41-42 | same length; the replaced character no longer occurs; every other character stays where it was |
| `NlpProcessor.KeepAllowed` | nlp_processor.py:45 | only characters of the allow-class `[\w\s.,:;?!'"-]` remain; every allowed input character is kept; the length does not grow (its content is stated by `KeepAllowedAppend` and `KeepAllowedOne`) |
| `NlpProcessor.KeepAllowedAppend` | nlp_processor.py:45 | the deletion is an order-keeping filter: filtering `a + b` is filtering `a` followed by filtering `b` |
| `NlpProcessor.KeepAllowedOne` | nlp_processor.py:45 | a single character is kept exactly when it is allowed and deleted otherwise; with `KeepAllowedAppend` this fixes the result character by character |
| `NlpProcessor.Strip` | nlp_processor.py:47 | no whitespace at either end; no new characters; empty exactly when the input is all whitespace |
| `NlpProcessor.StripIsTrimmedSlice` | nlp_processor.py:47 | the stripped text is a contiguous slice `s[i..j]` of the input with only whitespace before `i` and after `j` |
| `NlpProcessor.SplitAppendSpaces` | nlp_processor.py:47-64 | whitespace appended to a text does not change its `str.split()` |
| `NlpProcessor.SplitDropLeading` | nlp_processor.py:47-64 | leading whitespace removed by `lstrip` does not change the `str.split()` |
| `NlpProcessor.SplitDropTrailing` | nlp_processor.py:47-64 | trailing whitespace removed by `rstrip` does not change the `str.split()` |
| `NlpProcessor.SplitStrip` | nlp_processor.py:47-64 | `str.split()` of the stripped text equals `str.split()` of the text |
| `NlpProcessor.NormalizeText` | nlp_processor.py:24-47 | "" for empty input; no `|` and no `0`; every character is a word character, a plain space or one of `. , : ; ? ! ' " -`; no whitespace at the ends; never longer than the input (its content is stated by `CleanTextOnlyRespaced`) |
| `NlpProcessor.CleanTextOnlyRespaced` | nlp_processor.py:24-116 | for text whose characters are all allowed, with no `|` and no `0`: normalising keeps its words (`str.split()` is unchanged), and enhancing gives exactly its words joined by single spaces |
| `NlpProcessor.NormalizeKeepsDoubleSpace` | nlp_processor.py:38-47 | `"a $ b"` normalises to `"a  b"`: a character deleted between two spaces leaves a double space |
| `NlpProcessor.SplitWords` | nlp_processor.py:64 | `str.split()` yields at most as many pieces as the text has characters; its partners are `SplitWordsTokens`, `SplitJoin` and `JoinSplit` |
| `NlpProcessor.JoinSpace` | nlp_processor.py:89 | `' '.join` starts with the first word, followed by a space when there is a second; its partners are `JoinSpaceSingleSpaced`, `SplitJoin` and `JoinSplit` |
| `NlpProcessor.SplitWordsTokens` | nlp_processor.py:64 | every piece `str.split()` yields is non-empty and free of whitespace |
| `NlpProcessor.SplitWordsNoneIffBlank` | nlp_processor.py:64 | `str.split()` yields no pieces exactly when the text is all whitespace |
| `NlpProcessor.JoinSpaceSingleSpaced` | nlp_processor.py:89 | joining tokens with one space gives text with only plain spaces, none adjacent and none at the ends |
| `NlpProcessor.SplitJoin` | nlp_processor.py:64-89 | round trip: splitting a space-joined list of tokens gives the same tokens in the same order |
| `NlpProcessor.JoinSplit` | nlp_processor.py:64-89 | round trip: single-spaced text is unchanged by split-then-join |
| `NlpProcessor.RespacedShape` | nlp_processor.py:64-89 | split-then-join gives single-spaced text whose non-space characters all come from the input |
| `NlpProcessor.CorrectToken` | nlp_processor.py:67-87 | tokens of length at most 2 or made only of punctuation come back verbatim, whatever the checker; with a checker that knows every word every token comes back verbatim |
| `NlpProcessor.CorrectTokenDropsTail` | nlp_processor.py:74-81 | the regex match need not cover the whole token: with a checker that rejects `ab`, the token `ab-cd` becomes `AB-` |
| `NlpProcessor.SimpleContains` | nlp_processor.py:13-15 | `SimpleSpellChecker` reports every word as known |
| `NlpProcessor.SimpleCorrection` | nlp_processor.py:17-19 | `SimpleSpellChecker` corrects a word to itself |
| `NlpProcessor.CorrectedText` | nlp_processor.py:49-89 | with a checker that knows every word, correcting a text gives its tokens joined by single spaces |
| `NlpProcessor.CorrectSpelling` | nlp_processor.py:49-89 | "" for empty input; otherwise the loop's output is the corrected tokens, one per input token, in order, joined by single spaces |
| `NlpProcessor.ShippedCheckerOnlyRespaces` | nlp_processor.py:13-19 | with `SimpleSpellChecker`, correcting a text only re-spaces it: the result is its tokens joined by single spaces, and splitting it gives the same tokens back |
| `NlpProcessor.CorrectedKeepsCleanShape` | nlp_processor.py:110-113 | correcting normalised text with `SimpleSpellChecker` adds no `|`, no `0` and no disallowed character, and leaves it single-spaced |
| `NlpProcessor.EnhanceText` | nlp_processor.py:95-116 | "" for empty or whitespace-only input; the result never contains `|` or `0`, contains only allowed characters, and is single-spaced (no space at the ends, none adjacent); its content is stated by `CleanTextOnlyRespaced` and `EnhanceIdempotent` |
| `NlpProcessor.EnhanceIdempotent` | nlp_processor.py:106-113 | enhancing enhanced text changes nothing |
| `Server.AllowedFile` | app.py:22-24 | an accepted name contains a dot and its text after the last dot has 3 or 4 characters; `AllowedFileBySuffix` states the exact condition |
| `Server.AfterLastDot` | app.py:24 | the text after the last dot holds no dot, is a suffix of the name right after a dot, and is the whole name when there is no dot |
| `Server.AllowedFileBySuffix` | app.py:22-24 | a name `base.ext` is allowed exactly when `ext`, lower-cased, is one of png, jpg, jpeg, gif, bmp, tiff, whatever `base` holds |
| `Server.AllowedFileIgnoresCase` | app.py:24 | a name and its lower-cased form are accepted or rejected alike |
| `Server.InnerSuffixIgnored` | app.py:24 | only the final suffix counts: `a.png.exe` is rejected |
| `Server.UpperCaseSuffixAccepted` | app.py:24 | the suffix is compared case-insensitively: `a.exe.PNG` is accepted |
| `Server.NoDotRejected` | app.py:23 | every name without a dot is rejected |
| `Server.TrailingDotRejected` | app.py:23-24 | every name ending in a dot is rejected, whatever comes before the dot |
| `Server.TifRejected` | app.py:19 | every name ending in `.tif` is rejected: `tif` is not an allowed extension |
| `Server.ProcessHandwriting` | app.py:31-71 | the reply is 400 exactly when the request lacks the image part, has an empty name, or has a disallowed extension. These are checked in that order, each with its own message, and none reaches the save. An accepted request gets 200 with the OCR text and its enhancement, or 500 with "Error processing image: " and the exception's message. Every error body is non-empty |
| `Server.ErrorHandlerReply` | app.py:73-79 | the 413 handler replies "File too large" and the 500 handler "Internal server error", each with a non-empty error and its own status |
| `Client.Validate` | static/js/app.js:80-91 | a file is accepted exactly when its type is one of the five image types and its size is at most 10485760. A wrong type is reported as such whatever the size; a right type above the bound is too large |
| `Client.SizeBoundary` | static/js/app.js:87-91 | exactly 10 MiB is accepted, one byte more is too large, and a wrong type gives the type error at any size |
| `Client.DisplayedText` | static/js/app.js:161 | the shown text is never empty. It is the enhanced text if non-empty, else the original text if non-empty, else "No text detected" |
| `Client.ThrownMessage` | static/js/app.js:148-151 | the error thrown for a non-ok response carries the server's `error` when it is non-empty, else a non-empty fallback; an unparsable body throws the parser's message |
| `Client.CaughtMessage` | static/js/app.js:170 | the banner text of the catch handler is never empty: the error's message if it has one, else "An error occurred during processing" |
| `Client.FailureMessageChoice` | static/js/app.js:148-151 | for a response that is not shown as a result, the banner text is never empty. For a parsed body it is the server's `error` when non-empty, else "Failed to process image" |
| `Client.TickValue` | static/js/app.js:130-136 | a tick adds 5 while the counter is below 90 and leaves it alone from 90 on |
| `Client.TicksClosedForm` | static/js/app.js:129-136 | from a multiple of 5 up to 90, n ticks give min(p + 5n, 90) |
| `Client.ProgressFromZero` | static/js/app.js:129-136 | from 0, the counter after n ticks is min(5n, 90): a multiple of 5, at most 90, and never smaller than after n-1 ticks |
| `Client.ReplaceSeparators` | static/js/app.js:210 | every `:` and `.` becomes `-`, everything else stays, same length |
| `Client.Prefix19` | static/js/app.js:210 | `substring(0, 19)` keeps the first min(length, 19) characters |
| `Client.DownloadName` | static/js/app.js:209-211 | the name is `extracted-text-`, then the first min(length, 19) characters of the timestamp, each `:` and `.` among them replaced by `-` and every other character kept in place, then `.txt` |
| `Client.DownloadNameExample` | static/js/app.js:209-211 | `2024-05-06T07:08:09.123Z` gives `extracted-text-2024-05-06T07-08-09.txt` |
| `Client.InitialInv` | static/js/app.js:23 | the page as loaded satisfies the controller invariant |
| `Client.SelectFile` | static/js/app.js:73-93 | the banner is hidden first; with no file nothing else changes. An invalid type or an oversized file shows its message and keeps the earlier selection. An accepted file becomes the selection and starts a preview read. Nothing else changes, and the invariant is kept |
| `Client.Drop` | static/js/app.js:63-71 | a drop of files is the same as choosing them; a drop of nothing changes nothing, not even the banner |
| `Client.PreviewLoaded` | static/js/app.js:97-102 | a finished read shows its image in the preview, hides the prompt and changes nothing else |
| `Client.LatePreviewAfterReset` | static/js/app.js:97-111 | a read that finishes after `resetUpload` still shows the preview and hides the prompt, with no file selected |
| `Client.ResetUploadState` | static/js/app.js:106-112 | nothing is selected, the banner is hidden and empty, the prompt is shown and the preview hidden; results, text and requests are untouched |
| `Client.ResetAllState` | static/js/app.js:219-223 | as `resetUpload`, and also the results are hidden and the text is empty, from any state |
| `Client.ResetsIdempotent` | static/js/app.js:219-223 | applying either reset twice is the same as once |
| `Client.Submit` | static/js/app.js:114-129 | with nothing selected only the "Please select an image first." banner appears: no request, no progress panel. Otherwise the progress and status panels are shown, the banner hidden, and a new request starts with a fresh number and its counter at 0. The bar keeps its old value |
| `Client.Tick` | static/js/app.js:130-136 | a tick of a pending request adds 5 to its counter and shows it on the bar while below 90, else changes nothing; the counter never decreases and never passes 90 |
| `Client.Respond` | static/js/app.js:143-171 | any response, ok or not, stops that request's ticker, sets the bar to 100 and hides the panels. An ok parsed body shows its text in the results; anything else shows the catch handler's message |
| `Client.TransportFailure` | static/js/app.js:166-171 | a failed request stops its ticker and hides the panels without touching the bar, and shows a non-empty message |
| `Client.Copy` | static/js/app.js:174-181 | with empty text, exactly one warning "No text to copy!" and no other change; otherwise the whole text is copied and the state is unchanged |
| `Client.Download` | static/js/app.js:197-211 | with empty text, exactly one warning "No text to download!" and no other change; otherwise the text is offered under the timestamped name and the state is unchanged |
| `Client.Controller.constructor` | static/js/app.js:23 | the fields start as the page is loaded, and the invariant holds |
| `Client.ShowError` | static/js/app.js:225-228 | the banner becomes visible with exactly the message; a non-empty message keeps the invariant |
| `Client.HideError` | static/js/app.js:230-233 | the banner is hidden and its text emptied; the invariant is kept |
| `Client.Controller.ShowErrorMessage` | static/js/app.js:225-228 | the banner shows the message; nothing else changes |
| `Client.Controller.HideErrorMessage` | static/js/app.js:230-233 | the banner is hidden and emptied; nothing else changes |
| `Client.Controller.HandleFileSelection` | static/js/app.js:73-104 | the fields after the handler are `SelectFile` of the fields before; the invariant is kept |
| `Client.Controller.HandleDrop` | static/js/app.js:63-71 | the fields after are `Drop` of the fields before |
| `Client.Controller.OnPreviewLoaded` | static/js/app.js:97-102 | the fields after are `PreviewLoaded` of the fields before |
| `Client.Controller.ResetUpload` | static/js/app.js:106-112 | the fields after are `ResetUploadState` of the fields before |
| `Client.Controller.ResetAll` | static/js/app.js:219-223 | the fields after are `ResetAllState` of the fields before |
| `Client.Controller.ProcessImage` | static/js/app.js:114-142 | the fields after are `Submit` of the fields before. A request number is returned exactly when a file was selected, and that request is pending |
| `Client.Controller.OnTick` | static/js/app.js:130-136 | the fields after are `Tick` of the fields before |
| `Client.Controller.OnResponse` | static/js/app.js:143-171 | the fields after are `Respond` of the fields before |
| `Client.Controller.OnTransportFailure` | static/js/app.js:166-171 | the fields after are `TransportFailure` of the fields before |
| `Client.Controller.ShowToast` | static/js/app.js:236-259 | one notification with the message and severity is added; nothing else changes |
| `Client.Controller.CopyTextToClipboard` | static/js/app.js:174-181 | fields and copied text are those of `Copy` |
| `Client.Controller.DownloadText` | static/js/app.js:197-216 | fields and offered file are those of `Download` |
| `Exchange.ToData` | app.py:64-67 | an error reply carries only `error`; a success reply carries `original_text` and `enhanced_text` and no `error` |
| `Exchange.Deliver` | static/js/app.js:143-153 | `response.ok` is a 2xx status and the body is read as JSON |
| `Exchange.RecognizedTextReachesPage` | app.py:54-67 | for an accepted upload the page shows the results with the bar at 100. The text is the enhanced text, or the raw OCR text when enhancement left nothing, or "No text detected" |
| `Exchange.ServerErrorReachesPage` | app.py:33-71 | every non-200 reply of the handler puts its own error message in the banner and leaves the results panel as it was |
| `Exchange.TooLargeReplyReachesPage` | app.py:73-75 | the 413 reply shows "File too large" in the banner |

## Left out

- `ocr_processor.py` (OpenCV preprocessing and the Tesseract call) is not part of this model. Its output is the abstract `Server.Recognized(text)`.
- Flask routing and templates, `secure_filename`, the uuid/tempdir file name, `image_file.save`, `os.remove` and logging are left out. They are I/O and library calls. An exception raised by `image_file.save` or by `os.remove` is the abstract `Server.Raised(message)`, answered with 500.
- `process_image` (`ocr_processor.py:64-82`) never raises: on any failure it returns `"OCR Error: "` followed by the message, and on success the printable characters of Tesseract's output, stripped. Both are the abstract `Server.Recognized(text)`; the model does not fix the text's form.
- The 500 handler's reply is modelled. When Flask routes an error to it is not modelled.
- Character classes cover ASCII only. Non-ASCII letters and digits, which Python's `\w` keeps, are treated as disallowed and deleted by `NormalizeText`. Non-ASCII whitespace is treated as an ordinary character. `lower()` only folds A–Z.
- `None` input to `normalize_text` and `enhance_text` is not modelled. Inputs are strings.
- The exception fallbacks of `correct_spelling` and `enhance_text` are left out. The modelled functions cannot raise.
- NlpProcessor.CorrectToken: the contract states only the pass-through cases (short, punctuation-only, or every word known). The replacement of an unknown word part by a non-empty correction is in the body, and `CorrectTokenDropsTail` shows one instance. No general contract states it.
- DOM element handles, the CSS class toggling beyond the visibility flags, `FileReader`, `fetch`, `FormData`, `document.execCommand('copy')`, Blob/object URLs and the temporary link are left out. They are browser I/O. Their effects are the events and the returned `copied` / `DownloadFile` values.
- `fileInput.value = ''` in `resetUpload` and the `fileInput.files` assignment in `handleDrop` are left out. They only affect the file input element.
- Drag highlighting (`highlight`, `unhighlight`, `preventDefaults`) is left out. It is styling.
- Timer semantics are left out: the 200 ms interval, the toast's 100/3000/300 ms life cycle, its HTML, and the 2 s "Copied!" button feedback. A tick is a discrete event, and a toast is the entry appended to `toasts`.
- `Date`/`toISOString` are left out. The ISO string is an input of `Download`.
- A JSON body of `null`, or fields that are not strings, are not modelled. Fields are optional strings.
- The handling of a response is one step (`Client.Respond`). The script takes three asynchronous steps: the first `.then` clears the interval and sets the bar to 100, then the body is read, then the second `.then` or the `catch` runs. The states in between are not modelled: the bar at 100 with the panels still shown. Other events reach the same end states.
- User edits of the text area are not an event of the model. Copy and download act on the text as it stands.

Three behaviours of the code are worth stating, because a reader could expect otherwise:
- the script has no guard against a second submission while one is pending, so the model allows concurrent requests, each with its own ticker;
- a transport failure leaves the bar where it was; only a received response sets it to 100 (`Client.TransportFailure`);
- a rejected file does not clear the selection: an earlier valid selection survives it (`Client.SelectFile`).
