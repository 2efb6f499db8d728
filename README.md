# Product-photography pipeline: a Dafny model of its control logic

The system takes product photos uploaded over HTTP. It runs each photo through
a fixed pipeline:

1. Noise reduction with a 5×5 Gaussian blur.
2. Background removal with rembg.
3. A generative re-edit by a Gemini image model.

It reports, per photo, which artifacts were written and what went wrong.

This project models the control logic and bookkeeping around the libraries:

- the best-effort fallbacks of the two preprocessing stages;
- the guard, the part scan and the exception wrapping of the Gemini call;
- the result record that `process_image` fills in stage by stage, and the
  artifact names it derives from the input path;
- the extension check `allowed_file`;
- the request checks of the `/api/process` handler, in their fixed order;
- the credential fallback;
- the loop that builds one result per accepted file.

Every library call becomes an oracle that yields a value or raises an
exception with a message (`Common.Try`). This covers PIL, OpenCV, rembg,
saving, decoding and the remote `generate_content` call. The oracles are the
fields of `ImageProcessor.Library`, `ImageProcessor.World` and `App.Host`.
Those fields are total functions: the same call with the same arguments
always has the same outcome. Within that assumption, a proof about the model
holds for whatever the libraries do.

Files:

- `common.dfy`: `Option`, `Try` and `str.rfind`.
- `posix_path.dfy`: `basename`, `splitext` and two-argument `join` from
  POSIX `os.path`.
- `image_processor.dfy`: the stages, the Gemini call (a method with its loop,
  proved against the function `GeminiEdit`), and the result record. The
  record is a class `ProcessingResult` whose fields `ProcessImage` updates in
  place, proved against the function `ProcessSpec`.
- `app.dfy`: `allowed_file` and the handler `ProcessImages`. The handler's
  loop is proved against `EntriesUpTo`.

Behaviour worth noting:

- A batch whose files are all refused by the extension check is not an
  error. The handler answers with an empty `results` list (app.py:53-76). No
  check runs after filtering.
- The endpoint is `/api/process` (app.py:34).
- The credential check runs before the empty-list check. A request with an
  empty file list and no key is answered "API key is required"
  (app.py:43-47).

## Model

| member | source | states |
|---|---|---|
| `Common.RFind` | app.py:28 | the index returned holds the character and no later position does; None exactly when the character is absent |
| `Common.RFindLast` | app.py:28 | an occurrence with no later one is exactly the index `rfind` returns |
| `PosixPath.ComponentStart` | image_processor.py:96 | the last path component starts just after a '/' (or at 0) and contains no '/' |
| `PosixPath.Basename` | image_processor.py:96 | the base name is the suffix of the path after its last '/', and contains no '/' |
| `PosixPath.Splitext` | image_processor.py:96 | root + extension is the input; a non-empty extension starts with a dot, has no other dot and no '/', and the component before it is not all dots; and whenever the last dot of the last component has a non-dot before it in that component, the split is made exactly there |
| `PosixPath.Join` | image_processor.py:109-119 | an absolute second part discards the first; otherwise the result is the first part followed by the second, with a '/' inserted exactly when the first part is non-empty and does not already end in '/' |
| `PosixPath.JoinKeepsName` | image_processor.py:109-119 | the second part always ends the joined path |
| `PosixPath.Stem` | image_processor.py:96 | the base name used for artifacts contains no '/', and it followed by the extension `splitext` strips is the whole basename |
| `PosixPath.JoinUnder` | image_processor.py:109-119 | joining a non-empty directory that does not end in '/' and a name not starting with '/' puts exactly one '/' between them |
| `ImageProcessor.ReduceNoise` | image_processor.py:28-38 | never fails: palette and RGBA images are converted first; the result is the blur of the image held, or on a blur failure that image itself (the original, or the conversion once it succeeded); a failed conversion returns the original |
| `ImageProcessor.RemoveBackground` | image_processor.py:40-52 | never fails: a failed segmentation or composite returns the input; a zero alpha returns the segmentation output unchanged; otherwise the output composited onto the colour |
| `ImageProcessor.FirstInline` | image_processor.py:75-78 | the index found is the first part with non-empty inline data; None exactly when no part has any |
| `ImageProcessor.ImageToSend` | image_processor.py:60-65 | only RGBA images are flattened, onto white; every other mode is converted to RGB; either may raise |
| `ImageProcessor.GeminiEdit` | image_processor.py:54-83 | no SDK or no input image gives None; a failure building the client, converting the image or calling the model, and an empty candidate list, each come back as the exception re-raised with the prefix "Gemini API error: "; every exception carries that prefix |
| `ImageProcessor.CallGeminiImageEditing` | image_processor.py:54-83 | the guard, the client, the conversion, the call, the scan loop with early return and the exception wrapping yield exactly the edit outcome `GeminiEdit` defines |
| `ImageProcessor.GeminiEditScansFirstCandidate` | image_processor.py:69-83 | after a response, the edit is None iff no part of the first candidate carries data; otherwise it is the decoded first carrying part, a decode failure being wrapped |
| `ImageProcessor.Preprocessed` | image_processor.py:100-106 | the intermediate artifact is the input denoised first, then segmented; with the fully transparent background colour it is the raw segmentation output, or the denoised image when segmentation fails |
| `ImageProcessor.ArtifactPaths` | image_processor.py:109-119 | for a base name without '/' (every `Stem` is one) the reported paths are `preprocessed/<base>_pre.png` and `gemini_edited/<base>_gemini.png` |
| `ImageProcessor.ProcessSpec` | image_processor.py:85-130 | every outcome satisfies: success iff the final path is set, iff no error is set; success implies the preprocessed path is set; paths follow the naming rule |
| `ImageProcessor.EarlyExceptionRecorded` | image_processor.py:98-127 | an exception from opening the input or from saving the intermediate artifact becomes the error, with no success and no path reported |
| `ImageProcessor.SavedKeepsPrePath` | image_processor.py:109-127 | once the intermediate artifact is saved, its path is reported whatever the edit and the final save do |
| `ImageProcessor.PrePathIffSaved` | image_processor.py:98-111 | the preprocessed path is reported exactly when opening the input and saving the intermediate artifact succeed |
| `ImageProcessor.MissingSdkOrKeySkipsEdit` | image_processor.py:109-124 | without the SDK or with an empty key, the result does not depend on the client or the service: error "SDK or API key missing", preprocessed path kept, no final path |
| `ImageProcessor.EditWithoutImageFails` | image_processor.py:113-122 | an edit yielding nothing records "Gemini editing failed", keeps the preprocessed path, no final path |
| `ImageProcessor.LateExceptionKeepsPrePath` | image_processor.py:111-127 | an exception from the edit or the final save becomes the error while the preprocessed path stays and success stays false |
| `ImageProcessor.AllStagesSucceed` | image_processor.py:98-120 | when every stage succeeds the record is success with both paths and no error |
| `ImageProcessor.ProcessingResult.constructor` | image_processor.py:87-93 | the record starts with no success, no paths and no error |
| `ImageProcessor.ProcessImage` | image_processor.py:85-130 | the in-place updates leave the fresh record equal to `ProcessSpec` and consistent |
| `App.Lower` | app.py:28 | lower-casing keeps the length and maps each character to its lower case |
| `App.AfterLastDot` | app.py:28 | the text taken follows some dot and contains no dot |
| `App.LastDotDecides` | app.py:28 | for a name with a dot, the text after the last dot lower-cases to an allowed extension iff some dot-free tail after a dot does |
| `App.AllowedFile` | app.py:27-28 | an accepted name has a dot followed by dot-free text that lower-cases to png, jpg, jpeg or webp |
| `App.AllowedFileIff` | app.py:19-28 | a name is allowed iff some dot is followed by dot-free text that lower-cases to png, jpg, jpeg or webp |
| `App.AfterLastDotOf` | app.py:28 | the extension of `stem.ext` for dot-free ext is ext, and it alone decides whether the name is allowed |
| `App.UpperCaseExtensionAllowed` | app.py:28 | every name ending ".PNG" is allowed |
| `App.LastExtensionDecides` | app.py:28 | every name ending ".png.gif" is refused |
| `App.NameWithoutDotRefused` | app.py:28 | every name without a dot is refused, "png" among them |
| `App.ApiKey` | app.py:41 | a form `api_key` wins even when empty; without one `GOOGLE_API_KEY` is used; with neither the key is empty |
| `App.Prompt` | app.py:40 | the form `prompt`, or empty without one |
| `App.Accepts` | app.py:55 | an accepted upload has a non-empty name with a dot and an allowed extension |
| `App.UploadPath` | app.py:57-59 | the saved path ends with `<uuid>_<name>`, and is `uploads/<uuid>_<name>` whenever the uuid does not start with '/' |
| `App.EntryFor` | app.py:63-74 | the entry names its file; it is the error-only entry exactly when an exception escaped `process_image`, with that message; otherwise its record is what `process_image` gives for the file's upload path, the prompt and the key, and is consistent |
| `App.Positions` | app.py:54-55 | the positions listed are below the bound and set in the mask |
| `App.PositionsComplete` | app.py:54-55 | the positions are listed in increasing order and include every set position below the bound |
| `App.SelectAtPositions` | app.py:53-76 | what the loop appends is, entry by entry, the element at the matching accepted position |
| `App.EntriesStep` | app.py:54-74 | visiting one more file appends its entry and its upload path exactly when the file is accepted |
| `App.EntriesFollowAcceptedFiles` | app.py:53-76 | results hold exactly one entry per accepted file (truthy and allowed), in submission order, none for refused files, so never more entries than files |
| `App.EntriesNameTheirFiles` | app.py:63-74 | every entry carries its file's sanitised name; an exception escaping `process_image` gives the entry with only that error; processed records are consistent |
| `App.SavedMatchesEntries` | app.py:55-68 | one upload is saved per entry, the a-th under the upload path of the a-th accepted file, and the a-th processed entry holds the record `process_image` gives for that saved path |
| `App.ProcessImages` | app.py:34-76 | the checks run in order (no files field, empty key, empty list, more than 10 files counted before filtering), each a 400 with nothing saved; an explicit empty form key is refused even when the environment has one; otherwise the results are `EntriesUpTo` over all files, with the key resolved form first, then `GOOGLE_API_KEY`, then '' |

## Left out

- Pixel work is not modelled: `convert`, `GaussianBlur`, `paste`/`split` and rembg `remove` are opaque oracles that may raise.
- The Gemini SDK is not modelled. Building the client is an oracle from the key that may raise; `generate_content` is an oracle from the request (key, model, prompt, RGB image) to a response or an exception.
- Response shapes other than "a list of candidates, each a list of parts" are not modelled. Of the ways `response.candidates[0].content.parts` can raise, only the empty candidate list is kept (an IndexError).
- Inline data whose `data` is None is modelled as empty data. Both are falsy in the scan.
- `processing_time` and its clock reads (image_processor.py:95, 129) are not modelled. Wall-clock arithmetic and rounding are left out.
- Exceptions escaping `process_image` are an oracle per file (`Host.escapes`). Only its lines outside the try block could raise, and the clock there is not modelled.
- File I/O is not modelled: `Image.open` and the image `save` are oracles, and `setup_directories`/`os.makedirs` is left out.
- The handler's upload `file.save` (app.py:60) is not an oracle: the model assumes it succeeds and records its path. A failing one sits outside any try and would make the framework answer 500.
- The oracles are deterministic: a library call repeated with the same arguments is assumed to give the same outcome. Nondeterministic library behaviour (a flaky network call that succeeds on one try and fails on the next) is not modelled.
- Logging through `print` is left out.
- The `/`, `/output/<path>` and `/view/<path>` routes (app.py:30-32, 78-84) are left out. They only hand files to the framework.
- `uuid.uuid4` and werkzeug `secure_filename` are opaque functions of the file's position and name.
- Flask request parsing, JSON encoding, `MAX_CONTENT_LENGTH` and `load_dotenv` are left out. The handler receives the parsed `files[]` list (or its absence), the form fields and the environment.
- `App.Lower` lower-cases ASCII letters only. Python lower-cases all of Unicode, but no non-ASCII character lower-cases to a letter of png, jpg, jpeg or webp, so `allowed_file` decides the same.
- `os.path` is modelled for POSIX separators only.
- PIL modes other than RGB, RGBA and P are one case, `OtherMode`, whose name is never one of those three.
- Python exceptions that are not `Exception` subclasses (interrupts, system exit) are not modelled.
