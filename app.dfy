/** The upload endpoint: extension validation, the request checks in their
    fixed order, the credential fallback, and the loop that runs every
    accepted file through the pipeline and collects one result per file. */
module App {
  import opened Common
  import opened PosixPath
  import ImageProcessor

  const AllowedExtensions: set<string> := {"png", "jpg", "jpeg", "webp"}
  const MaxFiles := 10
  const BadRequestStatus := 400

  const UploadFolder := "uploads"
  /** `os.path.join('output', 'preprocessed')` and `os.path.join('output', 'gemini_edited')`. */
  const PreprocessedDir := "output/preprocessed"
  const GeminiOutputDir := "output/gemini_edited"

  const NoFilesProvided := "No files provided"
  const ApiKeyRequired := "API key is required"
  const NoFilesSelected := "No files selected"
  const TooManyFiles := "Maximum 10 files allowed"

  // ---------------------------------------------------------------------------
  // The extension check (app.py:19, 27-28)

  /** `str.lower()` on one character; only ASCII letters change. */
  function LowerChar(c: char): char
  {
    if 'A' <= c <= 'Z' then (c as int + 32) as char else c
  }

  /** `str.lower()`. */
  function Lower(s: string): (r: string)
    ensures |r| == |s|
    ensures forall k :: 0 <= k < |s| ==> r[k] == LowerChar(s[k])
  {
    if s == [] then [] else [LowerChar(s[0])] + Lower(s[1..])
  }

  /** `filename.rsplit('.', 1)[1]`: the text after the last dot. */
  function AfterLastDot(filename: string): (r: string)
    requires '.' in filename
    ensures '.' !in r
    ensures exists i :: 0 <= i < |filename| && filename[i] == '.' && r == filename[i + 1..]
  {
    filename[RFind(filename, '.').value + 1..]
  }

  /** The extension rule stated without searching for the last dot: some dot
      is followed by dot-free text that lower-cases to an allowed extension. */
  ghost predicate HasAllowedExtension(filename: string)
  {
    exists i :: 0 <= i < |filename| && filename[i] == '.' && '.' !in filename[i + 1..] &&
                Lower(filename[i + 1..]) in AllowedExtensions
  }

  /** Only one dot of a name is followed by dot-free text: its last. */
  lemma LastDotUnique(filename: string, i: nat, j: nat)
    requires i < |filename| && filename[i] == '.' && '.' !in filename[i + 1..]
    requires j < |filename| && filename[j] == '.' && '.' !in filename[j + 1..]
    ensures i == j
  {
  }

  /** For a name with a dot, testing the text after the last dot decides the
      extension rule. */
  lemma LastDotDecides(filename: string)
    requires '.' in filename
    ensures Lower(AfterLastDot(filename)) in AllowedExtensions <==> HasAllowedExtension(filename)
  {
    var d := RFind(filename, '.').value;
    assert AfterLastDot(filename) == filename[d + 1..];
    if HasAllowedExtension(filename) {
      var i :| 0 <= i < |filename| && filename[i] == '.' && '.' !in filename[i + 1..] &&
               Lower(filename[i + 1..]) in AllowedExtensions;
      LastDotUnique(filename, i, d);
    }
  }

  /** `allowed_file`: there is a dot, and the text after the last one,
      lower-cased, is an allowed extension. An accepted name has a dot and an
      allowed extension; `AllowedFileIff` gives the converse. */
  function AllowedFile(filename: string): (r: bool)
    ensures r ==> '.' in filename && HasAllowedExtension(filename)
  {
    '.' in filename && Lower(AfterLastDot(filename)) in AllowedExtensions
  }

  /** `allowed_file` accepts exactly the names with an allowed extension, so a
      name without a dot is refused and only the last extension counts. */
  lemma AllowedFileIff(filename: string)
    ensures AllowedFile(filename) <==> HasAllowedExtension(filename)
  {
    if '.' in filename {
      LastDotDecides(filename);
    }
  }

  /** The extension of `stem + "." + ext`, for a dot-free `ext`, is `ext`,
      and it alone decides whether the name is allowed. */
  lemma AfterLastDotOf(stem: string, ext: string)
    requires '.' !in ext
    ensures '.' in stem + "." + ext
    ensures AfterLastDot(stem + "." + ext) == ext
    ensures AllowedFile(stem + "." + ext) <==> Lower(ext) in AllowedExtensions
  {
    var name := stem + "." + ext;
    assert name[|stem|] == '.';
    assert name[|stem| + 1..] == ext;
    LastDotUnique(name, |stem|, RFind(name, '.').value);
  }

  /** Extensions are compared lower-cased, so upper-case ones pass. */
  lemma UpperCaseExtensionAllowed(stem: string)
    ensures AllowedFile(stem + ".PNG")
  {
    assert stem + "." + "PNG" == stem + ".PNG";
    AfterLastDotOf(stem, "PNG");
    assert Lower("PNG") == "png";
  }

  /** Only the last extension counts. */
  lemma LastExtensionDecides(stem: string)
    ensures !AllowedFile(stem + ".png.gif")
  {
    assert (stem + ".png") + "." + "gif" == stem + ".png.gif";
    AfterLastDotOf(stem + ".png", "gif");
    assert Lower("gif") == "gif";
    assert forall x :: x in AllowedExtensions ==> |x| > 0 && x[0] != 'g';
  }

  /** A name without a dot is refused, even when it spells an extension
      (such as "png"). */
  lemma NameWithoutDotRefused(filename: string)
    requires '.' !in filename
    ensures !AllowedFile(filename)
  {
  }

  // ---------------------------------------------------------------------------
  // The request and its handling (app.py:34-76)

  /** A werkzeug FileStorage; its contents are opaque. An absent file name is
      the empty string. */
  datatype Upload = Upload(filename: string)

  /** The parts of the request the handler reads: the `files[]` list, absent
      when the field is missing, and the form fields. */
  datatype Request = Request(files: Option<seq<Upload>>, form: map<string, string>)

  /** One element of `results`: the record of a processed file with its
      `original_filename` added, or the three-key entry built when
      `process_image` raised. */
  datatype Entry =
    | Processed(record: ImageProcessor.Record, originalFilename: string)
    | Crashed(originalFilename: string, error: string)

  /** The handler's answer: a 400 with its message, or the results list. */
  datatype Response = BadRequest(status: nat, error: string) | Results(results: seq<Entry>)

  /** What the handler's environment provides: whether the SDK is importable,
      the environment variables, and oracles for werkzeug's
      `secure_filename`, for the uuid drawn for the file at each position, for
      the libraries each file meets, and for an exception escaping
      `process_image` outside its own try block. */
  datatype Host = Host(
    sdkAvailable: bool,
    environ: map<string, string>,
    secureFilename: string -> string,
    uuid4: nat -> string,
    worlds: nat -> ImageProcessor.World,
    escapes: nat -> Option<string>)

  /** `request.form.get('api_key', os.environ.get('GOOGLE_API_KEY', ''))`:
      a form field wins even when it is empty; the environment is consulted
      only without one; with neither the key is empty. */
  function ApiKey(req: Request, host: Host): (r: string)
    ensures "api_key" in req.form ==> r == req.form["api_key"]
    ensures "api_key" !in req.form && "GOOGLE_API_KEY" in host.environ ==> r == host.environ["GOOGLE_API_KEY"]
    ensures "api_key" !in req.form && "GOOGLE_API_KEY" !in host.environ ==> r == ""
  {
    if "api_key" in req.form then req.form["api_key"]
    else if "GOOGLE_API_KEY" in host.environ then host.environ["GOOGLE_API_KEY"]
    else ""
  }

  /** `request.form.get('prompt', '')`: the form field, or empty without one. */
  function Prompt(req: Request): (r: string)
    ensures "prompt" in req.form ==> r == req.form["prompt"]
    ensures "prompt" !in req.form ==> r == ""
  {
    if "prompt" in req.form then req.form["prompt"] else ""
  }

  /** `file and allowed_file(file.filename)`: a FileStorage is true when it has
      a file name, so an accepted upload has a name with an allowed
      extension. */
  function Accepts(u: Upload): (r: bool)
    ensures r ==> u.filename != "" && '.' in u.filename && HasAllowedExtension(u.filename)
  {
    u.filename != "" && AllowedFile(u.filename)
  }

  /** The sanitised name the results report for the file at position k. */
  function OriginalFilename(files: seq<Upload>, k: nat, host: Host): string
    requires k < |files|
  {
    host.secureFilename(files[k].filename)
  }

  /** Where the file at position k is saved: `uploads/<uuid>_<name>`. */
  function UploadPath(files: seq<Upload>, k: nat, host: Host): (r: string)
    requires k < |files|
    ensures var name := host.uuid4(k) + "_" + OriginalFilename(files, k, host);
            |name| <= |r| && r[|r| - |name|..] == name
    ensures host.uuid4(k) == [] || host.uuid4(k)[0] != '/' ==>
              r == UploadFolder + "/" + host.uuid4(k) + "_" + OriginalFilename(files, k, host)
  {
    var name := host.uuid4(k) + "_" + OriginalFilename(files, k, host);
    JoinKeepsName(UploadFolder, name);
    if host.uuid4(k) == [] || host.uuid4(k)[0] != '/' then
      assert name[0] == (if host.uuid4(k) == [] then '_' else host.uuid4(k)[0]);
      JoinUnder(UploadFolder, name);
      Join(UploadFolder, name)
    else Join(UploadFolder, name)
  }

  /** The entry for the accepted file at position k: it names the file; it is
      the error-only entry exactly when an exception escaped `process_image`;
      otherwise it holds a consistent record. */
  function EntryFor(files: seq<Upload>, k: nat, apiKey: string, prompt: string, host: Host): (r: Entry)
    requires k < |files|
    ensures r.originalFilename == OriginalFilename(files, k, host)
    ensures r.Crashed? <==> host.escapes(k).Some?
    ensures r.Crashed? ==> r.error == host.escapes(k).value
    ensures r.Processed? ==> ImageProcessor.Consistent(r.record)
    ensures r.Processed? ==>
              r.record == ImageProcessor.ProcessSpec(UploadPath(files, k, host), prompt, apiKey, PreprocessedDir,
                                                     GeminiOutputDir, host.sdkAvailable, host.worlds(k))
  {
    var original := OriginalFilename(files, k, host);
    match host.escapes(k)
    case Some(m) => Crashed(original, m)
    case None =>
      Processed(ImageProcessor.ProcessSpec(UploadPath(files, k, host), prompt, apiKey, PreprocessedDir,
                                           GeminiOutputDir, host.sdkAvailable, host.worlds(k)),
                original)
  }

  /** Which files the filter accepts, position by position. */
  function AcceptedMask(files: seq<Upload>): (mask: seq<bool>)
    ensures |mask| == |files|
    ensures forall k :: 0 <= k < |files| ==> mask[k] == Accepts(files[k])
  {
    seq(|files|, k requires 0 <= k < |files| => Accepts(files[k]))
  }

  /** The positions below n that are set in the mask, in increasing order. */
  function Positions(mask: seq<bool>, n: nat): (r: seq<nat>)
    requires n <= |mask|
    ensures |r| <= n
    ensures forall a :: 0 <= a < |r| ==> r[a] < n && mask[r[a]]
  {
    if n == 0 then []
    else
      var r := Positions(mask, n - 1);
      if mask[n - 1] then r + [n - 1] else r
  }

  /** The positions are listed in increasing order, and every set position
      below n is listed. */
  lemma {:induction false} PositionsComplete(mask: seq<bool>, n: nat)
    requires n <= |mask|
    ensures var r := Positions(mask, n);
            && (forall a, b :: 0 <= a < b < |r| ==> r[a] < r[b])
            && (forall k :: 0 <= k < n && mask[k] ==> k in r)
  {
    if n > 0 {
      PositionsComplete(mask, n - 1);
      var r := Positions(mask, n - 1);
      if mask[n - 1] {
        assert Positions(mask, n) == r + [n - 1];
        forall k | 0 <= k < n && mask[k] ensures k in r + [n - 1] {
          if k < n - 1 {
            assert k in r;
          }
        }
      }
    }
  }

  /** The positions among the first n files that the filter accepts, in
      submission order. */
  function AcceptedIndices(files: seq<Upload>, n: nat): seq<nat>
    requires n <= |files|
  {
    Positions(AcceptedMask(files), n)
  }

  /** The elements of xs at the positions below n set in the mask, in order:
      what a loop over the first n positions appends. */
  function Select<T>(mask: seq<bool>, xs: seq<T>, n: nat): seq<T>
    requires |xs| == |mask| && n <= |mask|
  {
    if n == 0 then []
    else Select(mask, xs, n - 1) + (if mask[n - 1] then [xs[n - 1]] else [])
  }

  /** The a-th selected element is the element at the a-th set position. */
  lemma {:induction false} SelectAtPositions<T>(mask: seq<bool>, xs: seq<T>, n: nat)
    requires |xs| == |mask| && n <= |mask|
    ensures var s := Select(mask, xs, n);
            var ix := Positions(mask, n);
            && |s| == |ix|
            && forall a :: 0 <= a < |s| ==> s[a] == xs[ix[a]]
  {
    if n > 0 {
      SelectAtPositions(mask, xs, n - 1);
    }
  }

  /** The entry each file would get if accepted. */
  function AllEntries(files: seq<Upload>, apiKey: string, prompt: string, host: Host): (es: seq<Entry>)
    ensures |es| == |files|
    ensures forall k :: 0 <= k < |files| ==> es[k] == EntryFor(files, k, apiKey, prompt, host)
  {
    seq(|files|, k requires 0 <= k < |files| => EntryFor(files, k, apiKey, prompt, host))
  }

  /** The upload path each file would be saved under if accepted. */
  function AllUploadPaths(files: seq<Upload>, host: Host): (ps: seq<string>)
    ensures |ps| == |files|
    ensures forall k :: 0 <= k < |files| ==> ps[k] == UploadPath(files, k, host)
  {
    seq(|files|, k requires 0 <= k < |files| => UploadPath(files, k, host))
  }

  /** `results` after the loop has visited the first n files. */
  function EntriesUpTo(files: seq<Upload>, n: nat, apiKey: string, prompt: string, host: Host): seq<Entry>
    requires n <= |files|
  {
    Select(AcceptedMask(files), AllEntries(files, apiKey, prompt, host), n)
  }

  /** The upload paths written after the first n files. */
  function SavedUpTo(files: seq<Upload>, n: nat, host: Host): seq<string>
    requires n <= |files|
  {
    Select(AcceptedMask(files), AllUploadPaths(files, host), n)
  }

  /** Visiting one more file appends its entry exactly when it is accepted. */
  lemma EntriesStep(files: seq<Upload>, n: nat, apiKey: string, prompt: string, host: Host)
    requires n < |files|
    ensures EntriesUpTo(files, n + 1, apiKey, prompt, host)
            == EntriesUpTo(files, n, apiKey, prompt, host)
               + (if Accepts(files[n]) then [EntryFor(files, n, apiKey, prompt, host)] else [])
    ensures SavedUpTo(files, n + 1, host)
            == SavedUpTo(files, n, host) + (if Accepts(files[n]) then [UploadPath(files, n, host)] else [])
  {
  }

  /** `results` holds one entry per accepted file, in submission order: its
      a-th entry is the entry of the a-th accepted file, the accepted
      positions being increasing and complete. Rejected files leave no trace,
      so there are never more entries than files. */
  lemma EntriesFollowAcceptedFiles(files: seq<Upload>, n: nat, apiKey: string, prompt: string, host: Host)
    requires n <= |files|
    ensures var es := EntriesUpTo(files, n, apiKey, prompt, host);
            var ix := AcceptedIndices(files, n);
            && |es| == |ix| <= n
            && (forall a :: 0 <= a < |ix| ==> ix[a] < n && Accepts(files[ix[a]]))
            && (forall a, b :: 0 <= a < b < |ix| ==> ix[a] < ix[b])
            && (forall k :: 0 <= k < n && Accepts(files[k]) ==> k in ix)
            && (forall a :: 0 <= a < |es| ==> es[a] == EntryFor(files, ix[a], apiKey, prompt, host))
  {
    var mask := AcceptedMask(files);
    SelectAtPositions(mask, AllEntries(files, apiKey, prompt, host), n);
    PositionsComplete(mask, n);
  }

  /** Every entry names its file, an exception escaping `process_image` gives
      the entry holding only that error, and every processed record is
      consistent. */
  lemma EntriesNameTheirFiles(files: seq<Upload>, apiKey: string, prompt: string, host: Host)
    ensures var es := EntriesUpTo(files, |files|, apiKey, prompt, host);
            var ix := AcceptedIndices(files, |files|);
            && |es| == |ix|
            && forall a :: 0 <= a < |es| ==>
              && ix[a] < |files|
              && es[a].originalFilename == OriginalFilename(files, ix[a], host)
              && (host.escapes(ix[a]).Some? ==> es[a] == Crashed(OriginalFilename(files, ix[a], host), host.escapes(ix[a]).value))
              && (es[a].Processed? ==> ImageProcessor.Consistent(es[a].record))
  {
    SelectAtPositions(AcceptedMask(files), AllEntries(files, apiKey, prompt, host), |files|);
  }

  /** The a-th upload written is the file of the a-th entry, and a processed
      entry records what `process_image` gives for that very file, with the
      request's prompt and key. */
  lemma SavedMatchesEntries(files: seq<Upload>, n: nat, apiKey: string, prompt: string, host: Host)
    requires n <= |files|
    ensures var saved := SavedUpTo(files, n, host);
            var es := EntriesUpTo(files, n, apiKey, prompt, host);
            var ix := AcceptedIndices(files, n);
            && |saved| == |es| == |ix|
            && forall a :: 0 <= a < |saved| ==>
                 && ix[a] < |files|
                 && saved[a] == UploadPath(files, ix[a], host)
                 && (es[a].Processed? ==>
                       es[a].record == ImageProcessor.ProcessSpec(saved[a], prompt, apiKey, PreprocessedDir,
                                                                  GeminiOutputDir, host.sdkAvailable, host.worlds(ix[a])))
  {
    var mask := AcceptedMask(files);
    SelectAtPositions(mask, AllUploadPaths(files, host), n);
    SelectAtPositions(mask, AllEntries(files, apiKey, prompt, host), n);
  }

  /** `process_images`: the request checks in their fixed order, each
      answering 400 before anything is saved, then the loop that saves and
      processes every accepted file. `saved` lists the upload paths written,
      in order. */
  method ProcessImages(req: Request, host: Host) returns (resp: Response, saved: seq<string>)
    ensures resp.BadRequest? ==> resp.status == BadRequestStatus && saved == []
    ensures req.files.None? ==> resp == BadRequest(BadRequestStatus, NoFilesProvided)
    ensures req.files.Some? && ApiKey(req, host) == "" ==>
              resp == BadRequest(BadRequestStatus, ApiKeyRequired)
    ensures req.files.Some? && "api_key" in req.form && req.form["api_key"] == "" ==>
              resp == BadRequest(BadRequestStatus, ApiKeyRequired)
    ensures req.files.Some? && ApiKey(req, host) != "" && |req.files.value| == 0 ==>
              resp == BadRequest(BadRequestStatus, NoFilesSelected)
    ensures req.files.Some? && ApiKey(req, host) != "" && |req.files.value| > MaxFiles ==>
              resp == BadRequest(BadRequestStatus, TooManyFiles)
    ensures req.files.Some? && ApiKey(req, host) != "" && 0 < |req.files.value| <= MaxFiles ==>
              && resp == Results(EntriesUpTo(req.files.value, |req.files.value|, ApiKey(req, host), Prompt(req), host))
              && saved == SavedUpTo(req.files.value, |req.files.value|, host)
  {
    saved := [];
    if req.files.None? {
      return BadRequest(BadRequestStatus, NoFilesProvided), saved;
    }
    var files := req.files.value;
    var prompt := Prompt(req);
    var apiKey := ApiKey(req, host);
    if apiKey == "" {
      return BadRequest(BadRequestStatus, ApiKeyRequired), saved;
    }
    if |files| == 0 {
      return BadRequest(BadRequestStatus, NoFilesSelected), saved;
    }
    if |files| > MaxFiles {
      return BadRequest(BadRequestStatus, TooManyFiles), saved;
    }
    var results: seq<Entry> := [];
    for i := 0 to |files|
      invariant results == EntriesUpTo(files, i, apiKey, prompt, host)
      invariant saved == SavedUpTo(files, i, host)
    {
      EntriesStep(files, i, apiKey, prompt, host);
      if files[i].filename != "" && AllowedFile(files[i].filename) {
        var originalFilename := host.secureFilename(files[i].filename);
        var filePath := Join(UploadFolder, host.uuid4(i) + "_" + originalFilename);
        saved := saved + [filePath];
        var result := ImageProcessor.ProcessImage(filePath, prompt, apiKey, PreprocessedDir,
                                                  GeminiOutputDir, host.sdkAvailable, host.worlds(i));
        match host.escapes(i)
        case Some(m) =>
          results := results + [Crashed(originalFilename, m)];
        case None =>
          results := results + [Processed(result.Snapshot(), originalFilename)];
      }
    }
    return Results(results), saved;
  }
}
