/** The per-image enhancement pipeline: best-effort denoising and background
    removal, the generative edit call, and the result record `process_image`
    fills in stage by stage.

    Pixels, PIL, OpenCV, rembg and the remote model are not modelled: every
    library call is an oracle that yields its value or the exception it
    raises. */
module ImageProcessor {
  import opened Common
  import opened PosixPath

  /** The name of a PIL mode other than the three the pipeline tests for
      ("L", "CMYK", ...). */
  type OtherModeName = s: string | s != "RGB" && s != "RGBA" && s != "P" witness "L"

  /** The PIL image modes the pipeline tests for, and all others. */
  datatype Mode = RGB | RGBA | P | OtherMode(name: OtherModeName)

  /** A PIL image; its pixels are opaque, `id` tells images apart. */
  datatype Image = Image(id: nat, mode: Mode)

  /** The `bg_color` tuple of `remove_background_rembg`. */
  datatype Rgba = Rgba(r: int, g: int, b: int, a: int)

  /** A solid canvas colour, `bg_color[:3]`. */
  datatype Rgb = Rgb(r: int, g: int, b: int)

  const White := Rgb(255, 255, 255)
  const TransparentWhite := Rgba(255, 255, 255, 0)
  const GeminiModelName := "gemini-2.0-flash-exp-image-generation"

  /** Messages the pipeline records or raises itself. */
  const GeminiErrorPrefix := "Gemini API error: "
  const EditingFailed := "Gemini editing failed"
  const SdkOrKeyMissing := "SDK or API key missing"
  /** `str()` of the IndexError raised by `response.candidates[0]` on an empty list. */
  const IndexOutOfRange := "list index out of range"

  /** The library calls the pipeline makes, each with its outcome. */
  datatype Library = Library(
    openImage: string -> Try<Image>,        // Image.open(path)
    convertRgb: Image -> Try<Image>,        // image.convert('RGB')
    blur: Image -> Try<Image>,              // to a BGR array, 5x5 Gaussian blur, back to an RGB image
    segment: Image -> Try<Image>,           // rembg remove(image)
    composite: (Image, Rgb) -> Try<Image>,  // a new RGB canvas of the colour, image pasted through its alpha
    save: (Image, string) -> Try<()>,       // image.save(path)
    decode: seq<bv8> -> Try<Image>          // Image.open(BytesIO(data))
  )

  /** An inline-data blob of a response part; absent data is the empty sequence. */
  datatype Blob = Blob(data: seq<bv8>)

  /** A content part of a response: text parts have no inline data. */
  datatype Part = Part(inlineData: Option<Blob>)

  /** A model response: the content parts of each candidate, in order. */
  datatype Response = Response(candidates: seq<seq<Part>>)

  /** What the client sends: the key it was built with, the model, the prompt
      and the RGB image. */
  datatype GenerateRequest = GenerateRequest(apiKey: string, model: string, prompt: string, image: Image)

  /** Everything outside the pipeline's own code that one image meets: the
      local libraries, the construction of the SDK client from a key, and the
      remote `generate_content` call. */
  datatype World = World(lib: Library, client: string -> Try<()>,
                         generate: GenerateRequest -> Try<Response>)

  // ---------------------------------------------------------------------------
  // Best-effort preprocessing stages (image_processor.py:28-52)

  /** `reduce_noise_cv`: palette and RGBA images are first converted to RGB,
      then blurred. Denoising never raises: a failure returns the image held
      at that moment, which is the converted one when the conversion already
      succeeded. */
  function ReduceNoise(image: Image, lib: Library): (r: Image)
    ensures image.mode != RGBA && image.mode != P ==>
              r == (if lib.blur(image).Ok? then lib.blur(image).value else image)
    ensures (image.mode == RGBA || image.mode == P) && lib.convertRgb(image).Raise? ==> r == image
    ensures (image.mode == RGBA || image.mode == P) && lib.convertRgb(image).Ok? ==>
              var converted := lib.convertRgb(image).value;
              r == (if lib.blur(converted).Ok? then lib.blur(converted).value else converted)
  {
    if image.mode == RGBA || image.mode == P then
      match lib.convertRgb(image)
      case Raise(_) => image
      case Ok(converted) =>
        match lib.blur(converted)
        case Ok(blurred) => blurred
        case Raise(_) => converted
    else
      match lib.blur(image)
      case Ok(blurred) => blurred
      case Raise(_) => image
  }

  /** `remove_background_rembg`: a fully transparent `bg_color` returns the
      segmentation output as it is; otherwise the output is composited onto a
      canvas of the colour. Background removal never raises: a failure
      anywhere returns the input. */
  function RemoveBackground(image: Image, bgColor: Rgba, lib: Library): (r: Image)
    ensures lib.segment(image).Raise? ==> r == image
    ensures lib.segment(image).Ok? && bgColor.a == 0 ==> r == lib.segment(image).value
    ensures lib.segment(image).Ok? && bgColor.a != 0 ==>
              var flat := lib.composite(lib.segment(image).value, Rgb(bgColor.r, bgColor.g, bgColor.b));
              r == (if flat.Ok? then flat.value else image)
  {
    match lib.segment(image)
    case Raise(_) => image
    case Ok(cutout) =>
      if bgColor.a == 0 then cutout
      else
        match lib.composite(cutout, Rgb(bgColor.r, bgColor.g, bgColor.b))
        case Ok(flat) => flat
        case Raise(_) => image
  }

  // ---------------------------------------------------------------------------
  // Generative edit stage (image_processor.py:54-83)

  /** `part.inline_data and part.inline_data.data`. */
  predicate Carries(part: Part)
  {
    part.inlineData.Some? && |part.inlineData.value.data| > 0
  }

  /** The index of the first part that carries inline data. */
  function FirstInline(parts: seq<Part>): (r: Option<nat>)
    ensures r.None? <==> forall j :: 0 <= j < |parts| ==> !Carries(parts[j])
    ensures r.Some? ==> r.value < |parts| && Carries(parts[r.value]) &&
                        forall j :: 0 <= j < r.value ==> !Carries(parts[j])
  {
    if |parts| == 0 then None
    else if Carries(parts[0]) then Some(0)
    else
      match FirstInline(parts[1..])
      case None => None
      case Some(k) => Some(k + 1)
  }

  /** The image sent to the model: only RGBA is flattened, onto white;
      every other mode is converted to RGB. */
  function ImageToSend(image: Image, lib: Library): (r: Try<Image>)
    ensures image.mode == RGBA ==> r == lib.composite(image, White)
    ensures image.mode != RGBA ==> r == lib.convertRgb(image)
  {
    if image.mode == RGBA then lib.composite(image, White) else lib.convertRgb(image)
  }

  /** `call_gemini_image_editing`, as a value: the guard, under which
      neither the client nor the service is consulted; then, inside the try
      block, the client, the image conversion, the call, the scan of the
      first candidate and the decoding, any exception of which is re-raised
      under the fixed prefix. */
  function GeminiEdit(sdkAvailable: bool, apiKey: string, model: string, prompt: string,
                      input: Option<Image>, w: World): (r: Try<Option<Image>>)
    ensures !sdkAvailable || input.None? ==> r == Ok(None)
    ensures r.Raise? ==> GeminiErrorPrefix <= r.message
    ensures sdkAvailable && input.Some? && w.client(apiKey).Raise? ==>
              r == Raise(GeminiErrorPrefix + w.client(apiKey).message)
    ensures sdkAvailable && input.Some? && w.client(apiKey).Ok? && ImageToSend(input.value, w.lib).Raise? ==>
              r == Raise(GeminiErrorPrefix + ImageToSend(input.value, w.lib).message)
    ensures sdkAvailable && input.Some? && w.client(apiKey).Ok? && ImageToSend(input.value, w.lib).Ok? ==>
              var answer := w.generate(GenerateRequest(apiKey, model, prompt, ImageToSend(input.value, w.lib).value));
              && (answer.Raise? ==> r == Raise(GeminiErrorPrefix + answer.message))
              && (answer.Ok? && |answer.value.candidates| == 0 ==> r == Raise(GeminiErrorPrefix + IndexOutOfRange))
  {
    if !sdkAvailable || input.None? then Ok(None)
    else
      match w.client(apiKey)
      case Raise(m) => Raise(GeminiErrorPrefix + m)
      case Ok(_) =>
        match ImageToSend(input.value, w.lib)
        case Raise(m) => Raise(GeminiErrorPrefix + m)
        case Ok(sent) =>
          match w.generate(GenerateRequest(apiKey, model, prompt, sent))
          case Raise(m) => Raise(GeminiErrorPrefix + m)
          case Ok(response) =>
            if |response.candidates| == 0 then Raise(GeminiErrorPrefix + IndexOutOfRange)
            else
              var parts := response.candidates[0];
              match FirstInline(parts)
              case None => Ok(None)
              case Some(k) =>
                match w.lib.decode(parts[k].inlineData.value.data)
                case Raise(m) => Raise(GeminiErrorPrefix + m)
                case Ok(edited) => Ok(Some(edited))
  }

  /** `call_gemini_image_editing`: the guard, the call, a scan of the first
      candidate's parts that returns at the first one carrying inline data,
      and the wrapping of every exception. */
  method CallGeminiImageEditing(sdkAvailable: bool, apiKey: string, model: string, prompt: string,
                                input: Option<Image>, w: World) returns (r: Try<Option<Image>>)
    ensures r == GeminiEdit(sdkAvailable, apiKey, model, prompt, input, w)
  {
    if !sdkAvailable || input.None? {
      return Ok(None);
    }
    var client := w.client(apiKey);
    if client.Raise? {
      return Raise(GeminiErrorPrefix + client.message);
    }
    var sent := ImageToSend(input.value, w.lib);
    if sent.Raise? {
      return Raise(GeminiErrorPrefix + sent.message);
    }
    var response := w.generate(GenerateRequest(apiKey, model, prompt, sent.value));
    if response.Raise? {
      return Raise(GeminiErrorPrefix + response.message);
    }
    if |response.value.candidates| == 0 {
      return Raise(GeminiErrorPrefix + IndexOutOfRange);
    }
    var parts := response.value.candidates[0];
    for i := 0 to |parts|
      invariant forall j :: 0 <= j < i ==> !Carries(parts[j])
    {
      if Carries(parts[i]) {
        var decoded := w.lib.decode(parts[i].inlineData.value.data);
        if decoded.Raise? {
          return Raise(GeminiErrorPrefix + decoded.message);
        }
        return Ok(Some(decoded.value));
      }
    }
    return Ok(None);
  }

  /** Once the model has answered, the edit yields the decoded image of the
      first part carrying inline data, and None exactly when no part of the
      first candidate carries any. */
  lemma GeminiEditScansFirstCandidate(apiKey: string, model: string, prompt: string,
                                      image: Image, w: World, response: Response)
    requires w.client(apiKey).Ok?
    requires ImageToSend(image, w.lib).Ok?
    requires w.generate(GenerateRequest(apiKey, model, prompt, ImageToSend(image, w.lib).value)) == Ok(response)
    requires |response.candidates| > 0
    ensures var r := GeminiEdit(true, apiKey, model, prompt, Some(image), w);
            var parts := response.candidates[0];
            && (r == Ok(None) <==> forall j :: 0 <= j < |parts| ==> !Carries(parts[j]))
            && (forall k :: (0 <= k < |parts| && Carries(parts[k]) &&
                             forall j :: 0 <= j < k ==> !Carries(parts[j])) ==>
                  r == match w.lib.decode(parts[k].inlineData.value.data)
                       case Ok(edited) => Ok(Some(edited))
                       case Raise(m) => Raise(GeminiErrorPrefix + m))
  {
  }

  // ---------------------------------------------------------------------------
  // The per-image result record (image_processor.py:85-130)

  /** The result dictionary as the caller finally sees it (its timing left
      out). */
  datatype Record = Record(success: bool, preprocessedPath: Option<string>,
                           geminiPath: Option<string>, error: Option<string>)

  /** The artifact file names derived from the base name. */
  function PreName(base: string): string { base + "_pre.png" }
  function GeminiName(base: string): string { base + "_gemini.png" }

  /** The relative artifact paths a record reports for a base name. */
  function PreRelPath(base: string): string { Join("preprocessed", PreName(base)) }
  function GeminiRelPath(base: string): string { Join("gemini_edited", GeminiName(base)) }

  /** For a base name without '/', as every stem is, the reported paths are
      the base name under the two fixed directory names. */
  lemma ArtifactPaths(base: string)
    requires '/' !in base
    ensures PreRelPath(base) == "preprocessed/" + base + "_pre.png"
    ensures GeminiRelPath(base) == "gemini_edited/" + base + "_gemini.png"
  {
    NamedUnder("preprocessed", base, "_pre.png");
    NamedUnder("gemini_edited", base, "_gemini.png");
  }

  /** A base without '/' and a suffix that does not start with '/' are joined
      under a directory with exactly one separator. */
  lemma NamedUnder(dir: string, base: string, suffix: string)
    requires dir != [] && dir[|dir| - 1] != '/'
    requires '/' !in base
    requires suffix != [] && suffix[0] != '/'
    ensures Join(dir, base + suffix) == dir + "/" + base + suffix
  {
    var name := base + suffix;
    if base != [] {
      assert name[0] == base[0];
    }
    JoinUnder(dir, name);
  }

  /** The invariant every finished record keeps: it succeeded exactly when
      the final artifact exists and exactly when no error was recorded, and
      a success implies the intermediate artifact exists. */
  predicate Consistent(r: Record)
  {
    && (r.success <==> r.geminiPath.Some?)
    && (r.success <==> r.error.None?)
    && (r.success ==> r.preprocessedPath.Some?)
  }

  /** The image the pipeline saves as its intermediate artifact: the input
      denoised, then with its background removed against a transparent white.
      Since that colour is fully transparent, the artifact is the raw
      segmentation output of the denoised image, or the denoised image itself
      when segmentation fails. */
  function Preprocessed(image: Image, lib: Library): (r: Image)
    ensures var denoised := ReduceNoise(image, lib);
            r == (if lib.segment(denoised).Ok? then lib.segment(denoised).value else denoised)
  {
    RemoveBackground(ReduceNoise(image, lib), TransparentWhite, lib)
  }

  /** What `process_image` records for one image, stage by stage: open,
      denoise, remove the background, save the intermediate artifact, check
      the SDK and key, edit, save the final artifact. An exception at any
      stage ends the run with its message as the error. */
  function ProcessSpec(imagePath: string, prompt: string, apiKey: string, preprocessedDir: string,
                       geminiOutputDir: string, sdkAvailable: bool, w: World): (r: Record)
    ensures Consistent(r)
    ensures r.preprocessedPath.Some? ==> r.preprocessedPath.value == "preprocessed/" + Stem(imagePath) + "_pre.png"
    ensures r.geminiPath.Some? ==> r.geminiPath.value == "gemini_edited/" + Stem(imagePath) + "_gemini.png"
  {
    var base := Stem(imagePath);
    ArtifactPaths(base);
    match w.lib.openImage(imagePath)
    case Raise(m) => Record(false, None, None, Some(m))
    case Ok(image) =>
      var preprocessed := Preprocessed(image, w.lib);
      match w.lib.save(preprocessed, Join(preprocessedDir, PreName(base)))
      case Raise(m) => Record(false, None, None, Some(m))
      case Ok(_) =>
        var prePath := Some(PreRelPath(base));
        if !(sdkAvailable && apiKey != "") then Record(false, prePath, None, Some(SdkOrKeyMissing))
        else
          match GeminiEdit(sdkAvailable, apiKey, GeminiModelName, prompt, Some(preprocessed), w)
          case Raise(m) => Record(false, prePath, None, Some(m))
          case Ok(None) => Record(false, prePath, None, Some(EditingFailed))
          case Ok(Some(edited)) =>
            match w.lib.save(edited, Join(geminiOutputDir, GeminiName(base)))
            case Raise(m) => Record(false, prePath, None, Some(m))
            case Ok(_) => Record(true, prePath, Some(GeminiRelPath(base)), None)
  }

  /** True when opening the input and saving the intermediate artifact both
      succeed. */
  predicate PreprocessingSaved(imagePath: string, preprocessedDir: string, w: World)
  {
    && w.lib.openImage(imagePath).Ok?
    && w.lib.save(Preprocessed(w.lib.openImage(imagePath).value, w.lib),
                  Join(preprocessedDir, PreName(Stem(imagePath)))).Ok?
  }

  /** Once the intermediate artifact is saved, it is reported whatever
      happens afterwards. */
  lemma SavedKeepsPrePath(imagePath: string, prompt: string, apiKey: string, preprocessedDir: string,
                          geminiOutputDir: string, sdkAvailable: bool, w: World)
    requires PreprocessingSaved(imagePath, preprocessedDir, w)
    ensures ProcessSpec(imagePath, prompt, apiKey, preprocessedDir, geminiOutputDir, sdkAvailable, w).preprocessedPath
            == Some(PreRelPath(Stem(imagePath)))
  {
    var r := ProcessSpec(imagePath, prompt, apiKey, preprocessedDir, geminiOutputDir, sdkAvailable, w);
    var pre := Preprocessed(w.lib.openImage(imagePath).value, w.lib);
    if sdkAvailable && apiKey != "" {
      match GeminiEdit(sdkAvailable, apiKey, GeminiModelName, prompt, Some(pre), w)
      case Raise(_) =>
      case Ok(None) =>
      case Ok(Some(_)) =>
    }
  }

  /** The intermediate artifact is reported exactly when it was saved. */
  lemma PrePathIffSaved(imagePath: string, prompt: string, apiKey: string, preprocessedDir: string,
                        geminiOutputDir: string, sdkAvailable: bool, w: World)
    ensures ProcessSpec(imagePath, prompt, apiKey, preprocessedDir, geminiOutputDir, sdkAvailable, w).preprocessedPath.Some?
            <==> PreprocessingSaved(imagePath, preprocessedDir, w)
  {
    if PreprocessingSaved(imagePath, preprocessedDir, w) {
      SavedKeepsPrePath(imagePath, prompt, apiKey, preprocessedDir, geminiOutputDir, sdkAvailable, w);
    } else {
      EarlyExceptionRecorded(imagePath, prompt, apiKey, preprocessedDir, geminiOutputDir, sdkAvailable, w);
    }
  }

  /** An exception from opening the input or from saving the intermediate
      artifact ends the run with its own message as the error, no success and
      no artifact reported. */
  lemma EarlyExceptionRecorded(imagePath: string, prompt: string, apiKey: string, preprocessedDir: string,
                               geminiOutputDir: string, sdkAvailable: bool, w: World)
    ensures var r := ProcessSpec(imagePath, prompt, apiKey, preprocessedDir, geminiOutputDir, sdkAvailable, w);
            var loaded := w.lib.openImage(imagePath);
            && (loaded.Raise? ==> r == Record(false, None, None, Some(loaded.message)))
            && (loaded.Ok? ==>
                  var saved := w.lib.save(Preprocessed(loaded.value, w.lib),
                                          Join(preprocessedDir, PreName(Stem(imagePath))));
                  saved.Raise? ==> r == Record(false, None, None, Some(saved.message)))
  {
  }

  /** Without the SDK or with an empty key the edit is skipped whatever the
      client and the service would do, the error says so, and the
      intermediate artifact is still reported when it was saved. */
  lemma MissingSdkOrKeySkipsEdit(imagePath: string, prompt: string, apiKey: string, preprocessedDir: string,
                                 geminiOutputDir: string, sdkAvailable: bool, w1: World, w2: World)
    requires !sdkAvailable || apiKey == ""
    requires w1.lib == w2.lib
    requires PreprocessingSaved(imagePath, preprocessedDir, w1)
    ensures var r := ProcessSpec(imagePath, prompt, apiKey, preprocessedDir, geminiOutputDir, sdkAvailable, w1);
            && r == ProcessSpec(imagePath, prompt, apiKey, preprocessedDir, geminiOutputDir, sdkAvailable, w2)
            && r == Record(false, Some(PreRelPath(Stem(imagePath))), None, Some(SdkOrKeyMissing))
  {
  }

  /** An edit that yields no image records "Gemini editing failed", keeps the
      intermediate artifact and reports no final one. */
  lemma EditWithoutImageFails(imagePath: string, prompt: string, apiKey: string, preprocessedDir: string,
                              geminiOutputDir: string, w: World)
    requires apiKey != ""
    requires PreprocessingSaved(imagePath, preprocessedDir, w)
    requires GeminiEdit(true, apiKey, GeminiModelName, prompt,
                        Some(Preprocessed(w.lib.openImage(imagePath).value, w.lib)), w) == Ok(None)
    ensures ProcessSpec(imagePath, prompt, apiKey, preprocessedDir, geminiOutputDir, true, w)
            == Record(false, Some(PreRelPath(Stem(imagePath))), None, Some(EditingFailed))
  {
  }

  /** An exception raised after the intermediate artifact was saved (by the
      edit or by saving the final artifact) becomes the error, and the
      intermediate artifact stays reported. */
  lemma LateExceptionKeepsPrePath(imagePath: string, prompt: string, apiKey: string, preprocessedDir: string,
                                  geminiOutputDir: string, w: World)
    requires apiKey != ""
    requires PreprocessingSaved(imagePath, preprocessedDir, w)
    ensures var pre := Preprocessed(w.lib.openImage(imagePath).value, w.lib);
            var edit := GeminiEdit(true, apiKey, GeminiModelName, prompt, Some(pre), w);
            var r := ProcessSpec(imagePath, prompt, apiKey, preprocessedDir, geminiOutputDir, true, w);
            && (edit.Raise? ==> r == Record(false, Some(PreRelPath(Stem(imagePath))), None, Some(edit.message)))
            && (edit.Ok? && edit.value.Some? ==>
                  var saved := w.lib.save(edit.value.value, Join(geminiOutputDir, GeminiName(Stem(imagePath))));
                  saved.Raise? ==> r == Record(false, Some(PreRelPath(Stem(imagePath))), None, Some(saved.message)))
  {
  }

  /** When every stage succeeds the record reports success and both
      artifacts. */
  lemma AllStagesSucceed(imagePath: string, prompt: string, apiKey: string, preprocessedDir: string,
                         geminiOutputDir: string, w: World, edited: Image)
    requires apiKey != ""
    requires PreprocessingSaved(imagePath, preprocessedDir, w)
    requires GeminiEdit(true, apiKey, GeminiModelName, prompt,
                        Some(Preprocessed(w.lib.openImage(imagePath).value, w.lib)), w) == Ok(Some(edited))
    requires w.lib.save(edited, Join(geminiOutputDir, GeminiName(Stem(imagePath)))).Ok?
    ensures ProcessSpec(imagePath, prompt, apiKey, preprocessedDir, geminiOutputDir, true, w)
            == Record(true, Some(PreRelPath(Stem(imagePath))), Some(GeminiRelPath(Stem(imagePath))), None)
  {
  }

  /** The `result` dictionary that `process_image` builds and updates in
      place. */
  class ProcessingResult {
    var success: bool
    var preprocessedPath: Option<string>
    var geminiPath: Option<string>
    var error: Option<string>

    /** The initial dictionary: no success, no paths, no error. */
    constructor ()
      ensures Snapshot() == Record(false, None, None, None)
    {
      success := false;
      preprocessedPath := None;
      geminiPath := None;
      error := None;
    }

    /** The record's current contents as a value. */
    function Snapshot(): Record
      reads this
    {
      Record(success, preprocessedPath, geminiPath, error)
    }
  }

  /** `process_image`: creates the result record and fills it in as the
      stages complete; an exception at any stage records its message and ends
      the run. */
  method ProcessImage(imagePath: string, prompt: string, apiKey: string, preprocessedDir: string,
                      geminiOutputDir: string, sdkAvailable: bool, w: World) returns (result: ProcessingResult)
    ensures fresh(result)
    ensures result.Snapshot() == ProcessSpec(imagePath, prompt, apiKey, preprocessedDir, geminiOutputDir, sdkAvailable, w)
    ensures Consistent(result.Snapshot())
  {
    result := new ProcessingResult();
    var base := Stem(imagePath);
    var loaded := w.lib.openImage(imagePath);
    if loaded.Raise? {
      result.error := Some(loaded.message);
      return;
    }
    var bgRemoved := Preprocessed(loaded.value, w.lib);
    var preSaved := w.lib.save(bgRemoved, Join(preprocessedDir, PreName(base)));
    if preSaved.Raise? {
      result.error := Some(preSaved.message);
      return;
    }
    result.preprocessedPath := Some(Join("preprocessed", PreName(base)));
    if sdkAvailable && apiKey != "" {
      var edited := CallGeminiImageEditing(sdkAvailable, apiKey, GeminiModelName, prompt, Some(bgRemoved), w);
      if edited.Raise? {
        result.error := Some(edited.message);
        return;
      }
      if edited.value.Some? {
        var finalSaved := w.lib.save(edited.value.value, Join(geminiOutputDir, GeminiName(base)));
        if finalSaved.Raise? {
          result.error := Some(finalSaved.message);
          return;
        }
        result.geminiPath := Some(Join("gemini_edited", GeminiName(base)));
        result.success := true;
      } else {
        result.error := Some(EditingFailed);
      }
    } else {
      result.error := Some(SdkOrKeyMissing);
    }
  }
}
