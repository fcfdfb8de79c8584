/**
 * `script_image_to_json`: the order in which the stages run on a page
 * already scaled to A4 height, and how their failures surface. The
 * recogniser is a parameter, a function from the region it is shown to
 * what it returns.
 */
module Pipeline {
  import opened Wrappers
  import opened Layout
  import opened Recognition
  import opened NameTable
  import opened Resolver
  import opened Document

  /** The two images the recogniser is shown. */
  datatype Region =
    | NameColumn(bounds: Bounds) // the name column, colour removed, read with `--psm 4`
    | TitleBand(bounds: Bounds)  // the title strip, read with the default layout

  /**
   * `pytesseract.image_to_string(..., timeout = 3)`: the text, or a
   * `RuntimeError` (a timeout or an engine error), or any other exception.
   */
  datatype OcrResult = Read(text: string) | RuntimeFailure | OtherFailure

  datatype Stage = CharacterNames | ScriptMetadata

  datatype ScanError =
    | UnexpectedLayout(layout: LayoutError)
    | RecognitionTooSlow(stage: Stage)   // the `RuntimeError` re-raised around each recogniser call
    | RecognitionFailed(stage: Stage)    // any other recogniser exception, propagated as it is
    | NameResolution(resolve: ResolveError)

  datatype ScriptData = ScriptData(scriptName: string, author: string, json: string)

  function Recognize(ocr: Region -> OcrResult, region: Region, stage: Stage): Result<string, ScanError> {
    match ocr(region)
    case Read(text) => Ok(text)
    case RuntimeFailure => Err(RecognitionTooSlow(stage))
    case OtherFailure => Err(RecognitionFailed(stage))
  }

  /** `extract_character_names`: crop, recognise, split into lines, resolve. */
  function ExtractCharacterNames(t: Table, width: int, ocr: Region -> OcrResult): Result<seq<string>, ScanError> {
    match CharacterNameBounds(width)
    case Err(e) => Err(UnexpectedLayout(e))
    case Ok(bounds) =>
      match Recognize(ocr, NameColumn(bounds), CharacterNames)
      case Err(e) => Err(e)
      case Ok(raw) =>
        match ResolveAll(t, RecognizedNames(raw))
        case Err(e) => Err(NameResolution(e))
        case Ok(ids) => Ok(ids)
  }

  /** `extract_script_meta_data`: recognise the title band and split it. */
  function ExtractScriptMetadata(width: int, ocr: Region -> OcrResult): Result<(string, string), ScanError> {
    match Recognize(ocr, TitleBand(TitleBounds(width)), ScriptMetadata)
    case Err(e) => Err(e)
    case Ok(raw) => Ok(ParseTitle(raw))
  }

  /** `script_image_to_json` after `normalize_height`: names first, then the title, then the document. */
  function ScriptImageToJson(t: Table, width: int, ocr: Region -> OcrResult): Result<ScriptData, ScanError> {
    match ExtractCharacterNames(t, width, ocr)
    case Err(e) => Err(e)
    case Ok(ids) =>
      match ExtractScriptMetadata(width, ocr)
      case Err(e) => Err(e)
      case Ok((scriptName, author)) => Ok(ScriptData(scriptName, author, Json(ids, scriptName, author)))
  }

  /** A page narrower than 1500 pixels fails before anything is recognised. */
  lemma NarrowPageFails(t: Table, width: int, ocr: Region -> OcrResult)
    requires width < MinimumWidth
    ensures ScriptImageToJson(t, width, ocr) == Err(UnexpectedLayout(TooNarrow(width)))
  {
  }

  /** Any failure of the name stage is the request's failure, whatever the title band holds. */
  lemma NameStageFailsFirst(t: Table, width: int, ocr: Region -> OcrResult, ocr': Region -> OcrResult)
    requires ExtractCharacterNames(t, width, ocr).Err?
    requires forall b :: ocr'(NameColumn(b)) == ocr(NameColumn(b))
    ensures ScriptImageToJson(t, width, ocr') == Err(ExtractCharacterNames(t, width, ocr).error)
  {
    assert ExtractCharacterNames(t, width, ocr') == ExtractCharacterNames(t, width, ocr);
  }

  /**
   * A successful scan: the page is wide enough, both regions were read,
   * every recognised name resolved, and the document holds the resolved
   * ids in line order under the parsed title, with no line break in it.
   */
  lemma SuccessfulScan(t: Table, width: int, ocr: Region -> OcrResult)
    requires ScriptImageToJson(t, width, ocr).Ok?
    ensures width >= MinimumWidth
    ensures var column := NameColumn(CharacterNameBounds(width).value);
      var title := TitleBand(TitleBounds(width));
      var out := ScriptImageToJson(t, width, ocr).value;
      && ocr(column).Read? && ocr(title).Read?
      && ResolveAll(t, RecognizedNames(ocr(column).text)).Ok?
      && var ids := ResolveAll(t, RecognizedNames(ocr(column).text)).value;
      && |ids| == |RecognizedNames(ocr(column).text)|
      && (out.scriptName, out.author) == ParseTitle(ocr(title).text)
      && out.json == Json(ids, out.scriptName, out.author)
      && '\n' !in out.json && '\r' !in out.json
  {
    var out := ScriptImageToJson(t, width, ocr).value;
    var ids := ExtractCharacterNames(t, width, ocr).value;
    JsonHasNoLineBreaks(ids, out.scriptName, out.author);
  }

  /**
   * The converse of `SuccessfulScan`: when the page is wide enough, both
   * regions are read and every recognised name resolves, the request
   * succeeds with the document of those ids under the parsed title.
   */
  lemma ScanSucceedsWhenStagesDo(t: Table, width: int, ocr: Region -> OcrResult)
    requires width >= MinimumWidth
    requires ocr(NameColumn(CharacterNameBounds(width).value)).Read?
    requires ResolveAll(t, RecognizedNames(ocr(NameColumn(CharacterNameBounds(width).value)).text)).Ok?
    requires ocr(TitleBand(TitleBounds(width))).Read?
    ensures var ids := ResolveAll(t, RecognizedNames(ocr(NameColumn(CharacterNameBounds(width).value)).text)).value;
      var title := ParseTitle(ocr(TitleBand(TitleBounds(width))).text);
      ScriptImageToJson(t, width, ocr) == Ok(ScriptData(title.0, title.1, Json(ids, title.0, title.1)))
  {
  }

  /** A recogniser error on the name column is re-raised as "took too long" or propagated. */
  lemma NameRecognitionFails(t: Table, width: int, ocr: Region -> OcrResult)
    requires width >= MinimumWidth
    ensures var column := NameColumn(CharacterNameBounds(width).value);
      && (ocr(column).RuntimeFailure? ==> ScriptImageToJson(t, width, ocr) == Err(RecognitionTooSlow(CharacterNames)))
      && (ocr(column).OtherFailure? ==> ScriptImageToJson(t, width, ocr) == Err(RecognitionFailed(CharacterNames)))
  {
  }

  /** A recognised name that does not resolve fails the request with the first such name's error. */
  lemma NameResolutionFails(t: Table, width: int, ocr: Region -> OcrResult)
    requires width >= MinimumWidth
    requires ocr(NameColumn(CharacterNameBounds(width).value)).Read?
    requires ResolveAll(t, RecognizedNames(ocr(NameColumn(CharacterNameBounds(width).value)).text)).Err?
    ensures var names := RecognizedNames(ocr(NameColumn(CharacterNameBounds(width).value)).text);
      && ScriptImageToJson(t, width, ocr) == Err(NameResolution(ResolveAll(t, names).error))
      && exists i :: 0 <= i < |names| && ResolveName(t, names[i]) == Err(ResolveAll(t, names).error)
  {
  }

  /** Once the names are resolved, a recogniser error on the title band is the request's failure. */
  lemma TitleRecognitionFails(t: Table, width: int, ocr: Region -> OcrResult)
    requires ExtractCharacterNames(t, width, ocr).Ok?
    ensures var title := TitleBand(TitleBounds(width));
      && (ocr(title).RuntimeFailure? ==> ScriptImageToJson(t, width, ocr) == Err(RecognitionTooSlow(ScriptMetadata)))
      && (ocr(title).OtherFailure? ==> ScriptImageToJson(t, width, ocr) == Err(RecognitionFailed(ScriptMetadata)))
  {
  }

  /** With a table loaded from a file, a successful scan lists only non-empty canonical ids. */
  lemma ScannedIdsAreNonEmpty(lines: seq<string>, width: int, ocr: Region -> OcrResult)
    requires ExtractCharacterNames(LoadLines([], lines), width, ocr).Ok?
    ensures forall id :: id in ExtractCharacterNames(LoadLines([], lines), width, ocr).value ==> id != []
  {
    var t := LoadLines([], lines);
    var b := CharacterNameBounds(width).value;
    var names := RecognizedNames(ocr(NameColumn(b)).text);
    ResolvedIdsAreTableValues(t, names);
    LoadedEntriesAreNonEmpty(lines);
  }
}
