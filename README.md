# Script scanner model

A Dafny model of the text and arithmetic core of the script scanner. The
scanner is a chat bot. It takes a photographed or scanned script sheet for
the game *Blood on the Clocktower* and turns the printed roster into the
game's JSON script format. The model covers these pieces:

- **Character table.** The two-column, tab-separated file is parsed into an
  insertion-ordered dictionary from display name to canonical id
  (`NameTable`). The process-wide dictionary is the class
  `Characters.CharacterMapping`, which is filled by a loop.
- **Colour mask.** Coloured pixels are whitened before recognition
  (`Chroma`). `RemoveColor` keeps the 8-bit wrap-around of the code, and
  `RemoveColorIntended` uses the absolute differences the code's comments
  describe (see Findings).
- **Crop bounds.** The name column and the title band are located, and pages
  narrower than 1500 pixels are rejected (`Layout`).
- **Name resolution.** A recognised name goes to its canonical id by exact
  lookup, or else by the first closest key within Levenshtein distance 3.
  One failure fails the whole list (`Resolver`). `EditDistance` holds the
  reference definition of the distance and a dynamic-programming method
  proved equal to it.
- **Text handling.** The recogniser's text is post-processed into name lines
  and into a script name and author (`Recognition`). This uses Python's
  `strip`, `split`, `split(sep, 1)` and `replace`, as modelled in `Text`.
- **Document.** The JSON document is concatenated by hand and then has its
  line breaks removed (`Document`). A reader for documents with plain fields
  is proved to invert it.
- **Pipeline.** The stages run in a fixed order and each failure surfaces in
  a known way (`Pipeline`). `Scenarios` has worked examples of all of this,
  proved on concrete inputs.

The recogniser (Tesseract) is a parameter of type `Region -> OcrResult`. It
gives back either text, a `RuntimeError` (a timeout or an engine error,
which the scanner re-raises as "took too long"), or some other exception.
The greyscale conversion is a parameter of type `Pixel -> Byte`.

In three places the code does something other than what a reader of its
names and comments might expect. The model follows the code each time:

- The crop margin is `int((width - 2100) * 0.5)`, which truncates toward
  zero. It is not rounded (`Layout.HalfTowardZero`).
- When the title has no "by", the script name is the recognised text as it
  came back, with its whitespace and trailing newline. It is not trimmed.
- Recognised name lines are kept verbatim, padding included. Only the lines
  that are entirely blank are dropped.

## Model

| member | source | states |
|---|---|---|
| NameTable.ParseLine | script_scanner.py:24-28 | A line is kept exactly when its stripped text has exactly one tab. The key and the id are the text before and after that tab, and neither contains a tab. |
| NameTable.ParsedColumnsAreNonEmpty | script_scanner.py:24-27 | A kept line has a non-empty key and a non-empty id. The key does not start with whitespace and the id does not end with it. |
| NameTable.Put | script_scanner.py:28 | Dictionary assignment. The key now maps to the new value and every other key's lookup is unchanged. An existing key keeps its position and a new key goes last. Distinct keys stay distinct. |
| NameTable.IndexOf | script_scanner.py:78 | The position found holds the key and no earlier entry does. No position means the key is absent. |
| NameTable.Get | script_scanner.py:78 | `dict.get`: a value comes back exactly when the key is present. `NameTable.GetEntry` says which value. |
| NameTable.GetEntry | script_scanner.py:78 | In a table with distinct keys, looking up an entry's key gives that entry's id. |
| NameTable.LoadLines | script_scanner.py:23-28 | The loop of `load_character_mapping` as a fold over the lines: each parsed line is assigned into the dictionary. Its properties are the `LoadLines` lemmas below. |
| NameTable.LoadLinesValid | script_scanner.py:23-28 | Loading lines keeps every key unique. |
| NameTable.LoadLinesUntouched | script_scanner.py:23-28 | A key that no line sets keeps its old lookup result. |
| NameTable.LoadLinesLastDefinition | script_scanner.py:23-28 | A key set by several lines holds the id of the last of them. |
| NameTable.LoadLinesKeepsPositions | script_scanner.py:23-28 | The keys loaded from a prefix of the file are a prefix of the final key order, so later lines never move a key. |
| NameTable.FirstDefinitionFixesPosition | script_scanner.py:23-28 | A key sits where the table ended when the key was first set. A later duplicate overwrites the id but not the position. |
| NameTable.LoadedEntriesAreNonEmpty | script_scanner.py:24-28 | Every key and every id loaded from a file is non-empty. |
| Characters.CharacterMapping.constructor | script_scanner.py:15 | The dictionary starts empty. |
| Characters.CharacterMapping.Load | script_scanner.py:22-28 | The line loop leaves the same dictionary as the fold `NameTable.LoadLines`, and it keeps keys unique. |
| Characters.CharacterMapping.MapScannedNames | script_scanner.py:76-95 | The loop with early `continue` and `raise` returns exactly `Resolver.ResolveAll` of the current dictionary. |
| Characters.CharacterMapping.ClosestKey | script_scanner.py:86-87 | The `min` over the keys returns the first closest key, as `Resolver.Closest` says, together with its distance. |
| Characters.ClosestStep | script_scanner.py:87 | A later key replaces the best so far only when it is strictly closer. |
| Characters.FirstFailure | script_scanner.py:93 | When every name before position n resolves and name n does not, the whole call fails with name n's error. |
| Resolver.Closest | script_scanner.py:86-87 | The result is the first key of least edit distance: no key is closer, and every key before it is farther. |
| Resolver.ResolveName | script_scanner.py:78-93 | One name: the exact lookup, else the first closest key if it is within 3. Every error carries the name; the error is `EmptyTable` exactly when the table is empty, and a `NoCloseMatch` distance exceeds 3. The success cases are `Resolver.ExactNameResolves` and `Resolver.FuzzyResolution`. |
| Resolver.MapAll | script_scanner.py:77-95 | The loop that stops at the first failure: it succeeds exactly when every element does, keeps length and order, and otherwise fails with the first failing element's error. |
| Resolver.ResolveAll | script_scanner.py:76-95 | Succeeds exactly when every name resolves. On success the ids have the input's length and order. Otherwise the error is that of the first failing name, and all names before it resolve. |
| Resolver.ExactNameResolves | script_scanner.py:78-83 | A name that is a key gets that key's id, with no fuzzy step. |
| Resolver.FuzzyResolution | script_scanner.py:85-93 | A name that is not a key resolves exactly when some key is within distance 3. It then gets the id of the first closest key. |
| Resolver.UniqueCloseKeyResolves | script_scanner.py:85-90 | A name within distance 3 of exactly one key resolves to that key's id, whatever the table order. |
| Resolver.FarNameFails | script_scanner.py:92-93 | A name farther than 3 from every key fails, and the error carries that name. An empty table falls in this case too. |
| Resolver.ResolvedIdsAreTableValues | script_scanner.py:76-95 | Every id returned is an id stored in the table. |
| Resolver.MapAllAppend | script_scanner.py:77-95 | The left-to-right loop over a concatenation is the loop over the first part followed by the loop over the second. |
| Resolver.ResolveAllAppend | script_scanner.py:77-95 | Resolution is compositional, so the order of the names is preserved. |
| EditDistance.Distance | script_scanner.py:86 | The row-by-row dynamic programme returns exactly the recursive Levenshtein distance `Dist`. |
| EditDistance.NextRow | script_scanner.py:86 | Row i+1 of the distance table is computed from row i. |
| EditDistance.DistToSelf | script_scanner.py:86 | A string is at distance 0 from itself. |
| EditDistance.DistZeroOnlyForEqual | script_scanner.py:86 | Distance 0 means the strings are equal. |
| EditDistance.DistSymmetric | script_scanner.py:86 | The distance is symmetric. |
| EditDistance.DistAtLeastLengthGap | script_scanner.py:86 | The distance is at least the difference in length. |
| EditDistance.Dist | script_scanner.py:86 | The reference definition of `Levenshtein.distance`: insertions, deletions and substitutions of cost 1, by recursion on the last characters. Its properties are the `EditDistance` lemmas below. |
| EditDistance.AppendOne | script_scanner.py:86 | Appending a character to one string lowers the distance by at most one. |
| EditDistance.CommonLastCharacter | script_scanner.py:86 | Appending the same character to both strings leaves the distance unchanged. |
| EditDistance.DistCommonSuffix | script_scanner.py:86 | A common suffix can be dropped without changing the distance: the two distances are equal. |
| EditDistance.OneSubstitution | script_scanner.py:86-88 | Changing one character gives distance exactly 1. |
| Chroma.WrappedDiff | script_scanner.py:35-37 | The difference of two `uint8` channels wraps modulo 256, so `numpy.abs` leaves it unchanged. |
| Chroma.WrappedDiffExceeds | script_scanner.py:35-40 | The wrapped difference exceeds the threshold exactly when x - y does, or when x < y and y - x is below 256 - threshold. |
| Chroma.NonGrey | script_scanner.py:40 | The mask as written: some wrapped channel difference exceeds the threshold. `Chroma.WrappedDiffExceeds` says when that happens. |
| Chroma.RemoveColor | script_scanner.py:31-45 | The output is a fresh image of the same size. A pixel is 255 exactly when one of its three wrapped channel differences exceeds the threshold; every other pixel is its greyscale value. |
| Chroma.Whiten | script_scanner.py:43-44 | The grey image with exactly the pixels the mask selects set to 255; every other pixel is its greyscale value. |
| Chroma.RemoveColorIntended | script_scanner.py:31-45 | The corrected filter: a fresh image of the same size, 255 exactly where the channel spread exceeds the threshold, the greyscale value elsewhere. |
| Chroma.WrapMasksNearGreyPixel | script_scanner.py:35-40 | Counterexample: the near-grey pixel (100, 101, 101) is whitened as written, but not by the intended rule. |
| Chroma.WrapKeepsColouredPixel | script_scanner.py:35-40 | Counterexample: the strongly coloured pixel (0, 250, 250) is kept as written, but whitened by the intended rule. |
| Chroma.NonGreyIntended | script_scanner.py:34-40 | The mask the comments describe: some true absolute channel difference exceeds the threshold. `Chroma.IntendedMaskIsChannelSpread` characterises it. |
| Chroma.IntendedMaskIsChannelSpread | script_scanner.py:34-40 | With true absolute differences, a pixel is non-grey exactly when its brightest and darkest channels differ by more than the threshold. This does not depend on the order of the channels. |
| Chroma.FilteredPixelIntended | script_scanner.py:39-44 | The corrected per-pixel rule: 255 when the channel spread exceeds the threshold, otherwise the greyscale value. |
| Layout.HalfTowardZero | script_scanner.py:67 | `int(d * 0.5)`: half of d rounded toward zero, for negative d too. |
| Layout.CharacterNameBounds | script_scanner.py:57-71 | Fails exactly when the width is below 1500, and the error carries the width. Otherwise y runs over 140..2925 and the column is 234 pixels wide, starting at 180 plus the truncated half-margin. |
| Layout.TitleBounds | script_scanner.py:132-133 | The title band is rows 50..100 across the full width. |
| Layout.WiderPageShiftsColumn | script_scanner.py:63-69 | Width 2400 gives x bounds 330..564, and width 2100 gives 180..414. |
| Layout.MarginTruncatesTowardZero | script_scanner.py:67 | Widths 2099 and 2101 both give 180..414, and width 2097 gives 179..413. |
| Layout.ColumnStaysCentred | script_scanner.py:63-69 | The width a page gains or loses against A4 is shared between the margin left of the column and the margin right of it, and the two shares differ by at most one pixel. |
| Layout.NarrowPagesGiveNegativeLeftBound | script_scanner.py:59-69 | Widths from 1500 to 1738 pass the guard but give a negative left bound. |
| Recognition.NonBlankLines | script_scanner.py:123 | The kept lines are exactly the input lines that are not blank. They come from the input and are not trimmed. |
| Recognition.NonBlankLinesAppend | script_scanner.py:123 | Filtering distributes over concatenation, so the kept lines stay in their original order. |
| Recognition.RecognizedNames | script_scanner.py:120-123 | Each name is a line of the stripped text, has no newline and is not blank. Every non-blank line of the stripped text is a name. |
| Recognition.ParseTitle | script_scanner.py:145-152 | The author never has surrounding whitespace. Which split is taken is stated by `Recognition.TitleSplitsAtFirstBy` and `Recognition.TitleWithoutBy`. |
| Recognition.TitleSplitsAtFirstBy | script_scanner.py:145-148 | With a "by" in the stripped title, the name is the stripped text before its first occurrence and the author the stripped text after it. |
| Recognition.TitleWithoutBy | script_scanner.py:149-150 | With no "by", the name is the raw recognised text and the author is empty. |
| Text.Strip | script_scanner.py:24 | The result is empty exactly when the input is all whitespace. Otherwise it starts and ends with a non-whitespace character. |
| Text.StripKeepsTheCore | script_scanner.py:24 | The input is leading whitespace, then the result, then trailing whitespace. |
| Text.StripCharacterized | script_scanner.py:24 | Stripping gives exactly the text from the first to the last non-whitespace character. |
| Text.StripIdempotent | script_scanner.py:123 | Stripping twice is stripping once. |
| Text.Split | script_scanner.py:24 | There is at least one piece, and no piece contains the separator. |
| Text.JoinSplit | script_scanner.py:24 | Joining the pieces with the separator gives back the input. |
| Text.SplitJoin | script_scanner.py:120 | Splitting a join of separator-free pieces gives back the pieces. |
| Text.SplitCount | script_scanner.py:24-25 | The number of pieces is one more than the number of separators. |
| Text.FindFirst | script_scanner.py:145 | The index found is an occurrence with none before it. No index means no occurrence at all. |
| Text.SplitOnce | script_scanner.py:145 | One piece means no occurrence and the input unchanged. Two pieces are the text before and after the first occurrence. |
| Text.RemoveAll | script_scanner.py:163 | The character is gone, every other character is still present, and the length drops by the number of occurrences removed. The order of what is kept is stated by `Text.RemoveAllConcat`. |
| Text.RemoveAllConcat | script_scanner.py:163 | Removal distributes over concatenation, so the kept characters stay in their original order. |
| Text.RemoveAllAbsent | script_scanner.py:163 | Removing an absent character changes nothing. |
| Document.Json | script_scanner.py:154-165 | The document as a function: the raw concatenation with its line breaks removed. `Document.JsonHasNoLineBreaks`, `Document.PlainJsonIsRaw` and `Document.ReadDocumentOfJson` state its properties. |
| Document.ReadDocument | script_scanner.py:157-160 | A reader for the document shape, the inverse partner of `Document.Json`, as `Document.ReadDocumentOfJson` proves. |
| Document.CombineToJsonString | script_scanner.py:154-165 | The `+=` loop builds exactly `Json`: the metadata object, one `,"id"` per character in order and `]`, with the line breaks removed. |
| Document.JsonHasNoLineBreaks | script_scanner.py:163 | The document never contains a line feed or a carriage return. |
| Document.PlainJsonIsRaw | script_scanner.py:157-163 | With fields free of quotes and line breaks, the document is exactly the concatenation. |
| Document.ReadDocumentOfJson | script_scanner.py:157-165 | A document written from plain fields reads back as the same author, script name and ids, in order. |
| Pipeline.Recognize | script_scanner.py:111-118 | One recogniser call: its text, a `RuntimeError` re-raised as "took too long" for the stage, or any other exception propagated. The lemmas below state how each outcome surfaces. |
| Pipeline.ExtractCharacterNames | script_scanner.py:97-125 | Crop, recognise the name column, split into lines and resolve them. Its outcomes are stated by the lemmas below. |
| Pipeline.ExtractScriptMetadata | script_scanner.py:127-152 | Recognise the title band and split it with `Recognition.ParseTitle`. |
| Pipeline.ScriptImageToJson | script_scanner.py:167-173 | Names first, then the title, then the document. `Pipeline.SuccessfulScan` and `Pipeline.ScanSucceedsWhenStagesDo` state its success in both directions; the other `Pipeline` lemmas state its failures. |
| Pipeline.NarrowPageFails | script_scanner.py:59-60 | A page narrower than 1500 pixels fails with the layout error, whatever the recogniser would return. |
| Pipeline.NameStageFailsFirst | script_scanner.py:170-171 | Names are processed before the title. Any failure there is the request's failure, whatever the title band holds. |
| Pipeline.SuccessfulScan | script_scanner.py:167-173 | A successful request read both regions and resolved every recognised name. Its document is `Json` of those ids in order under the parsed title, and it contains no line break. |
| Pipeline.ScanSucceedsWhenStagesDo | script_scanner.py:167-173 | The converse of `SuccessfulScan`: a wide enough page whose two regions are read and whose names all resolve gives the document of those ids under the parsed title. |
| Pipeline.NameRecognitionFails | script_scanner.py:111-118 | On a wide enough page, a `RuntimeError` on the name column fails the request as "took too long" in the name stage, and any other exception fails it in that stage. |
| Pipeline.NameResolutionFails | script_scanner.py:88-93 | When the name column is read but some name does not resolve, the request fails with the error of the first such name. |
| Pipeline.TitleRecognitionFails | script_scanner.py:136-143 | Once the names are resolved, a `RuntimeError` on the title band fails the request as "took too long" in the metadata stage, and any other exception fails it in that stage. |
| Pipeline.ScannedIdsAreNonEmpty | script_scanner.py:76-95 | With a table loaded from a file, a successful scan lists only non-empty ids. |
| Scenarios.TitleWithAuthor | script_scanner.py:145-148 | "Trouble Brewing by John Doe" plus a newline parses to ("Trouble Brewing", "John Doe"). |
| Scenarios.TitleSplitsInsideAWord | script_scanner.py:145-148 | "Lullaby by Ann" parses to ("Lulla", "by Ann"): the split is at the first "by", even inside a word. |
| Scenarios.TitleWithoutAuthorKeepsPadding | script_scanner.py:149-150 | A title without "by" keeps its padding and newline as the script name. |
| Scenarios.NamesKeepTheirPadding | script_scanner.py:120-123 | The text "Imp\n  Spy \n\n \t\nMonk\n" gives the names "Imp", "  Spy " and "Monk". |
| Scenarios.MisreadNameResolves | script_scanner.py:85-89 | The misread "Scarlet Womon" resolves to "scarlet_woman". |
| Scenarios.ScarletWomanScript | script_scanner.py:167-173 | On an A4 page whose name column and title band read as given, the whole request gives the expected script name, author and JSON document. |

## Left out

- Opening and reading `characters.tsv` is left to the caller, which passes the file's lines. The error path that exits the process when loading fails is not modelled.
- `normalize_height` is not modelled. It uses a floating-point aspect ratio and `cv2.resize`. The pipeline takes the width of the page after scaling as a parameter.
- `cv2.cvtColor` (greyscale conversion and BGR to RGB), `cv2.imdecode` and `cv2.resize` are library calls. Greyscale is a parameter function, and the crop and colour removal happen inside the recogniser parameter.
- Python's slicing of the image with the computed bounds is not modelled. Negative or oversized bounds would be clamped or wrapped by numpy; the model has the bound arithmetic only.
- Tesseract itself, its page-segmentation modes and its three-second timeout are not modelled. The recogniser is a parameter whose outcomes are text, a `RuntimeError` or another exception.
- `strip()` uses the ASCII whitespace set (tab through carriage return, the four separators 0x1C-0x1F and space). Unicode whitespace is not modelled.
- JSON escaping is not modelled: the code does none. The decoder partner `Document.ReadDocument` covers only fields without quotes or line breaks (`Document.Plain`).
- The Discord bot is not modelled: message and attachment lookup, the HTTP download, the reply text (lines 220-226), the environment token and `bot.run`. This is network and concurrency plumbing around the core.
- Chroma.RemoveColor: the grey image is a fresh array rather than the result of `cvtColor` being overwritten in place through the mask. The result is the same, but aliasing with the input is not modelled. Neither filter feeds the pipeline model, because the recogniser parameter receives the region and does the crop, the filtering and the recognition.
- `cv2.cvtColor(..., cv2.COLOR_BGR2RGB)` on line 107 is applied to the single-channel output of `remove_color`. OpenCV requires three or four channels for that conversion, so it would raise. The model does not decide this: such an exception is the recogniser's `OtherFailure` in the name stage, and `Scenarios.ScarletWomanScript` assumes a successful read.
- Text.RemoveAll: its own contract states which characters remain and the length, not their order. The order is stated separately by `Text.RemoveAllConcat`.
- Layout.CharacterNameBounds: `(width - 2100) * 0.5` is a float product. For integer widths it is exact, so the model computes it on integers.

## Findings

| source | as written | input that shows it | evidently intended | confidence | as-written member | corrected member |
|---|---|---|---|---|---|---|
| script_scanner.py:35-40 | The channel differences are `uint8` subtractions. They wrap modulo 256, so `numpy.abs` is a no-op and the mask compares wrapped differences with 30. | The pixel (B, G, R) = (100, 101, 101) has wrapped difference 255, so it is whitened although it is grey. The pixel (0, 250, 250) has wrapped differences 6, 6 and 0, so it is kept although it is strongly coloured. | Mask a pixel when the absolute channel difference exceeds the threshold, that is, when its channel spread exceeds 30. | high; not executed | Chroma.NonGrey, Chroma.WrapMasksNearGreyPixel | Chroma.RemoveColorIntended, Chroma.IntendedMaskIsChannelSpread |
