/**
 * What the scanner does with the recogniser's raw text: the name column
 * becomes a list of lines (`extract_character_names`) and the title band a
 * script name and an author (`extract_script_meta_data`).
 */
module Recognition {
  import opened Wrappers
  import opened Text

  /** The lines of `lines` that are not blank, verbatim and in order. */
  function NonBlankLines(lines: seq<string>): (kept: seq<string>)
    ensures |kept| <= |lines|
    ensures forall s :: s in kept ==> s in lines && !AllSpace(s)
    ensures forall s :: s in lines && !AllSpace(s) ==> s in kept
  {
    if lines == [] then []
    else
      var rest := NonBlankLines(lines[1..]);
      assert forall s :: s in lines <==> s == lines[0] || s in lines[1..];
      if AllSpace(lines[0]) then rest else [lines[0]] + rest
  }

  /** Filtering distributes over concatenation, so the kept lines keep their relative order. */
  lemma {:induction false} NonBlankLinesAppend(a: seq<string>, b: seq<string>)
    ensures NonBlankLines(a + b) == NonBlankLines(a) + NonBlankLines(b)
  {
    if a == [] {
      assert a + b == b;
    } else {
      assert (a + b)[0] == a[0] && (a + b)[1..] == a[1..] + b;
      NonBlankLinesAppend(a[1..], b);
    }
  }

  /**
   * `[line for line in raw.strip().split("\n") if line.strip() != '']`:
   * the recognised names. Lines are kept verbatim, not trimmed.
   */
  function RecognizedNames(raw: string): (names: seq<string>)
    ensures forall s :: s in names ==> '\n' !in s && !AllSpace(s)
    ensures forall s :: s in names ==> s in Split(Strip(raw), '\n')
    ensures forall s :: s in Split(Strip(raw), '\n') && Strip(s) != [] ==> s in names
  {
    NonBlankLines(Split(Strip(raw), '\n'))
  }

  /** The separator of `split("by", 1)` in the title. */
  const By: string := "by"

  /**
   * `extract_script_meta_data` after recognition: `raw.strip().split("by", 1)`;
   * two parts give the stripped name and author, one part gives the raw
   * text as the name and an empty author.
   */
  function ParseTitle(raw: string): (r: (string, string))
    ensures Strip(r.1) == r.1
  {
    var parts := SplitOnce(Strip(raw), By);
    if |parts| == 2 then
      StripIdempotent(parts[1]);
      (Strip(parts[0]), Strip(parts[1]))
    else (raw, "")
  }

  /**
   * With a "by" in the stripped title, the name is the stripped text before
   * its FIRST occurrence and the author the stripped text after it.
   */
  lemma TitleSplitsAtFirstBy(raw: string, i: nat)
    requires OccursAt(Strip(raw), By, i)
    requires forall j :: 0 <= j < i ==> !OccursAt(Strip(raw), By, j)
    ensures ParseTitle(raw) == (Strip(Strip(raw)[..i]), Strip(Strip(raw)[i + 2..]))
  {
    SplitOnceAtFirst(Strip(raw), By, i);
  }

  /** With no "by", the name is the raw text, not even stripped, and the author is empty. */
  lemma TitleWithoutBy(raw: string)
    requires forall j :: 0 <= j <= |Strip(raw)| ==> !OccursAt(Strip(raw), By, j)
    ensures ParseTitle(raw) == (raw, "")
  {
  }
}
