/**
 * Worked examples of the model, proved on the concrete inputs the scanner
 * is built for: each fact is its own small lemma, and the scenario lemmas
 * chain them.
 */
module Scenarios {
  import opened Wrappers
  import opened Text
  import opened Recognition
  import opened NameTable
  import opened EditDistance
  import opened Resolver
  import opened Layout
  import opened Document
  import opened Pipeline

  /** A recognised title band, with the trailing newline the recogniser adds. */
  const Title: string := "Trouble Brewing by John Doe\n"

  lemma StripTitle()
    ensures Strip(Title) == "Trouble Brewing by John Doe"
  {
    assert AllSpace(Title[27..]) by { assert Title[27..] == "\n"; }
    StripCharacterized(Title, 0, 27);
  }

  lemma StripBeforeBy()
    ensures Strip("Trouble Brewing ") == "Trouble Brewing"
  {
    StripCharacterized("Trouble Brewing ", 0, 15);
  }

  lemma StripAfterBy()
    ensures Strip(" John Doe") == "John Doe"
  {
    StripCharacterized(" John Doe", 1, 9);
  }

  lemma FirstByInTitle()
    ensures OccursAt("Trouble Brewing by John Doe", By, 16)
    ensures forall j :: 0 <= j < 16 ==> !OccursAt("Trouble Brewing by John Doe", By, j)
    ensures "Trouble Brewing by John Doe"[..16] == "Trouble Brewing "
    ensures "Trouble Brewing by John Doe"[18..] == " John Doe"
  {
    var s := "Trouble Brewing by John Doe";
    assert s[..16] == "Trouble Brewing ";
    assert s[18..] == " John Doe";
    assert s[16..18] == By;
    assert 'b' !in s[0..4];
    NoOccurrenceWithout(s, By, 0, 4);
    assert s[5] == 'l';
    assert 'b' !in s[5..16];
    NoOccurrenceWithout(s, By, 5, 16);
  }

  /** The title band names the script and its author. */
  lemma TitleWithAuthor()
    ensures ParseTitle(Title) == ("Trouble Brewing", "John Doe")
  {
    StripTitle();
    FirstByInTitle();
    StripBeforeBy();
    StripAfterBy();
    TitleSplitsAtFirstBy(Title, 16);
  }

  lemma FirstByInLullaby()
    ensures Strip("Lullaby by Ann") == "Lullaby by Ann"
    ensures OccursAt("Lullaby by Ann", By, 5)
    ensures forall j :: 0 <= j < 5 ==> !OccursAt("Lullaby by Ann", By, j)
    ensures "Lullaby by Ann"[..5] == "Lulla" && "Lullaby by Ann"[7..] == " by Ann"
  {
    var s := "Lullaby by Ann";
    assert s[..5] == "Lulla" && s[7..] == " by Ann";
    StripCharacterized(s, 0, 14);
    assert s[5..7] == By;
    assert 'b' !in s[0..5];
    NoOccurrenceWithout(s, By, 0, 5);
  }

  lemma StripLullabyParts()
    ensures Strip("Lulla") == "Lulla" && Strip(" by Ann") == "by Ann"
  {
    StripCharacterized("Lulla", 0, 5);
    StripCharacterized(" by Ann", 1, 7);
  }

  /** The split is at the first "by", even inside a word. */
  lemma TitleSplitsInsideAWord()
    ensures ParseTitle("Lullaby by Ann") == ("Lulla", "by Ann")
  {
    FirstByInLullaby();
    StripLullabyParts();
    TitleSplitsAtFirstBy("Lullaby by Ann", 5);
  }

  lemma PaddedTitleStrips()
    ensures Strip("  Trouble Brewing \n") == "Trouble Brewing"
  {
    var raw := "  Trouble Brewing \n";
    PaddedTitleEnds(raw);
    StripCharacterized(raw, 2, 17);
  }

  lemma PaddedTitleEnds(raw: string)
    requires raw == "  Trouble Brewing \n"
    ensures AllSpace(raw[..2]) && AllSpace(raw[17..]) && !IsSpace(raw[2]) && !IsSpace(raw[16])
    ensures raw[2..17] == "Trouble Brewing"
  {
    assert raw[..2] == "  ";
    assert raw[17..] == " \n";
    assert raw[2] == 'T' && raw[16] == 'g';
  }

  lemma NoByInTroubleBrewing()
    ensures forall j :: 0 <= j <= 15 ==> !OccursAt("Trouble Brewing", By, j)
  {
    var s := "Trouble Brewing";
    assert 'b' !in s[0..4];
    NoOccurrenceWithout(s, By, 0, 4);
    assert s[5] == 'l';
    assert 'b' !in s[5..15];
    NoOccurrenceWithout(s, By, 5, 15);
  }

  /** Without an author the script name is the recognised text untrimmed. */
  lemma TitleWithoutAuthorKeepsPadding()
    ensures ParseTitle("  Trouble Brewing \n") == ("  Trouble Brewing \n", "")
  {
    PaddedTitleStrips();
    NoByInTroubleBrewing();
    TitleWithoutBy("  Trouble Brewing \n");
  }

  /** Recognised name-column text with padding and blank lines. */
  const Column: string := "Imp\n  Spy \n\n \t\nMonk\n"

  lemma StripColumn()
    ensures Strip(Column) == "Imp\n  Spy \n\n \t\nMonk"
  {
    assert AllSpace(Column[19..]) by { assert Column[19..] == "\n"; }
    StripCharacterized(Column, 0, 19);
  }

  lemma SplitColumn()
    ensures Split("Imp\n  Spy \n\n \t\nMonk", '\n') == ["Imp", "  Spy ", "", " \t", "Monk"]
  {
    var parts := ["Imp", "  Spy ", "", " \t", "Monk"];
    assert Join(parts, '\n') == "Imp\n  Spy \n\n \t\nMonk";
    SplitJoin(parts, '\n');
  }

  lemma KeepLine(x: string)
    requires !AllSpace(x)
    ensures NonBlankLines([x]) == [x]
  {
  }

  lemma DropLine(x: string)
    requires AllSpace(x)
    ensures NonBlankLines([x]) == []
  {
  }

  lemma ColumnLinesFiltered(a: string, b: string, c: string, d: string, e: string)
    requires a == "Imp" && b == "  Spy " && c == "" && d == " \t" && e == "Monk"
    ensures NonBlankLines([a, b, c, d, e]) == [a, b, e]
  {
    assert !IsSpace(a[0]) && !IsSpace(b[2]) && !IsSpace(e[0]);
    assert AllSpace(d) by { assert IsSpace(d[0]) && IsSpace(d[1]); }
    DropTwoMiddleLines(a, b, c, d, e);
  }

  lemma DropTwoMiddleLines(a: string, b: string, c: string, d: string, e: string)
    requires !AllSpace(a) && !AllSpace(b) && AllSpace(c) && AllSpace(d) && !AllSpace(e)
    ensures NonBlankLines([a, b, c, d, e]) == [a, b, e]
  {
    KeepLine(a); KeepLine(b); DropLine(c); DropLine(d); KeepLine(e);
    NonBlankLinesAppend([a], [b]);
    NonBlankLinesAppend([a, b], [c]);
    NonBlankLinesAppend([a, b, c], [d]);
    NonBlankLinesAppend([a, b, c, d], [e]);
    assert [a, b] == [a] + [b];
    assert [a, b, c] == [a, b] + [c];
    assert [a, b, c, d] == [a, b, c] + [d];
    assert [a, b, c, d, e] == [a, b, c, d] + [e];
  }

  /** Blank lines are dropped; the others are kept verbatim, padding included. */
  lemma NamesKeepTheirPadding()
    ensures RecognizedNames(Column) == ["Imp", "  Spy ", "Monk"]
  {
    StripColumn();
    SplitColumn();
    ColumnLinesFiltered("Imp", "  Spy ", "", " \t", "Monk");
  }

  /** The recogniser misreads one letter of a name. */
  const Misread: string := "Scarlet Womon\n"

  lemma MisreadNameIsOneLine()
    ensures RecognizedNames(Misread) == ["Scarlet Womon"]
  {
    assert AllSpace(Misread[13..]) by { assert Misread[13..] == "\n"; }
    StripCharacterized(Misread, 0, 13);
    assert Misread[0..13] == "Scarlet Womon";
    assert '\n' !in "Scarlet Womon";
    SplitOfSepFree("Scarlet Womon", '\n');
    assert !IsSpace("Scarlet Womon"[0]);
    KeepLine("Scarlet Womon");
  }

  lemma MisreadIsOneEditAway(name: string, key: string)
    requires name == "Scarlet Womon" && key == "Scarlet Woman"
    ensures Dist(name, key) == 1
  {
    assert name == "Scarlet Wom" + ['o'] + "n";
    assert key == "Scarlet Wom" + ['a'] + "n";
    OneSubstitution("Scarlet Wom", 'o', 'a', "n");
  }

  /** One misread letter still resolves to the canonical id. */
  lemma MisreadNameResolves(t: Table, name: string)
    requires t == [Entry("Scarlet Woman", "scarlet_woman")] && name == "Scarlet Womon"
    ensures ResolveAll(t, [name]) == Ok(["scarlet_woman"])
  {
    MisreadIsOneEditAway(name, t[0].key);
    UniqueCloseKeyResolves(t, name, 0);
    var r := ResolveAll(t, [name]);
    assert r.Ok? && |r.value| == 1 && r.value[0] == "scarlet_woman";
    assert r.value == ["scarlet_woman"];
  }

  /** The document of the scenario below. */
  const ScarletWomanJson: string :=
    "[{\"id\":\"_meta\",\"author\":\"John Doe\",\"name\":\"Trouble Brewing\"},\"scarlet_woman\"]"

  lemma HeaderText(author: string, scriptName: string)
    requires author == "John Doe" && scriptName == "Trouble Brewing"
    ensures Header(author, scriptName) == "[{\"id\":\"_meta\",\"author\":\"John Doe\",\"name\":\"Trouble Brewing\"}"
  {
    var left := MetaOpen + author;
    var right := "\"" + NameKey + scriptName + "\"" + "}";
    assert Header(author, scriptName) == left + right;
    HeaderLeft(author);
    HeaderRight(scriptName);
    HeaderJoined(left, right);
  }

  lemma HeaderLeft(author: string)
    requires author == "John Doe"
    ensures MetaOpen + author == "[{\"id\":\"_meta\",\"author\":\"John Doe"
  {
  }

  lemma HeaderRight(scriptName: string)
    requires scriptName == "Trouble Brewing"
    ensures "\"" + NameKey + scriptName + "\"" + "}" == "\",\"name\":\"Trouble Brewing\"}"
  {
  }

  lemma HeaderJoined(left: string, right: string)
    requires left == "[{\"id\":\"_meta\",\"author\":\"John Doe"
    requires right == "\",\"name\":\"Trouble Brewing\"}"
    ensures left + right == "[{\"id\":\"_meta\",\"author\":\"John Doe\",\"name\":\"Trouble Brewing\"}"
  {
  }

  lemma DocumentText(header: string, tail: string)
    requires header == "[{\"id\":\"_meta\",\"author\":\"John Doe\",\"name\":\"Trouble Brewing\"}"
    requires tail == ",\"scarlet_woman\"]"
    ensures header + tail == ScarletWomanJson
  {
  }

  lemma FieldsArePlain(ids: seq<string>, scriptName: string, author: string)
    requires ids == ["scarlet_woman"] && scriptName == "Trouble Brewing" && author == "John Doe"
    ensures Plain(scriptName) && Plain(author) && forall id :: id in ids ==> Plain(id)
  {
    assert Plain(ids[0]);
  }

  lemma OneItem(ids: seq<string>)
    requires ids == ["scarlet_woman"]
    ensures Items(ids) + "]" == ",\"scarlet_woman\"]"
  {
    assert Items(ids) == Items([]) + Item(ids[0]);
  }

  lemma ScarletWomanDocument(ids: seq<string>, scriptName: string, author: string)
    requires ids == ["scarlet_woman"] && scriptName == "Trouble Brewing" && author == "John Doe"
    ensures Json(ids, scriptName, author) == ScarletWomanJson
  {
    FieldsArePlain(ids, scriptName, author);
    PlainJsonIsRaw(ids, scriptName, author);
    OneItem(ids);
    HeaderText(author, scriptName);
    DocumentText(Header(author, scriptName), Items(ids) + "]");
  }

  /**
   * The whole request on an A4 page: a one-entry table, a name column read
   * as "Scarlet Womon" and the title band "Trouble Brewing by John Doe".
   */
  lemma ScarletWomanScript(t: Table, ocr: Region -> OcrResult)
    requires t == [Entry("Scarlet Woman", "scarlet_woman")]
    requires forall b :: ocr(NameColumn(b)) == Read(Misread)
    requires forall b :: ocr(TitleBand(b)) == Read(Title)
    ensures ScriptImageToJson(t, A4WidthPixels, ocr)
         == Ok(ScriptData("Trouble Brewing", "John Doe", ScarletWomanJson))
  {
    MisreadNameIsOneLine();
    MisreadNameResolves(t, "Scarlet Womon");
    TitleWithAuthor();
    ScarletWomanDocument(["scarlet_woman"], "Trouble Brewing", "John Doe");
  }
}
