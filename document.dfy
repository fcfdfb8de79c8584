/**
 * The document assembler `combine_to_json_string`: the script's metadata
 * object and the canonical ids, written as one JSON array by string
 * concatenation, then with every line feed and carriage return removed.
 * Nothing is escaped.
 */
module Document {
  import opened Wrappers
  import opened Text

  const MetaOpen: string := "[{\"id\":\"_meta\",\"author\":\""
  const NameKey: string := ",\"name\":\""

  /** `[{"id":"_meta","author":"<author>","name":"<name>"}`. */
  function Header(author: string, scriptName: string): string {
    MetaOpen + author + "\"" + NameKey + scriptName + "\"" + "}"
  }

  /** `,"<id>"`. */
  function Item(id: string): string {
    ",\"" + id + "\""
  }

  /** The items in order, as the `json += ...` loop appends them. */
  function Items(ids: seq<string>): string {
    if ids == [] then "" else Items(ids[..|ids| - 1]) + Item(ids[|ids| - 1])
  }

  /** The text before the line breaks are removed. */
  function RawDocument(ids: seq<string>, scriptName: string, author: string): string {
    Header(author, scriptName) + Items(ids) + "]"
  }

  function RemoveLineBreaks(s: string): string {
    RemoveAll(RemoveAll(s, '\n'), '\r')
  }

  /** The serialised script document. */
  function Json(ids: seq<string>, scriptName: string, author: string): string {
    RemoveLineBreaks(RawDocument(ids, scriptName, author))
  }

  /** `combine_to_json_string(characters, script_name, author)`. */
  method CombineToJsonString(characters: seq<string>, scriptName: string, author: string) returns (json: string)
    ensures json == Json(characters, scriptName, author)
  {
    json := Header(author, scriptName);
    var i := 0;
    while i < |characters|
      invariant 0 <= i <= |characters|
      invariant json == Header(author, scriptName) + Items(characters[..i])
    {
      assert characters[..i + 1][..i] == characters[..i];
      json := json + Item(characters[i]);
      i := i + 1;
    }
    assert characters[..i] == characters;
    json := json + "]";
    json := RemoveAll(json, '\n');
    json := RemoveAll(json, '\r');
  }

  /** The document never contains a line feed or a carriage return. */
  lemma JsonHasNoLineBreaks(ids: seq<string>, scriptName: string, author: string)
    ensures '\n' !in Json(ids, scriptName, author) && '\r' !in Json(ids, scriptName, author)
  {
    var once := RemoveAll(RawDocument(ids, scriptName, author), '\n');
    assert '\n' !in once;
  }

  /** A field the assembler can write without breaking the JSON: no quote, no line break. */
  predicate Plain(s: string) {
    '"' !in s && '\n' !in s && '\r' !in s
  }

  /** Only the fields can hold line breaks: the rest of the document has none. */
  lemma {:induction false} ItemsOfPlain(ids: seq<string>)
    requires forall id :: id in ids ==> Plain(id)
    ensures '\n' !in Items(ids) && '\r' !in Items(ids)
  {
    if ids != [] {
      assert forall id :: id in ids[..|ids| - 1] ==> id in ids;
      ItemsOfPlain(ids[..|ids| - 1]);
      assert ids[|ids| - 1] in ids;
    }
  }

  /** With plain fields, removing line breaks changes nothing: the document is exactly the concatenation. */
  lemma PlainJsonIsRaw(ids: seq<string>, scriptName: string, author: string)
    requires Plain(scriptName) && Plain(author)
    requires forall id :: id in ids ==> Plain(id)
    ensures Json(ids, scriptName, author) == RawDocument(ids, scriptName, author)
  {
    ItemsOfPlain(ids);
    var raw := RawDocument(ids, scriptName, author);
    assert '\n' !in raw && '\r' !in raw;
    RemoveAllAbsent(raw, '\n');
    RemoveAllAbsent(raw, '\r');
  }

  /** The decoded form of a document. */
  datatype Script = Script(author: string, scriptName: string, ids: seq<string>)

  /** A JSON string's body up to the closing quote, and what follows the quote. */
  function ReadString(s: string): Option<(string, string)> {
    match FindFirst(s, "\"")
    case None => None
    case Some(i) => Some((s[..i], s[i + 1..]))
  }

  /** `,"<id>"` items up to the closing `]`. */
  function ReadItems(s: string): Option<seq<string>>
    decreases |s|
  {
    if s == "]" then Some([])
    else if |s| >= 2 && s[..2] == ",\"" then
      match ReadString(s[2..])
      case None => None
      case Some((id, rest)) =>
        match ReadItems(rest)
        case None => None
        case Some(ids) => Some([id] + ids)
    else None
  }

  /** Reads a document in the exact shape the assembler writes. */
  function ReadDocument(s: string): Option<Script> {
    if !(MetaOpen <= s) then None
    else
      match ReadString(s[|MetaOpen|..])
      case None => None
      case Some((author, afterAuthor)) =>
        if !(NameKey <= afterAuthor) then None
        else
          match ReadString(afterAuthor[|NameKey|..])
          case None => None
          case Some((scriptName, afterName)) =>
            if afterName == [] || afterName[0] != '}' then None
            else
              match ReadItems(afterName[1..])
              case None => None
              case Some(ids) => Some(Script(author, scriptName, ids))
  }

  lemma ReadStringOf(body: string, rest: string)
    requires '"' !in body
    ensures ReadString(body + "\"" + rest) == Some((body, rest))
  {
    var s := body + "\"" + rest;
    assert OccursAt(s, "\"", |body|) by { assert s[|body|..|body| + 1] == "\""; }
    forall j | 0 <= j < |body| ensures !OccursAt(s, "\"", j) {
      assert s[j] == body[j];
    }
    FindFirstIs(s, "\"", |body|);
    assert s[..|body|] == body && s[|body| + 1..] == rest;
  }

  lemma {:induction false} ItemsFront(ids: seq<string>)
    requires ids != []
    ensures Items(ids) == Item(ids[0]) + Items(ids[1..])
    decreases |ids|
  {
    if |ids| > 1 {
      var init := ids[..|ids| - 1];
      ItemsFront(init);
      assert init[1..] == ids[1..][..|ids[1..]| - 1];
      assert init[0] == ids[0] && ids[1..][|ids[1..]| - 1] == ids[|ids| - 1];
    } else {
      assert ids[..0] == [] && ids[1..] == [];
    }
  }

  lemma ReadItemsStep(id: string, rest: string)
    requires '"' !in id
    ensures ReadItems(Item(id) + rest) ==
      match ReadItems(rest)
      case None => None
      case Some(ids) => Some([id] + ids)
  {
    var s := Item(id) + rest;
    assert s == ",\"" + (id + "\"" + rest);
    assert s[0] == ',' && s != "]";
    assert s[..2] == ",\"" && s[2..] == id + "\"" + rest;
    ReadStringOf(id, rest);
  }

  lemma ItemsThenClose(ids: seq<string>)
    requires ids != []
    ensures Items(ids) + "]" == Item(ids[0]) + (Items(ids[1..]) + "]")
  {
    ItemsFront(ids);
  }

  lemma {:induction false} ReadItemsOf(ids: seq<string>)
    requires forall id :: id in ids ==> Plain(id)
    ensures ReadItems(Items(ids) + "]") == Some(ids)
    decreases |ids|
  {
    if ids != [] {
      var rest := Items(ids[1..]) + "]";
      ItemsThenClose(ids);
      assert ids[0] in ids;
      ReadItemsStep(ids[0], rest);
      assert forall id :: id in ids[1..] ==> id in ids;
      ReadItemsOf(ids[1..]);
      assert [ids[0]] + ids[1..] == ids;
    } else {
      assert Items(ids) + "]" == "]";
    }
  }

  lemma PrefixThenRest(p: string, r: string)
    ensures p <= p + r && (p + r)[|p|..] == r
  {
  }

  lemma HeaderShape(author: string, scriptName: string, items: string)
    ensures Header(author, scriptName) + items
         == MetaOpen + (author + "\"" + (NameKey + (scriptName + "\"" + ("}" + items))))
  {
  }

  /** The metadata object reads back, leaving the items. */
  lemma ReadHeader(author: string, scriptName: string, items: string)
    requires Plain(scriptName) && Plain(author)
    ensures ReadDocument(Header(author, scriptName) + items) ==
      match ReadItems(items)
      case None => None
      case Some(ids) => Some(Script(author, scriptName, ids))
  {
    var tail := "}" + items;
    var afterAuthor := NameKey + (scriptName + "\"" + tail);
    HeaderShape(author, scriptName, items);
    PrefixThenRest(MetaOpen, author + "\"" + afterAuthor);
    ReadStringOf(author, afterAuthor);
    PrefixThenRest(NameKey, scriptName + "\"" + tail);
    ReadStringOf(scriptName, tail);
    assert tail[0] == '}' && tail[1..] == items;
  }

  /**
   * The assembler's partner: a document written from plain fields reads
   * back as exactly the author, the script name and the ids, in order.
   */
  lemma ReadDocumentOfJson(ids: seq<string>, scriptName: string, author: string)
    requires Plain(scriptName) && Plain(author)
    requires forall id :: id in ids ==> Plain(id)
    ensures ReadDocument(Json(ids, scriptName, author)) == Some(Script(author, scriptName, ids))
  {
    PlainJsonIsRaw(ids, scriptName, author);
    assert RawDocument(ids, scriptName, author) == Header(author, scriptName) + (Items(ids) + "]");
    ReadHeader(author, scriptName, Items(ids) + "]");
    ReadItemsOf(ids);
  }
}
