/**
 * The character table `character_mapping`: a dictionary from a display name,
 * as printed on a script, to its canonical id, filled from the lines of a
 * two-column, tab-separated file. Python dictionaries remember insertion
 * order, and the resolver's tie-break depends on it, so the table is a
 * sequence of entries in that order.
 */
module NameTable {
  import opened Wrappers
  import Text

  /** One row of the table: a display name and its canonical id. */
  datatype Entry = Entry(key: string, value: string)

  /** The entries in the order their keys were first inserted. */
  type Table = seq<Entry>

  function Keys(t: Table): seq<string> {
    seq(|t|, i requires 0 <= i < |t| => t[i].key)
  }

  predicate HasKey(t: Table, k: string) {
    exists i :: 0 <= i < |t| && t[i].key == k
  }

  /** Every key occurs once, as in any dictionary. */
  predicate Valid(t: Table) {
    forall i, j :: 0 <= i < j < |t| ==> t[i].key != t[j].key
  }

  /** The position of key `k`, if the table has it. */
  function IndexOf(t: Table, k: string): (r: Option<nat>)
    ensures r.Some? ==> r.value < |t| && t[r.value].key == k
    ensures r.Some? ==> forall j :: 0 <= j < r.value ==> t[j].key != k
    ensures r.None? <==> !HasKey(t, k)
  {
    if t == [] then None
    else if t[0].key == k then Some(0)
    else
      match IndexOf(t[1..], k)
      case None =>
        assert forall j :: 0 < j < |t| ==> t[j] == t[1..][j - 1];
        None
      case Some(i) => Some(i + 1)
  }

  /** `mapping.get(k)`. */
  function Get(t: Table, k: string): (r: Option<string>)
    ensures r.Some? <==> HasKey(t, k)
  {
    match IndexOf(t, k)
    case None => None
    case Some(i) => Some(t[i].value)
  }

  /** In a valid table, the value stored under a key is what `Get` returns for it. */
  lemma GetEntry(t: Table, i: nat)
    requires Valid(t) && i < |t|
    ensures Get(t, t[i].key) == Some(t[i].value)
  {
    var r := IndexOf(t, t[i].key);
    assert r.Some?;
    assert !(r.value < i) && !(i < r.value);
  }

  /** `mapping[k] = v`: a present key keeps its position and gets the new value; a new key goes last. */
  function Put(t: Table, k: string, v: string): (r: Table)
    ensures Valid(t) ==> Valid(r)
    ensures Get(r, k) == Some(v)
    ensures forall k' :: k' != k ==> Get(r, k') == Get(t, k')
    ensures HasKey(t, k) ==> Keys(r) == Keys(t)
    ensures !HasKey(t, k) ==> Keys(r) == Keys(t) + [k]
  {
    match IndexOf(t, k)
    case Some(i) =>
      PutExisting(t, k, v, i);
      t[i := Entry(k, v)]
    case None =>
      PutNew(t, k, v);
      t + [Entry(k, v)]
  }

  /** Assigning to a present key, at index `i`. */
  lemma PutExisting(t: Table, k: string, v: string, i: nat)
    requires IndexOf(t, k) == Some(i)
    ensures var r := t[i := Entry(k, v)];
      && (Valid(t) ==> Valid(r))
      && Get(r, k) == Some(v)
      && (forall k' :: k' != k ==> Get(r, k') == Get(t, k'))
      && Keys(r) == Keys(t)
  {
    var r := t[i := Entry(k, v)];
    assert r[i].key == k;
    assert IndexOf(r, k) == Some(i) by {
      var x := IndexOf(r, k);
      assert !(x.value < i);
    }
    forall k' | k' != k
      ensures Get(r, k') == Get(t, k')
    {
      SameKeysSameIndex(t, r, k');
    }
  }

  /** Assigning to a new key. */
  lemma PutNew(t: Table, k: string, v: string)
    requires !HasKey(t, k)
    ensures var r := t + [Entry(k, v)];
      && (Valid(t) ==> Valid(r))
      && Get(r, k) == Some(v)
      && (forall k' :: k' != k ==> Get(r, k') == Get(t, k'))
      && Keys(r) == Keys(t) + [k]
  {
    var r := t + [Entry(k, v)];
    assert r[..|t|] == t;
    assert r[|t|].key == k;
    assert IndexOf(r, k) == Some(|t|) by {
      var x := IndexOf(r, k);
      assert !(x.value < |t|);
    }
    forall k' | k' != k
      ensures Get(r, k') == Get(t, k')
    {
      PrefixIndex(t, r, k');
    }
  }

  /** Tables whose keys agree position by position find a key at the same place. */
  lemma SameKeysSameIndex(t: Table, r: Table, k: string)
    requires |t| == |r|
    requires forall j :: 0 <= j < |t| ==> (t[j].key == k <==> r[j].key == k)
    requires forall j :: 0 <= j < |t| && t[j].key == k ==> t[j] == r[j]
    ensures IndexOf(r, k) == IndexOf(t, k)
    ensures Get(r, k) == Get(t, k)
  {
    var x, y := IndexOf(r, k), IndexOf(t, k);
    if x.Some? && y.Some? {
      assert !(x.value < y.value) && !(y.value < x.value);
    }
  }

  /** Appending an entry for another key does not move the keys already present. */
  lemma PrefixIndex(t: Table, r: Table, k: string)
    requires |r| == |t| + 1 && r[..|t|] == t && r[|t|].key != k
    ensures Get(r, k) == Get(t, k)
  {
    var x, y := IndexOf(r, k), IndexOf(t, k);
    assert forall j :: 0 <= j < |t| ==> r[j] == t[j];
    if x.Some? && y.Some? {
      assert !(x.value < y.value) && !(y.value < x.value);
    }
  }

  /**
   * One line of the file: `line.strip().split('\t')` must give exactly two
   * columns, the key and the value; any other line is skipped.
   */
  function ParseLine(line: string): (e: Option<Entry>)
    ensures e.Some? <==> Text.Count(Text.Strip(line), '\t') == 1
    ensures e.Some? ==> Text.Strip(line) == e.value.key + "\t" + e.value.value
    ensures e.Some? ==> '\t' !in e.value.key && '\t' !in e.value.value
  {
    var columns := Text.Split(Text.Strip(line), '\t');
    Text.SplitCount(Text.Strip(line), '\t');
    Text.JoinSplit(Text.Strip(line), '\t');
    if |columns| == 2 then
      assert columns[0] in columns && columns[1] in columns;
      Some(Entry(columns[0], columns[1]))
    else None
  }

  /** Both columns of a parsed line are non-empty and carry no outer whitespace. */
  lemma ParsedColumnsAreNonEmpty(line: string)
    requires ParseLine(line).Some?
    ensures var e := ParseLine(line).value;
      e.key != [] && e.value != [] && !Text.IsSpace(e.key[0]) && !Text.IsSpace(e.value[|e.value| - 1])
  {
    var e := ParseLine(line).value;
    var s := Text.Strip(line);
    assert s == e.key + "\t" + e.value;
    assert s[0] == (if e.key == [] then '\t' else e.key[0]);
    assert s[|s| - 1] == (if e.value == [] then '\t' else e.value[|e.value| - 1]);
  }

  /** `line` is a table line that sets key `k`. */
  predicate DefinesKey(line: string, k: string) {
    ParseLine(line).Some? && ParseLine(line).value.key == k
  }

  /** The loop of `load_character_mapping` over the lines of the file, starting from table `t`. */
  function LoadLines(t: Table, lines: seq<string>): Table
    decreases |lines|
  {
    if lines == [] then t
    else
      var before := LoadLines(t, lines[..|lines| - 1]);
      match ParseLine(lines[|lines| - 1])
      case None => before
      case Some(e) => Put(before, e.key, e.value)
  }

  lemma {:induction false} LoadLinesValid(t: Table, lines: seq<string>)
    requires Valid(t)
    ensures Valid(LoadLines(t, lines))
    decreases |lines|
  {
    if lines != [] {
      LoadLinesValid(t, lines[..|lines| - 1]);
    }
  }

  /** A key that no line sets keeps its value from `t`, or stays absent. */
  lemma {:induction false} LoadLinesUntouched(t: Table, lines: seq<string>, k: string)
    requires forall i :: 0 <= i < |lines| ==> !DefinesKey(lines[i], k)
    ensures Get(LoadLines(t, lines), k) == Get(t, k)
    decreases |lines|
  {
    if lines != [] {
      var init := lines[..|lines| - 1];
      assert forall i :: 0 <= i < |init| ==> init[i] == lines[i];
      LoadLinesUntouched(t, init, k);
      assert !DefinesKey(lines[|lines| - 1], k);
    }
  }

  /** After loading, a key has the value of the LAST line that sets it. */
  lemma {:induction false} LoadLinesLastDefinition(t: Table, lines: seq<string>, k: string, i: nat)
    requires i < |lines| && DefinesKey(lines[i], k)
    requires forall j :: i < j < |lines| ==> !DefinesKey(lines[j], k)
    ensures Get(LoadLines(t, lines), k) == Some(ParseLine(lines[i]).value.value)
    decreases |lines|
  {
    var init := lines[..|lines| - 1];
    if i < |lines| - 1 {
      assert forall j :: 0 <= j < |init| ==> init[j] == lines[j];
      LoadLinesLastDefinition(t, init, k, i);
      assert !DefinesKey(lines[|lines| - 1], k);
    }
  }

  /** Loading one more line keeps the keys loaded so far, in place. */
  lemma LoadOneMoreLine(t: Table, lines: seq<string>, n: nat)
    requires n < |lines|
    ensures Keys(LoadLines(t, lines[..n])) <= Keys(LoadLines(t, lines[..n + 1]))
  {
    var p := lines[..n + 1];
    assert p[..|p| - 1] == lines[..n];
  }

  /** Loading more lines never moves a key already placed: earlier tables are prefixes of later ones. */
  lemma {:induction false} LoadLinesKeepsPositions(t: Table, lines: seq<string>, n: nat)
    requires n <= |lines|
    ensures Keys(LoadLines(t, lines[..n])) <= Keys(LoadLines(t, lines))
    decreases |lines| - n
  {
    if n < |lines| {
      LoadOneMoreLine(t, lines, n);
      LoadLinesKeepsPositions(t, lines, n + 1);
    } else {
      assert lines[..n] == lines;
    }
  }

  /**
   * A key first set by line `j` sits, in the final table, at the position
   * where the table loaded so far ended.
   */
  lemma FirstDefinitionFixesPosition(t: Table, lines: seq<string>, j: nat, k: string)
    requires j < |lines| && DefinesKey(lines[j], k)
    requires !HasKey(LoadLines(t, lines[..j]), k)
    ensures var n := |LoadLines(t, lines[..j])|;
      n < |LoadLines(t, lines)| && LoadLines(t, lines)[n].key == k
  {
    var before := LoadLines(t, lines[..j]);
    var p := lines[..j + 1];
    assert p[..|p| - 1] == lines[..j];
    assert Keys(LoadLines(t, p)) == Keys(before) + [k];
    LoadLinesKeepsPositions(t, lines, j + 1);
    var final := LoadLines(t, lines);
    assert Keys(final)[|before|] == k;
  }

  /** Every key and every id loaded from a file is non-empty. */
  lemma {:induction false} LoadedEntriesAreNonEmpty(lines: seq<string>)
    ensures forall i :: 0 <= i < |LoadLines([], lines)| ==>
      LoadLines([], lines)[i].key != [] && LoadLines([], lines)[i].value != []
    decreases |lines|
  {
    if lines != [] {
      var init := lines[..|lines| - 1];
      LoadedEntriesAreNonEmpty(init);
      var before := LoadLines([], init);
      match ParseLine(lines[|lines| - 1])
      case None =>
      case Some(e) =>
        ParsedColumnsAreNonEmpty(lines[|lines| - 1]);
        var after := Put(before, e.key, e.value);
        forall i | 0 <= i < |after| ensures after[i].key != [] && after[i].value != [] {
          match IndexOf(before, e.key)
          case Some(k) =>
          case None =>
        }
    }
  }
}
