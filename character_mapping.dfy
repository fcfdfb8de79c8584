/**
 * The process-wide `character_mapping` dictionary and the two functions
 * that touch it: `load_character_mapping`, which fills it line by line,
 * and `map_scanned_character_names_to_json_equivalent`, which reads it.
 */
module Characters {
  import opened Wrappers
  import Text
  import opened NameTable
  import opened EditDistance
  import opened Resolver

  class CharacterMapping {
    /** The dictionary's entries, in insertion order. */
    var entries: Table

    /** The empty dictionary the module starts with. */
    constructor ()
      ensures entries == []
    {
      entries := [];
    }

    /**
     * `load_character_mapping` over the lines of the file (opening and
     * reading it is left to the caller): each line with exactly two
     * tab-separated columns after stripping is stored, key to value.
     */
    method Load(lines: seq<string>)
      modifies this
      ensures entries == LoadLines(old(entries), lines)
      ensures Valid(old(entries)) ==> Valid(entries)
    {
      var i := 0;
      while i < |lines|
        invariant 0 <= i <= |lines|
        invariant entries == LoadLines(old(entries), lines[..i])
      {
        var columns := Text.Split(Text.Strip(lines[i]), '\t');
        LoadStep(old(entries), lines, i);
        if |columns| == 2 {
          entries := Put(entries, columns[0], columns[1]);
        }
        i := i + 1;
      }
      assert lines[..i] == lines;
      if Valid(old(entries)) {
        LoadLinesValid(old(entries), lines);
      }
    }

    /**
     * `map_scanned_character_names_to_json_equivalent`: the canonical id of
     * every name, in order, or the first name that has no match.
     */
    method MapScannedNames(names: seq<string>) returns (r: Result<seq<string>, ResolveError>)
      ensures r == ResolveAll(entries, names)
    {
      var ids: seq<string> := [];
      var n := 0;
      while n < |names|
        invariant 0 <= n <= |names|
        invariant ResolveAll(entries, names[..n]) == Ok(ids)
      {
        var name := names[n];
        assert names[..n + 1][..n] == names[..n];
        var exact := Get(entries, name);
        if exact.Some? {
          ResolveStep(entries, names, n, ids);
          ids := ids + [exact.value];
        } else if |entries| == 0 {
          r := Err(EmptyTable(name));
          FirstFailure(entries, names, n);
          return;
        } else {
          var best, bestDistance := ClosestKey(name);
          if bestDistance <= MaxDistance {
            ResolveStep(entries, names, n, ids);
            ids := ids + [Get(entries, entries[best].key).value];
          } else {
            r := Err(NoCloseMatch(name, bestDistance));
            FirstFailure(entries, names, n);
            return;
          }
        }
        n := n + 1;
      }
      assert names[..n] == names;
      r := Ok(ids);
    }

    /** The `min` over all keys: the first entry whose key is closest to `name`. */
    method ClosestKey(name: string) returns (best: nat, bestDistance: nat)
      requires |entries| > 0
      ensures best == Closest(entries, name)
      ensures bestDistance == Dist(name, entries[best].key)
    {
      var t := entries;
      best := 0;
      bestDistance := Distance(name, t[0].key);
      var j := 1;
      while j < |t|
        invariant 1 <= j <= |t|
        invariant best == Closest(t[..j], name)
        invariant bestDistance == Dist(name, t[best].key)
      {
        var d := Distance(name, t[j].key);
        ClosestStep(t, name, j);
        if d < bestDistance {
          best, bestDistance := j, d;
        }
        j := j + 1;
      }
      assert t[..j] == t;
    }
  }

  /** One more key for `min` to scan: it wins only when strictly closer. */
  lemma ClosestStep(t: Table, name: string, j: nat)
    requires 0 < j < |t|
    ensures Closest(t[..j + 1], name)
         == if Dist(name, t[j].key) < Dist(name, t[Closest(t[..j], name)].key) then j
            else Closest(t[..j], name)
  {
    assert t[..j + 1][..j] == t[..j];
  }

  /** One more line of the file: stored when it has exactly two columns, skipped otherwise. */
  lemma LoadStep(t: Table, lines: seq<string>, i: nat)
    requires i < |lines|
    ensures var columns := Text.Split(Text.Strip(lines[i]), '\t');
      LoadLines(t, lines[..i + 1])
        == if |columns| == 2 then Put(LoadLines(t, lines[..i]), columns[0], columns[1])
           else LoadLines(t, lines[..i])
  {
    assert lines[..i + 1][..i] == lines[..i];
  }

  /** A name that resolves extends the resolved prefix by its id. */
  lemma ResolveStep(t: Table, names: seq<string>, n: nat, ids: seq<string>)
    requires n < |names| && ResolveAll(t, names[..n]) == Ok(ids) && ResolveName(t, names[n]).Ok?
    ensures ResolveAll(t, names[..n + 1]) == Ok(ids + [ResolveName(t, names[n]).value])
  {
    assert names[..n + 1][..n] == names[..n];
  }

  /** The list fails with the error of name `n` when all names before it resolve. */
  lemma FirstFailure(t: Table, names: seq<string>, n: nat)
    requires n < |names| && ResolveAll(t, names[..n]).Ok? && ResolveName(t, names[n]).Err?
    ensures ResolveAll(t, names) == Err(ResolveName(t, names[n]).error)
  {
    assert forall j :: 0 <= j < n ==> names[..n][j] == names[j];
    var r := ResolveAll(t, names);
    var i :| 0 <= i < |names| && ResolveName(t, names[i]) == Err(r.error)
      && forall j :: 0 <= j < i ==> ResolveName(t, names[j]).Ok?;
    assert !(i < n) && !(n < i);
  }
}
