/**
 * The Python `str` operations the scanner relies on: `strip()`, `split(sep)`,
 * `split(sep, 1)` and `replace(c, "")`, over `string` (a `seq<char>`).
 */
module Text {
  import opened Wrappers

  /**
   * The characters Python's `str.strip()` removes, restricted to ASCII:
   * tab, line feed, vertical tab, form feed, carriage return, the four
   * information separators (0x1C-0x1F) and space.
   */
  predicate IsSpace(c: char) {
    9 <= c as int <= 13 || 28 <= c as int <= 32
  }

  predicate AllSpace(s: string) {
    forall k :: 0 <= k < |s| ==> IsSpace(s[k])
  }

  /** The number of whitespace characters at the start of `s`. */
  function LeadingSpaces(s: string): (n: nat)
    ensures n <= |s|
    ensures AllSpace(s[..n])
    ensures n < |s| ==> !IsSpace(s[n])
  {
    if s != [] && IsSpace(s[0]) then
      var m := LeadingSpaces(s[1..]);
      assert forall k :: 0 < k < m + 1 ==> s[k] == s[1..][..m][k - 1];
      1 + m
    else 0
  }

  /** The number of whitespace characters at the end of `s`. */
  function TrailingSpaces(s: string): (n: nat)
    ensures n <= |s|
    ensures AllSpace(s[|s| - n..])
    ensures n < |s| ==> !IsSpace(s[|s| - 1 - n])
  {
    if s != [] && IsSpace(s[|s| - 1]) then
      var init := s[..|s| - 1];
      var m := TrailingSpaces(init);
      assert s[|s| - (m + 1)..] == init[|init| - m..] + [s[|s| - 1]];
      1 + m
    else 0
  }

  /** `s.strip()`: `s` without its leading and trailing whitespace. */
  function Strip(s: string): (r: string)
    ensures |r| <= |s|
    ensures r == [] <==> AllSpace(s)
    ensures r != [] ==> !IsSpace(r[0]) && !IsSpace(r[|r| - 1])
  {
    var i := LeadingSpaces(s);
    if i == |s| then
      assert s[..i] == s;
      []
    else
      var t := TrailingSpaces(s);
      s[i..|s| - t]
  }

  /** `strip()` removes whitespace only, and only at the two ends. */
  lemma StripKeepsTheCore(s: string)
    ensures var i := LeadingSpaces(s);
      && i + |Strip(s)| <= |s|
      && s == s[..i] + Strip(s) + s[i + |Strip(s)|..]
      && AllSpace(s[..i]) && AllSpace(s[i + |Strip(s)|..])
  {
    var i := LeadingSpaces(s);
    var r := Strip(s);
    if i == |s| {
      assert s[i + |r|..] == [];
      assert s == s[..i] + r + s[i + |r|..];
    } else {
      var t := TrailingSpaces(s);
      assert r == s[i..|s| - t];
      assert i + |r| == |s| - t;
      assert s == s[..i] + s[i..|s| - t] + s[|s| - t..];
    }
  }

  /** `strip()` is determined by where the non-whitespace text starts and ends. */
  lemma StripCharacterized(s: string, i: nat, j: nat)
    requires i < j <= |s|
    requires AllSpace(s[..i]) && AllSpace(s[j..])
    requires !IsSpace(s[i]) && !IsSpace(s[j - 1])
    ensures Strip(s) == s[i..j]
  {
    var n := LeadingSpaces(s);
    var m := TrailingSpaces(s);
    assert n == i;
    assert |s| - m == j;
  }

  lemma StripIdempotent(s: string)
    ensures Strip(Strip(s)) == Strip(s)
  {
    var r := Strip(s);
    if r != [] {
      assert LeadingSpaces(r) == 0;
      assert TrailingSpaces(r) == 0;
      assert r[0..|r|] == r;
    }
  }

  /** `s.split(sep)` for a one-character separator: the pieces between the separators. */
  function Split(s: string, sep: char): (parts: seq<string>)
    ensures |parts| >= 1
    ensures forall p :: p in parts ==> sep !in p
  {
    if s == [] then [[]]
    else
      var rest := Split(s[1..], sep);
      if s[0] == sep then [[]] + rest
      else
        assert forall p :: p in rest[1..] ==> p in rest;
        [[s[0]] + rest[0]] + rest[1..]
  }

  /** `sep.join(parts)`, the inverse of `Split`. */
  function Join(parts: seq<string>, sep: char): string
    requires |parts| >= 1
  {
    if |parts| == 1 then parts[0] else parts[0] + [sep] + Join(parts[1..], sep)
  }

  /** The number of occurrences of `c` in `s`. */
  function Count(s: string, c: char): nat {
    if s == [] then 0 else (if s[0] == c then 1 else 0) + Count(s[1..], c)
  }

  lemma {:induction false} JoinSplit(s: string, sep: char)
    ensures Join(Split(s, sep), sep) == s
  {
    if s != [] {
      JoinSplit(s[1..], sep);
      var rest := Split(s[1..], sep);
      if s[0] != sep {
        if |rest| == 1 {
        } else {
          assert rest == [rest[0]] + rest[1..];
          assert Join(rest, sep) == rest[0] + [sep] + Join(rest[1..], sep);
          assert ([s[0]] + rest[0]) + [sep] + Join(rest[1..], sep)
              == [s[0]] + (rest[0] + [sep] + Join(rest[1..], sep));
        }
      }
    }
  }

  lemma {:induction false} SplitJoin(parts: seq<string>, sep: char)
    requires |parts| >= 1
    requires forall p :: p in parts ==> sep !in p
    ensures Split(Join(parts, sep), sep) == parts
    decreases |parts|, |parts[0]|
  {
    var head := parts[0];
    if |parts| == 1 {
      SplitOfSepFree(head, sep);
    } else if head == [] {
      var tail := Join(parts[1..], sep);
      assert Join(parts, sep) == [sep] + tail;
      assert ([sep] + tail)[1..] == tail;
      assert forall p :: p in parts[1..] ==> p in parts;
      SplitJoin(parts[1..], sep);
      assert parts == [[]] + parts[1..];
    } else {
      var shorter := [head[1..]] + parts[1..];
      assert forall p :: p in shorter ==> p == head[1..] || p in parts;
      assert Join(shorter, sep) == head[1..] + [sep] + Join(parts[1..], sep) by {
        assert shorter[1..] == parts[1..];
      }
      assert Join(parts, sep) == [head[0]] + Join(shorter, sep);
      assert ([head[0]] + Join(shorter, sep))[1..] == Join(shorter, sep);
      assert sep !in head[1..] by {
        assert forall c :: c in head[1..] ==> c in head;
      }
      SplitJoin(shorter, sep);
      assert head[0] != sep by { assert head[0] in head; }
      var j := Join(parts, sep);
      assert j[0] == head[0] && j[1..] == Join(shorter, sep);
      assert Split(j, sep) == [[head[0]] + shorter[0]] + shorter[1..];
      assert [head[0]] + head[1..] == head;
      assert parts == [head] + parts[1..];
    }
  }

  lemma {:induction false} SplitOfSepFree(s: string, sep: char)
    requires sep !in s
    ensures Split(s, sep) == [s]
  {
    if s != [] {
      assert s[0] in s;
      assert forall c :: c in s[1..] ==> c in s;
      SplitOfSepFree(s[1..], sep);
      assert Split(s, sep) == [[s[0]] + s[1..]];
      assert [s[0]] + s[1..] == s;
    }
  }

  lemma {:induction false} SplitCount(s: string, sep: char)
    ensures |Split(s, sep)| == Count(s, sep) + 1
  {
    if s != [] {
      SplitCount(s[1..], sep);
    }
  }

  /** `pat` occurs in `s` starting at index `i`. */
  predicate OccursAt(s: string, pat: string, i: nat) {
    i + |pat| <= |s| && s[i..i + |pat|] == pat
  }

  /** `s.find(pat)`: the first index at which `pat` occurs in `s`, if any. */
  function FindFirst(s: string, pat: string): (r: Option<nat>)
    ensures r.Some? ==> OccursAt(s, pat, r.value)
    ensures r.Some? ==> forall j :: 0 <= j < r.value ==> !OccursAt(s, pat, j)
    ensures r.None? ==> forall j :: 0 <= j <= |s| ==> !OccursAt(s, pat, j)
  {
    FindFrom(s, pat, 0)
  }

  function FindFrom(s: string, pat: string, i: nat): (r: Option<nat>)
    requires i <= |s|
    requires forall j :: 0 <= j < i ==> !OccursAt(s, pat, j)
    ensures r.Some? ==> i <= r.value && OccursAt(s, pat, r.value)
    ensures r.Some? ==> forall j :: 0 <= j < r.value ==> !OccursAt(s, pat, j)
    ensures r.None? ==> forall j :: 0 <= j <= |s| ==> !OccursAt(s, pat, j)
    decreases |s| - i
  {
    if OccursAt(s, pat, i) then Some(i)
    else if i == |s| then None
    else FindFrom(s, pat, i + 1)
  }

  /** `FindFirst` finds the occurrence that no other occurrence precedes. */
  lemma FindFirstIs(s: string, pat: string, i: nat)
    requires OccursAt(s, pat, i)
    requires forall j :: 0 <= j < i ==> !OccursAt(s, pat, j)
    ensures FindFirst(s, pat) == Some(i)
  {
    var r := FindFirst(s, pat);
    assert !(r.value < i);
  }

  /** A pattern cannot occur where its first character does not. */
  lemma NoOccurrenceWithout(s: string, pat: string, lo: nat, hi: nat)
    requires pat != [] && lo <= hi <= |s|
    requires pat[0] !in s[lo..hi]
    ensures forall j :: lo <= j < hi ==> !OccursAt(s, pat, j)
  {
    forall j | lo <= j < hi ensures !OccursAt(s, pat, j) {
      assert s[j] == s[lo..hi][j - lo];
      if j + |pat| <= |s| {
        assert s[j..j + |pat|][0] == s[j];
      }
    }
  }

  /** `s.split(sep, 1)`: at most one split, at the first occurrence of `sep`. */
  function SplitOnce(s: string, sep: string): (parts: seq<string>)
    requires sep != []
    ensures |parts| == 1 || |parts| == 2
    ensures |parts| == 1 <==> forall j :: 0 <= j <= |s| ==> !OccursAt(s, sep, j)
    ensures |parts| == 1 ==> parts[0] == s
    ensures |parts| == 2 ==> s == parts[0] + sep + parts[1]
    ensures |parts| == 2 ==> forall j :: 0 <= j < |parts[0]| ==> !OccursAt(s, sep, j)
  {
    match FindFirst(s, sep)
    case None => [s]
    case Some(i) =>
      assert s == s[..i] + sep + s[i + |sep|..] by {
        assert s == s[..i] + s[i..i + |sep|] + s[i + |sep|..];
      }
      [s[..i], s[i + |sep|..]]
  }

  /** `split(sep, 1)` cuts at the first occurrence of `sep`. */
  lemma SplitOnceAtFirst(s: string, sep: string, i: nat)
    requires sep != []
    requires OccursAt(s, sep, i)
    requires forall j :: 0 <= j < i ==> !OccursAt(s, sep, j)
    ensures SplitOnce(s, sep) == [s[..i], s[i + |sep|..]]
  {
    FindFirstIs(s, sep, i);
  }

  /** `s.replace(c, "")` for a one-character `c`. */
  function RemoveAll(s: string, c: char): (r: string)
    ensures c !in r
    ensures forall d :: d != c ==> (d in r <==> d in s)
    ensures |r| == |s| - Count(s, c)
  {
    if s == [] then []
    else
      var rest := RemoveAll(s[1..], c);
      assert s == [s[0]] + s[1..];
      if s[0] == c then rest else [s[0]] + rest
  }

  lemma {:induction false} RemoveAllConcat(a: string, b: string, c: char)
    ensures RemoveAll(a + b, c) == RemoveAll(a, c) + RemoveAll(b, c)
  {
    if a != [] {
      assert (a + b)[1..] == a[1..] + b;
      RemoveAllConcat(a[1..], b, c);
    } else {
      assert a + b == b;
    }
  }

  lemma {:induction false} RemoveAllAbsent(s: string, c: char)
    requires c !in s
    ensures RemoveAll(s, c) == s
  {
    if s != [] {
      assert s[0] in s;
      assert forall d :: d in s[1..] ==> d in s;
      RemoveAllAbsent(s[1..], c);
    }
  }
}
