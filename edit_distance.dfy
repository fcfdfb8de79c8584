/**
 * Levenshtein distance, the measure the name resolver uses to repair OCR
 * misreads: the least number of single-character insertions, deletions and
 * substitutions that turn one string into the other.
 */
module EditDistance {

  function Min3(x: nat, y: nat, z: nat): (m: nat)
    ensures m <= x && m <= y && m <= z
    ensures m == x || m == y || m == z
  {
    if x <= y && x <= z then x else if y <= z then y else z
  }

  /** The reference definition, by recursion on the prefixes of `a` and `b`. */
  function Dist(a: string, b: string): nat
    decreases |a| + |b|
  {
    if |a| == 0 then |b|
    else if |b| == 0 then |a|
    else
      Min3(Dist(a[..|a| - 1], b) + 1,
           Dist(a, b[..|b| - 1]) + 1,
           Dist(a[..|a| - 1], b[..|b| - 1]) + (if a[|a| - 1] == b[|b| - 1] then 0 else 1))
  }

  lemma {:induction false} DistToSelf(a: string)
    ensures Dist(a, a) == 0
  {
    if a != [] {
      DistToSelf(a[..|a| - 1]);
    }
  }

  /** The distance is at least the difference of the lengths. */
  lemma {:induction false} DistAtLeastLengthGap(a: string, b: string)
    ensures Dist(a, b) >= |a| - |b| && Dist(a, b) >= |b| - |a|
    decreases |a| + |b|
  {
    if |a| > 0 && |b| > 0 {
      DistAtLeastLengthGap(a[..|a| - 1], b);
      DistAtLeastLengthGap(a, b[..|b| - 1]);
      DistAtLeastLengthGap(a[..|a| - 1], b[..|b| - 1]);
    }
  }

  /** Distance zero means the strings are equal, so a fuzzy match at distance 0 is an exact one. */
  lemma {:induction false} DistZeroOnlyForEqual(a: string, b: string)
    requires Dist(a, b) == 0
    ensures a == b
    decreases |a| + |b|
  {
    if |a| > 0 && |b| > 0 {
      var a', b' := a[..|a| - 1], b[..|b| - 1];
      assert Dist(a', b') == 0 && a[|a| - 1] == b[|b| - 1];
      DistZeroOnlyForEqual(a', b');
      assert a == a' + [a[|a| - 1]] && b == b' + [b[|b| - 1]];
    }
  }

  lemma {:induction false} DistSymmetric(a: string, b: string)
    ensures Dist(a, b) == Dist(b, a)
    decreases |a| + |b|
  {
    if |a| > 0 && |b| > 0 {
      DistSymmetric(a[..|a| - 1], b);
      DistSymmetric(a, b[..|b| - 1]);
      DistSymmetric(a[..|a| - 1], b[..|b| - 1]);
    }
  }

  /** Dropping the last character of `a` costs at most one edit. */
  lemma DeleteLast(a: string, b: string)
    requires |a| > 0
    ensures Dist(a, b) <= Dist(a[..|a| - 1], b) + 1
  {
  }

  /** Appending a character to `b` lowers the distance by at most one. */
  lemma {:induction false} AppendOne(a: string, b: string, c: char)
    ensures Dist(a, b) <= Dist(a, b + [c]) + 1
    decreases |a|
  {
    var bc := b + [c];
    assert bc[..|bc| - 1] == b;
    if |a| > 0 {
      var init := a[..|a| - 1];
      AppendOne(init, b, c);
      DeleteLast(a, b);
      assert Dist(a, bc) == Min3(Dist(init, bc) + 1, Dist(a, b) + 1,
                                 Dist(init, b) + (if a[|a| - 1] == c then 0 else 1));
    }
  }

  /** Appending the same character to both strings leaves the distance unchanged. */
  lemma CommonLastCharacter(a: string, b: string, c: char)
    ensures Dist(a + [c], b + [c]) == Dist(a, b)
  {
    assert (a + [c])[..|a|] == a && (b + [c])[..|b|] == b;
    AppendOne(a, b, c);
    AppendOne(b, a, c);
    DistSymmetric(a, b);
    DistSymmetric(a + [c], b);
  }

  /** A common suffix can be dropped without changing the distance. */
  lemma {:induction false} DistCommonSuffix(a: string, b: string, s: string)
    ensures Dist(a + s, b + s) == Dist(a, b)
    decreases |s|
  {
    if s != [] {
      var init, c := s[..|s| - 1], s[|s| - 1];
      DistCommonSuffix(a, b, init);
      CommonLastCharacter(a + init, b + init, c);
      assert a + s == (a + init) + [c] && b + s == (b + init) + [c];
    } else {
      assert a + s == a && b + s == b;
    }
  }

  /** Changing one character gives distance exactly one. */
  lemma OneSubstitution(p: string, x: char, y: char, s: string)
    requires x != y
    ensures Dist(p + [x] + s, p + [y] + s) == 1
  {
    DistToSelf(p);
    assert Dist(p + [x], p + [y]) <= 1 by {
      assert (p + [x])[..|p|] == p && (p + [y])[..|p|] == p;
    }
    DistCommonSuffix(p + [x], p + [y], s);
    assert (p + [x] + s)[|p|] == x && (p + [y] + s)[|p|] == y;
    if Dist(p + [x] + s, p + [y] + s) == 0 {
      DistZeroOnlyForEqual(p + [x] + s, p + [y] + s);
    }
  }

  /** One cell of the distance table from its three neighbours. */
  lemma TableCell(a: string, b: string, i: nat, j: nat)
    requires i < |a| && j < |b|
    ensures Dist(a[..i + 1], b[..j + 1])
         == Min3(Dist(a[..i], b[..j + 1]) + 1,
                 Dist(a[..i + 1], b[..j]) + 1,
                 Dist(a[..i], b[..j]) + (if a[i] == b[j] then 0 else 1))
  {
    assert a[..i + 1][..i] == a[..i] && b[..j + 1][..j] == b[..j];
  }

  /**
   * `Levenshtein.distance(a, b)` by the usual dynamic programme, one row of
   * the distance table at a time.
   */
  method Distance(a: string, b: string) returns (d: nat)
    ensures d == Dist(a, b)
  {
    var prev: seq<nat> := seq(|b| + 1, j => j);
    assert a[..0] == [];
    var i := 0;
    while i < |a|
      invariant 0 <= i <= |a|
      invariant |prev| == |b| + 1
      invariant forall j :: 0 <= j <= |b| ==> prev[j] == Dist(a[..i], b[..j])
    {
      prev := NextRow(a, b, i, prev);
      i := i + 1;
    }
    assert a[..|a|] == a && b[..|b|] == b;
    d := prev[|b|];
  }

  /** Row `i + 1` of the distance table from row `i`. */
  method NextRow(a: string, b: string, i: nat, prev: seq<nat>) returns (row: seq<nat>)
    requires i < |a| && |prev| == |b| + 1
    requires forall j :: 0 <= j <= |b| ==> prev[j] == Dist(a[..i], b[..j])
    ensures |row| == |b| + 1
    ensures forall j :: 0 <= j <= |b| ==> row[j] == Dist(a[..i + 1], b[..j])
  {
    row := [i + 1];
    assert Dist(a[..i + 1], b[..0]) == i + 1 by { assert b[..0] == []; }
    var j := 0;
    while j < |b|
      invariant 0 <= j <= |b|
      invariant |row| == j + 1
      invariant forall k :: 0 <= k <= j ==> row[k] == Dist(a[..i + 1], b[..k])
    {
      var cost := if a[i] == b[j] then 0 else 1;
      ExtendRow(a, b, i, j, prev, row);
      row := row + [Min3(prev[j + 1] + 1, row[j] + 1, prev[j] + cost)];
      j := j + 1;
    }
  }

  /** The next cell of a row, computed from the cells the loop has already filled in. */
  lemma ExtendRow(a: string, b: string, i: nat, j: nat, prev: seq<nat>, row: seq<nat>)
    requires i < |a| && j < |b| && |prev| == |b| + 1 && |row| == j + 1
    requires prev[j] == Dist(a[..i], b[..j]) && prev[j + 1] == Dist(a[..i], b[..j + 1])
    requires forall k :: 0 <= k <= j ==> row[k] == Dist(a[..i + 1], b[..k])
    ensures var next := row + [Min3(prev[j + 1] + 1, row[j] + 1, prev[j] + (if a[i] == b[j] then 0 else 1))];
      forall k :: 0 <= k <= j + 1 ==> next[k] == Dist(a[..i + 1], b[..k])
  {
    TableCell(a, b, i, j);
    var next := row + [Min3(prev[j + 1] + 1, row[j] + 1, prev[j] + (if a[i] == b[j] then 0 else 1))];
    assert next[j + 1] == Dist(a[..i + 1], b[..j + 1]);
    assert forall k :: 0 <= k <= j ==> next[k] == row[k];
  }
}
