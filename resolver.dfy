/**
 * The name resolver of `map_scanned_character_names_to_json_equivalent`:
 * each recognised name becomes a canonical id, by exact lookup or else by
 * the closest key within edit distance 3, and one unresolved name fails
 * the whole list.
 */
module Resolver {
  import opened Wrappers
  import opened NameTable
  import opened EditDistance

  /** The largest edit distance a fuzzy match may have. */
  const MaxDistance: nat := 3

  datatype ResolveError =
    | EmptyTable(name: string)                  // `min` over no keys raises
    | NoCloseMatch(name: string, distance: nat) // the closest key is too far away

  /**
   * Python's `min(((key, dist(key)) for key in keys), key=lambda x: x[1])`:
   * scanning left to right, a later key replaces the best so far only when
   * strictly closer, so the result is the FIRST key of least distance.
   */
  function Closest(t: Table, name: string): (i: nat)
    requires |t| > 0
    ensures i < |t|
    ensures forall j :: 0 <= j < |t| ==> Dist(name, t[i].key) <= Dist(name, t[j].key)
    ensures forall j :: 0 <= j < i ==> Dist(name, t[i].key) < Dist(name, t[j].key)
    decreases |t|
  {
    if |t| == 1 then 0
    else
      var init := t[..|t| - 1];
      var b := Closest(init, name);
      assert forall j :: 0 <= j < |init| ==> init[j] == t[j];
      if Dist(name, t[|t| - 1].key) < Dist(name, t[b].key) then |t| - 1 else b
  }

  /** One name: exact lookup first, then the closest key if it is within `MaxDistance`. */
  function ResolveName(t: Table, name: string): (r: Result<string, ResolveError>)
    ensures r.Err? ==> r.error.name == name
    ensures r.Err? ==> (r.error.EmptyTable? <==> |t| == 0)
    ensures r.Err? && r.error.NoCloseMatch? ==> r.error.distance > MaxDistance
  {
    match Get(t, name)
    case Some(v) => Ok(v)
    case None =>
      if |t| == 0 then Err(EmptyTable(name))
      else
        var i := Closest(t, name);
        var d := Dist(name, t[i].key);
        if d <= MaxDistance then
          assert HasKey(t, t[i].key);
          Ok(Get(t, t[i].key).value)
        else Err(NoCloseMatch(name, d))
  }

  /**
   * The `for name in names` loop with its early `raise`: `f` applied to each
   * name, left to right, giving every result in order or the first error.
   */
  function MapAll<E>(f: string -> Result<string, E>, names: seq<string>): (r: Result<seq<string>, E>)
    ensures r.Ok? <==> forall i :: 0 <= i < |names| ==> f(names[i]).Ok?
    ensures r.Ok? ==> |r.value| == |names|
    ensures r.Ok? ==> forall i :: 0 <= i < |names| ==> f(names[i]) == Ok(r.value[i])
    ensures r.Err? ==> exists i :: 0 <= i < |names| && f(names[i]) == Err(r.error)
                               && forall j :: 0 <= j < i ==> f(names[j]).Ok?
    decreases |names|
  {
    if names == [] then Ok([])
    else
      var init, last := names[..|names| - 1], names[|names| - 1];
      assert forall j :: 0 <= j < |init| ==> init[j] == names[j];
      var before := MapAll(f, init);
      if before.Err? then before
      else
        var here := f(last);
        if here.Err? then Err(here.error)
        else
          var vs := before.value + [here.value];
          assert forall j :: 0 <= j < |init| ==> vs[j] == before.value[j];
          Ok(vs)
  }

  /** The whole list: the ids in input order, or the error of the first name that does not resolve. */
  function ResolveAll(t: Table, names: seq<string>): (r: Result<seq<string>, ResolveError>)
    ensures r.Ok? <==> forall i :: 0 <= i < |names| ==> ResolveName(t, names[i]).Ok?
    ensures r.Ok? ==> |r.value| == |names|
    ensures r.Ok? ==> forall i :: 0 <= i < |names| ==> ResolveName(t, names[i]) == Ok(r.value[i])
    ensures r.Err? ==> exists i :: 0 <= i < |names| && ResolveName(t, names[i]) == Err(r.error)
                               && forall j :: 0 <= j < i ==> ResolveName(t, names[j]).Ok?
  {
    MapAll(name => ResolveName(t, name), names)
  }

  /** A name that is a key of the table resolves to that key's id, with no fuzzy step. */
  lemma ExactNameResolves(t: Table, i: nat)
    requires Valid(t) && i < |t|
    ensures ResolveName(t, t[i].key) == Ok(t[i].value)
  {
    GetEntry(t, i);
  }

  /**
   * A name that is not a key resolves exactly when some key is within
   * `MaxDistance`, and then to the id of the first closest key.
   */
  lemma FuzzyResolution(t: Table, name: string)
    requires Valid(t) && !HasKey(t, name)
    ensures ResolveName(t, name).Ok? <==> exists j :: 0 <= j < |t| && Dist(name, t[j].key) <= MaxDistance
    ensures ResolveName(t, name).Ok? ==> |t| > 0 && ResolveName(t, name) == Ok(t[Closest(t, name)].value)
  {
    if |t| > 0 {
      GetEntry(t, Closest(t, name));
    }
  }

  /**
   * The bound: a name within `MaxDistance` of exactly one key resolves to
   * that key's id, whatever the table order.
   */
  lemma UniqueCloseKeyResolves(t: Table, name: string, i: nat)
    requires Valid(t) && i < |t|
    requires Dist(name, t[i].key) <= MaxDistance
    requires forall j :: 0 <= j < |t| && j != i ==> Dist(name, t[j].key) > MaxDistance
    ensures ResolveName(t, name) == Ok(t[i].value)
  {
    if HasKey(t, name) {
      var k :| 0 <= k < |t| && t[k].key == name;
      DistToSelf(name);
      assert k == i;
      ExactNameResolves(t, i);
    } else {
      FuzzyResolution(t, name);
    }
  }

  /** A name farther than `MaxDistance` from every key fails, carrying that name. */
  lemma FarNameFails(t: Table, name: string)
    requires forall j :: 0 <= j < |t| ==> Dist(name, t[j].key) > MaxDistance
    ensures ResolveName(t, name).Err? && ResolveName(t, name).error.name == name
  {
    DistToSelf(name);
    assert !HasKey(t, name);
  }

  /** Every resolved id is an id of the table: raw display names never pass through. */
  lemma ResolvedIdsAreTableValues(t: Table, names: seq<string>)
    requires ResolveAll(t, names).Ok?
    ensures forall i :: 0 <= i < |names| ==>
      exists j :: 0 <= j < |t| && t[j].value == ResolveAll(t, names).value[i]
  {
    forall i | 0 <= i < |names|
      ensures exists j :: 0 <= j < |t| && t[j].value == ResolveAll(t, names).value[i]
    {
      var name := names[i];
      match IndexOf(t, name)
      case Some(j) =>
      case None =>
        var c := Closest(t, name);
        var j := IndexOf(t, t[c].key).value;
        assert t[j].value == ResolveAll(t, names).value[i];
    }
  }

  /** Mapping over a concatenation maps the parts in order; the first failure wins. */
  lemma {:induction false} MapAllAppend<E>(f: string -> Result<string, E>, a: seq<string>, b: seq<string>)
    ensures MapAll(f, a + b) ==
      match MapAll(f, a)
      case Err(e) => Err(e)
      case Ok(va) =>
        match MapAll(f, b)
        case Err(e) => Err(e)
        case Ok(vb) => Ok(va + vb)
    decreases |b|
  {
    if b == [] {
      assert a + b == a;
      assert MapAll(f, b) == Ok([]);
      if MapAll(f, a).Ok? {
        assert MapAll(f, a).value + [] == MapAll(f, a).value;
      }
    } else {
      var init := b[..|b| - 1];
      assert (a + b)[..|a + b| - 1] == a + init;
      MapAllAppend(f, a, init);
      if MapAll(f, a).Ok? && MapAll(f, init).Ok? && f(b[|b| - 1]).Ok? {
        assert MapAll(f, a).value + MapAll(f, init).value + [f(b[|b| - 1]).value]
            == MapAll(f, a).value + (MapAll(f, init).value + [f(b[|b| - 1]).value]);
      }
    }
  }

  /** Resolution is order-preserving: the ids of `a + b` are those of `a` followed by those of `b`. */
  lemma ResolveAllAppend(t: Table, a: seq<string>, b: seq<string>)
    requires ResolveAll(t, a).Ok? && ResolveAll(t, b).Ok?
    ensures ResolveAll(t, a + b) == Ok(ResolveAll(t, a).value + ResolveAll(t, b).value)
  {
    MapAllAppend(name => ResolveName(t, name), a, b);
  }
}
