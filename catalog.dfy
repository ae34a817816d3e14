/** The country-level helpers: the country filter of `applyFilters` and the option lists
    of the country and sector dropdowns. */
module Catalog {
  import opened JsString
  import opened JsValue
  import opened Metrics
  import opened Seqs
  import opened Sorting
  import opened Districts

  /** `String(f?.properties?.name) === String(country)`. */
  function NameIs(country: string): Feature -> bool {
    (f: Feature) => ToStr(Field(f.properties, "name")) == country
  }

  /** The country filter of `applyFilters`: every feature for `"__all__"`, otherwise the
      features whose name is the country, in their original order. */
  function CountryFilter(features: seq<Feature>, country: string): (r: seq<Feature>)
    ensures country == AllValue ==> r == features
    ensures country != AllValue ==> SubsequenceOf(r, features)
    ensures country != AllValue ==>
      forall f :: f in r <==> f in features && ToStr(Field(f.properties, "name")) == country
    ensures country != AllValue ==>
      forall f :: multiset(r)[f] == if NameIs(country)(f) then multiset(features)[f] else 0
  {
    if country == AllValue then features else Filter(features, NameIs(country))
  }

  /** No value occurs twice. */
  ghost predicate Distinct(s: seq<string>) {
    forall i, j :: 0 <= i < j < |s| ==> s[i] != s[j]
  }

  /** The values of a sequence. */
  ghost function Elems(s: seq<string>): set<string> {
    set x | x in s
  }

  /** A duplicate-free sequence has each value at most once in its multiset. */
  lemma {:induction false} DistinctMultiplicity(s: seq<string>)
    requires Distinct(s)
    ensures forall x :: multiset(s)[x] <= 1
  {
    if s != [] {
      var t := s[1..];
      assert s == [s[0]] + t;
      assert Distinct(t) by {
        forall i, j | 0 <= i < j < |t| ensures t[i] != t[j] { assert t[i] == s[i + 1] && t[j] == s[j + 1]; }
      }
      assert s[0] !in t by {
        forall i | 0 <= i < |t| ensures t[i] != s[0] { assert t[i] == s[i + 1]; }
      }
      DistinctMultiplicity(t);
    }
  }

  /** A sequence with each value at most once in its multiset has no duplicates. */
  lemma MultiplicityDistinct(s: seq<string>)
    requires forall x :: multiset(s)[x] <= 1
    ensures Distinct(s)
  {
    forall i, j | 0 <= i < j < |s| ensures s[i] != s[j] {
      assert s == s[..j] + [s[j]] + s[j + 1..];
      assert s[..j][i] == s[i];
      assert multiset(s[..j])[s[i]] >= 1;
      assert multiset(s) == multiset(s[..j]) + multiset{s[j]} + multiset(s[j + 1..]);
      assert multiset(s)[s[i]] >= multiset(s[..j])[s[i]] + multiset{s[j]}[s[i]];
      assert multiset(s)[s[i]] <= 1;
    }
  }

  /** `set.add(x)` on a set kept as its values in insertion order. */
  method AddToSet(seen: seq<string>, x: string) returns (r: seq<string>)
    requires Distinct(seen)
    ensures Distinct(r) && Elems(r) == Elems(seen) + {x}
    ensures x in seen ==> r == seen
    ensures x !in seen ==> r == seen + [x]
  {
    if x in seen {
      r := seen;
    } else {
      r := seen + [x];
    }
  }

  /** Strictly increasing code-point order. */
  ghost predicate StrictlySorted(s: seq<string>) {
    forall i, j :: 0 <= i < j < |s| ==> LexLe(Codes(s[i]), Codes(s[j])) && s[i] != s[j]
  }

  /** `Array.from(set).sort()`. The default sort compares UTF-16 code units; this model
      compares code points, which differ only for characters beyond U+FFFF. */
  method SortedFromSet(seen: seq<string>) returns (r: seq<string>)
    requires Distinct(seen)
    ensures r == ISort(seen, Codes)
    ensures StrictlySorted(r) && Elems(r) == Elems(seen)
  {
    var a := new string[|seen|](i requires 0 <= i < |seen| => seen[i]);
    assert a[..] == seen;
    SortInPlace(a, Codes);
    r := a[..];
    ISortOrderedPermutation(seen, Codes);
    DistinctMultiplicity(seen);
    MultiplicityDistinct(r);
    assert forall x :: x in r <==> x in multiset(r);
    assert forall x :: x in seen <==> x in multiset(seen);
  }

  /** `f?.properties?.name`. */
  function CountryName(f: Feature): Value {
    Field(f.properties, "name")
  }

  /** The names `getUniqueCountries` collects from `fs`: `String(name)` of every truthy name. */
  ghost function CountryNames(fs: seq<Feature>): set<string>
    decreases |fs|
  {
    if fs == [] then {}
    else
      var last := CountryName(fs[|fs| - 1]);
      CountryNames(fs[..|fs| - 1]) + (if Truthy(last) then {ToStr(last)} else {})
  }

  /** A string is collected exactly when it is the `String` form of some feature's truthy
      name. */
  lemma {:induction false} CountryNamesMembers(fs: seq<Feature>, s: string)
    ensures s in CountryNames(fs) <==>
      exists i :: 0 <= i < |fs| && Truthy(CountryName(fs[i])) && ToStr(CountryName(fs[i])) == s
    decreases |fs|
  {
    if fs != [] {
      var init := fs[..|fs| - 1];
      CountryNamesMembers(init, s);
      if s in CountryNames(init) {
        var i :| 0 <= i < |init| && Truthy(CountryName(init[i])) && ToStr(CountryName(init[i])) == s;
        assert fs[i] == init[i];
      }
      if exists i :: 0 <= i < |fs| && Truthy(CountryName(fs[i])) && ToStr(CountryName(fs[i])) == s {
        var i :| 0 <= i < |fs| && Truthy(CountryName(fs[i])) && ToStr(CountryName(fs[i])) == s;
        if i < |init| {
          assert init[i] == fs[i];
        }
      }
    }
  }

  /** `getUniqueCountries(geojson)`: the distinct truthy names, sorted. */
  method GetUniqueCountries(geojson: FeatureCollection) returns (names: seq<string>)
    ensures StrictlySorted(names)
    ensures Elems(names) == CountryNames(Features(geojson))
  {
    var fs := Features(geojson);
    var seen: seq<string> := [];
    var i := 0;
    while i < |fs|
      invariant 0 <= i <= |fs|
      invariant Distinct(seen) && Elems(seen) == CountryNames(fs[..i])
    {
      assert fs[..i + 1][..i] == fs[..i];
      var name := CountryName(fs[i]);
      if Truthy(name) {
        seen := AddToSet(seen, ToStr(name));
      }
      i := i + 1;
    }
    assert fs[..|fs|] == fs;
    names := SortedFromSet(seen);
  }

  /** Under `typeof metrics === "object"` (and truthy): `Object.keys(metrics)`, the field
      names of an object or the indices of an array. */
  ghost function MetricKeys(m: Value): set<string> {
    match m
    case Obj(fields) => fields.Keys
    case Arr(items) => set i | 0 <= i < |items| :: IntToString(i)
    case _ => {}
  }

  /** The sectors one feature contributes: its truthy `sector`, the truthy entries of
      its `sectors` array, and the keys of its `metrics` object. */
  ghost function FeatureSectors(f: Feature): set<string> {
    var p := Props(f);
    (if Truthy(Field(p, "sector")) then {ToStr(Field(p, "sector"))} else {})
    + (match Field(p, "sectors")
       case Arr(items) => set s | s in items && Truthy(s) :: ToStr(s)
       case _ => {})
    + MetricKeys(Field(p, "metrics"))
  }

  /** The sectors `getUniqueSectors` collects from `fs`. */
  ghost function SectorNames(fs: seq<Feature>): set<string>
    decreases |fs|
  {
    if fs == [] then {} else SectorNames(fs[..|fs| - 1]) + FeatureSectors(fs[|fs| - 1])
  }

  /** A string is collected exactly when some feature contributes it. */
  lemma {:induction false} SectorNamesMembers(fs: seq<Feature>, s: string)
    ensures s in SectorNames(fs) <==> exists i :: 0 <= i < |fs| && s in FeatureSectors(fs[i])
    decreases |fs|
  {
    if fs != [] {
      var init, last := fs[..|fs| - 1], fs[|fs| - 1];
      assert SectorNames(fs) == SectorNames(init) + FeatureSectors(last);
      SectorNamesMembers(init, s);
      if s in SectorNames(init) {
        var i :| 0 <= i < |init| && s in FeatureSectors(init[i]);
        assert fs[i] == init[i];
      }
      if exists i :: 0 <= i < |fs| && s in FeatureSectors(fs[i]) {
        var i :| 0 <= i < |fs| && s in FeatureSectors(fs[i]);
        if i < |init| {
          assert init[i] == fs[i];
        }
      }
    }
  }

  /** Collecting one more feature adds that feature's sectors. */
  lemma SectorNamesStep(fs: seq<Feature>, i: nat)
    requires i < |fs|
    ensures SectorNames(fs[..i + 1]) == SectorNames(fs[..i]) + FeatureSectors(fs[i])
  {
    assert fs[..i + 1][..i] == fs[..i];
  }

  /** `p.sectors.forEach(s => s && set.add(String(s)))`. */
  method AddTruthy(seen: seq<string>, items: seq<Value>) returns (r: seq<string>)
    requires Distinct(seen)
    ensures Distinct(r) && Elems(r) == Elems(seen) + set s | s in items && Truthy(s) :: ToStr(s)
  {
    r := seen;
    var i := 0;
    while i < |items|
      invariant 0 <= i <= |items|
      invariant Distinct(r) && Elems(r) == Elems(seen) + set s | s in items[..i] && Truthy(s) :: ToStr(s)
    {
      assert items[..i + 1] == items[..i] + [items[i]];
      if Truthy(items[i]) {
        r := AddToSet(r, ToStr(items[i]));
      }
      i := i + 1;
    }
    assert items[..|items|] == items;
  }

  /** `Object.keys(p.metrics).forEach(k => set.add(String(k)))`. */
  method AddKeys(seen: seq<string>, m: Value) returns (r: seq<string>)
    requires Distinct(seen)
    ensures Distinct(r) && Elems(r) == Elems(seen) + MetricKeys(m)
  {
    r := seen;
    match m {
      case Obj(fields) =>
        var rest := fields.Keys;
        while rest != {}
          invariant rest <= fields.Keys
          invariant Distinct(r) && Elems(r) == Elems(seen) + (fields.Keys - rest)
          decreases rest
        {
          var k :| k in rest;
          r := AddToSet(r, k);
          rest := rest - {k};
        }
      case Arr(items) =>
        var i := 0;
        while i < |items|
          invariant 0 <= i <= |items|
          invariant Distinct(r) && Elems(r) == Elems(seen) + set j | 0 <= j < i :: IntToString(j)
        {
          r := AddToSet(r, IntToString(i));
          i := i + 1;
        }
      case _ =>
    }
  }

  /** `getUniqueSectors(geojson)`: the distinct sectors named anywhere, sorted. */
  method GetUniqueSectors(geojson: FeatureCollection) returns (sectors: seq<string>)
    ensures StrictlySorted(sectors)
    ensures Elems(sectors) == SectorNames(Features(geojson))
  {
    var fs := Features(geojson);
    var seen: seq<string> := [];
    var i := 0;
    while i < |fs|
      invariant 0 <= i <= |fs|
      invariant Distinct(seen) && Elems(seen) == SectorNames(fs[..i])
    {
      SectorNamesStep(fs, i);
      seen := AddFeatureSectors(seen, fs[i]);
      i := i + 1;
    }
    assert fs[..|fs|] == fs;
    sectors := SortedFromSet(seen);
  }

  /** The body of the `forEach` of `getUniqueSectors`, for one feature. */
  method AddFeatureSectors(seen: seq<string>, f: Feature) returns (r: seq<string>)
    requires Distinct(seen)
    ensures Distinct(r) && Elems(r) == Elems(seen) + FeatureSectors(f)
  {
    var p := Props(f);
    r := seen;
    var sector := Field(p, "sector");
    if Truthy(sector) {
      r := AddToSet(r, ToStr(sector));
    }
    var list := Field(p, "sectors");
    if list.Arr? {
      r := AddTruthy(r, list.items);
    }
    var metrics := Field(p, "metrics");
    if Truthy(metrics) && (metrics.Obj? || metrics.Arr?) {
      r := AddKeys(r, metrics);
    }
  }
}
