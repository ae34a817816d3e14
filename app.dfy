/** The page-level state of the map script and the handlers that change it: the filter
    dropdowns, loading a country's districts, and selecting a district. The map library
    and the DOM are not modelled; a district layer is represented by its feature. */
module MapApp {
  import opened Wrappers
  import opened JsValue
  import opened Metrics
  import opened Slug
  import opened Districts
  import opened Panel
  import opened Catalog

  /** `districtLayerIndex` after `onEachDistrictFeature` has run on `fs` in order, with
      `id` giving each feature's id. */
  function BuildIndex(fs: seq<Feature>, id: Feature -> string): (index: map<string, Feature>)
    // one entry per id occurring in `fs` ...
    ensures index.Keys == set i | 0 <= i < |fs| :: id(fs[i])
    // ... holding a feature of `fs` with that id
    ensures forall k :: k in index ==> index[k] in fs && id(index[k]) == k
    decreases |fs|
  {
    if fs == [] then map[]
    else
      var init, last := fs[..|fs| - 1], fs[|fs| - 1];
      assert fs == init + [last];
      BuildIndex(init, id)[id(last) := last]
  }

  /** `f` is the last feature of `fs` whose id is `k`. */
  ghost predicate LastWithId(fs: seq<Feature>, id: Feature -> string, k: string, f: Feature) {
    exists i :: 0 <= i < |fs| && fs[i] == f && forall j :: i < j < |fs| ==> id(fs[j]) != k
  }

  /** A later feature with the same id replaces an earlier one: the index holds the
      last one. */
  lemma {:induction false} BuildIndexLastWins(fs: seq<Feature>, id: Feature -> string, k: string)
    requires k in BuildIndex(fs, id)
    ensures LastWithId(fs, id, k, BuildIndex(fs, id)[k])
    decreases |fs|
  {
    var init, last := fs[..|fs| - 1], fs[|fs| - 1];
    assert BuildIndex(fs, id) == BuildIndex(init, id)[id(last) := last];
    if id(last) == k {
      assert fs[|fs| - 1] == BuildIndex(fs, id)[k];
    } else {
      assert k in BuildIndex(init, id) && BuildIndex(fs, id)[k] == BuildIndex(init, id)[k];
      BuildIndexLastWins(init, id, k);
      var i :| 0 <= i < |init| && init[i] == BuildIndex(init, id)[k] && forall j :: i < j < |init| ==> id(init[j]) != k;
      assert fs[i] == BuildIndex(fs, id)[k];
      forall j | i < j < |fs| ensures id(fs[j]) != k {
        if j < |init| { assert fs[j] == init[j]; }
      }
    }
  }

  /** The id every district's card and polygon carry. */
  function DistrictIdOf(f: Feature): string {
    IdOf(Props(f))
  }

  /** Selecting a district by its id highlights it, unless its id is the empty string,
      which `selectedDistrictId &&` treats as no selection. */
  lemma SelectingHighlights(f: Feature)
    ensures IsSelected(f, Some(DistrictIdOf(f))) <==> DistrictIdOf(f) != ""
    ensures !IsSelected(f, None)
  {
  }

  /** The district file `loadDistrictsForCountry` loads for `countryName`: none when no
      country is chosen or when the server has no file at its URL. */
  function DistrictFile(countryName: string, files: map<string, FeatureCollection>): (r: Option<FeatureCollection>)
    ensures r.Some? <==> countryName != "" && countryName != AllValue && DistrictsUrl(countryName) in files
    ensures r.Some? ==> r.value == files[DistrictsUrl(countryName)]
  {
    if countryName == "" || countryName == AllValue then None
    else if DistrictsUrl(countryName) in files then Some(files[DistrictsUrl(countryName)])
    else None
  }

  /** A country's districts come from the file named after its slug, so two country names
      with the same slug load the same districts. */
  lemma SameSlugSameDistricts(a: string, b: string, files: map<string, FeatureCollection>)
    requires a != "" && a != AllValue && b != "" && b != AllValue
    requires Slugify(a) == Slugify(b)
    ensures DistrictFile(a, files) == DistrictFile(b, files)
  {
    DistrictsUrlSameFile(a, b);
  }

  class MapPage {
    /** The global `state` record. */
    var country: string
    var sector: string
    var metric: string
    /** `rawGeoJSON`, the countries file, and the features drawn on the country layer. */
    var rawGeoJSON: Option<FeatureCollection>
    var countryLayer: Option<seq<Feature>>
    /** The dropdown options built from the countries file. */
    var countryOptions: seq<string>
    var sectorOptions: seq<string>
    /** `rawDistrictsGeoJSON` and the features drawn on `districtLayer`. */
    var rawDistricts: Option<FeatureCollection>
    var districtLayer: Option<seq<Feature>>
    var selectedDistrictId: Option<string>
    var districtLayerIndex: map<string, Feature>
    /** Whether the district panel is displayed. */
    var panelVisible: bool

    /** Every index entry is filed under its own feature's id. */
    predicate IndexConsistent()
      reads this`districtLayerIndex
    {
      forall k :: k in districtLayerIndex ==> DistrictIdOf(districtLayerIndex[k]) == k
    }

    /** The page before the countries file is loaded. */
    constructor()
      ensures country == AllValue && sector == AllValue && metric == "risk_level"
      ensures rawGeoJSON == None && countryLayer == None && countryOptions == [] && sectorOptions == []
      ensures rawDistricts == None && districtLayer == None && selectedDistrictId == None
      ensures districtLayerIndex == map[] && !panelVisible
      ensures IndexConsistent()
    {
      country, sector, metric := AllValue, AllValue, "risk_level";
      rawGeoJSON, countryLayer, countryOptions, sectorOptions := None, None, [], [];
      rawDistricts, districtLayer, selectedDistrictId := None, None, None;
      districtLayerIndex, panelVisible := map[], false;
    }

    /** The country dropdown's change handler. */
    method SetCountry(v: string)
      modifies this`country
      ensures country == v
    {
      country := v;
    }

    /** The sector dropdown's change handler. */
    method SetSector(v: string)
      modifies this`sector
      ensures sector == v
    {
      sector := v;
    }

    /** The metric dropdown's change handler. */
    method SetMetric(v: string)
      modifies this`metric
      ensures metric == v
    {
      metric := v;
    }

    /** `clearDistricts()`: forgets the districts, the selection and the index, removes
      the layer and hides the panel. */
    method ClearDistricts()
      modifies this`rawDistricts, this`districtLayer, this`selectedDistrictId, this`districtLayerIndex, this`panelVisible
      ensures rawDistricts == None && districtLayer == None && selectedDistrictId == None
      ensures districtLayerIndex == map[] && !panelVisible
      ensures IndexConsistent()
    {
      rawDistricts := None;
      selectedDistrictId := None;
      districtLayerIndex := map[];
      districtLayer := None;
      panelVisible := false;
    }

    /** The index update of `onEachDistrictFeature(feature, layer)`. */
    method OnEachDistrictFeature(f: Feature)
      modifies this`districtLayerIndex
      ensures districtLayerIndex == old(districtLayerIndex)[DistrictIdOf(f) := f]
      ensures old(IndexConsistent()) ==> IndexConsistent()
    {
      districtLayerIndex := districtLayerIndex[DistrictIdOf(f) := f];
    }

    /** `loadDistrictsForCountry(countryName)`, with `files` standing for the files the
        server has (a missing URL is a failed fetch). */
    method LoadDistrictsForCountry(countryName: string, files: map<string, FeatureCollection>)
      modifies this`rawDistricts, this`districtLayer, this`selectedDistrictId, this`districtLayerIndex, this`panelVisible
      ensures IndexConsistent() && selectedDistrictId == None
      ensures LoadedFor(countryName, files)
    {
      var file := DistrictFile(countryName, files);
      if file.None? {
        ClearDistricts();
      } else {
        ShowDistricts(file.value);
      }
    }

    /** The district state after `loadDistrictsForCountry(countryName)`: with no country
        chosen, or no file for it, the districts are cleared; otherwise the country's file is
        stored, drawn and indexed, and the panel shown. */
    ghost predicate LoadedFor(countryName: string, files: map<string, FeatureCollection>)
      reads this
    {
      if DistrictFile(countryName, files).None? then
        rawDistricts == None && districtLayer == None && districtLayerIndex == map[] &&
        selectedDistrictId == None && !panelVisible
      else
        rawDistricts == DistrictFile(countryName, files) && Shown(DistrictFile(countryName, files).value)
    }

    /** The district layer and panel show `geojson`, with a fresh index and no selection. */
    ghost predicate Shown(geojson: FeatureCollection)
      reads this
    {
      districtLayer == Some(Features(geojson)) && districtLayerIndex == BuildIndex(Features(geojson), DistrictIdOf) &&
      selectedDistrictId == None && panelVisible
    }

    /** The success path of `loadDistrictsForCountry`. */
    method ShowDistricts(geojson: FeatureCollection)
      modifies this`rawDistricts, this`districtLayer, this`selectedDistrictId, this`districtLayerIndex, this`panelVisible
      ensures rawDistricts == Some(geojson) && Shown(geojson) && IndexConsistent()
    {
      var fs := Features(geojson);
      IndexDistricts(fs);
      rawDistricts, districtLayer, selectedDistrictId, panelVisible := Some(geojson), Some(fs), None, true;
    }

    /** `L.geoJSON(..., { onEachFeature })` on a fresh index: runs the index update on
        every feature in order. */
    method IndexDistricts(fs: seq<Feature>)
      modifies this`districtLayerIndex
      ensures districtLayerIndex == BuildIndex(fs, DistrictIdOf)
      ensures IndexConsistent()
    {
      districtLayerIndex := map[];
      var i := 0;
      while i < |fs|
        invariant 0 <= i <= |fs|
        invariant districtLayerIndex == BuildIndex(fs[..i], DistrictIdOf)
      {
        assert fs[..i + 1][..i] == fs[..i];
        OnEachDistrictFeature(fs[i]);
        i := i + 1;
      }
      assert fs[..|fs|] == fs;
    }

    /** `selectDistrict(id, zoom)`: records the selection (after which the district layer
        is restyled) and returns the indexed layer the map zooms to, if `zoom` is set and
        the index has one for `id`. */
    method SelectDistrict(id: string, zoom: bool) returns (target: Option<Feature>)
      modifies this`selectedDistrictId
      ensures selectedDistrictId == Some(id)
      // the selection is exclusive: exactly the districts with this id are highlighted
      ensures forall f :: IsSelected(f, selectedDistrictId) <==> id != "" && DistrictIdOf(f) == id
      ensures target == if zoom && id in districtLayerIndex then Some(districtLayerIndex[id]) else None
      // a consistent index zooms to a district carrying the selected id
      ensures IndexConsistent() && target.Some? ==> DistrictIdOf(target.value) == id
    {
      selectedDistrictId := Some(id);
      if zoom && id in districtLayerIndex {
        target := Some(districtLayerIndex[id]);
      } else {
        target := None;
      }
    }

    /** `styleDistrictPolygon(feature)` under the current state. */
    function DistrictStyle(f: Feature): (s: Style)
      reads this
      ensures s == StyleDistrictPolygon(f, selectedDistrictId, sector, metric)
      ensures IsSelected(f, selectedDistrictId) <==> s.color == SelectedOutline
    {
      StyleDistrictPolygon(f, selectedDistrictId, sector, metric)
    }

    /** `renderDistrictPanel()`'s rows, which the search box and sort dropdown refresh when
        districts are loaded. */
    method DistrictPanelRows(search: string, sortValue: string) returns (rows: Option<seq<Row>>)
      ensures rawDistricts.None? ==> rows == None
      ensures rawDistricts.Some? ==> rows == Some(FilteredDistricts(rawDistricts, sector, metric, search, sortValue))
    {
      if rawDistricts.None? {
        rows := None;
      } else {
        var r := GetFilteredDistrictFeatures(rawDistricts, sector, metric, search, sortValue);
        rows := Some(r);
      }
    }

    /** `applyFilters()`: draws the countries that pass the country filter and loads the
        chosen country's districts; nothing happens before the countries file is loaded. */
    method ApplyFilters(files: map<string, FeatureCollection>)
      requires IndexConsistent()
      modifies this`countryLayer, this`rawDistricts, this`districtLayer, this`selectedDistrictId, this`districtLayerIndex, this`panelVisible
      ensures IndexConsistent()
      ensures old(rawGeoJSON).None? ==> unchanged(this)
      ensures old(rawGeoJSON).Some? ==>
        countryLayer == Some(CountryFilter(Features(old(rawGeoJSON).value), country)) &&
        LoadedFor(country, files)
      ensures unchanged(this`country, this`sector, this`metric, this`rawGeoJSON, this`countryOptions, this`sectorOptions)
    {
      if rawGeoJSON.None? {
        return;
      }
      countryLayer := Some(CountryFilter(Features(rawGeoJSON.value), country));
      LoadDistrictsForCountry(country, files);
    }

    /** The initial load: on success, stores the countries file, fills the dropdowns and
        applies the filters; on failure nothing changes. */
    method InitialLoad(countries: Option<FeatureCollection>, files: map<string, FeatureCollection>)
      requires IndexConsistent()
      modifies this`rawGeoJSON, this`countryOptions, this`sectorOptions, this`countryLayer
      modifies this`rawDistricts, this`districtLayer, this`selectedDistrictId, this`districtLayerIndex, this`panelVisible
      ensures IndexConsistent()
      ensures countries.None? ==> unchanged(this)
      ensures countries.Some? ==>
        rawGeoJSON == countries &&
        StrictlySorted(countryOptions) && Elems(countryOptions) == CountryNames(Features(countries.value)) &&
        StrictlySorted(sectorOptions) && Elems(sectorOptions) == SectorNames(Features(countries.value)) &&
        countryLayer == Some(CountryFilter(Features(countries.value), country)) &&
        LoadedFor(country, files)
      ensures unchanged(this`country, this`sector, this`metric)
    {
      if countries.None? {
        return;
      }
      rawGeoJSON := countries;
      countryOptions := GetUniqueCountries(countries.value);
      sectorOptions := GetUniqueSectors(countries.value);
      ApplyFilters(files);
    }
  }
}
