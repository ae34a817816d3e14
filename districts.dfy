/** The district helpers of the map script: reading a district's name, id, score, raw
    value and risk label from a GeoJSON feature's properties, and styling its polygon. */
module Districts {
  import opened Wrappers
  import opened JsString
  import opened JsValue
  import opened Metrics
  import opened Colors
  import opened Risk

  /** A GeoJSON feature; only its `properties` are read. */
  datatype Feature = Feature(properties: Value)

  /** A GeoJSON feature collection; `features` may be missing. */
  datatype FeatureCollection = FeatureCollection(features: Option<seq<Feature>>)

  /** `geojson.features || []`. */
  function Features(c: FeatureCollection): (fs: seq<Feature>)
    ensures c.features.Some? ==> fs == c.features.value
    ensures c.features.None? ==> fs == []
  {
    match c.features
    case Some(fs) => fs
    case None => []
  }

  /** `feature.properties || {}`. */
  function Props(f: Feature): (p: Value)
    ensures Truthy(p)
    ensures Truthy(f.properties) ==> p == f.properties
    ensures !Truthy(f.properties) ==> p == Obj(map[])
  {
    Or(f.properties, Obj(map[]))
  }

  /** The name fields, in the order `getDistrictName` tries them. */
  function NameCandidates(p: Value): seq<Value> {
    [Field(p, "district"), Field(p, "district_name"), Field(p, "name"), Field(p, "ADM2_EN"), Field(p, "ADM2_NAME")]
  }

  /** `getDistrictName(p)`: the first truthy name field, else "Unknown"; never falsy. */
  function DistrictName(p: Value): (r: Value)
    ensures Truthy(r)
    ensures (exists i :: FirstTruthyAt(NameCandidates(p), i) && r == NameCandidates(p)[i])
         || ((forall k :: 0 <= k < 5 ==> !Truthy(NameCandidates(p)[k])) && r == Str("Unknown"))
  {
    FirstTruthy(NameCandidates(p), Str("Unknown"))
  }

  /** The id fields, in the order `getDistrictId` tries them, then the fallback name. */
  function IdCandidates(p: Value, fallbackName: Value): seq<Value> {
    [Field(p, "id"), Field(p, "district_id"), Field(p, "ADM2_PCODE"), Field(p, "ADM2_CODE"), fallbackName]
  }

  /** `getDistrictId(p, fallbackName)`: `String` of the first truthy id field or the
      fallback name; `random` is the text of `Math.random()`, used only when all are falsy. */
  function DistrictId(p: Value, fallbackName: Value, random: string): (r: string)
    ensures (exists i :: FirstTruthyAt(IdCandidates(p, fallbackName), i) && r == ToStr(IdCandidates(p, fallbackName)[i]))
         || ((forall k :: 0 <= k < 5 ==> !Truthy(IdCandidates(p, fallbackName)[k])) && r == random)
  {
    ToStr(FirstTruthy(IdCandidates(p, fallbackName), Str(random)))
  }

  /** The id a district is known by: `getDistrictId(p, getDistrictName(p))`. Because the
      name is never falsy, the random fallback is never reached. */
  function IdOf(p: Value): (id: string)
    ensures forall random :: DistrictId(p, DistrictName(p), random) == id
  {
    DistrictIdIgnoresRandom(p);
    DistrictId(p, DistrictName(p), "")
  }

  lemma DistrictIdIgnoresRandom(p: Value)
    ensures forall random :: DistrictId(p, DistrictName(p), random) == DistrictId(p, DistrictName(p), "")
  {
    var cands := IdCandidates(p, DistrictName(p));
    assert Truthy(cands[4]);
    forall random ensures DistrictId(p, DistrictName(p), random) == DistrictId(p, DistrictName(p), "") {
      FirstTruthyIgnoresDefault(cands, Str(random), Str(""));
    }
  }

  /** When the properties carry a truthy `id`, that is the district's id. */
  lemma IdOfExplicit(p: Value)
    requires Truthy(Field(p, "id"))
    ensures IdOf(p) == ToStr(Field(p, "id"))
  {
    assert FirstTruthyAt(IdCandidates(p, DistrictName(p)), 0);
  }

  /** `p?.scaled_score ?? p?.score ?? p?.scaledScore`. */
  function DirectScore(p: Value): (r: Value)
    ensures !Nullish(Field(p, "scaled_score")) ==> r == Field(p, "scaled_score")
    ensures Nullish(Field(p, "scaled_score")) && !Nullish(Field(p, "score")) ==> r == Field(p, "score")
    ensures Nullish(Field(p, "scaled_score")) && Nullish(Field(p, "score")) ==> r == Field(p, "scaledScore")
  {
    Coalesce(Coalesce(Field(p, "scaled_score"), Field(p, "score")), Field(p, "scaledScore"))
  }

  /** `getDistrictScore(p)` under the current sector and metric: a finite direct score
      wins, else the current metric's value if it is a finite number, else no score. */
  function DistrictScore(p: Value, sector: string, metric: string): (r: Option<int>)
    ensures SafeNum(DirectScore(p)).Some? ==> r == SafeNum(DirectScore(p))
    ensures SafeNum(DirectScore(p)).None? ==> r == SafeNum(GetMetricValue(p, sector, metric))
    // a district without any score or metric value has no score
    ensures Nullish(DirectScore(p)) && GetMetricValue(p, sector, metric) == Null ==> r == None
  {
    var direct := SafeNum(DirectScore(p));
    if direct.Some? then direct else SafeNum(GetMetricValue(p, sector, metric))
  }

  /** `getDistrictScore(p)` as written: `safeNum(null)` is 0, so a district whose metric
      value is missing gets score 0. */
  function DistrictScoreAsWritten(p: Value, sector: string, metric: string): (r: Option<int>)
    // it departs from the corrected score only where a `null` is read ...
    ensures DirectScore(p) != Null && GetMetricValue(p, sector, metric) != Null ==>
      r == DistrictScore(p, sector, metric)
    // ... and a `null` metric value means the district always has a score
    ensures GetMetricValue(p, sector, metric) == Null ==> r.Some?
  {
    var direct := SafeNumAsWritten(DirectScore(p));
    if direct.Some? then direct else SafeNumAsWritten(GetMetricValue(p, sector, metric))
  }

  /** A district with no score fields and no metric value: as written it scores 0,
      corrected it has no score. */
  lemma MissingScoreAsWritten(sector: string, metric: string)
    ensures DistrictScoreAsWritten(Obj(map[]), sector, metric) == Some(0)
    ensures DistrictScore(Obj(map[]), sector, metric) == None
  {
    assert GetMetricValue(Obj(map[]), sector, metric) == Null;
  }

  /** The raw-value fields, in the order `getDistrictRawValue` tries them. */
  function RawCandidates(p: Value): seq<Value> {
    [Field(p, "raw_value"), Field(p, "rawValue"), Field(p, "value")]
  }

  /** `getDistrictRawValue(p)`: the first raw-value field that is present, else `null`. */
  function DistrictRawValue(p: Value): (r: Value)
    ensures r == Null || !Nullish(r)
    ensures (exists i :: FirstPresentAt(RawCandidates(p), i) && r == RawCandidates(p)[i])
         || ((forall k :: 0 <= k < 3 ==> Nullish(RawCandidates(p)[k])) && r == Null)
  {
    FirstPresent(RawCandidates(p), Null)
  }

  /** The label the score thresholds derive (inclusive on the lower bound). */
  function RiskOfScore(n: int): (r: string)
    // one of the five canonical labels
    ensures r == "Very High" || r == "High" || r == "Medium" || r == "Low" || r == "Very Low"
    // the derived label has the colour the numeric ramp gives the same score ...
    ensures GetColor(Str(r)) == ColorOfScore(n)
    // ... and ranks one above that colour's position on the ramp
    ensures RiskOrder(Str(r)) == ColorOfScore(n).Severity() + 1
  {
    if n >= 80 then
      UnpaddedLabel("Very High");
      RiskOrderOfVeryHighLabel("Very High");
      "Very High"
    else if n >= 60 then
      UnpaddedLabel("High");
      RiskOrderOfHighLabel("High");
      "High"
    else if n >= 40 then
      UnpaddedLabel("Medium");
      RiskOrderOfLowerLabels("Medium");
      "Medium"
    else if n >= 20 then
      UnpaddedLabel("Low");
      RiskOrderOfLowerLabels("Low");
      "Low"
    else
      UnpaddedLabel("Very Low");
      RiskOrderOfLowerLabels("Very Low");
      "Very Low"
  }

  /** `p?.risk_level || p?.riskLevel`. */
  function ExplicitRisk(p: Value): Value {
    Or(Field(p, "risk_level"), Field(p, "riskLevel"))
  }

  /** `getDistrictRisk(p, score)`: a truthy explicit label wins; otherwise "Unknown"
      exactly when there is no score, else the label the thresholds derive. */
  function DistrictRisk(p: Value, score: Option<int>): (r: Value)
    ensures Truthy(r)
    ensures Truthy(ExplicitRisk(p)) ==> r == ExplicitRisk(p)
    ensures !Truthy(ExplicitRisk(p)) ==> (r == Str("Unknown") <==> score.None?)
    ensures !Truthy(ExplicitRisk(p)) && score.Some? ==> r == Str(RiskOfScore(score.value))
    ensures !Truthy(ExplicitRisk(p)) && score.Some? ==> r.Str? && GetColor(r) == ColorOfScore(score.value)
  {
    var explicit := ExplicitRisk(p);
    if Truthy(explicit) then explicit
    else
      SafeNumOfScore(score);
      match SafeNum(ScoreValue(score))
      case None => Str("Unknown")
      case Some(n) => Str(RiskOfScore(n))
  }

  /** `getDistrictRisk(p, score)` as written, with `safeNum(null)` being 0. */
  function DistrictRiskAsWritten(p: Value, score: Option<int>): (r: Value)
    // with a score present it is the corrected label
    ensures score.Some? ==> r == DistrictRisk(p, score)
  {
    var explicit := ExplicitRisk(p);
    if Truthy(explicit) then explicit
    else
      match SafeNumAsWritten(ScoreValue(score))
      case None => Str("Unknown")
      case Some(n) => Str(RiskOfScore(n))
  }

  /** As written, "Unknown" is never derived: a missing score is read as 0 and ranked
      "Very Low". */
  lemma UnknownUnreachableAsWritten(p: Value, score: Option<int>)
    ensures !Truthy(ExplicitRisk(p)) ==> DistrictRiskAsWritten(p, score) != Str("Unknown")
    ensures !Truthy(ExplicitRisk(p)) ==> DistrictRiskAsWritten(p, None) == Str("Very Low")
  {
    if !Truthy(ExplicitRisk(p)) {
      match score
      case None =>
      case Some(n) =>
    }
  }

  /** "Unknown" is drawn in the least severe colour. */
  lemma UnknownLabelColor()
    ensures GetColor(Str("Unknown")) == VeryLowColor
  {
  }

  /** The outline of a selected and of an unselected district polygon. */
  const SelectedOutline: string := "#2563eb"
  const PlainOutline: string := "#6b7280"

  /** The Leaflet path style of a district polygon. */
  datatype Style = Style(color: string, weight: real, fillColor: Color, fillOpacity: real)

  /** `selectedDistrictId && String(id) === String(selectedDistrictId)`. */
  predicate IsSelected(f: Feature, selected: Option<string>) {
    selected.Some? && selected.value != "" && IdOf(Props(f)) == selected.value
  }

  /** `styleDistrictPolygon(feature)`: the outline marks the selection; the fill is the
      categorical colour of the district's risk label for `risk_level`, otherwise the
      numeric colour of its score (the least severe colour without one). */
  function StyleDistrictPolygon(f: Feature, selected: Option<string>, sector: string, metric: string): (s: Style)
    ensures IsSelected(f, selected) ==> s.color == SelectedOutline && s.weight == 3.0 && s.fillOpacity == 0.85
    ensures !IsSelected(f, selected) ==> s.color == PlainOutline && s.weight == 1.1 && s.fillOpacity == 0.65
    ensures metric != "risk_level" ==>
      s.fillColor == match DistrictScore(Props(f), sector, metric)
                     case None => VeryLowColor
                     case Some(n) => ColorOfScore(n)
    // an explicit label is drawn in its own categorical colour
    ensures metric == "risk_level" && Truthy(ExplicitRisk(Props(f))) ==>
      s.fillColor == GetColor(ExplicitRisk(Props(f)))
    // with neither a label nor a score, "Unknown" is drawn in the default colour
    ensures metric == "risk_level" && !Truthy(ExplicitRisk(Props(f))) && DistrictScore(Props(f), sector, metric).None? ==>
      s.fillColor == VeryLowColor
    // with no explicit label, the derived label is drawn as its score would be
    ensures metric == "risk_level" && !Truthy(ExplicitRisk(Props(f))) && DistrictScore(Props(f), sector, metric).Some? ==>
      s.fillColor == ColorOfScore(DistrictScore(Props(f), sector, metric).value)
  {
    var p := Props(f);
    var score := DistrictScore(p, sector, metric);
    var risk := DistrictRisk(p, score);
    var sel := IsSelected(f, selected);
    UnknownLabelColor();
    Style(
      if sel then SelectedOutline else PlainOutline,
      if sel then 3.0 else 1.1,
      if metric == "risk_level" then GetColor(risk)
      else if score.None? then VeryLowColor
      else GetColorNumeric(ScoreValue(score)),
      if sel then 0.85 else 0.65)
  }
}
