/** The colour ramp of the choropleth: a categorical mapping from risk labels and a
    numeric mapping with thresholds at 20, 40, 60 and 80, onto the same five colours. */
module Colors {
  import opened JsString
  import opened JsValue
  import opened Metrics

  /** The five fill colours of the ramp, from least to most severe. */
  datatype Color = VeryLowColor | LowColor | MediumColor | HighColor | VeryHighColor {
    /** The colour as the style object carries it. */
    function Hex(): string {
      match this
      case VeryLowColor => "#1a9850"
      case LowColor => "#d9ef8b"
      case MediumColor => "#fee08b"
      case HighColor => "#fc8d59"
      case VeryHighColor => "#d73027"
    }

    /** Position on the ramp (0 for the least severe). */
    function Severity(): nat {
      match this
      case VeryLowColor => 0
      case LowColor => 1
      case MediumColor => 2
      case HighColor => 3
      case VeryHighColor => 4
    }
  }

  /** The five colours are written as five different strings. */
  lemma HexInjective(c: Color, d: Color)
    ensures c.Hex() == d.Hex() ==> c == d
  {
    if c != d {
      assert c.Hex()[1] != d.Hex()[1] || c.Hex()[2] != d.Hex()[2];
    }
  }

  /** `String(risk || '').trim()`, the label `getColor` switches on. */
  function RiskLabel(risk: Value): string {
    Trim(ToStr(Or(risk, Str(""))))
  }

  /** `getColor(risk)`: each of the four canonical labels (after trimming, case-sensitive)
      selects its colour; everything else is the least severe colour. */
  function GetColor(risk: Value): (c: Color)
    ensures c == VeryHighColor <==> RiskLabel(risk) == "Very High"
    ensures c == HighColor <==> RiskLabel(risk) == "High"
    ensures c == MediumColor <==> RiskLabel(risk) == "Medium"
    ensures c == LowColor <==> RiskLabel(risk) == "Low"
  {
    match RiskLabel(risk)
    case "Very High" => VeryHighColor
    case "High" => HighColor
    case "Medium" => MediumColor
    case "Low" => LowColor
    case _ => VeryLowColor
  }

  /** The legend's five grades get the five colours in ramp order. */
  lemma LegendColors()
    ensures GetColor(Str("Very Low / Unknown")).Severity() == 0
    ensures GetColor(Str("Low")).Severity() == 1
    ensures GetColor(Str("Medium")).Severity() == 2
    ensures GetColor(Str("High")).Severity() == 3
    ensures GetColor(Str("Very High")).Severity() == 4
  {
    UnpaddedLabel("Very Low / Unknown");
    UnpaddedLabel("Low");
    UnpaddedLabel("Medium");
    UnpaddedLabel("High");
    UnpaddedLabel("Very High");
  }

  /** A label between two letters is switched on as it is. */
  lemma UnpaddedLabel(s: string)
    requires s != [] && IsLetter(s[0]) && IsLetter(s[|s| - 1])
    ensures RiskLabel(Str(s)) == s
  {
    LetterIsNotSpace(s[0]);
    LetterIsNotSpace(s[|s| - 1]);
    TrimUnpadded(s);
  }

  /** A missing risk label is drawn like "Very Low / Unknown". */
  lemma MissingLabelColor(risk: Value)
    requires Nullish(risk)
    ensures GetColor(risk) == GetColor(Str("Very Low / Unknown")) == VeryLowColor
  {
    TrimUnpadded("");
    UnpaddedLabel("Very Low / Unknown");
  }

  /** The numeric ramp: thresholds 20, 40, 60 and 80, each inclusive on its lower bound. */
  function ColorOfScore(n: int): (c: Color)
    ensures c.Severity() >= 1 <==> n >= 20
    ensures c.Severity() >= 2 <==> n >= 40
    ensures c.Severity() >= 3 <==> n >= 60
    ensures c.Severity() >= 4 <==> n >= 80
  {
    if n >= 80 then VeryHighColor
    else if n >= 60 then HighColor
    else if n >= 40 then MediumColor
    else if n >= 20 then LowColor
    else VeryLowColor
  }

  /** The numeric ramp is monotone. */
  lemma ColorOfScoreMonotone(m: int, n: int)
    requires m <= n
    ensures ColorOfScore(m).Severity() <= ColorOfScore(n).Severity()
  {
  }

  /** `getColorNumeric(v)`: non-finite input gets the least severe colour. */
  function GetColorNumeric(v: Value): (c: Color)
    ensures ToNumber(v).None? ==> c == VeryLowColor
    ensures ToNumber(v).Some? ==> c == ColorOfScore(ToNumber(v).value)
  {
    match ToNumber(v)
    case None => VeryLowColor
    case Some(n) => ColorOfScore(n)
  }

  /** `getFillColor(p)` under the current sector and metric: the categorical ramp for
      `risk_level`, the numeric ramp for any other metric. */
  function FillColor(p: Value, sector: string, metric: string): (c: Color)
    ensures metric == "risk_level" ==> c == GetColor(GetMetricValue(p, sector, "risk_level"))
    ensures metric != "risk_level" ==> c == GetColorNumeric(GetMetricValue(p, sector, metric))
  {
    if metric == "risk_level" then GetColor(GetMetricValue(p, sector, "risk_level"))
    else GetColorNumeric(GetMetricValue(p, sector, metric))
  }

  /** A country with no value for a numeric metric is drawn in the least severe colour;
      `Number(null)` is 0, which lands in the lowest bucket. */
  lemma FillColorOfMissingMetric(p: Value, sector: string, metric: string)
    requires metric != "risk_level"
    requires GetMetricValue(p, sector, metric) == Null
    ensures FillColor(p, sector, metric) == VeryLowColor
  {
  }
}
