/** The metric resolver of the map script: reading a named metric from a feature's
    properties, which may hold it per sector (nested), flat, or under a sector suffix. */
module Metrics {
  import opened JsValue

  /** The dropdown value that means "no particular sector" (or country). */
  const AllValue: string := "__all__"

  /** `sector && sector !== "__all__"`. */
  predicate SectorChosen(sector: string) {
    sector != "" && sector != AllValue
  }

  /** `p.metrics[sector][metric]`. */
  function Nested(p: Value, sector: string, metric: string): Value {
    Field(Field(Field(p, "metrics"), sector), metric)
  }

  /** `p[metric]`. */
  function Flat(p: Value, metric: string): Value {
    Field(p, metric)
  }

  /** `` p[`${metric}_${sector}`] ``. */
  function Suffixed(p: Value, sector: string, metric: string): Value {
    Field(p, metric + "_" + sector)
  }

  /** `getMetricValue(p, sector, metric)`. */
  function GetMetricValue(p: Value, sector: string, metric: string): (r: Value)
    // the result is a present value or null, never undefined
    ensures r == Null || !Nullish(r)
    ensures !Truthy(p) ==> r == Null
    // a chosen sector's nested value wins
    ensures Truthy(p) && SectorChosen(sector) && !Nullish(Nested(p, sector, metric)) ==> r == Nested(p, sector, metric)
    // otherwise a present flat field wins, even over the suffixed one
    ensures Truthy(p) && !Nullish(Flat(p, metric)) && (!SectorChosen(sector) || Nullish(Nested(p, sector, metric)))
            ==> r == Flat(p, metric)
    // with no sector chosen, only the flat field is consulted
    ensures !SectorChosen(sector) ==> (r == Null <==> !Truthy(p) || Nullish(Flat(p, metric)))
    // the suffixed field is used only when both earlier sources are absent
    ensures r != Null && r != Nested(p, sector, metric) && r != Flat(p, metric) ==>
            SectorChosen(sector) && r == Suffixed(p, sector, metric)
  {
    if !Truthy(p) then Null
    else if SectorChosen(sector) && !Nullish(Nested(p, sector, metric)) then Nested(p, sector, metric)
    else if !Nullish(Flat(p, metric)) then Flat(p, metric)
    else if SectorChosen(sector) && !Nullish(Suffixed(p, sector, metric)) then Suffixed(p, sector, metric)
    else Null
  }

  /** The resolution strategies in priority order, as a list. */
  function Strategies(p: Value, sector: string, metric: string): (r: seq<Value>)
    ensures SectorChosen(sector) ==> |r| == 3
    ensures !SectorChosen(sector) ==> r == [Flat(p, metric)]
  {
    if SectorChosen(sector) then [Nested(p, sector, metric), Flat(p, metric), Suffixed(p, sector, metric)]
    else [Flat(p, metric)]
  }

  /** The resolver returns the first strategy that yields a present value, or null. */
  lemma MetricValueIsFirstPresent(p: Value, sector: string, metric: string)
    requires Truthy(p)
    ensures GetMetricValue(p, sector, metric) == FirstPresent(Strategies(p, sector, metric), Null)
  {
    var s := Strategies(p, sector, metric);
    if SectorChosen(sector) {
      assert s[1..][1..] == [s[2]];
      assert s[1..][1..][1..] == [];
    } else {
      assert s[1..] == [];
    }
  }
}
