/** The JavaScript values found in GeoJSON property bags, and the coercions the map
    script applies to them: truthiness (`||`), nullishness (`??`, `!= null`),
    property reads, `String(v)` and `Number(v)`. */
module JsValue {
  import opened Wrappers
  import opened JsString

  /** A property-bag value. `Undefined` is a missing property; `Null` is JSON `null`.
      Numbers are integers. */
  datatype Value =
    | Undefined
    | Null
    | Bool(b: bool)
    | Num(n: int)
    | Str(s: string)
    | Obj(fields: map<string, Value>)
    | Arr(items: seq<Value>)

  /** `v == null`: true of both `null` and `undefined`. */
  predicate Nullish(v: Value) {
    v.Undefined? || v.Null?
  }

  /** JavaScript truthiness (NaN is not a modelled number). */
  predicate Truthy(v: Value) {
    match v
    case Undefined => false
    case Null => false
    case Bool(b) => b
    case Num(n) => n != 0
    case Str(s) => s != ""
    case Obj(_) => true
    case Arr(_) => true
  }

  /** `v?.[k]`: the property `k` of an object; reading anything else gives `undefined`. */
  function Field(v: Value, k: string): (r: Value)
    ensures v.Obj? && k in v.fields ==> r == v.fields[k]
    ensures !(v.Obj? && k in v.fields) ==> r == Undefined
  {
    if v.Obj? && k in v.fields then v.fields[k] else Undefined
  }

  /** `a || b`. */
  function Or(a: Value, b: Value): (r: Value)
    ensures Truthy(a) ==> r == a
    ensures !Truthy(a) ==> r == b
  {
    if Truthy(a) then a else b
  }

  /** `a ?? b`. */
  function Coalesce(a: Value, b: Value): (r: Value)
    ensures !Nullish(a) ==> r == a
    ensures Nullish(a) ==> r == b
  {
    if Nullish(a) then b else a
  }

  /** `parts.join(",")`. */
  function JoinComma(parts: seq<string>): string {
    if |parts| == 0 then "" else if |parts| == 1 then parts[0] else parts[0] + "," + JoinComma(parts[1..])
  }

  /** `String(v)`. An array joins its elements with commas, writing `null` and
      `undefined` elements as empty strings. */
  function ToStr(v: Value): (r: string)
    ensures v.Str? ==> r == v.s
    ensures v.Num? ==> r == IntToString(v.n)
    decreases v
  {
    match v
    case Undefined => "undefined"
    case Null => "null"
    case Bool(b) => if b then "true" else "false"
    case Num(n) => IntToString(n)
    case Str(s) => s
    case Obj(_) => "[object Object]"
    case Arr(items) =>
      JoinComma(seq(|items|, k requires 0 <= k < |items| =>
        if Nullish(items[k]) then "" else ToStr(items[k])))
  }

  /** `Number(v)`, with `None` standing for NaN and the infinities. */
  function ToNumber(v: Value): (r: Option<int>)
    ensures v == Undefined ==> r == None
    ensures v == Null ==> r == Some(0)
    ensures v.Num? ==> r == Some(v.n)
    ensures v.Str? ==> r == ParseNumber(v.s)
  {
    match v
    case Undefined => None
    case Null => Some(0)
    case Bool(b) => Some(if b then 1 else 0)
    case Num(n) => Some(n)
    case Str(s) => ParseNumber(s)
    case Obj(_) => ParseNumber(ToStr(v))
    case Arr(_) => ParseNumber(ToStr(v))
  }

  /** `safeNum(v)` as written: `Number(v)` when finite, else `null`. Because
      `Number(null)` is 0, a `null` input comes back as 0 rather than `null`. */
  function SafeNumAsWritten(v: Value): (r: Option<int>)
    // it departs from the corrected `safeNum` on `null` alone, which it reads as 0
    ensures v != Null ==> r == SafeNum(v)
    ensures v == Null ==> r == Some(0)
  {
    ToNumber(v)
  }

  /** `safeNum` as its callers use it: `null` for a missing value (JSON `null` or
      `undefined`) and for anything that is not a finite number; the number otherwise. */
  function SafeNum(v: Value): (r: Option<int>)
    ensures Nullish(v) ==> r == None
    ensures v.Num? ==> r == Some(v.n)
    ensures v.Str? ==> r == ParseNumber(v.s)
  {
    if Nullish(v) then None else ToNumber(v)
  }

  /** The value a score takes when it is handed back to JavaScript: a number or `null`. */
  function ScoreValue(score: Option<int>): (v: Value)
    ensures score.None? <==> Nullish(v)
  {
    match score
    case Some(n) => Num(n)
    case None => Null
  }

  /** The corrected `safeNum` loses nothing on scores, and only it does:
      as written, a `null` score comes back as 0. */
  lemma SafeNumOfScore(score: Option<int>)
    ensures SafeNum(ScoreValue(score)) == score
    ensures SafeNumAsWritten(ScoreValue(None)) == Some(0)
  {
  }

  /** The numbers that `String` writes are read back by `Number`. */
  lemma {:induction false} NumberOfStringOfNumber(n: int)
    ensures ToNumber(Str(ToStr(Num(n)))) == Some(n)
    ensures SafeNum(Str(ToStr(Num(n)))) == Some(n)
  {
    IntToStringRoundTrip(n);
  }

  /** Position `i` holds the first truthy candidate. */
  ghost predicate FirstTruthyAt(cands: seq<Value>, i: int) {
    0 <= i < |cands| && Truthy(cands[i]) && forall k :: 0 <= k < i ==> !Truthy(cands[k])
  }

  /** `c0 || c1 || ... || default`: the first truthy candidate, else `default`. */
  function FirstTruthy(cands: seq<Value>, default: Value): (r: Value)
    ensures (exists i :: FirstTruthyAt(cands, i) && r == cands[i])
         || ((forall k :: 0 <= k < |cands| ==> !Truthy(cands[k])) && r == default)
  {
    if cands == [] then default
    else if Truthy(cands[0]) then (assert FirstTruthyAt(cands, 0); cands[0])
    else
      var r := FirstTruthy(cands[1..], default);
      assert forall i :: FirstTruthyAt(cands[1..], i) ==> FirstTruthyAt(cands, i + 1);
      r
  }

  /** Once some candidate is truthy, the default of `||` is never reached. */
  lemma {:induction false} FirstTruthyIgnoresDefault(cands: seq<Value>, d1: Value, d2: Value)
    requires exists k :: 0 <= k < |cands| && Truthy(cands[k])
    ensures FirstTruthy(cands, d1) == FirstTruthy(cands, d2)
    ensures Truthy(FirstTruthy(cands, d1))
  {
    if !Truthy(cands[0]) {
      var k :| 0 <= k < |cands| && Truthy(cands[k]);
      assert cands[1..][k - 1] == cands[k];
      FirstTruthyIgnoresDefault(cands[1..], d1, d2);
    }
  }

  /** Position `i` holds the first candidate that is neither `null` nor `undefined`. */
  ghost predicate FirstPresentAt(cands: seq<Value>, i: int) {
    0 <= i < |cands| && !Nullish(cands[i]) && forall k :: 0 <= k < i ==> Nullish(cands[k])
  }

  /** `c0 ?? c1 ?? ... ?? default`: the first non-nullish candidate, else `default`. */
  function FirstPresent(cands: seq<Value>, default: Value): (r: Value)
    ensures (exists i :: FirstPresentAt(cands, i) && r == cands[i])
         || ((forall k :: 0 <= k < |cands| ==> Nullish(cands[k])) && r == default)
  {
    if cands == [] then default
    else if !Nullish(cands[0]) then (assert FirstPresentAt(cands, 0); cands[0])
    else
      var r := FirstPresent(cands[1..], default);
      assert forall i :: FirstPresentAt(cands[1..], i) ==> FirstPresentAt(cands, i + 1);
      r
  }
}
