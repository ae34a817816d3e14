/** The district panel: one row per district feature, narrowed by the search box and
    ordered by the sort dropdown, with the stable `Array.prototype.sort`. */
module Panel {
  import opened Wrappers
  import opened JsString
  import opened JsValue
  import opened Risk
  import opened Seqs
  import opened Sorting
  import opened Districts

  /** The record `getFilteredDistrictFeatures` builds for each feature. */
  datatype Row = Row(f: Feature, p: Value, id: string, name: Value, score: Option<int>, raw: Value, risk: Value)

  /** The row of feature `f` under the current sector and metric. */
  function BuildRow(f: Feature, sector: string, metric: string): (r: Row)
    ensures r.f == f && r.p == Props(f) && r.id == IdOf(Props(f)) && r.name == DistrictName(Props(f))
    ensures r.score == DistrictScore(Props(f), sector, metric)
    ensures r.raw == DistrictRawValue(Props(f))
    ensures r.risk == DistrictRisk(Props(f), r.score)
  {
    var p := Props(f);
    var score := DistrictScore(p, sector, metric);
    Row(f, p, IdOf(p), DistrictName(p), score, DistrictRawValue(p), DistrictRisk(p, score))
  }

  /** `rawDistrictsGeoJSON?.features || []`. */
  function LoadedFeatures(raw: Option<FeatureCollection>): seq<Feature> {
    match raw
    case Some(c) => Features(c)
    case None => []
  }

  /** The rows of all loaded district features, in file order. */
  function AllRows(raw: Option<FeatureCollection>, sector: string, metric: string): (rows: seq<Row>)
    ensures |rows| == |LoadedFeatures(raw)|
    ensures forall i :: 0 <= i < |rows| ==> rows[i] == BuildRow(LoadedFeatures(raw)[i], sector, metric)
  {
    var fs := LoadedFeatures(raw);
    seq(|fs|, i requires 0 <= i < |fs| => BuildRow(fs[i], sector, metric))
  }

  /** The text a name is searched and sorted by. */
  function NameText(name: Value): string {
    ToStr(name)
  }

  /** The search box's value, trimmed and lower-cased. */
  function Query(search: string): string {
    ToLower(Trim(search))
  }

  /** `x.name.toLowerCase().includes(q)`. */
  predicate Matches(row: Row, q: string) {
    Includes(ToLower(NameText(row.name)), q)
  }

  /** The sort orders of the panel's dropdown; any other value leaves rows unsorted. */
  datatype Mode = NameAsc | ScoreDesc | ScoreAsc | RiskDesc | RiskAsc | Unsorted

  /** The dropdown's value (`"name_asc"` when empty) as the comparator reads it. */
  function SortMode(sortValue: string): (mode: Mode)
    ensures mode == NameAsc <==> sortValue == "" || sortValue == "name_asc"
    ensures mode == ScoreDesc <==> sortValue == "score_desc"
    ensures mode == ScoreAsc <==> sortValue == "score_asc"
    ensures mode == RiskDesc <==> sortValue == "risk_desc"
    ensures mode == RiskAsc <==> sortValue == "risk_asc"
  {
    var v := if sortValue == "" then "name_asc" else sortValue;
    if v == "name_asc" then NameAsc
    else if v == "score_desc" then ScoreDesc
    else if v == "score_asc" then ScoreAsc
    else if v == "risk_desc" then RiskDesc
    else if v == "risk_asc" then RiskAsc
    else Unsorted
  }

  /** A score, or one of the infinities that stand in for a missing score. */
  datatype Ext = NegInf | Fin(n: int) | PosInf

  /** The sign of `x - y`, with NaN (the difference of two equal infinities) read as 0,
      as `sort` reads it. */
  function SubSign(x: Ext, y: Ext): (r: int)
    ensures -1 <= r <= 1
    ensures x == y ==> r == 0
    // two scores: the sign of their difference
    ensures x.Fin? && y.Fin? ==> (r < 0 <==> x.n < y.n) && (r > 0 <==> x.n > y.n)
    // an infinity against anything other than itself
    ensures x == NegInf && y != NegInf ==> r == -1
    ensures x == PosInf && y != PosInf ==> r == 1
    ensures y == NegInf && x != NegInf ==> r == 1
    ensures y == PosInf && x != PosInf ==> r == -1
  {
    match (x, y)
    case (Fin(a), Fin(b)) => if a < b then -1 else if a > b then 1 else 0
    case (NegInf, NegInf) => 0
    case (PosInf, PosInf) => 0
    case (NegInf, _) => -1
    case (_, NegInf) => 1
    case (PosInf, _) => 1
    case (_, PosInf) => -1
  }

  /** `safeNum(score) ?? missing`. */
  function ScoreExt(score: Option<int>, missing: Ext): Ext {
    match SafeNum(ScoreValue(score))
    case Some(n) => Fin(n)
    case None => missing
  }

  /** The `name_asc` comparator: `a.name.localeCompare(b.name)`. */
  function NameCompare(a: Row, b: Row): int {
    CompareStrings(NameText(a.name), NameText(b.name))
  }

  /** The `score_desc` comparator: `(safeNum(b.score) ?? -Infinity) - (safeNum(a.score) ?? -Infinity)`. */
  function ScoreDescCompare(a: Row, b: Row): int {
    SubSign(ScoreExt(b.score, NegInf), ScoreExt(a.score, NegInf))
  }

  /** The `score_asc` comparator: `(safeNum(a.score) ?? Infinity) - (safeNum(b.score) ?? Infinity)`. */
  function ScoreAscCompare(a: Row, b: Row): int {
    SubSign(ScoreExt(a.score, PosInf), ScoreExt(b.score, PosInf))
  }

  /** The `risk_desc` comparator: `riskOrder(b.risk) - riskOrder(a.risk)`. */
  function RiskDescCompare(a: Row, b: Row): int {
    RiskOrder(b.risk) - RiskOrder(a.risk)
  }

  /** The `risk_asc` comparator: `riskOrder(a.risk) - riskOrder(b.risk)`. */
  function RiskAscCompare(a: Row, b: Row): int {
    RiskOrder(a.risk) - RiskOrder(b.risk)
  }

  /** The comparator of any other mode, which keeps every pair as it is. */
  function KeepCompare(a: Row, b: Row): int {
    0
  }

  /** The comparator that the sort mode selects. */
  function Comparator(mode: Mode): (Row, Row) -> int {
    match mode
    case NameAsc => NameCompare
    case ScoreDesc => ScoreDescCompare
    case ScoreAsc => ScoreAscCompare
    case RiskDesc => RiskDescCompare
    case RiskAsc => RiskAscCompare
    case Unsorted => KeepCompare
  }

  /** Each mode selects its own comparator. */
  lemma ComparatorOfMode()
    ensures Comparator(NameAsc) == NameCompare && Comparator(ScoreDesc) == ScoreDescCompare
    ensures Comparator(ScoreAsc) == ScoreAscCompare && Comparator(RiskDesc) == RiskDescCompare
    ensures Comparator(RiskAsc) == RiskAscCompare && Comparator(Unsorted) == KeepCompare
  {
  }

  /** The sort comparator of `getFilteredDistrictFeatures`, up to sign. */
  function Compare(mode: Mode, a: Row, b: Row): (r: int)
    // a row ties with itself under every mode
    ensures a == b ==> r == 0
    // the unknown mode ties every pair
    ensures mode == Unsorted ==> r == 0
  {
    ComparatorOfMode();
    CompareStringsOrder(NameText(a.name), NameText(b.name));
    Comparator(mode)(a, b)
  }

  /** Swapping the rows negates the comparator, so it never asks for both orders. */
  lemma CompareAntisymmetric(mode: Mode, a: Row, b: Row)
    ensures Compare(mode, b, a) == -Compare(mode, a, b)
  {
    ComparatorOfMode();
    CompareStringsOrder(NameText(a.name), NameText(b.name));
  }

  /** `safeNum(score) ?? missing` as written. */
  function ScoreExtAsWritten(score: Option<int>, missing: Ext): Ext {
    match SafeNumAsWritten(ScoreValue(score))
    case Some(n) => Fin(n)
    case None => missing
  }

  /** The comparator as written: `safeNum(null)` is 0, so the infinities are never used,
      and the risk modes rank with the as-written `riskOrder`. */
  function CompareAsWritten(mode: Mode, a: Row, b: Row): (r: int)
    // it agrees with the corrected comparator by name, in the unknown mode, and on two
    // rows that both have a score
    ensures mode == NameAsc || mode == Unsorted ==> r == Compare(mode, a, b)
    ensures (mode == ScoreDesc || mode == ScoreAsc) && a.score.Some? && b.score.Some? ==>
      r == Compare(mode, a, b)
  {
    ComparatorOfMode();
    SafeNumOfScore(a.score);
    SafeNumOfScore(b.score);
    match mode
    case NameAsc => CompareStrings(NameText(a.name), NameText(b.name))
    case ScoreDesc => SubSign(ScoreExtAsWritten(b.score, NegInf), ScoreExtAsWritten(a.score, NegInf))
    case ScoreAsc => SubSign(ScoreExtAsWritten(a.score, PosInf), ScoreExtAsWritten(b.score, PosInf))
    case RiskDesc => RiskOrderAsWritten(b.risk) - RiskOrderAsWritten(a.risk)
    case RiskAsc => RiskOrderAsWritten(a.risk) - RiskOrderAsWritten(b.risk)
    case Unsorted => 0
  }

  /** As written, a district without a score sorts as a 0 score: before a score of 50
      in ascending order and after it in descending order, whereas the infinities were
      meant to put it last in both; and it sorts after a negative score in ascending order. */
  lemma MissingScoreOrderAsWritten(a: Row, b: Row)
    requires a.score == None && b.score == Some(50)
    ensures CompareAsWritten(ScoreAsc, a, b) < 0 && Compare(ScoreAsc, a, b) > 0
    ensures CompareAsWritten(ScoreDesc, a, b) > 0 && Compare(ScoreDesc, a, b) > 0
    ensures CompareAsWritten(ScoreAsc, a, b.(score := Some(-5))) > 0
    ensures CompareAsWritten(ScoreDesc, a, b.(score := Some(-5))) < 0 && Compare(ScoreDesc, a, b.(score := Some(-5))) > 0
  {
  }

  /** The sort key equivalent to `Compare(mode, ...)`: a missing score gets the key `[1]`,
      which comes after every present score's `[0, ...]`. */
  function RowKey(mode: Mode, row: Row): seq<int> {
    match mode
    case NameAsc => Codes(NameText(row.name))
    case ScoreDesc => (match row.score case Some(s) => [0, -s] case None => [1])
    case ScoreAsc => (match row.score case Some(s) => [0, s] case None => [1])
    case RiskDesc => [0 - RiskOrder(row.risk) as int]
    case RiskAsc => [RiskOrder(row.risk) as int]
    case Unsorted => []
  }

  /** The score a row sorts by as written: a missing score reads as 0. */
  function ScoreOrZero(score: Option<int>): int {
    match score
    case Some(n) => n
    case None => 0
  }

  /** As written, `safeNum(score) ?? missing` is always a finite score, so the
      infinities are never used. */
  lemma ScoreExtAsWrittenIsFinite(score: Option<int>, missing: Ext)
    ensures ScoreExtAsWritten(score, missing) == Fin(ScoreOrZero(score))
  {
    SafeNumOfScore(score);
  }

  /** The sort key equivalent to `CompareAsWritten(mode, ...)`: a missing score counts
      as 0, and the risk modes rank with the as-written `riskOrder`. */
  function RowKeyAsWritten(mode: Mode, row: Row): seq<int> {
    match mode
    case NameAsc => Codes(NameText(row.name))
    case ScoreDesc => [0 - ScoreOrZero(row.score)]
    case ScoreAsc => [ScoreOrZero(row.score)]
    case RiskDesc => [0 - RiskOrderAsWritten(row.risk) as int]
    case RiskAsc => [RiskOrderAsWritten(row.risk) as int]
    case Unsorted => []
  }

  /** The as-written comparator puts `a` no later than `b` exactly when `a`'s as-written
      key is at most `b`'s. */
  lemma CompareAsWrittenIsKeyOrder(mode: Mode, a: Row, b: Row)
    ensures CompareAsWritten(mode, a, b) <= 0 <==> LexLe(RowKeyAsWritten(mode, a), RowKeyAsWritten(mode, b))
  {
    var s, t := ScoreOrZero(a.score), ScoreOrZero(b.score);
    match mode
    case NameAsc =>
      CompareStringsOrder(NameText(a.name), NameText(b.name));
    case ScoreDesc =>
      ScoreExtAsWrittenIsFinite(a.score, NegInf);
      ScoreExtAsWrittenIsFinite(b.score, NegInf);
      LexLeShortKeys(-s, 0, -t, 0);
    case ScoreAsc =>
      ScoreExtAsWrittenIsFinite(a.score, PosInf);
      ScoreExtAsWrittenIsFinite(b.score, PosInf);
      LexLeShortKeys(s, 0, t, 0);
    case RiskDesc =>
      var x, y := RiskOrderAsWritten(a.risk) as int, RiskOrderAsWritten(b.risk) as int;
      LexLeShortKeys(-x, 0, -y, 0);
    case RiskAsc =>
      var x, y := RiskOrderAsWritten(a.risk) as int, RiskOrderAsWritten(b.risk) as int;
      LexLeShortKeys(x, 0, y, 0);
    case Unsorted =>
  }

  /** As written, "Very High" and "High" rows tie under both risk modes (same key), so the
      stable sort keeps them in file order. */
  lemma VeryHighTiesHighAsWritten(a: Row, b: Row, ta: string, tb: string)
    requires ta == "Very High" && tb == "High"
    requires a.risk == Str(ta) && b.risk == Str(tb)
    ensures RiskOrderAsWritten(a.risk) == RiskOrderAsWritten(b.risk) == 4
    ensures RowKeyAsWritten(RiskDesc, a) == RowKeyAsWritten(RiskDesc, b)
    ensures RowKeyAsWritten(RiskAsc, a) == RowKeyAsWritten(RiskAsc, b)
    ensures CompareAsWritten(RiskDesc, a, b) == 0 && CompareAsWritten(RiskAsc, a, b) == 0
  {
    RiskOrderOfVeryHighLabel(ta);
    RiskOrderOfHighLabel(tb);
  }

  /** The comparator puts `a` no later than `b` exactly when `a`'s key is at most `b`'s. */
  lemma CompareIsKeyOrder(mode: Mode, a: Row, b: Row)
    ensures Compare(mode, a, b) <= 0 <==> LexLe(RowKey(mode, a), RowKey(mode, b))
  {
    ComparatorOfMode();
    match mode
    case NameAsc =>
      CompareStringsOrder(NameText(a.name), NameText(b.name));
    case ScoreDesc =>
      ScoreCompareIsKeyOrder(mode, a, b);
    case ScoreAsc =>
      ScoreCompareIsKeyOrder(mode, a, b);
    case RiskDesc =>
      var x, y := RiskOrder(a.risk) as int, RiskOrder(b.risk) as int;
      LexLeShortKeys(-x, 0, -y, 0);
    case RiskAsc =>
      var x, y := RiskOrder(a.risk) as int, RiskOrder(b.risk) as int;
      LexLeShortKeys(x, 0, y, 0);
    case Unsorted =>
  }

  lemma ScoreCompareIsKeyOrder(mode: Mode, a: Row, b: Row)
    requires mode == ScoreDesc || mode == ScoreAsc
    ensures Compare(mode, a, b) <= 0 <==> LexLe(RowKey(mode, a), RowKey(mode, b))
  {
    ComparatorOfMode();
    SafeNumOfScore(a.score);
    SafeNumOfScore(b.score);
    var s := if a.score.Some? then a.score.value else 0;
    var t := if b.score.Some? then b.score.value else 0;
    var sign := if mode == ScoreDesc then -1 else 1;
    LexLeShortKeys(0, sign * s, 0, sign * t);
    LexLeShortKeys(1, 0, 1, 0);
    LexLeShortKeys(1, 0, 0, sign * t);
    LexLeShortKeys(1, 0, 0, sign * s);
  }

  /** `rows` is in the order the comparator of `mode` asks for. */
  ghost predicate InCompareOrder(mode: Mode, rows: seq<Row>) {
    forall i, j :: 0 <= i < j < |rows| ==> Compare(mode, rows[i], rows[j]) <= 0
  }

  /** The search filter as a predicate on rows. */
  function Keep(q: string): Row -> bool {
    (x: Row) => Matches(x, q)
  }

  /** The sort key of `mode` as a function on rows. */
  function KeyOf(mode: Mode): Row -> seq<int> {
    (x: Row) => RowKey(mode, x)
  }

  /** Filtering `all` by the query and sorting the survivors by the mode's comparator. */
  function FilterSort(all: seq<Row>, q: string, mode: Mode): (rows: seq<Row>)
    // exactly the matching rows, each as often as in `all`
    ensures forall x :: multiset(rows)[x] == (if Matches(x, q) then multiset(all)[x] else 0)
    // in comparator order
    ensures InCompareOrder(mode, rows)
  {
    var kept := Filter(all, Keep(q));
    ISortOrderedPermutation(kept, KeyOf(mode));
    var rows := ISort(kept, KeyOf(mode));
    forall i, j | 0 <= i < j < |rows| ensures Compare(mode, rows[i], rows[j]) <= 0 {
      CompareIsKeyOrder(mode, rows[i], rows[j]);
    }
    rows
  }

  /** `rows` is in the order the as-written comparator of `mode` asks for. */
  ghost predicate InCompareOrderAsWritten(mode: Mode, rows: seq<Row>) {
    forall i, j :: 0 <= i < j < |rows| ==> CompareAsWritten(mode, rows[i], rows[j]) <= 0
  }

  /** The as-written sort key of `mode` as a function on rows. */
  function KeyOfAsWritten(mode: Mode): Row -> seq<int> {
    (x: Row) => RowKeyAsWritten(mode, x)
  }

  /** The search and the sort as the script runs them, with the as-written `safeNum` and
      `riskOrder` inside the comparator. */
  function FilterSortAsWritten(all: seq<Row>, q: string, mode: Mode): (rows: seq<Row>)
    // exactly the matching rows, each as often as in `all`
    ensures forall x :: multiset(rows)[x] == (if Matches(x, q) then multiset(all)[x] else 0)
    // in the as-written comparator's order
    ensures InCompareOrderAsWritten(mode, rows)
  {
    var kept := Filter(all, Keep(q));
    ISortOrderedPermutation(kept, KeyOfAsWritten(mode));
    var rows := ISort(kept, KeyOfAsWritten(mode));
    forall i, j | 0 <= i < j < |rows| ensures CompareAsWritten(mode, rows[i], rows[j]) <= 0 {
      CompareAsWrittenIsKeyOrder(mode, rows[i], rows[j]);
    }
    rows
  }

  /** The as-written sort is stable too: rows it ties (for instance "Very High" and
      "High" under the risk modes) stay in file order. */
  lemma FilterSortAsWrittenStable(all: seq<Row>, q: string, mode: Mode, k: seq<int>)
    ensures Filter(FilterSortAsWritten(all, q, mode), HasKey(KeyOfAsWritten(mode), k)) ==
            Filter(Filter(all, Keep(q)), HasKey(KeyOfAsWritten(mode), k))
  {
    ISortStable(Filter(all, Keep(q)), KeyOfAsWritten(mode), k);
  }

  /** What `getFilteredDistrictFeatures` returns. */
  function FilteredDistricts(raw: Option<FeatureCollection>, sector: string, metric: string,
                             search: string, sortValue: string): (rows: seq<Row>)
    // exactly the rows whose name contains the query, each as often as in the file
    ensures forall x :: (multiset(rows)[x] ==
      if Matches(x, Query(search)) then multiset(AllRows(raw, sector, metric))[x] else 0)
    // in the order of the chosen mode's comparator
    ensures InCompareOrder(SortMode(sortValue), rows)
  {
    FilterSort(AllRows(raw, sector, metric), Query(search), SortMode(sortValue))
  }

  /** `getFilteredDistrictFeatures()`: builds the rows, keeps those whose name contains
      the query, and sorts them in place with the comparator of the chosen mode. */
  method GetFilteredDistrictFeatures(raw: Option<FeatureCollection>, sector: string, metric: string,
                                     search: string, sortValue: string) returns (rows: seq<Row>)
    ensures rows == FilteredDistricts(raw, sector, metric, search, sortValue)
  {
    var q := Query(search);
    var mode := SortMode(sortValue);
    var features := AllRows(raw, sector, metric);
    var filtered := Filter(features, Keep(q));
    rows := SortRows(filtered, mode);
  }

  /** `filtered.sort(cmp)`: copies the rows into an array and sorts it in place. */
  method SortRows(filtered: seq<Row>, mode: Mode) returns (rows: seq<Row>)
    ensures rows == ISort(filtered, KeyOf(mode))
  {
    var a := new Row[|filtered|](i requires 0 <= i < |filtered| => filtered[i]);
    assert a[..] == filtered;
    SortInPlace(a, KeyOf(mode));
    rows := a[..];
  }

  /** A blank search box gives the empty query. */
  lemma BlankSearchIsEmptyQuery(search: string)
    requires Trim(search) == ""
    ensures Query(search) == ""
  {
  }

  /** The empty query keeps every row. */
  lemma EmptyQueryKeepsAll(all: seq<Row>, mode: Mode)
    ensures multiset(FilterSort(all, "", mode)) == multiset(all)
  {
    var rows := FilterSort(all, "", mode);
    forall x: Row ensures Matches(x, "") {
      IncludesEmpty(ToLower(NameText(x.name)));
    }
    assert forall x :: multiset(rows)[x] == multiset(all)[x];
  }

  /** Rows in `score_desc` order: present scores are non-increasing and missing scores
      come last. */
  lemma ScoreDescOrder(rows: seq<Row>)
    requires InCompareOrder(ScoreDesc, rows)
    ensures forall i, j :: 0 <= i < j < |rows| ==>
      (rows[i].score.None? ==> rows[j].score.None?) &&
      (rows[i].score.Some? && rows[j].score.Some? ==> rows[i].score.value >= rows[j].score.value)
  {
    forall i, j | 0 <= i < j < |rows|
      ensures rows[i].score.None? ==> rows[j].score.None?
      ensures rows[i].score.Some? && rows[j].score.Some? ==> rows[i].score.value >= rows[j].score.value
    {
      assert Compare(ScoreDesc, rows[i], rows[j]) <= 0;
      SafeNumOfScore(rows[i].score);
      SafeNumOfScore(rows[j].score);
    }
  }

  /** Rows in `score_asc` order: present scores are non-decreasing and missing scores
      come last. */
  lemma ScoreAscOrder(rows: seq<Row>)
    requires InCompareOrder(ScoreAsc, rows)
    ensures forall i, j :: 0 <= i < j < |rows| ==>
      (rows[i].score.None? ==> rows[j].score.None?) &&
      (rows[i].score.Some? && rows[j].score.Some? ==> rows[i].score.value <= rows[j].score.value)
  {
    forall i, j | 0 <= i < j < |rows|
      ensures rows[i].score.None? ==> rows[j].score.None?
      ensures rows[i].score.Some? && rows[j].score.Some? ==> rows[i].score.value <= rows[j].score.value
    {
      assert Compare(ScoreAsc, rows[i], rows[j]) <= 0;
      SafeNumOfScore(rows[i].score);
      SafeNumOfScore(rows[j].score);
    }
  }

  /** Rows in `risk_desc` order have non-increasing risk ranks. */
  lemma RiskDescOrder(rows: seq<Row>)
    requires InCompareOrder(RiskDesc, rows)
    ensures forall i, j :: 0 <= i < j < |rows| ==> RiskOrder(rows[i].risk) >= RiskOrder(rows[j].risk)
  {
    ComparatorOfMode();
    forall i, j | 0 <= i < j < |rows| ensures RiskOrder(rows[i].risk) >= RiskOrder(rows[j].risk) {
      assert Compare(RiskDesc, rows[i], rows[j]) <= 0;
    }
  }

  /** Rows in `risk_asc` order have non-decreasing risk ranks. */
  lemma RiskAscOrder(rows: seq<Row>)
    requires InCompareOrder(RiskAsc, rows)
    ensures forall i, j :: 0 <= i < j < |rows| ==> RiskOrder(rows[i].risk) <= RiskOrder(rows[j].risk)
  {
    ComparatorOfMode();
    forall i, j | 0 <= i < j < |rows| ensures RiskOrder(rows[i].risk) <= RiskOrder(rows[j].risk) {
      assert Compare(RiskAsc, rows[i], rows[j]) <= 0;
    }
  }

  /** Rows in `name_asc` order have their names in code-point order. */
  lemma NameAscOrder(rows: seq<Row>)
    requires InCompareOrder(NameAsc, rows)
    ensures forall i, j :: 0 <= i < j < |rows| ==> LexLe(Codes(NameText(rows[i].name)), Codes(NameText(rows[j].name)))
  {
    forall i, j | 0 <= i < j < |rows|
      ensures LexLe(Codes(NameText(rows[i].name)), Codes(NameText(rows[j].name)))
    {
      assert Compare(NameAsc, rows[i], rows[j]) <= 0;
      CompareStringsOrder(NameText(rows[i].name), NameText(rows[j].name));
    }
  }

  /** The sort is stable: matching rows that the comparator ties (equal sort keys) stay
      in file order. */
  lemma FilterSortStable(all: seq<Row>, q: string, mode: Mode, k: seq<int>)
    ensures Filter(FilterSort(all, q, mode), HasKey(KeyOf(mode), k)) ==
            Filter(Filter(all, Keep(q)), HasKey(KeyOf(mode), k))
  {
    ISortStable(Filter(all, Keep(q)), KeyOf(mode), k);
  }

  /** An unknown sort mode keeps the matching rows in file order. */
  lemma UnknownModeKeepsOrder(all: seq<Row>, q: string)
    ensures FilterSort(all, q, Unsorted) == Filter(all, Keep(q))
  {
    ISortEqualKeys(Filter(all, Keep(q)), KeyOf(Unsorted));
  }
}
