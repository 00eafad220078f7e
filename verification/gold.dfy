/**
  The dimensional-modelling stage (silver to gold): three deduplicated
  dimension tables, a surrogate `GeoKey` for the geography dimension, the
  sales fact table obtained by an inner join on the four geography columns,
  the forecast passed through, and the row-count integrity diagnostic.
 */
module Gold {
  import opened Schema
  import opened Dedup

  /** The product dimension: the distinct product column tuples, in order of
      first appearance. */
  function DimProduct(sales: seq<SalesRow>): (d: seq<ProductRow>)
    ensures |d| <= |sales|
    ensures NoDuplicates(d)
    ensures forall p :: p in d <==> p in ProductColumns(sales)
    ensures InFirstOccurrenceOrder(ProductColumns(sales), d)
  {
    var columns := ProductColumns(sales);
    DistinctKeepsFirstOccurrenceOrder(columns);
    Distinct(columns)
  }

  /** The customer dimension: the distinct customer column tuples, in order
      of first appearance. */
  function DimCustomer(sales: seq<SalesRow>): (d: seq<CustomerRow>)
    ensures |d| <= |sales|
    ensures NoDuplicates(d)
    ensures forall c :: c in d <==> c in CustomerColumns(sales)
    ensures InFirstOccurrenceOrder(CustomerColumns(sales), d)
  {
    var columns := CustomerColumns(sales);
    DistinctKeepsFirstOccurrenceOrder(columns);
    Distinct(columns)
  }

  /** The geography tuples of a geography dimension, in row order. */
  function GeoTuples(dim: seq<GeoRow>): seq<Geo>
  {
    seq(|dim|, i requires 0 <= i < |dim| => dim[i].geo)
  }

  /** Numbering the rows of a deduplicated geography table `1..n`. */
  function AssignGeoKeys(geos: seq<Geo>): (d: seq<GeoRow>)
    ensures GeoTuples(d) == geos
  {
    seq(|geos|, i requires 0 <= i < |geos| => GeoRow(geos[i], i + 1))
  }

  /** The surrogate keys of a geography dimension, in row order. */
  function GeoKeys(dim: seq<GeoRow>): seq<nat>
  {
    seq(|dim|, i requires 0 <= i < |dim| => dim[i].geoKey)
  }

  /** The surrogate keys are exactly `1..n`, increasing with row position,
      and so pairwise distinct; the tuples keep their order. */
  lemma GeoKeysAreOneToN(geos: seq<Geo>)
    ensures var d := AssignGeoKeys(geos);
      && |d| == |geos|
      && (forall k: int :: k in GeoKeys(d) <==> 1 <= k <= |d|)
      && (forall i, j :: 0 <= i < j < |d| ==> d[i].geoKey < d[j].geoKey)
      && (forall i :: 0 <= i < |d| ==> d[i].geo == geos[i])
  {
    var d := AssignGeoKeys(geos);
    var keys := GeoKeys(d);
    forall k: int
      ensures k in keys <==> 1 <= k <= |d|
    {
      if 1 <= k <= |d| {
        assert keys[k - 1] == k;
      }
    }
  }

  /** No two rows of a geography dimension carry the same tuple. */
  ghost predicate GeoTuplesUnique(dim: seq<GeoRow>) {
    forall i, j :: 0 <= i < j < |dim| ==> dim[i].geo != dim[j].geo
  }

  /** The geography dimension: the distinct geography tuples in order of
      first appearance, numbered from 1. */
  function DimGeo(sales: seq<SalesRow>): (d: seq<GeoRow>)
    ensures |d| <= |sales|
    ensures GeoTuplesUnique(d)
    ensures forall g :: g in GeoTuples(d) <==> g in GeoColumns(sales)
    ensures InFirstOccurrenceOrder(GeoColumns(sales), GeoTuples(d))
    ensures forall j :: 0 <= j < |d| ==> d[j].geoKey == j + 1
  {
    var columns := GeoColumns(sales);
    var geos := Distinct(columns);
    DistinctKeepsFirstOccurrenceOrder(columns);
    var d := AssignGeoKeys(geos);
    assert forall j :: 0 <= j < |d| ==> d[j].geo == geos[j];
    d
  }

  /** The row `(sale, geography row)` of the join, when the two tuples match. */
  ghost predicate JoinedRow(r: SalesRow, g: GeoRow, f: FactRow) {
    g.geo == GeoOf(r) && f == FactOf(r, g.geoKey)
  }

  /** The joined rows for one sale: one fact row per geography row whose
      tuple equals the sale's, in dimension order. The merge and the
      projection to the six fact columns are taken together. */
  function GeoMatches(r: SalesRow, dim: seq<GeoRow>): (m: seq<FactRow>)
    ensures forall f :: f in m <==> exists j :: 0 <= j < |dim| && JoinedRow(r, dim[j], f)
    decreases |dim|
  {
    if |dim| == 0 then []
    else
      assert forall j :: 1 <= j < |dim| ==> dim[1..][j - 1] == dim[j];
      (if dim[0].geo == GeoOf(r) then [FactOf(r, dim[0].geoKey)] else [])
      + GeoMatches(r, dim[1..])
  }

  /** The inner join of the sales rows with a geography dimension on all four
      geography columns, projected to the fact columns: a fact row occurs in
      it exactly when it joins some sale to some geography row with the same
      tuple. */
  function MergeOnGeo(sales: seq<SalesRow>, dim: seq<GeoRow>): (m: seq<FactRow>)
    ensures forall f :: f in m <==>
      exists i, j :: 0 <= i < |sales| && 0 <= j < |dim| && JoinedRow(sales[i], dim[j], f)
    decreases |sales|
  {
    if |sales| == 0 then []
    else
      assert forall i :: 1 <= i < |sales| ==> sales[1..][i - 1] == sales[i];
      GeoMatches(sales[0], dim) + MergeOnGeo(sales[1..], dim)
  }

  /** A sale whose tuple occurs once in the dimension, at row `k`, yields
      exactly one fact row, carrying that row's key. */
  lemma {:induction false} GeoMatchesUnique(r: SalesRow, dim: seq<GeoRow>, k: nat)
    requires GeoTuplesUnique(dim)
    requires k < |dim| && dim[k].geo == GeoOf(r)
    ensures GeoMatches(r, dim) == [FactOf(r, dim[k].geoKey)]
    decreases |dim|
  {
    if k == 0 {
      GeoMatchesNone(r, dim[1..]);
    } else {
      assert dim[0].geo != GeoOf(r);
      GeoMatchesUnique(r, dim[1..], k - 1);
    }
  }

  /** A sale whose tuple is absent from the dimension yields no fact row. */
  lemma {:induction false} GeoMatchesNone(r: SalesRow, dim: seq<GeoRow>)
    requires GeoOf(r) !in GeoTuples(dim)
    ensures GeoMatches(r, dim) == []
    decreases |dim|
  {
    if |dim| > 0 {
      assert GeoTuples(dim)[0] == dim[0].geo;
      assert GeoTuples(dim[1..]) == GeoTuples(dim)[1..];
      GeoMatchesNone(r, dim[1..]);
    }
  }

  /** The number of sales rows whose geography tuple has no row in `dim`. */
  function CountUnmatched(sales: seq<SalesRow>, dim: seq<GeoRow>): nat
    decreases |sales|
  {
    if |sales| == 0 then 0
    else (if GeoOf(sales[0]) in GeoTuples(dim) then 0 else 1) + CountUnmatched(sales[1..], dim)
  }

  /** Against a dimension with unique tuples, the join keeps every matched
      sale once and drops exactly the unmatched ones. */
  lemma {:induction false} MergeDropsExactlyUnmatched(sales: seq<SalesRow>, dim: seq<GeoRow>)
    requires GeoTuplesUnique(dim)
    ensures |MergeOnGeo(sales, dim)| == |sales| - CountUnmatched(sales, dim)
    ensures CountUnmatched(sales, dim) <= |sales|
    decreases |sales|
  {
    if |sales| > 0 {
      var g := GeoOf(sales[0]);
      if g in GeoTuples(dim) {
        var k :| 0 <= k < |dim| && GeoTuples(dim)[k] == g;
        GeoMatchesUnique(sales[0], dim, k);
      } else {
        GeoMatchesNone(sales[0], dim);
      }
      MergeDropsExactlyUnmatched(sales[1..], dim);
    }
  }

  /** `facts` has one row per sale, in sale order: the sale's product,
      customer, date, quantity and price, with the key of a dimension row
      whose tuple is the sale's. */
  ghost predicate FactsKeyedByGeo(sales: seq<SalesRow>, dim: seq<GeoRow>, facts: seq<FactRow>) {
    && |facts| == |sales|
    && forall i :: 0 <= i < |sales| ==>
         exists j :: 0 <= j < |dim| && dim[j].geo == GeoOf(sales[i])
           && facts[i] == FactOf(sales[i], dim[j].geoKey)
  }

  /** Against a dimension with unique tuples that holds every sale's tuple,
      the join yields one fact row per sale, in sale order, keyed by the
      dimension row with the sale's tuple. */
  lemma {:induction false} MergeKeepsEverySale(sales: seq<SalesRow>, dim: seq<GeoRow>)
    requires GeoTuplesUnique(dim)
    requires forall i :: 0 <= i < |sales| ==> GeoOf(sales[i]) in GeoTuples(dim)
    ensures FactsKeyedByGeo(sales, dim, MergeOnGeo(sales, dim))
    decreases |sales|
  {
    if |sales| > 0 {
      var k :| 0 <= k < |dim| && GeoTuples(dim)[k] == GeoOf(sales[0]);
      GeoMatchesUnique(sales[0], dim, k);
      MergeKeepsEverySale(sales[1..], dim);
      var facts := MergeOnGeo(sales, dim);
      assert facts == [FactOf(sales[0], dim[k].geoKey)] + MergeOnGeo(sales[1..], dim);
      forall i | 0 <= i < |sales|
        ensures exists j :: (0 <= j < |dim| && dim[j].geo == GeoOf(sales[i])
          && facts[i] == FactOf(sales[i], dim[j].geoKey))
      {
        if i == 0 {
          assert dim[k].geo == GeoOf(sales[0]) && facts[0] == FactOf(sales[0], dim[k].geoKey);
        } else {
          assert sales[1..][i - 1] == sales[i];
          assert facts[i] == MergeOnGeo(sales[1..], dim)[i - 1];
        }
      }
    }
  }

  /** The outcome of the row-count comparison after the join. */
  datatype IntegrityReport = Passed | RowsLost(lost: int)

  /** The integrity check: passes when the fact table has as many rows as the
      sales table fed to the join, and otherwise reports the difference. */
  function IntegrityCheck(inputCount: nat, factCount: nat): (r: IntegrityReport)
    ensures r.Passed? <==> factCount == inputCount
    ensures r.RowsLost? ==> r.lost != 0 && r.lost + factCount == inputCount
  {
    if factCount != inputCount then RowsLost(inputCount - factCount) else Passed
  }

  /** Joined against any dimension with unique tuples, the check passes
      exactly when every sale's tuple is in the dimension, and a warning
      reports exactly the number of sales without a matching tuple. */
  lemma IntegrityReportCountsUnmatched(sales: seq<SalesRow>, dim: seq<GeoRow>)
    requires GeoTuplesUnique(dim)
    ensures var report := IntegrityCheck(|sales|, |MergeOnGeo(sales, dim)|);
      && (report.Passed? <==> forall i :: 0 <= i < |sales| ==> GeoOf(sales[i]) in GeoTuples(dim))
      && (report.RowsLost? ==> report.lost == CountUnmatched(sales, dim))
  {
    MergeDropsExactlyUnmatched(sales, dim);
    CountUnmatchedZeroIff(sales, dim);
  }

  /** No sale is unmatched exactly when every sale's tuple is in the dimension. */
  lemma {:induction false} CountUnmatchedZeroIff(sales: seq<SalesRow>, dim: seq<GeoRow>)
    ensures CountUnmatched(sales, dim) == 0
      <==> forall i :: 0 <= i < |sales| ==> GeoOf(sales[i]) in GeoTuples(dim)
    decreases |sales|
  {
    if |sales| > 0 {
      CountUnmatchedZeroIff(sales[1..], dim);
      assert forall i :: 1 <= i < |sales| ==> sales[i] == sales[1..][i - 1];
    }
  }

  /** The gold layer with the integrity diagnostic. */
  datatype GoldLayer = GoldLayer(
    dimProduct: seq<ProductRow>,
    dimCustomer: seq<CustomerRow>,
    dimGeo: seq<GeoRow>,
    factSales: seq<FactRow>,
    factForecast: seq<ForecastRow>,
    report: IntegrityReport)

  /** The modelling stage. Because the geography dimension is built from the
      very rows that are joined to it and its tuples are unique, every sale
      finds exactly one geography row: the fact table has one row per sale
      and the integrity check always passes. */
  function ModelToGold(sales: seq<SalesRow>, forecast: seq<ForecastRow>): (g: GoldLayer)
    ensures g.dimProduct == DimProduct(sales)
    ensures g.dimCustomer == DimCustomer(sales)
    ensures g.dimGeo == DimGeo(sales)
    ensures g.factForecast == forecast
    ensures FactsKeyedByGeo(sales, g.dimGeo, g.factSales)
    ensures g.report == Passed
  {
    var dimGeo := DimGeo(sales);
    assert forall i :: 0 <= i < |sales| ==> GeoColumns(sales)[i] == GeoOf(sales[i]);
    MergeKeepsEverySale(sales, dimGeo);
    var factSales := MergeOnGeo(sales, dimGeo);
    var g := GoldLayer(
      DimProduct(sales),
      DimCustomer(sales),
      dimGeo,
      factSales,
      forecast,
      IntegrityCheck(|sales|, |factSales|));
    assert g.dimGeo == dimGeo && g.factSales == factSales;
    g
  }

  /** Every sale's geography tuple is carried by exactly one row of the
      geography dimension, so the join yields exactly one row for it. */
  lemma EverySaleMatchesOneGeoRow(sales: seq<SalesRow>)
    ensures var dim := DimGeo(sales);
      forall i :: 0 <= i < |sales| ==>
        && |GeoMatches(sales[i], dim)| == 1
        && (exists j :: 0 <= j < |dim| && dim[j].geo == GeoOf(sales[i]))
        && (forall j, j' ::
              (0 <= j < |dim| && 0 <= j' < |dim| && dim[j].geo == GeoOf(sales[i]) && dim[j'].geo == GeoOf(sales[i]))
              ==> j == j')
  {
    var dim := DimGeo(sales);
    forall i | 0 <= i < |sales|
      ensures |GeoMatches(sales[i], dim)| == 1
      ensures exists j :: 0 <= j < |dim| && dim[j].geo == GeoOf(sales[i])
    {
      assert GeoColumns(sales)[i] == GeoOf(sales[i]);
      var k :| 0 <= k < |dim| && GeoTuples(dim)[k] == GeoOf(sales[i]);
      GeoMatchesUnique(sales[i], dim, k);
    }
  }
}
