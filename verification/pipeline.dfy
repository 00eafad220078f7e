/**
  The cleaning stage followed by the modelling stage, and worked examples of
  the two stages, stated for all inputs.
 */
module Pipeline {
  import opened Schema
  import opened Silver
  import opened Gold
  import opened Dedup

  /** A customer dimension built from rows that all have a name, education
      and occupation has none of them missing either. */
  lemma DimCustomerKeepsPresentFields(sales: seq<SalesRow>)
    requires forall i :: 0 <= i < |sales| ==> CustomerFieldsPresent(sales[i])
    ensures forall c :: c in DimCustomer(sales) ==>
      c.name.Some? && c.education.Some? && c.occupation.Some?
  {
    forall c | c in DimCustomer(sales)
      ensures c.name.Some? && c.education.Some? && c.occupation.Some?
    {
      var i :| 0 <= i < |sales| && CustomerColumns(sales)[i] == c;
      assert CustomerFieldsPresent(sales[i]);
    }
  }

  /** From raw sales to gold: no sale is lost on the way, the integrity check
      passes, and no customer dimension row lacks a name, education or
      occupation. */
  lemma SilverThenGold(rawSales: seq<SalesRow>, rawForecast: seq<ForecastRow>)
    ensures var silver := TransformToSilver(rawSales, rawForecast);
      var gold := ModelToGold(silver.sales, silver.forecast);
      && |gold.factSales| == |rawSales|
      && gold.report == Passed
      && gold.factForecast == rawForecast
      && forall c :: c in gold.dimCustomer ==>
           c.name.Some? && c.education.Some? && c.occupation.Some?
  {
    var silver := TransformToSilver(rawSales, rawForecast);
    assert forall i :: 0 <= i < |silver.sales| ==> CustomerFieldsPresent(silver.sales[i]);
    DimCustomerKeepsPresentFields(silver.sales);
  }

  /** When every sale has the same geography tuple, the geography dimension
      is that one tuple keyed 1, and every fact row carries key 1. */
  lemma OneSharedGeography(sales: seq<SalesRow>)
    requires |sales| > 0
    requires forall i :: 0 <= i < |sales| ==> GeoOf(sales[i]) == GeoOf(sales[0])
    ensures var gold := ModelToGold(sales, []);
      && gold.dimGeo == [GeoRow(GeoOf(sales[0]), 1)]
      && |gold.factSales| == |sales|
      && forall i :: 0 <= i < |sales| ==> gold.factSales[i] == FactOf(sales[i], 1)
  {
    var columns := GeoColumns(sales);
    DistinctOfRepeated(columns);
    assert DimGeo(sales) == AssignGeoKeys([GeoOf(sales[0])]);
  }

  /** Two sales whose geography tuples differ in any column, however slightly
      (a trailing space in a city, say), give two geography rows keyed 1 and
      2, and their fact rows carry different keys. */
  lemma TwoDistinctGeographies(a: SalesRow, b: SalesRow)
    requires GeoOf(a) != GeoOf(b)
    ensures var gold := ModelToGold([a, b], []);
      && gold.dimGeo == [GeoRow(GeoOf(a), 1), GeoRow(GeoOf(b), 2)]
      && gold.factSales == [FactOf(a, 1), FactOf(b, 2)]
  {
    var sales := [a, b];
    var gold := ModelToGold(sales, []);
    var dim := gold.dimGeo;
    var columns := GeoColumns(sales);
    assert columns[0] == GeoOf(a) && columns[1] == GeoOf(b);
    assert GeoOf(a) in GeoTuples(dim) && GeoOf(b) in GeoTuples(dim);
    assert |dim| == 2;
    assert FirstIndex(columns, GeoOf(a)) == 0;
    assert FirstIndex(columns, GeoOf(b)) == 1;
    assert GeoTuples(dim)[0] == dim[0].geo && GeoTuples(dim)[1] == dim[1].geo;
    assert dim[0].geo == GeoOf(a) && dim[1].geo == GeoOf(b);
  }
}
