/**
  The cleaning stage (bronze to silver): missing customer `Name`,
  `Education` and `Occupation` values are filled with fixed defaults; every
  other column, and every row, passes through.
 */
module Silver {
  import opened Schema

  const UnknownName: Value := Text("Unknown")
  const NotProvided: Value := Text("Not Provided")

  /** A column's `fillna(fill)` applied to one cell. */
  function FillNa(c: Cell, fill: Value): Cell {
    if c.None? then Some(fill) else c
  }

  /** The three customer columns that the cleaning stage fills are present. */
  predicate CustomerFieldsPresent(r: SalesRow) {
    r.name.Some? && r.education.Some? && r.occupation.Some?
  }

  /** One sales row after the three fill rules. */
  function CleanSalesRow(r: SalesRow): (c: SalesRow)
    ensures CustomerFieldsPresent(c)
    ensures r.name.Some? ==> c.name == r.name
    ensures r.name.None? ==> c.name == Some(UnknownName)
    ensures r.education.Some? ==> c.education == r.education
    ensures r.education.None? ==> c.education == Some(NotProvided)
    ensures r.occupation.Some? ==> c.occupation == r.occupation
    ensures r.occupation.None? ==> c.occupation == Some(NotProvided)
    ensures c.(name := r.name, education := r.education, occupation := r.occupation) == r
  {
    r.(name := FillNa(r.name, UnknownName),
       education := FillNa(r.education, NotProvided),
       occupation := FillNa(r.occupation, NotProvided))
  }

  /** Cleaning a row changes it exactly when one of the three columns is missing. */
  lemma CleanSalesRowFixedPoints(r: SalesRow)
    ensures CleanSalesRow(r) == r <==> CustomerFieldsPresent(r)
  {
  }

  /** Cleaning a clean row changes nothing. */
  lemma CleanSalesRowIdempotent(r: SalesRow)
    ensures CleanSalesRow(CleanSalesRow(r)) == CleanSalesRow(r)
  {
    CleanSalesRowFixedPoints(CleanSalesRow(r));
  }

  /** The cleaned tables, with the row-drop count the stage reports. */
  datatype SilverLayer = SilverLayer(sales: seq<SalesRow>, forecast: seq<ForecastRow>, dropped: int)

  /** The cleaning stage. The conversion of `OrderDate` to a timestamp and of
      the forecast `Year` to an integer are not modelled: both columns pass
      through as they are. */
  function TransformToSilver(rawSales: seq<SalesRow>, rawForecast: seq<ForecastRow>): (s: SilverLayer)
    ensures |s.sales| == |rawSales|
    ensures s.dropped == 0
    ensures forall i :: 0 <= i < |rawSales| ==> s.sales[i] == CleanSalesRow(rawSales[i])
    ensures s.forecast == rawForecast
  {
    var sales := seq(|rawSales|, i requires 0 <= i < |rawSales| => CleanSalesRow(rawSales[i]));
    SilverLayer(sales, rawForecast, |rawSales| - |sales|)
  }

  /** After cleaning, no sales row lacks a name, education or occupation. */
  lemma SilverSalesComplete(rawSales: seq<SalesRow>, rawForecast: seq<ForecastRow>)
    ensures forall r :: r in TransformToSilver(rawSales, rawForecast).sales ==> CustomerFieldsPresent(r)
  {
  }

  /** The cleaning stage leaves a sales table unchanged exactly when no row
      lacks a name, education or occupation. */
  lemma SilverUnchangedIff(rawSales: seq<SalesRow>, rawForecast: seq<ForecastRow>)
    ensures TransformToSilver(rawSales, rawForecast).sales == rawSales
      <==> forall i :: 0 <= i < |rawSales| ==> CustomerFieldsPresent(rawSales[i])
  {
    var cleaned := TransformToSilver(rawSales, rawForecast).sales;
    forall i | 0 <= i < |rawSales|
      ensures cleaned[i] == rawSales[i] <==> CustomerFieldsPresent(rawSales[i])
    {
      CleanSalesRowFixedPoints(rawSales[i]);
    }
    if cleaned != rawSales {
      var i :| 0 <= i < |rawSales| && cleaned[i] != rawSales[i];
    }
  }

  /** Running the cleaning stage on its own output changes nothing. */
  lemma SilverIdempotent(rawSales: seq<SalesRow>, rawForecast: seq<ForecastRow>)
    ensures var once := TransformToSilver(rawSales, rawForecast);
      TransformToSilver(once.sales, once.forecast) == once
  {
    var once := TransformToSilver(rawSales, rawForecast);
    SilverUnchangedIff(once.sales, once.forecast);
  }
}
