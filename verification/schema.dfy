/**
  The tables of the sales pipeline: raw and cleaned sales rows, forecast
  rows, the three dimension tables and the sales fact table. Every column a
  data frame can leave empty is a `Cell`, an optional value; two empty
  cells compare equal, as data-frame deduplication and merging treat them.
 */
module Schema {

  datatype Option<+T> = None | Some(value: T)

  /** A non-missing value: text, or a number compared by numeric value
      (so 1 and 1.0 are the same value). */
  datatype Value = Text(text: string) | Num(num: real)

  type Cell = Option<Value>

  /** One sales transaction. The named columns are the ones the pipeline
      reads or writes; `others` holds the remaining columns of the record,
      which every stage carries along untouched. */
  datatype SalesRow = SalesRow(
    orderDate: Cell,
    quantity: Cell,
    netPrice: Cell,
    productKey: Cell,
    productName: Cell,
    brand: Cell,
    color: Cell,
    subcategory: Cell,
    category: Cell,
    customerKey: Cell,
    customerCode: Cell,
    name: Cell,
    education: Cell,
    occupation: Cell,
    city: Cell,
    state: Cell,
    countryRegion: Cell,
    continent: Cell,
    others: seq<Cell>)

  /** One forecast entry; its columns are carried through as they are. */
  datatype ForecastRow = ForecastRow(year: Cell, others: seq<Cell>)

  /** A row of the product dimension. */
  datatype ProductRow = ProductRow(
    productKey: Cell,
    productName: Cell,
    brand: Cell,
    color: Cell,
    subcategory: Cell,
    category: Cell)

  /** A row of the customer dimension. */
  datatype CustomerRow = CustomerRow(
    customerKey: Cell,
    customerCode: Cell,
    name: Cell,
    education: Cell,
    occupation: Cell)

  /** The geography identity of a sale: the four columns the fact table is
      joined on, compared all together. */
  datatype Geo = Geo(city: Cell, state: Cell, countryRegion: Cell, continent: Cell)

  /** A row of the geography dimension with its surrogate key. */
  datatype GeoRow = GeoRow(geo: Geo, geoKey: nat)

  /** A row of the sales fact table. */
  datatype FactRow = FactRow(
    productKey: Cell,
    customerKey: Cell,
    geoKey: nat,
    orderDate: Cell,
    quantity: Cell,
    netPrice: Cell)

  function ProductOf(r: SalesRow): ProductRow {
    ProductRow(r.productKey, r.productName, r.brand, r.color, r.subcategory, r.category)
  }

  function CustomerOf(r: SalesRow): CustomerRow {
    CustomerRow(r.customerKey, r.customerCode, r.name, r.education, r.occupation)
  }

  function GeoOf(r: SalesRow): Geo {
    Geo(r.city, r.state, r.countryRegion, r.continent)
  }

  /** The fact row for sale `r` joined to the geography row with key `key`. */
  function FactOf(r: SalesRow, key: nat): FactRow {
    FactRow(r.productKey, r.customerKey, key, r.orderDate, r.quantity, r.netPrice)
  }

  /** The column selections `sales[[...]]` of the three dimensions. */
  function ProductColumns(sales: seq<SalesRow>): seq<ProductRow>
  {
    seq(|sales|, i requires 0 <= i < |sales| => ProductOf(sales[i]))
  }

  function CustomerColumns(sales: seq<SalesRow>): seq<CustomerRow>
  {
    seq(|sales|, i requires 0 <= i < |sales| => CustomerOf(sales[i]))
  }

  function GeoColumns(sales: seq<SalesRow>): seq<Geo>
  {
    seq(|sales|, i requires 0 <= i < |sales| => GeoOf(sales[i]))
  }
}
