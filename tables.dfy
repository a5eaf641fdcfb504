/**
 * The record types of the time-series builder: the two raw event tables,
 * the geo dictionary, the (geo, date) key and the rows of the dense panel.
 *
 * Dates are day numbers (days since a fixed epoch), geo ids are integers and
 * the response and cost values are integers that are carried, never computed on.
 */
module Tables {

  datatype Option<+T> = None | Some(value: T)

  datatype Result<+T, +E> = Ok(value: T) | Err(error: E)

  /** A geographic unit identifier. */
  type GeoId = int

  /** A calendar day, counted in days from a fixed epoch. */
  type Day = int

  /** The (geo, date) label that both sources are indexed by. */
  datatype Key = Key(geo: GeoId, date: Day)

  /** One row of the response table (the columns the core reads). */
  datatype ResponseRecord = ResponseRecord(geo: GeoId, geoName: string, date: Day, response: int)

  /** One row of the cost table. */
  datatype CostRecord = CostRecord(geo: GeoId, date: Day, cost: int)

  /** One row of the geo dictionary: a geo id and its display name. */
  datatype Entry = Entry(geo: GeoId, geoName: string)

  /** One row of a source after it is indexed by (geo, date): the key and its value column. */
  datatype Cell = Cell(key: Key, value: int)

  /** One row of the merged panel, before the names are attached. */
  datatype PanelRow = PanelRow(key: Key, response: int, cost: int)

  /** One row of the final panel: columns geo, date, response, cost, geo_name. */
  datatype NamedRow = NamedRow(geo: GeoId, date: Day, response: int, cost: int, geoName: Option<string>)

  /** The response table restricted to geo, date and response and indexed by (geo, date). */
  function ResponseCells(rs: seq<ResponseRecord>): seq<Cell>
  {
    seq(|rs|, i requires 0 <= i < |rs| => Cell(Key(rs[i].geo, rs[i].date), rs[i].response))
  }

  /** The cost table restricted to geo, date and cost and indexed by (geo, date). */
  function CostCells(cs: seq<CostRecord>): seq<Cell>
  {
    seq(|cs|, i requires 0 <= i < |cs| => Cell(Key(cs[i].geo, cs[i].date), cs[i].cost))
  }

  /** No two cells of a table share a (geo, date) label. */
  predicate UniqueKeys(cells: seq<Cell>)
  {
    forall i, j :: 0 <= i < j < |cells| ==> cells[i].key != cells[j].key
  }

  /** The labels of a table, as a set. */
  function KeySet(cells: seq<Cell>): set<Key>
  {
    set c | c in cells :: c.key
  }

  /** The lexicographic order on labels: by geo first, then by date. */
  predicate KeyLess(a: Key, b: Key)
  {
    a.geo < b.geo || (a.geo == b.geo && a.date < b.date)
  }

  /** A sequence of labels in strictly ascending lexicographic order (hence without repeats). */
  predicate KeysAscending(keys: seq<Key>)
  {
    forall i, j :: 0 <= i < j < |keys| ==> KeyLess(keys[i], keys[j])
  }

  /** The labels of a table, in row order. */
  function KeysOf(cells: seq<Cell>): seq<Key>
  {
    seq(|cells|, i requires 0 <= i < |cells| => cells[i].key)
  }
}
