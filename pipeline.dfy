/**
 * The geo-level time series: the canonical index built from the response
 * table, both tables densified onto it, outer-merged, and named from the
 * geo dictionary.
 */
module TimeSeries {
  import opened Tables
  import opened GeoDictionary
  import opened IndexGenerator
  import opened Densifier
  import opened Joiner

  /** The ways building the time series fails. */
  datatype Fault =
    | EmptyResponses        // no response rows, so no date range
    | DuplicateResponseKey  // two response rows share a (geo, date) label
    | DuplicateCostKey      // two cost rows share a (geo, date) label

  /** Some response row has geo `g`. */
  predicate IsResponseGeo(rs: seq<ResponseRecord>, g: GeoId)
  {
    exists i :: 0 <= i < |rs| && rs[i].geo == g
  }

  /**
   * Every response geo crossed with every day from the first to the last
   * response date, geo-major and ascending.
   */
  function CanonicalIndex(rs: seq<ResponseRecord>): (idx: seq<Key>)
    requires |rs| > 0
    ensures KeysAscending(idx)
    ensures forall key :: key in idx <==> IsResponseGeo(rs, key.geo) && MinDate(rs) <= key.date <= MaxDate(rs)
  {
    var geos, dates := GeoAxis(rs), DateAxis(MinDate(rs), MaxDate(rs));
    FullIndexAscending(geos, dates);
    FullIndex(geos, dates)
  }

  /**
   * The canonical index has one label per distinct response geo and day of
   * the response span: |geos| times (last date - first date + 1).
   */
  lemma CanonicalIndexSize(rs: seq<ResponseRecord>)
    requires |rs| > 0
    ensures |CanonicalIndex(rs)| == |GeoAxis(rs)| * (MaxDate(rs) - MinDate(rs) + 1)
    ensures |CanonicalIndex(rs)| == |set i | 0 <= i < |rs| :: rs[i].geo| * (MaxDate(rs) - MinDate(rs) + 1)
  {
    DistinctGeoCount(rs);
  }

  /** The inputs on which the reindexing of both tables succeeds. */
  predicate Densifiable(rs: seq<ResponseRecord>, cs: seq<CostRecord>)
  {
    |rs| > 0 && UniqueKeys(ResponseCells(rs)) && UniqueKeys(CostCells(cs))
  }

  /** A table laid out row by row on the labels `idx` has exactly those labels, in that order. */
  lemma DenseKeys(dense: seq<Cell>, idx: seq<Key>)
    requires |dense| == |idx|
    requires forall k :: 0 <= k < |dense| ==> dense[k].key == idx[k]
    ensures KeysOf(dense) == idx
    ensures forall key :: key in KeySet(dense) <==> key in idx
  {
    forall key | key in idx
      ensures key in KeySet(dense)
    {
      var k :| 0 <= k < |idx| && idx[k] == key;
      assert dense[k] in dense;
    }
  }

  /**
   * Each panel row holds the response recorded under its label, and 0 when
   * no response row has that label.
   */
  predicate HoldsResponses(panel: seq<PanelRow>, rs: seq<ResponseRecord>)
  {
    && (forall k, i :: 0 <= k < |panel| && 0 <= i < |rs| && Key(rs[i].geo, rs[i].date) == panel[k].key ==> panel[k].response == rs[i].response)
    && (forall k :: 0 <= k < |panel| && (forall i :: 0 <= i < |rs| ==> Key(rs[i].geo, rs[i].date) != panel[k].key) ==> panel[k].response == 0)
  }

  /**
   * Each panel row holds the cost recorded under its label, and 0 when no
   * cost row has that label.
   */
  predicate HoldsCosts(panel: seq<PanelRow>, cs: seq<CostRecord>)
  {
    && (forall k, j :: 0 <= k < |panel| && 0 <= j < |cs| && Key(cs[j].geo, cs[j].date) == panel[k].key ==> panel[k].cost == cs[j].cost)
    && (forall k :: 0 <= k < |panel| && (forall j :: 0 <= j < |cs| ==> Key(cs[j].geo, cs[j].date) != panel[k].key) ==> panel[k].cost == 0)
  }

  /**
   * The outer merge of the two densified tables: one row per label of the
   * canonical index, in index order, holding the response and the cost
   * recorded under that label, or 0 where a table has none.
   */
  function MergedPanel(rs: seq<ResponseRecord>, cs: seq<CostRecord>): (panel: seq<PanelRow>)
    requires Densifiable(rs, cs)
    ensures |panel| == |CanonicalIndex(rs)|
    ensures forall k :: 0 <= k < |panel| ==> panel[k].key == CanonicalIndex(rs)[k]
    ensures HoldsResponses(panel, rs) && HoldsCosts(panel, cs)
  {
    var idx := CanonicalIndex(rs);
    var resp, cost := Densify(ResponseCells(rs), idx), Densify(CostCells(cs), idx);
    DenseKeys(resp, idx);
    DenseKeys(cost, idx);
    AlignedJoin(resp, cost);
    var panel := Join(resp, cost);
    PanelHolds(rs, cs, idx, panel);
    panel
  }

  /** A panel laid out on `idx` with the densified values of both tables holds the recorded values. */
  lemma PanelHolds(rs: seq<ResponseRecord>, cs: seq<CostRecord>, idx: seq<Key>, panel: seq<PanelRow>)
    requires UniqueKeys(ResponseCells(rs)) && UniqueKeys(CostCells(cs)) && |panel| == |idx|
    requires forall k :: 0 <= k < |panel| ==> panel[k].key == idx[k]
    requires forall k :: 0 <= k < |panel| ==> panel[k].response == Densify(ResponseCells(rs), idx)[k].value
    requires forall k :: 0 <= k < |panel| ==> panel[k].cost == Densify(CostCells(cs), idx)[k].value
    ensures HoldsResponses(panel, rs) && HoldsCosts(panel, cs)
  {
    DensifiedResponses(rs, idx);
    DensifiedCosts(cs, idx);
  }

  /** The densified response table holds each response under its label and 0 under labels without one. */
  lemma DensifiedResponses(rs: seq<ResponseRecord>, idx: seq<Key>)
    requires UniqueKeys(ResponseCells(rs))
    ensures forall k, i :: 0 <= k < |idx| && 0 <= i < |rs| && Key(rs[i].geo, rs[i].date) == idx[k] ==> Densify(ResponseCells(rs), idx)[k].value == rs[i].response
    ensures forall k :: 0 <= k < |idx| && (forall i :: 0 <= i < |rs| ==> Key(rs[i].geo, rs[i].date) != idx[k]) ==> Densify(ResponseCells(rs), idx)[k].value == 0
  {
    var cells := ResponseCells(rs);
    assert forall i :: 0 <= i < |rs| ==> cells[i].key == Key(rs[i].geo, rs[i].date) && cells[i].value == rs[i].response;
  }

  /** The densified cost table holds each cost under its label and 0 under labels without one. */
  lemma DensifiedCosts(cs: seq<CostRecord>, idx: seq<Key>)
    requires UniqueKeys(CostCells(cs))
    ensures forall k, j :: 0 <= k < |idx| && 0 <= j < |cs| && Key(cs[j].geo, cs[j].date) == idx[k] ==> Densify(CostCells(cs), idx)[k].value == cs[j].cost
    ensures forall k :: 0 <= k < |idx| && (forall j :: 0 <= j < |cs| ==> Key(cs[j].geo, cs[j].date) != idx[k]) ==> Densify(CostCells(cs), idx)[k].value == 0
  {
    var cells := CostCells(cs);
    assert forall j :: 0 <= j < |cs| ==> cells[j].key == Key(cs[j].geo, cs[j].date) && cells[j].value == cs[j].cost;
  }

  /** Joining two tables laid out on the same labels pairs their rows position by position. */
  lemma AlignedJoin(resp: seq<Cell>, cost: seq<Cell>)
    requires KeysAscending(KeysOf(resp)) && KeysOf(cost) == KeysOf(resp)
    requires UniqueKeys(cost) && KeySet(resp) == KeySet(cost)
    ensures forall k :: 0 <= k < |Join(resp, cost)| ==> Join(resp, cost)[k].cost == cost[k].value
  {
    var panel := Join(resp, cost);
    forall k | 0 <= k < |panel|
      ensures panel[k].cost == cost[k].value
    {
      var j :| 0 <= j < |cost| && cost[j].key == panel[k].key && panel[k].cost == cost[j].value;
      assert KeysOf(cost)[k] == KeysOf(resp)[k];
      assert cost[k].key == panel[k].key;
    }
  }

  /**
   * The time series: fails as the reindexing does on an empty response
   * table or on a repeated label, and otherwise attaches the dictionary's
   * names to the merged panel.
   */
  function CreateTimeSeries(rs: seq<ResponseRecord>, cs: seq<CostRecord>, dict: seq<Entry>): (r: Result<seq<NamedRow>, Fault>)
    ensures r.Err? <==> !Densifiable(rs, cs)
    ensures |rs| == 0 ==> r == Err(EmptyResponses)
    ensures |rs| > 0 && !UniqueKeys(ResponseCells(rs)) ==> r == Err(DuplicateResponseKey)
    ensures |rs| > 0 && UniqueKeys(ResponseCells(rs)) && !UniqueKeys(CostCells(cs)) ==> r == Err(DuplicateCostKey)
    ensures r.Ok? ==> Densifiable(rs, cs) && |r.value| >= |CanonicalIndex(rs)|
    ensures r.Ok? ==> Densifiable(rs, cs) && KeepsEveryRow(MergedPanel(rs, cs), r.value)
    ensures r.Ok? ==> Densifiable(rs, cs) && OnlyPanelRows(MergedPanel(rs, cs), r.value)
    ensures r.Ok? ==> NamesFrom(dict, r.value)
    ensures r.Ok? ==> Densifiable(rs, cs) && AttachesEveryName(MergedPanel(rs, cs), dict, r.value)
  {
    if |rs| == 0 then Err(EmptyResponses)
    else if !UniqueKeys(ResponseCells(rs)) then Err(DuplicateResponseKey)
    else if !UniqueKeys(CostCells(cs)) then Err(DuplicateCostKey)
    else Ok(Enrich(MergedPanel(rs, cs), dict))
  }

  /** Every response row reaches the panel under its own label with its own value. */
  lemma ResponsesAllKept(rs: seq<ResponseRecord>, cs: seq<CostRecord>, i: int)
    requires Densifiable(rs, cs) && 0 <= i < |rs|
    ensures exists k :: 0 <= k < |MergedPanel(rs, cs)| && MergedPanel(rs, cs)[k].key == Key(rs[i].geo, rs[i].date)
                     && MergedPanel(rs, cs)[k].response == rs[i].response
  {
    var idx, panel := CanonicalIndex(rs), MergedPanel(rs, cs);
    var key := Key(rs[i].geo, rs[i].date);
    assert IsResponseGeo(rs, key.geo);
    assert key in idx;
    var k :| 0 <= k < |idx| && idx[k] == key;
    assert panel[k].key == key;
  }

  /**
   * A cost row reaches the panel exactly when its geo is a response geo and
   * its date lies within the response dates; any other cost row is dropped.
   */
  lemma CostKeptIffInSpan(rs: seq<ResponseRecord>, cs: seq<CostRecord>, j: int)
    requires Densifiable(rs, cs) && 0 <= j < |cs|
    ensures (exists k :: 0 <= k < |MergedPanel(rs, cs)| && MergedPanel(rs, cs)[k].key == Key(cs[j].geo, cs[j].date))
        <==> IsResponseGeo(rs, cs[j].geo) && MinDate(rs) <= cs[j].date <= MaxDate(rs)
  {
    var idx, panel := CanonicalIndex(rs), MergedPanel(rs, cs);
    var key := Key(cs[j].geo, cs[j].date);
    if key in idx {
      var k :| 0 <= k < |idx| && idx[k] == key;
      assert panel[k].key == key;
    }
    if k :| 0 <= k < |panel| && panel[k].key == key {
      assert idx[k] == key;
    }
  }

  /** A geo listed in a dictionary with one entry per geo has exactly one name. */
  lemma {:induction false} OneNamePerListedGeo(dict: seq<Entry>, g: GeoId)
    requires forall i, j :: 0 <= i < j < |dict| ==> dict[i].geo != dict[j].geo
    requires exists e :: e in dict && e.geo == g
    ensures |NamesOf(dict, g)| == 1
  {
    if dict[0].geo == g {
      NoEntryNoNames(dict[1..], g);
    } else {
      var e :| e in dict && e.geo == g;
      assert e in dict[1..];
      OneNamePerListedGeo(dict[1..], g);
    }
  }

  /** Every geo of the panel has an entry in the dictionary built from the response table. */
  lemma PanelGeosInDictionary(rs: seq<ResponseRecord>, cs: seq<CostRecord>, k: int)
    requires Densifiable(rs, cs) && 0 <= k < |MergedPanel(rs, cs)|
    ensures exists e :: e in Dictionary(rs) && e.geo == MergedPanel(rs, cs)[k].key.geo
  {
    var idx := CanonicalIndex(rs);
    assert idx[k] in idx;
    DictionaryGeosAreResponseGeos(rs, MergedPanel(rs, cs)[k].key.geo);
  }

  /** With the dictionary built from one-name-per-geo responses, every panel geo has exactly one name. */
  lemma PanelGeosNamedOnce(rs: seq<ResponseRecord>, cs: seq<CostRecord>)
    requires Densifiable(rs, cs) && SingleNamePerGeo(rs)
    ensures forall k :: 0 <= k < |MergedPanel(rs, cs)| ==> |NamesOf(Dictionary(rs), MergedPanel(rs, cs)[k].key.geo)| == 1
  {
    var dict, panel := Dictionary(rs), MergedPanel(rs, cs);
    var idx := CanonicalIndex(rs);
    DictionaryGeosUnique(rs);
    forall k | 0 <= k < |panel|
      ensures |NamesOf(dict, panel[k].key.geo)| == 1
    {
      assert idx[k] in idx;
      DictionaryGeosAreResponseGeos(rs, panel[k].key.geo);
      OneNamePerListedGeo(dict, panel[k].key.geo);
    }
  }

  /** A name the dictionary lists for a geo is a name that geo has in the response table. */
  lemma DictionaryNameFromResponses(rs: seq<ResponseRecord>, g: GeoId, name: string)
    requires name in NamesOf(Dictionary(rs), g)
    ensures exists i :: 0 <= i < |rs| && rs[i].geo == g && rs[i].geoName == name
  {
    assert Entry(g, name) in Dictionary(rs);
  }

  /** Row k of the named panel, when every panel geo has one name from a dictionary built from the responses. */
  lemma NamedRowAt(rs: seq<ResponseRecord>, cs: seq<CostRecord>, k: int)
    requires Densifiable(rs, cs) && SingleNamePerGeo(rs) && 0 <= k < |MergedPanel(rs, cs)|
    ensures |Enrich(MergedPanel(rs, cs), Dictionary(rs))| == |MergedPanel(rs, cs)|
    ensures var row := Enrich(MergedPanel(rs, cs), Dictionary(rs))[k];
            && row.geo == MergedPanel(rs, cs)[k].key.geo && row.date == MergedPanel(rs, cs)[k].key.date
            && row.response == MergedPanel(rs, cs)[k].response && row.cost == MergedPanel(rs, cs)[k].cost
            && exists i :: 0 <= i < |rs| && rs[i].geo == row.geo && row.geoName == Some(rs[i].geoName)
  {
    var dict, panel := Dictionary(rs), MergedPanel(rs, cs);
    PanelGeosNamedOnce(rs, cs);
    EnrichAtMostOneName(panel, dict);
    var name := NamesOf(dict, panel[k].key.geo)[0];
    assert Enrich(panel, dict)[k] == Named(panel[k], Some(name));
    DictionaryNameFromResponses(rs, panel[k].key.geo, name);
  }

  /**
   * With the dictionary built from the response table, and each geo spelled
   * one way, the time series has exactly one row per label of the canonical
   * index, in index order, each named with its geo's response-table name.
   */
  lemma TimeSeriesWithDictionary(rs: seq<ResponseRecord>, cs: seq<CostRecord>)
    requires Densifiable(rs, cs) && SingleNamePerGeo(rs)
    ensures CreateTimeSeries(rs, cs, Dictionary(rs)).Ok?
    ensures |CreateTimeSeries(rs, cs, Dictionary(rs)).value| == |CanonicalIndex(rs)|
    ensures forall k :: 0 <= k < |MergedPanel(rs, cs)| ==>
              var row := CreateTimeSeries(rs, cs, Dictionary(rs)).value[k];
              && row.geo == CanonicalIndex(rs)[k].geo && row.date == CanonicalIndex(rs)[k].date
              && row.response == MergedPanel(rs, cs)[k].response && row.cost == MergedPanel(rs, cs)[k].cost
              && exists i :: 0 <= i < |rs| && rs[i].geo == row.geo && row.geoName == Some(rs[i].geoName)
  {
    var panel := MergedPanel(rs, cs);
    var rows := Enrich(panel, Dictionary(rs));
    assert CreateTimeSeries(rs, cs, Dictionary(rs)) == Ok(rows);
    if |panel| > 0 {
      NamedRowAt(rs, cs, 0);
    } else {
      PanelGeosNamedOnce(rs, cs);
      EnrichAtMostOneName(panel, Dictionary(rs));
    }
    forall k | 0 <= k < |panel|
      ensures var row := rows[k];
              && row.geo == CanonicalIndex(rs)[k].geo && row.date == CanonicalIndex(rs)[k].date
              && row.response == panel[k].response && row.cost == panel[k].cost
              && exists i :: 0 <= i < |rs| && rs[i].geo == row.geo && row.geoName == Some(rs[i].geoName)
    {
      NamedRowAt(rs, cs, k);
    }
  }
}
