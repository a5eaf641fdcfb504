/**
 * The joiner: the outer merge of the two dense tables on (geo, date), and
 * the left merge that attaches the geo names of the dictionary.
 */
module Joiner {
  import opened Tables
  import Densifier
  import GeoDictionary

  /**
   * The outer merge of the dense response table `resp` and the dense cost
   * table `cost` on their (geo, date) labels. Both tables are reindexed onto
   * the same index, so they carry the same labels and no row of either is
   * unmatched; the merge orders its rows by label, which is the order of
   * `resp`.
   */
  function Join(resp: seq<Cell>, cost: seq<Cell>): (panel: seq<PanelRow>)
    requires KeysAscending(KeysOf(resp))
    requires UniqueKeys(cost) && KeySet(resp) == KeySet(cost)
    ensures |panel| == |resp|
    ensures forall k :: 0 <= k < |panel| ==> panel[k].key == resp[k].key && panel[k].response == resp[k].value
    ensures forall k :: 0 <= k < |panel| ==> exists j :: 0 <= j < |cost| && cost[j].key == panel[k].key && panel[k].cost == cost[j].value
    ensures forall i, j :: 0 <= i < j < |panel| ==> KeyLess(panel[i].key, panel[j].key)
  {
    var panel := seq(|resp|, k requires 0 <= k < |resp| => PanelRow(resp[k].key, resp[k].value, Densifier.ValueAt(cost, resp[k].key)));
    assert forall k :: 0 <= k < |resp| ==> resp[k].key in KeySet(cost) by {
      forall k | 0 <= k < |resp|
        ensures resp[k].key in KeySet(cost)
      {
        assert resp[k] in resp;
      }
    }
    assert forall i :: 0 <= i < |resp| ==> KeysOf(resp)[i] == resp[i].key;
    panel
  }

  /** The names the dictionary lists for geo `g`, in dictionary order. */
  function NamesOf(dict: seq<Entry>, g: GeoId): (names: seq<string>)
    ensures forall n :: n in names <==> Entry(g, n) in dict
    ensures |names| <= |dict|
  {
    if |dict| == 0 then []
    else
      assert forall e :: e in dict <==> e == dict[0] || e in dict[1..] by {
        assert dict == [dict[0]] + dict[1..];
      }
      var rest := NamesOf(dict[1..], g);
      if dict[0].geo == g then [dict[0].geoName] + rest else rest
  }

  /** A geo without dictionary entries has no names. */
  lemma NoEntryNoNames(dict: seq<Entry>, g: GeoId)
    ensures (forall e :: e in dict ==> e.geo != g) ==> NamesOf(dict, g) == []
  {
    var names := NamesOf(dict, g);
    if |names| > 0 {
      assert Entry(g, names[0]) in dict;
    }
  }

  /** A dictionary entry's name is among the names of its geo. */
  lemma ListedGeoHasName(dict: seq<Entry>, e: Entry)
    requires e in dict
    ensures e.geoName in NamesOf(dict, e.geo)
  {
    assert e == Entry(e.geo, e.geoName);
  }

  /**
   * In a dictionary without repeated entries a geo's names do not repeat, so
   * a geo has one name per distinct spelling the dictionary lists for it.
   */
  lemma {:induction false} NamesOfNoRepeats(dict: seq<Entry>, g: GeoId)
    requires GeoDictionary.NoDuplicates(dict)
    ensures forall i, j :: 0 <= i < j < |NamesOf(dict, g)| ==> NamesOf(dict, g)[i] != NamesOf(dict, g)[j]
    decreases |dict|
  {
    if |dict| > 0 {
      var tail := dict[1..];
      assert forall i :: 0 <= i < |tail| ==> tail[i] == dict[i + 1];
      NamesOfNoRepeats(tail, g);
      var rest := NamesOf(tail, g);
      if dict[0].geo == g {
        forall j | 0 <= j < |rest|
          ensures rest[j] != dict[0].geoName
        {
          assert rest[j] in rest;
          var m :| 0 <= m < |tail| && tail[m] == Entry(g, rest[j]);
          assert dict[m + 1] == Entry(g, rest[j]);
        }
        assert NamesOf(dict, g) == [dict[0].geoName] + rest;
      }
    }
  }

  /** A panel row with a name column. */
  function Named(row: PanelRow, name: Option<string>): NamedRow
  {
    NamedRow(row.key.geo, row.key.date, row.response, row.cost, name)
  }

  /**
   * The rows a left merge produces for one panel row: one per matching
   * dictionary name, or the row with no name when nothing matches.
   */
  function Attach(row: PanelRow, names: seq<string>): (rows: seq<NamedRow>)
    ensures |rows| == if |names| == 0 then 1 else |names|
    ensures forall k :: 0 <= k < |rows| ==> rows[k] == Named(row, rows[k].geoName)
    ensures |names| == 0 ==> rows[0].geoName == None
    ensures forall k :: 0 <= k < |names| ==> rows[k].geoName == Some(names[k])
  {
    if |names| == 0 then [Named(row, None)]
    else seq(|names|, k requires 0 <= k < |names| => Named(row, Some(names[k])))
  }

  /** The panel row `row` is in `rows`, with its key and values and some name column. */
  predicate Kept(row: PanelRow, rows: seq<NamedRow>)
  {
    exists r :: r in rows && r == Named(row, r.geoName)
  }

  /** Every panel row is in `rows`, with its key and values and some name column. */
  predicate KeepsEveryRow(panel: seq<PanelRow>, rows: seq<NamedRow>)
  {
    forall k {:trigger Kept(panel[k], rows)} :: 0 <= k < |panel| ==> Kept(panel[k], rows)
  }

  /** Every row of `rows` is a panel row, with its key and values and some name column. */
  predicate OnlyPanelRows(panel: seq<PanelRow>, rows: seq<NamedRow>)
  {
    forall r :: r in rows ==> exists k :: 0 <= k < |panel| && r == Named(panel[k], r.geoName)
  }

  /**
   * Every name in `rows` is a dictionary name of the row's geo, and a row
   * without a name has a geo the dictionary does not list.
   */
  predicate NamesFrom(dict: seq<Entry>, rows: seq<NamedRow>)
  {
    forall r :: r in rows ==>
      if r.geoName.None? then forall e :: e in dict ==> e.geo != r.geo
      else Entry(r.geo, r.geoName.value) in dict
  }

  /** The panel row `row`, named `n`, is in `rows`. */
  predicate NamedIn(row: PanelRow, n: string, rows: seq<NamedRow>)
  {
    Named(row, Some(n)) in rows
  }

  /** Every panel row is in `rows` with each dictionary name of its geo. */
  predicate AttachesEveryName(panel: seq<PanelRow>, dict: seq<Entry>, rows: seq<NamedRow>)
  {
    forall k, e {:trigger NamedIn(panel[k], e.geoName, rows)} ::
      0 <= k < |panel| && e in dict && e.geo == panel[k].key.geo ==> NamedIn(panel[k], e.geoName, rows)
  }

  /**
   * The left merge of the panel with the dictionary on geo: panel rows keep
   * their order, each is repeated once per dictionary entry of its geo, and
   * a row whose geo has no entry is kept with no name.
   */
  function Enrich(panel: seq<PanelRow>, dict: seq<Entry>): (rows: seq<NamedRow>)
    ensures |rows| >= |panel|
    ensures KeepsEveryRow(panel, rows)
    ensures OnlyPanelRows(panel, rows)
    ensures NamesFrom(dict, rows)
    ensures AttachesEveryName(panel, dict, rows)
    decreases |panel|
  {
    if |panel| == 0 then []
    else
      var head := Attach(panel[0], NamesOf(dict, panel[0].key.geo));
      var rest := Enrich(panel[1..], dict);
      KeptAfterAttach(panel, head, rest);
      FromPanelAfterAttach(panel, head, rest);
      NamesAfterAttach(panel[0], dict, rest);
      EveryNameAfterAttach(panel, dict, rest);
      head + rest
  }

  /** The left merge of a single panel row is that row with each of its geo's names, or with none. */
  lemma EnrichOne(row: PanelRow, dict: seq<Entry>)
    ensures Enrich([row], dict) == Attach(row, NamesOf(dict, row.key.geo))
  {
    assert [row][1..] == [];
  }

  /** Rows attached for one panel row, followed by rows with dictionary names, carry only dictionary names. */
  lemma NamesAfterAttach(row: PanelRow, dict: seq<Entry>, rest: seq<NamedRow>)
    requires NamesFrom(dict, rest)
    ensures NamesFrom(dict, Attach(row, NamesOf(dict, row.key.geo)) + rest)
  {
    var names := NamesOf(dict, row.key.geo);
    var head := Attach(row, names);
    forall r | r in head + rest
      ensures if r.geoName.None? then forall e :: e in dict ==> e.geo != r.geo
              else Entry(r.geo, r.geoName.value) in dict
    {
      if r in head {
        var i :| 0 <= i < |head| && head[i] == r;
        if r.geoName.None? {
          forall e | e in dict
            ensures e.geo != r.geo
          {
            ListedGeoHasName(dict, e);
          }
        } else {
          assert names[i] in names;
        }
      }
    }
  }

  /** Rows attached for the first panel row, followed by rows naming the others, name every panel row. */
  lemma EveryNameAfterAttach(panel: seq<PanelRow>, dict: seq<Entry>, rest: seq<NamedRow>)
    requires |panel| > 0 && AttachesEveryName(panel[1..], dict, rest)
    ensures AttachesEveryName(panel, dict, Attach(panel[0], NamesOf(dict, panel[0].key.geo)) + rest)
  {
    var names := NamesOf(dict, panel[0].key.geo);
    var head := Attach(panel[0], names);
    forall k, e | 0 <= k < |panel| && e in dict && e.geo == panel[k].key.geo
      ensures NamedIn(panel[k], e.geoName, head + rest)
    {
      if k == 0 {
        ListedGeoHasName(dict, e);
        var i :| 0 <= i < |names| && names[i] == e.geoName;
        assert head[i] == Named(panel[0], Some(e.geoName));
        assert head[i] in head + rest;
      } else {
        assert panel[1..][k - 1] == panel[k];
        assert NamedIn(panel[1..][k - 1], e.geoName, rest);
      }
    }
  }

  /** Rows attached for the first panel row, followed by rows keeping the others, keep every panel row. */
  lemma KeptAfterAttach(panel: seq<PanelRow>, head: seq<NamedRow>, rest: seq<NamedRow>)
    requires |panel| > 0 && |head| > 0 && head[0] == Named(panel[0], head[0].geoName)
    requires KeepsEveryRow(panel[1..], rest)
    ensures KeepsEveryRow(panel, head + rest)
  {
    assert head[0] in head + rest;
    forall k | 0 <= k < |panel|
      ensures Kept(panel[k], head + rest)
    {
      if k > 0 {
        assert panel[1..][k - 1] == panel[k];
        assert Kept(panel[1..][k - 1], rest);
      }
    }
  }

  /** Rows attached for the first panel row, followed by rows from the others, all come from panel rows. */
  lemma FromPanelAfterAttach(panel: seq<PanelRow>, head: seq<NamedRow>, rest: seq<NamedRow>)
    requires |panel| > 0 && forall k :: 0 <= k < |head| ==> head[k] == Named(panel[0], head[k].geoName)
    requires OnlyPanelRows(panel[1..], rest)
    ensures OnlyPanelRows(panel, head + rest)
  {
    forall r | r in head + rest
      ensures exists k :: 0 <= k < |panel| && r == Named(panel[k], r.geoName)
    {
      if r in rest {
        var k :| 0 <= k < |panel[1..]| && r == Named(panel[1..][k], r.geoName);
        assert panel[k + 1] == panel[1..][k];
      }
    }
  }

  /** The number of rows the left merge makes of one panel row: one per name, and at least one. */
  function AttachedCount(dict: seq<Entry>, g: GeoId): nat
  {
    var n := |NamesOf(dict, g)|;
    if n == 0 then 1 else n
  }

  /** The number of rows the left merge makes of a panel. */
  function MergedCount(panel: seq<PanelRow>, dict: seq<Entry>): nat
    decreases |panel|
  {
    if |panel| == 0 then 0 else AttachedCount(dict, panel[0].key.geo) + MergedCount(panel[1..], dict)
  }

  /** The left merge makes, of each panel row, one row per dictionary name of its geo, and one when there is none. */
  lemma {:induction false} EnrichRowCount(panel: seq<PanelRow>, dict: seq<Entry>)
    ensures |Enrich(panel, dict)| == MergedCount(panel, dict)
    decreases |panel|
  {
    if |panel| > 0 {
      EnrichRowCount(panel[1..], dict);
    }
  }

  /**
   * The left merge works row by row: merging a panel split in two gives the
   * merged first part followed by the merged second part, so the output keeps
   * the order of the panel.
   */
  lemma {:induction false} EnrichConcat(front: seq<PanelRow>, back: seq<PanelRow>, dict: seq<Entry>)
    ensures Enrich(front + back, dict) == Enrich(front, dict) + Enrich(back, dict)
    decreases |front|
  {
    if |front| > 0 {
      var whole := front + back;
      assert whole[0] == front[0] && whole[1..] == front[1..] + back;
      var head := Attach(front[0], NamesOf(dict, front[0].key.geo));
      EnrichConcat(front[1..], back, dict);
      calc {
        Enrich(whole, dict);
        head + Enrich(front[1..] + back, dict);
        head + (Enrich(front[1..], dict) + Enrich(back, dict));
        (head + Enrich(front[1..], dict)) + Enrich(back, dict);
      }
    } else {
      assert front + back == back;
    }
  }

  /** The name a left merge attaches to a geo with at most one dictionary entry. */
  function NameOf(dict: seq<Entry>, g: GeoId): Option<string>
  {
    var names := NamesOf(dict, g);
    if |names| == 0 then None else Some(names[0])
  }

  /**
   * When no panel geo has more than one dictionary entry, the left merge
   * keeps the row count and the row order, and attaches the entry's name,
   * or no name to a geo without one.
   */
  lemma {:induction false} EnrichAtMostOneName(panel: seq<PanelRow>, dict: seq<Entry>)
    requires forall k :: 0 <= k < |panel| ==> |NamesOf(dict, panel[k].key.geo)| <= 1
    ensures |Enrich(panel, dict)| == |panel|
    ensures forall k :: 0 <= k < |panel| ==> Enrich(panel, dict)[k] == Named(panel[k], NameOf(dict, panel[k].key.geo))
    decreases |panel|
  {
    if |panel| > 0 {
      EnrichAtMostOneName(panel[1..], dict);
      var rows := Enrich(panel, dict);
      var rest := Enrich(panel[1..], dict);
      var head := Attach(panel[0], NamesOf(dict, panel[0].key.geo));
      assert |head| == 1 && head[0] == Named(panel[0], NameOf(dict, panel[0].key.geo));
      assert rows == head + rest;
      forall k | 1 <= k < |panel|
        ensures rows[k] == Named(panel[k], NameOf(dict, panel[k].key.geo))
      {
        assert rows[k] == rest[k - 1] && panel[1..][k - 1] == panel[k];
      }
    }
  }

  /** A panel row whose geo has no dictionary entry is kept, with no name. */
  lemma {:induction false} EnrichKeepsUnnamed(panel: seq<PanelRow>, dict: seq<Entry>, k: int)
    requires 0 <= k < |panel|
    requires forall e :: e in dict ==> e.geo != panel[k].key.geo
    ensures Named(panel[k], None) in Enrich(panel, dict)
    decreases |panel|
  {
    if k == 0 {
      NoEntryNoNames(dict, panel[0].key.geo);
    } else {
      EnrichKeepsUnnamed(panel[1..], dict, k - 1);
      assert panel[1..][k - 1] == panel[k];
    }
  }
}
