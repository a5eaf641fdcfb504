/**
 * The index generator: the daily date axis spanning the response dates, the
 * sorted distinct response geos, and their geo-major cross product.
 */
module IndexGenerator {
  import opened Tables

  /** The earliest response date. */
  function MinDate(rs: seq<ResponseRecord>): (m: Day)
    requires |rs| > 0
    ensures exists i :: 0 <= i < |rs| && rs[i].date == m
    ensures forall i :: 0 <= i < |rs| ==> m <= rs[i].date
  {
    if |rs| == 1 then rs[0].date
    else
      var rest := MinDate(rs[1..]);
      assert forall i :: 1 <= i < |rs| ==> rs[i] == rs[1..][i - 1];
      if rs[0].date <= rest then rs[0].date else rest
  }

  /** The latest response date. */
  function MaxDate(rs: seq<ResponseRecord>): (m: Day)
    requires |rs| > 0
    ensures exists i :: 0 <= i < |rs| && rs[i].date == m
    ensures forall i :: 0 <= i < |rs| ==> rs[i].date <= m
  {
    if |rs| == 1 then rs[0].date
    else
      var rest := MaxDate(rs[1..]);
      assert forall i :: 1 <= i < |rs| ==> rs[i] == rs[1..][i - 1];
      if rest <= rs[0].date then rs[0].date else rest
  }

  /** Every day from `lo` to `hi` inclusive, one day apart; empty when `hi` precedes `lo`. */
  function DateAxis(lo: Day, hi: Day): (days: seq<Day>)
    ensures |days| == if lo <= hi then hi - lo + 1 else 0
    ensures |days| > 0 ==> days[0] == lo && days[|days| - 1] == hi
    ensures forall i :: 0 < i < |days| ==> days[i] == days[i - 1] + 1
    ensures forall d :: d in days <==> lo <= d <= hi
  {
    var n := if lo <= hi then hi - lo + 1 else 0;
    var days := seq(n, i requires 0 <= i < n => lo + i);
    assert forall d :: lo <= d <= hi ==> d in days by {
      forall d | lo <= d <= hi
        ensures d in days
      {
        assert days[d - lo] == d;
      }
    }
    days
  }

  /** Strictly ascending, so without repeats. */
  predicate StrictlySorted(s: seq<int>)
  {
    forall i, j :: 0 <= i < j < |s| ==> s[i] < s[j]
  }

  /** Inserts `g` into a strictly ascending sequence, leaving it unchanged when `g` is already there. */
  function InsertSorted(s: seq<GeoId>, g: GeoId): (r: seq<GeoId>)
    requires StrictlySorted(s)
    ensures StrictlySorted(r)
    ensures forall x :: x in r <==> x in s || x == g
  {
    if |s| == 0 then [g]
    else if g < s[0] then [g] + s
    else if g == s[0] then s
    else
      assert forall x :: x in s <==> x == s[0] || x in s[1..] by {
        assert s == [s[0]] + s[1..];
      }
      var rest := InsertSorted(s[1..], g);
      assert forall x :: x in s[1..] ==> s[0] < x;
      assert forall j :: 0 <= j < |rest| ==> s[0] < rest[j] by {
        forall j | 0 <= j < |rest|
          ensures s[0] < rest[j]
        {
          assert rest[j] in rest;
        }
      }
      [s[0]] + rest
  }

  /** The distinct response geos in ascending order. */
  function GeoAxis(rs: seq<ResponseRecord>): (geos: seq<GeoId>)
    ensures StrictlySorted(geos)
    ensures forall g :: g in geos <==> exists i :: 0 <= i < |rs| && rs[i].geo == g
    decreases |rs|
  {
    if |rs| == 0 then []
    else
      var prefix := rs[..|rs| - 1];
      assert forall i :: 0 <= i < |rs| - 1 ==> prefix[i] == rs[i];
      InsertSorted(GeoAxis(prefix), rs[|rs| - 1].geo)
  }

  /** A strictly sorted sequence holds as many distinct values as it has entries. */
  lemma {:induction false} SortedCardinality(s: seq<int>)
    requires StrictlySorted(s)
    ensures |set x | x in s| == |s|
    decreases |s|
  {
    if |s| > 0 {
      var tail := s[1..];
      SortedCardinality(tail);
      var whole, rest := set x | x in s, set x | x in tail;
      forall x | x in whole
        ensures x in rest + {s[0]}
      {
        var i :| 0 <= i < |s| && s[i] == x;
        if i > 0 {
          assert tail[i - 1] == x;
        }
      }
      forall x | x in rest
        ensures x in whole && x != s[0]
      {
        var i :| 0 <= i < |tail| && tail[i] == x;
        assert s[i + 1] == x;
      }
      assert s[0] in whole;
      assert whole == rest + {s[0]};
    }
  }

  /** The geo axis has one entry per distinct response geo. */
  lemma DistinctGeoCount(rs: seq<ResponseRecord>)
    ensures |GeoAxis(rs)| == |set i | 0 <= i < |rs| :: rs[i].geo|
  {
    var geos := GeoAxis(rs);
    SortedCardinality(geos);
    assert (set x | x in geos) == (set i | 0 <= i < |rs| :: rs[i].geo);
  }

  /** One geo paired with every date, in date order. */
  function GeoBlock(g: GeoId, dates: seq<Day>): seq<Key>
  {
    seq(|dates|, j requires 0 <= j < |dates| => Key(g, dates[j]))
  }

  /** The cross product of the geo axis and the date axis, geo-major. */
  function FullIndex(geos: seq<GeoId>, dates: seq<Day>): (idx: seq<Key>)
    ensures |idx| == |geos| * |dates|
    ensures forall key :: key in idx <==> key.geo in geos && key.date in dates
    decreases |geos|
  {
    if |geos| == 0 then []
    else
      var rest := FullIndex(geos[1..], dates);
      var block := GeoBlock(geos[0], dates);
      assert forall g :: g in geos <==> g == geos[0] || g in geos[1..] by {
        assert geos == [geos[0]] + geos[1..];
      }
      assert forall key :: key in block <==> key.geo == geos[0] && key.date in dates by {
        forall key: Key | key.geo == geos[0] && key.date in dates
          ensures key in block
        {
          var j :| 0 <= j < |dates| && dates[j] == key.date;
          assert block[j] == key;
        }
      }
      assert |geos| * |dates| == |dates| + (|geos| - 1) * |dates|;
      block + rest
  }

  /**
   * Entry k of the cross product pairs geo number k / |dates| with date
   * number k % |dates|.
   */
  lemma {:induction false} FullIndexAt(geos: seq<GeoId>, dates: seq<Day>, k: int)
    requires 0 <= k < |geos| * |dates|
    ensures |dates| > 0 && k / |dates| < |geos|
    ensures FullIndex(geos, dates)[k] == Key(geos[k / |dates|], dates[k % |dates|])
    decreases |geos|
  {
    var n := |dates|;
    assert |geos| > 0 && n > 0;
    assert |geos| * n == n + (|geos| - 1) * n;
    if k < n {
      assert k / n == 0 && k % n == k;
    } else {
      FullIndexAt(geos[1..], dates, k - n);
      DivModShift(k, n);
    }
  }

  /** Removing one block of `n` lowers the quotient by one and keeps the remainder. */
  lemma DivModShift(k: int, n: int)
    requires 0 < n <= k
    ensures (k - n) / n == k / n - 1 && (k - n) % n == k % n
  {
    var q, r := (k - n) / n, (k - n) % n;
    assert k - n == q * n + r && 0 <= r < n;
    assert k == (q + 1) * n + r;
    DivModUnique(k, n, q + 1, r);
  }

  /** Quotient and remainder are the only pair that decomposes `k`. */
  lemma DivModUnique(k: int, n: int, q: int, r: int)
    requires 0 < n && k == q * n + r && 0 <= r < n
    ensures k / n == q && k % n == r
  {
    var q', r' := k / n, k % n;
    assert k == q' * n + r' && 0 <= r' < n;
    MulMonotone(q' + 1, q, n);
    MulMonotone(q + 1, q', n);
    assert (q' + 1) * n == q' * n + n && (q + 1) * n == q * n + n;
  }

  /** Multiplying by a non-negative factor keeps order. */
  lemma {:induction false} MulMonotone(a: int, b: int, n: int)
    requires 0 <= n
    ensures a <= b ==> a * n <= b * n
    decreases if a <= b then b - a else 0
  {
    if a < b {
      MulMonotone(a, b - 1, n);
      assert b * n == (b - 1) * n + n;
    }
  }

  /**
   * Over ascending axes the cross product is in ascending lexicographic
   * order (geo first, then date), so it has no repeated key.
   */
  lemma {:induction false} FullIndexAscending(geos: seq<GeoId>, dates: seq<Day>)
    requires StrictlySorted(geos) && StrictlySorted(dates)
    ensures KeysAscending(FullIndex(geos, dates))
    decreases |geos|
  {
    if |geos| > 0 {
      var block := GeoBlock(geos[0], dates);
      var rest := FullIndex(geos[1..], dates);
      FullIndexAscending(geos[1..], dates);
      forall i, j | 0 <= i < |block| && 0 <= j < |rest|
        ensures KeyLess(block[i], rest[j])
      {
        assert rest[j] in rest;
        var g :| g in geos[1..] && g == rest[j].geo;
      }
      assert FullIndex(geos, dates) == block + rest;
    }
  }
}
