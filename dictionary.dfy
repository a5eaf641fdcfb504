/**
 * The geo dictionary: the distinct (geo, geo_name) pairs of the response
 * table, each once, in the order in which they are first seen.
 */
module GeoDictionary {
  import opened Tables

  /** No element occurs twice. */
  predicate NoDuplicates(s: seq<Entry>)
  {
    forall i, j :: 0 <= i < j < |s| ==> s[i] != s[j]
  }

  /** The position of the first occurrence of `x` in `s`. */
  function FirstIndex(s: seq<Entry>, x: Entry): (i: nat)
    requires x in s
    ensures i < |s| && s[i] == x
    ensures x !in s[..i]
  {
    if s[0] == x then 0 else 1 + FirstIndex(s[1..], x)
  }

  /**
   * Duplicate removal that keeps the first occurrence of every element:
   * scan left to right and append an element only when it has not been kept yet.
   */
  function Distinct(s: seq<Entry>): (d: seq<Entry>)
    ensures NoDuplicates(d)
    ensures forall x :: x in d <==> x in s
    decreases |s|
  {
    if |s| == 0 then []
    else
      var kept := Distinct(s[..|s| - 1]);
      var last := s[|s| - 1];
      assert forall x :: x in s <==> x in s[..|s| - 1] || x == last by {
        assert s == s[..|s| - 1] + [last];
      }
      if last in kept then kept else kept + [last]
  }

  /** The (geo, geo_name) columns of the response table, row by row. */
  function Pairs(rs: seq<ResponseRecord>): seq<Entry>
  {
    seq(|rs|, i requires 0 <= i < |rs| => Entry(rs[i].geo, rs[i].geoName))
  }

  /** The geo dictionary built from the response table. */
  function Dictionary(rs: seq<ResponseRecord>): (d: seq<Entry>)
    ensures NoDuplicates(d)
    ensures forall i :: 0 <= i < |rs| ==> Entry(rs[i].geo, rs[i].geoName) in d
    ensures forall e :: e in d ==> exists i :: 0 <= i < |rs| && rs[i].geo == e.geo && rs[i].geoName == e.geoName
    ensures forall x :: x in d <==> x in Pairs(rs)
    ensures forall i, j :: 0 <= i < j < |d| ==> FirstIndex(Pairs(rs), d[i]) < FirstIndex(Pairs(rs), d[j])
  {
    var pairs := Pairs(rs);
    assert forall i :: 0 <= i < |rs| ==> pairs[i] == Entry(rs[i].geo, rs[i].geoName);
    DistinctKeepsFirstSeenOrder(pairs);
    Distinct(pairs)
  }

  /** A prefix does not change where an element of it first occurs. */
  lemma {:induction false} FirstIndexOfPrefix(s: seq<Entry>, n: nat, x: Entry)
    requires n <= |s| && x in s[..n]
    ensures FirstIndex(s, x) == FirstIndex(s[..n], x)
  {
    var i, j := FirstIndex(s, x), FirstIndex(s[..n], x);
    assert s[..n][..j] == s[..j];
    assert s[j] == x;
  }

  /**
   * The kept elements come in the order of their first occurrence in the
   * input: whatever is kept earlier was seen earlier.
   */
  lemma {:induction false} DistinctKeepsFirstSeenOrder(s: seq<Entry>)
    ensures forall i, j :: 0 <= i < j < |Distinct(s)| ==> FirstIndex(s, Distinct(s)[i]) < FirstIndex(s, Distinct(s)[j])
    decreases |s|
  {
    if |s| > 0 {
      var n := |s| - 1;
      var prefix := s[..n];
      var kept := Distinct(prefix);
      DistinctKeepsFirstSeenOrder(prefix);
      forall x | x in kept
        ensures FirstIndex(s, x) == FirstIndex(prefix, x) < n
      {
        FirstIndexOfPrefix(s, n, x);
      }
      if s[n] !in kept {
        assert s[n] !in prefix;
        assert forall k :: 0 <= k < n ==> prefix[k] == s[k];
      }
    }
  }

  /** Every element of `t` occurs in `s`, and `t` lists them in order of first occurrence in `s`. */
  predicate InFirstSeenOrder(s: seq<Entry>, t: seq<Entry>)
  {
    && (forall x :: x in t ==> x in s)
    && (forall i, j :: 0 <= i < j < |t| ==> FirstIndex(s, t[i]) < FirstIndex(s, t[j]))
  }

  /**
   * The three properties of Distinct pin the result down: any sequence
   * without repeats, holding exactly the elements of `s`, in order of first
   * occurrence, is Distinct(s).
   */
  lemma DistinctUnique(s: seq<Entry>, t: seq<Entry>)
    requires NoDuplicates(t)
    requires forall x :: x in t <==> x in s
    requires forall i, j :: 0 <= i < j < |t| ==> FirstIndex(s, t[i]) < FirstIndex(s, t[j])
    ensures t == Distinct(s)
  {
    DistinctKeepsFirstSeenOrder(s);
    SameOrderedMembersEqual(s, t, Distinct(s));
  }

  /** Dropping the head keeps a sequence in first-seen order and free of repeats. */
  lemma TailInFirstSeenOrder(s: seq<Entry>, t: seq<Entry>)
    requires |t| > 0 && InFirstSeenOrder(s, t) && NoDuplicates(t)
    ensures InFirstSeenOrder(s, t[1..]) && NoDuplicates(t[1..])
    ensures forall x :: x in t[1..] <==> x in t && x != t[0]
  {
    var tail := t[1..];
    assert forall k :: 0 <= k < |tail| ==> tail[k] == t[k + 1];
    forall x | x in tail
      ensures x in t && x != t[0]
    {
      var k :| 0 <= k < |tail| && tail[k] == x;
      assert t[k + 1] == x;
    }
    assert t == [t[0]] + tail;
    forall i, j | 0 <= i < j < |tail|
      ensures FirstIndex(s, tail[i]) < FirstIndex(s, tail[j]) && tail[i] != tail[j]
    {
      assert tail[i] == t[i + 1] && tail[j] == t[j + 1];
    }
  }

  /** Two repeat-free sequences with the same elements, both in first-seen order, start with the same element. */
  lemma SameHead(s: seq<Entry>, t: seq<Entry>, u: seq<Entry>)
    requires |t| > 0 && |u| > 0
    requires InFirstSeenOrder(s, t) && InFirstSeenOrder(s, u)
    requires t[0] in u && u[0] in t
    ensures t[0] == u[0]
  {
    var i :| 0 <= i < |u| && u[i] == t[0];
    var j :| 0 <= j < |t| && t[j] == u[0];
    assert FirstIndex(s, u[0]) <= FirstIndex(s, u[i]);
    assert FirstIndex(s, t[0]) <= FirstIndex(s, t[j]);
    assert s[FirstIndex(s, t[0])] == t[0] && s[FirstIndex(s, u[0])] == u[0];
  }

  /** Two repeat-free sequences with the same elements, both in order of first occurrence in `s`, are equal. */
  lemma {:induction false} SameOrderedMembersEqual(s: seq<Entry>, t: seq<Entry>, u: seq<Entry>)
    requires InFirstSeenOrder(s, t) && InFirstSeenOrder(s, u)
    requires NoDuplicates(t) && NoDuplicates(u)
    requires forall x :: x in t <==> x in u
    ensures t == u
    decreases |t|
  {
    if |u| > 0 {
      assert u[0] in t;
    }
    if |t| > 0 {
      assert t[0] in u && u[0] in t;
      SameHead(s, t, u);
      TailInFirstSeenOrder(s, t);
      TailInFirstSeenOrder(s, u);
      SameOrderedMembersEqual(s, t[1..], u[1..]);
      assert t == [t[0]] + t[1..] && u == [u[0]] + u[1..];
    }
  }

  /** Each geo of the response table has at least one dictionary entry, and every entry's geo is a response geo. */
  lemma DictionaryGeosAreResponseGeos(rs: seq<ResponseRecord>, g: GeoId)
    ensures (exists e :: e in Dictionary(rs) && e.geo == g) <==> (exists i :: 0 <= i < |rs| && rs[i].geo == g)
  {
    var d := Dictionary(rs);
    if i :| 0 <= i < |rs| && rs[i].geo == g {
      assert Entry(rs[i].geo, rs[i].geoName) in d;
    }
  }

  /** Every geo of the response table is spelled one way. */
  predicate SingleNamePerGeo(rs: seq<ResponseRecord>)
  {
    forall i, j :: 0 <= i < |rs| && 0 <= j < |rs| && rs[i].geo == rs[j].geo ==> rs[i].geoName == rs[j].geoName
  }

  /** When each geo has a single name, the dictionary has one entry per geo. */
  lemma DictionaryGeosUnique(rs: seq<ResponseRecord>)
    requires SingleNamePerGeo(rs)
    ensures forall i, j :: 0 <= i < j < |Dictionary(rs)| ==> Dictionary(rs)[i].geo != Dictionary(rs)[j].geo
  {
    var d := Dictionary(rs);
    forall i, j | 0 <= i < j < |d|
      ensures d[i].geo != d[j].geo
    {
      assert d[i] in d && d[j] in d;
      assert d[i] != d[j];
    }
  }
}
