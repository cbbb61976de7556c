/**
 * The java.util.TreeMap<String, String> the canonicalizer fills: a map whose
 * key set is iterated in ascending String.compareTo order, and where putting
 * an existing key replaces its value (so the last occurrence wins).
 */
module SortedMaps {
  import opened Text

  /** Entries of a TreeMap, with its key set in iteration order. */
  datatype SortedMap = SortedMap(keys: seq<string>, values: map<string, string>)
  {
    /** The keys are listed once each, in increasing order, and are exactly the mapped names. */
    ghost predicate Valid()
    {
      StrictlySorted(keys) && forall k :: k in values <==> k in keys
    }

    /** TreeMap.put: a new key is inserted at its place in the order; an existing key keeps its place. */
    function Put(k: string, v: string): (r: SortedMap)
      requires Valid()
      ensures r.Valid()
      ensures r.values == values[k := v]
      ensures k in values ==> r.keys == keys
    {
      if k in values then SortedMap(keys, values[k := v])
      else SortedMap(Insert(keys, k), values[k := v])
    }
  }

  const Empty := SortedMap([], map[])

  /** Inserts a new key into a strictly sorted key list, keeping it strictly sorted. */
  function Insert(keys: seq<string>, k: string): (r: seq<string>)
    requires StrictlySorted(keys) && k !in keys
    ensures StrictlySorted(r)
    ensures |r| == |keys| + 1
    ensures forall x :: x in r <==> x in keys || x == k
  {
    if keys == [] then [k]
    else if Less(k, keys[0]) then
      assert forall i :: 0 < i < |keys| ==> Less(k, keys[i]) by {
        forall i | 0 < i < |keys| ensures Less(k, keys[i]) {
          LessTransitive(k, keys[0], keys[i]);
        }
      }
      [k] + keys
    else
      LessTotal(k, keys[0]);
      var rest := Insert(keys[1..], k);
      assert forall x :: x in rest ==> Less(keys[0], x);
      [keys[0]] + rest
  }

  /** The names of a list of (name, value) pairs. */
  function Names(ps: seq<(string, string)>): set<string>
  {
    set i | 0 <= i < |ps| :: ps[i].0
  }

  /** The value paired with `k` at its last occurrence in `ps`. */
  function LastValue(ps: seq<(string, string)>, k: string): (v: string)
    requires k in Names(ps)
    ensures exists i :: 0 <= i < |ps| && ps[i] == (k, v) && forall j :: i < j < |ps| ==> ps[j].0 != k
  {
    var n := |ps| - 1;
    if ps[n].0 == k then ps[n].1
    else
      assert k in Names(ps[..n]) by {
        var i :| 0 <= i < |ps| && ps[i].0 == k;
        assert ps[..n][i].0 == k;
      }
      var v := LastValue(ps[..n], k);
      var i :| 0 <= i < n && ps[..n][i] == (k, v) && forall j :: i < j < n ==> ps[..n][j].0 != k;
      assert ps[i] == (k, v) && forall j :: i < j < |ps| ==> ps[j].0 != k;
      v
  }

  /**
   * The map obtained by putting the pairs in order into an empty TreeMap:
   * one key per distinct name, sorted, each bound to its name's last value.
   */
  function FromPairs(ps: seq<(string, string)>): (m: SortedMap)
    ensures m.Valid()
    ensures m.values.Keys == Names(ps)
    ensures forall k :: k in m.values ==> m.values[k] == LastValue(ps, k)
  {
    if ps == [] then Empty
    else
      var n := |ps| - 1;
      var m := FromPairs(ps[..n]);
      NamesSnoc(ps);
      m.Put(ps[n].0, ps[n].1)
  }

  /** The names of a list are those of all but its last pair, plus the last pair's name. */
  lemma NamesSnoc(ps: seq<(string, string)>)
    requires ps != []
    ensures Names(ps) == Names(ps[..|ps| - 1]) + {ps[|ps| - 1].0}
  {
    var n := |ps| - 1;
    forall k | k in Names(ps) ensures k in Names(ps[..n]) + {ps[n].0} {
      var i :| 0 <= i < |ps| && ps[i].0 == k;
      if i < n {
        assert ps[..n][i].0 == k;
      }
    }
  }

  predicate DistinctNames(ps: seq<(string, string)>)
  {
    forall i, j :: 0 <= i < j < |ps| ==> ps[i].0 != ps[j].0
  }

  lemma {:induction false} LastValueOfDistinct(ps: seq<(string, string)>, k: string, v: string)
    requires DistinctNames(ps) && (k, v) in ps
    ensures k in Names(ps) && LastValue(ps, k) == v
  {
    var i :| 0 <= i < |ps| && ps[i] == (k, v);
    assert k in Names(ps);
    var w := LastValue(ps, k);
    var j :| 0 <= j < |ps| && ps[j] == (k, w) && forall l :: j < l < |ps| ==> ps[l].0 != k;
    assert i == j;
  }

  lemma SameEntriesSameNames(ps: seq<(string, string)>, qs: seq<(string, string)>)
    requires forall e :: e in ps <==> e in qs
    ensures Names(ps) == Names(qs)
  {
    forall k | k in Names(ps) ensures k in Names(qs) {
      var i :| 0 <= i < |ps| && ps[i].0 == k;
      assert ps[i] in qs;
    }
    forall k | k in Names(qs) ensures k in Names(ps) {
      var i :| 0 <= i < |qs| && qs[i].0 == k;
      assert qs[i] in ps;
    }
  }

  lemma SameLastValue(ps: seq<(string, string)>, qs: seq<(string, string)>, k: string)
    requires DistinctNames(ps) && DistinctNames(qs)
    requires forall e :: e in ps <==> e in qs
    requires k in Names(ps)
    ensures k in Names(qs) && LastValue(ps, k) == LastValue(qs, k)
  {
    var v := LastValue(ps, k);
    LastValueOfDistinct(ps, k, v);
    LastValueOfDistinct(qs, k, v);
  }

  lemma {:induction false} SameEntriesSameValues(ps: seq<(string, string)>, qs: seq<(string, string)>)
    requires DistinctNames(ps) && DistinctNames(qs)
    requires forall e :: e in ps <==> e in qs
    ensures FromPairs(ps).values == FromPairs(qs).values
  {
    SameEntriesSameNames(ps, qs);
    LastValuesAgree(FromPairs(ps).values, FromPairs(qs).values, ps, qs);
  }

  lemma LastValuesAgree(v1: map<string, string>, v2: map<string, string>,
                        ps: seq<(string, string)>, qs: seq<(string, string)>)
    requires DistinctNames(ps) && DistinctNames(qs)
    requires forall e :: e in ps <==> e in qs
    requires v1.Keys == Names(ps) && v2.Keys == Names(qs) && Names(ps) == Names(qs)
    requires forall k :: k in v1 ==> v1[k] == LastValue(ps, k)
    requires forall k :: k in v2 ==> v2[k] == LastValue(qs, k)
    ensures v1 == v2
  {
    forall k | k in v1
      ensures v1[k] == v2[k]
    {
      SameLastValue(ps, qs, k);
    }
    assert v1.Keys == v2.Keys;
  }

  /** Two valid maps with the same keys that agree on every key have the same entries. */
  lemma AgreeingValuesSameMap(m1: SortedMap, m2: SortedMap)
    requires m1.Valid() && m2.Valid() && m1.keys == m2.keys
    requires forall k :: k in m1.keys ==> m1.values[k] == m2.values[k]
    ensures m1.values == m2.values
  {
    assert m1.values.Keys == m2.values.Keys;
  }

  /** Two valid maps with the same entries list their keys identically. */
  lemma SameValuesSameMap(m1: SortedMap, m2: SortedMap)
    requires m1.Valid() && m2.Valid() && m1.values == m2.values
    ensures m1 == m2
  {
    SortedUnique(m1.keys, m2.keys);
  }

  /**
   * With distinct names the map does not depend on the order the pairs were
   * put in: any two lists with the same pairs give the same map.
   */
  lemma FromPairsOrderIndependent(ps: seq<(string, string)>, qs: seq<(string, string)>)
    requires DistinctNames(ps) && DistinctNames(qs)
    requires forall e :: e in ps <==> e in qs
    ensures FromPairs(ps) == FromPairs(qs)
  {
    SameEntriesSameValues(ps, qs);
    SameValuesSameMap(FromPairs(ps), FromPairs(qs));
  }

  /** Two distinct names are the map's two keys, in String.compareTo order. */
  lemma TwoKeys(a: string, b: string, x: string, y: string)
    requires a != b
    ensures FromPairs([(a, x), (b, y)]).keys == if Less(a, b) then [a, b] else [b, a]
  {
    var ps := [(a, x), (b, y)];
    assert Names(ps) == {a, b} by {
      assert ps[0].0 == a && ps[1].0 == b;
    }
    LessTotal(a, b);
    SortedUnique(FromPairs(ps).keys, if Less(a, b) then [a, b] else [b, a]);
  }

  /** Two distinct names keep their own values. */
  lemma TwoValues(a: string, b: string, x: string, y: string)
    requires a != b
    ensures FromPairs([(a, x), (b, y)]).values == map[a := x, b := y]
  {
    var ps := [(a, x), (b, y)];
    assert Names(ps) == {a, b} by {
      assert ps[0].0 == a && ps[1].0 == b;
    }
    LastValueOfDistinct(ps, a, x);
    LastValueOfDistinct(ps, b, y);
  }
}
