/**
 * The canonicalizer of ImgService: the canonical query string, the canonical
 * header block, the signed-headers list and the canonical request that the
 * signature covers.
 */
module Canonical {
  import opened Options
  import opened Text
  import opened SortedMaps

  /** The payload-hash placeholder: the body is never hashed. */
  const UnsignedPayload := "UNSIGNED-PAYLOAD"

  // ---------------------------------------------------------------------
  // Query string

  /**
   * One `&`-separated field, split on `=`: the first piece is the name, the
   * second (if any) the value; a field made only of `=` yields nothing.
   */
  function ParseField(field: string): (r: Option<(string, string)>)
    ensures r.None? <==> field != "" && forall i :: 0 <= i < |field| ==> field[i] == '='
    ensures '=' !in field ==> r == Some((field, ""))
    ensures r.Some? ==> '=' !in r.value.0 && '=' !in r.value.1
    ensures r.Some? ==> (forall x :: x in r.value.0 ==> x in field) && (forall x :: x in r.value.1 ==> x in field)
  {
    JavaSplitEmpty(field, '=');
    var tokens := JavaSplit(field, '=');
    if |tokens| > 0 then Some((tokens[0], if |tokens| > 1 then tokens[1] else "")) else None
  }

  /**
   * The name is the text before the first `=`, the value the text between
   * the first and the second `=`; a missing or empty value is "". Both may
   * be empty (`==b` gives ("", "")) unless the field is only `=`s.
   */
  lemma ParseFieldNameValue(name: string, value: string, tail: string)
    requires '=' !in name && '=' !in value
    requires tail == "" || tail[0] == '='
    requires name != "" || value != "" || exists i :: 0 <= i < |tail| && tail[i] != '='
    ensures ParseField(name + "=" + value + tail) == Some((name, value))
  {
    var field := name + "=" + value + tail;
    FieldPieces(name, value, tail);
    assert field[|name|] == '=';
    var pieces := SplitOn(field, '=');
    var tokens := DropTrailingEmpty(pieces);
    assert pieces[0] == name && pieces[1] == value;
    assert |tokens| >= 1 by {
      if name != "" {
        assert field[0] == name[0];
      } else if value != "" {
        assert field[1] == value[0];
      } else {
        var i :| 0 <= i < |tail| && tail[i] != '=';
        assert field[1 + i] == tail[i];
      }
      JavaSplitEmpty(field, '=');
    }
    assert tokens[0] == name;
    assert |tokens| > 1 ==> tokens[1] == value;
    assert |tokens| <= 1 ==> value == "";
  }

  /** The first two pieces of `name=value...` split on `=`. */
  lemma FieldPieces(name: string, value: string, tail: string)
    requires '=' !in name && '=' !in value
    requires tail == "" || tail[0] == '='
    ensures var pieces := SplitOn(name + "=" + value + tail, '=');
            |pieces| >= 2 && pieces[0] == name && pieces[1] == value
  {
    var rest := value + tail;
    var field := name + "=" + value + tail;
    assert field == name + ['='] + rest;
    SplitOnAround(name, '=', rest);
    SplitOnNoSeparator(name, '=');
    FirstPiece(value, tail);
  }

  lemma FirstPiece(value: string, tail: string)
    requires '=' !in value
    requires tail == "" || tail[0] == '='
    ensures SplitOn(value + tail, '=')[0] == value
  {
    SplitOnNoSeparator(value, '=');
    if tail == "" {
      assert value + tail == value;
    } else {
      assert value + tail == value + ['='] + tail[1..];
      SplitOnAround(value, '=', tail[1..]);
    }
  }

  /** The fields of the query: none for a null or empty query, else the query split on `&`. */
  function QueryFields(query: Option<string>): (fields: seq<string>)
    ensures query == None || query == Some("") ==> fields == []
    ensures forall i :: 0 <= i < |fields| ==> '&' !in fields[i]
  {
    if query.None? || query.value == "" then [] else JavaSplit(query.value, '&')
  }

  /** The (name, value) pairs of the fields, in order, skipping fields that yield nothing. */
  function QueryPairs(fields: seq<string>): (ps: seq<(string, string)>)
    ensures |ps| <= |fields|
    ensures (forall i :: 0 <= i < |fields| ==> '&' !in fields[i]) ==>
              forall i :: 0 <= i < |ps| ==> '&' !in ps[i].0 && '&' !in ps[i].1
  {
    if fields == [] then []
    else
      var init := QueryPairs(fields[..|fields| - 1]);
      match ParseField(fields[|fields| - 1])
      case Some(pair) => init + [pair]
      case None => init
  }

  /** The TreeMap of query parameters. */
  function QueryParameters(query: Option<string>): SortedMap
  {
    FromPairs(QueryPairs(QueryFields(query)))
  }

  /** One canonical query entry: `name=` followed by the URL-encoded value unless it is empty. */
  function QueryEntry(name: string, value: string, encode: string -> string): string
  {
    name + "=" + (if value == "" then "" else encode(value))
  }

  function QueryEntries(keys: seq<string>, values: map<string, string>, encode: string -> string): (es: seq<string>)
    requires forall k :: k in keys ==> k in values
    ensures |es| == |keys|
    ensures forall i :: 0 <= i < |keys| ==> es[i] == QueryEntry(keys[i], values[keys[i]], encode)
  {
    if keys == [] then []
    else QueryEntries(keys[..|keys| - 1], values, encode) + [QueryEntry(keys[|keys| - 1], values[keys[|keys| - 1]], encode)]
  }

  /** The canonical query string: the entries of the sorted parameter map joined by `&`. */
  function CanonicalQuery(query: Option<string>, encode: string -> string): string
  {
    var m := QueryParameters(query);
    Join(QueryEntries(m.keys, m.values, encode), '&')
  }

  /** getStandardizedQueryParameters: sort the parameters, then join them. */
  method GetStandardizedQueryParameters(query: Option<string>, encode: string -> string) returns (s: string)
    ensures s == CanonicalQuery(query, encode)
    ensures query == None || query == Some("") ==> s == ""
  {
    var sorted := SortQueryParameters(query);
    s := JoinQueryParameters(sorted.keys, sorted.values, encode);
  }

  /** The first half of getStandardizedQueryParameters: fields put one by one into a TreeMap. */
  method SortQueryParameters(query: Option<string>) returns (sorted: SortedMap)
    ensures sorted == QueryParameters(query)
    ensures query == None || query == Some("") ==> sorted.keys == []
  {
    sorted := Empty;
    if query.Some? && query.value != "" {
      var fields := JavaSplit(query.value, '&');
      for i := 0 to |fields|
        invariant sorted == FromPairs(QueryPairs(fields[..i]))
      {
        QueryPairsStep(fields, i);
        var tokens := JavaSplit(fields[i], '=');
        if |tokens| > 0 {
          if |tokens| > 1 {
            sorted := sorted.Put(tokens[0], tokens[1]);
          } else {
            sorted := sorted.Put(tokens[0], "");
          }
        }
      }
      assert fields[..|fields|] == fields;
    }
  }

  lemma QueryPairsStep(fields: seq<string>, i: nat)
    requires i < |fields|
    ensures var m := FromPairs(QueryPairs(fields[..i]));
            FromPairs(QueryPairs(fields[..i + 1]))
              == match ParseField(fields[i]) case Some(p) => m.Put(p.0, p.1) case None => m
  {
    var init := QueryPairs(fields[..i]);
    assert fields[..i + 1][..i] == fields[..i];
    match ParseField(fields[i])
    case Some(p) => assert (init + [p])[..|init|] == init;
    case None =>
  }

  /** The second half of getStandardizedQueryParameters: `name=encoded` entries in key order, `&` between them. */
  method JoinQueryParameters(keys: seq<string>, values: map<string, string>, encode: string -> string) returns (s: string)
    requires forall k :: k in keys ==> k in values
    ensures s == Join(QueryEntries(keys, values, encode), '&')
  {
    s := "";
    var count := 0;
    for i := 0 to |keys|
      invariant count == i
      invariant s == Join(QueryEntries(keys[..i], values, encode), '&')
    {
      var key := keys[i];
      QueryEntriesStep(keys, values, encode, i);
      ghost var before := s;
      if count > 0 {
        s := s + "&";
      }
      assert s == before + (if i > 0 then "&" else "");
      // key, "=" and the encoded value, appended as one piece
      var entry := key + "=";
      var value := values[key];
      if value != "" {
        entry := entry + encode(value);
      }
      assert entry == QueryEntry(key, value, encode);
      s := s + entry;
      count := count + 1;
    }
    assert keys[..|keys|] == keys;
  }

  lemma QueryEntriesStep(keys: seq<string>, values: map<string, string>, encode: string -> string, i: nat)
    requires forall k :: k in keys ==> k in values
    requires i < |keys|
    ensures forall k :: k in keys[..i] ==> k in values
    ensures Join(QueryEntries(keys[..i + 1], values, encode), '&')
         == Join(QueryEntries(keys[..i], values, encode), '&') + (if i > 0 then "&" else "")
            + QueryEntry(keys[i], values[keys[i]], encode)
  {
    assert keys[..i + 1][..i] == keys[..i];
    JoinSnoc(QueryEntries(keys[..i], values, encode), QueryEntry(keys[i], values[keys[i]], encode), '&');
  }

  /**
   * The canonical query string lists each parameter name once, in strictly
   * increasing order, with the value of its last occurrence.
   */
  lemma CanonicalQueryKeys(query: Option<string>)
    ensures var ps := QueryPairs(QueryFields(query));
            var m := QueryParameters(query);
            && StrictlySorted(m.keys)
            && (forall k :: k in m.keys <==> k in Names(ps))
            && (forall k :: k in m.keys ==> m.values[k] == LastValue(ps, k))
  {
  }

  /**
   * The canonical query string is empty when there are no parameters, and
   * otherwise splits on `&` into exactly the entries (so there is no leading,
   * trailing or doubled `&`), provided the encoder never emits `&`.
   */
  lemma CanonicalQuerySplit(query: Option<string>, encode: string -> string)
    requires forall v :: '&' !in encode(v)
    ensures var m := QueryParameters(query);
            && (m.keys == [] ==> CanonicalQuery(query, encode) == "")
            && (m.keys != [] ==> SplitOn(CanonicalQuery(query, encode), '&') == QueryEntries(m.keys, m.values, encode))
  {
    SplitEntries(QueryParameters(query), QueryPairs(QueryFields(query)), encode);
  }

  lemma SplitEntries(m: SortedMap, ps: seq<(string, string)>, encode: string -> string)
    requires m.Valid() && m.values.Keys == Names(ps)
    requires forall i :: 0 <= i < |ps| ==> '&' !in ps[i].0
    requires forall v :: '&' !in encode(v)
    ensures m.keys != [] ==> SplitOn(Join(QueryEntries(m.keys, m.values, encode), '&'), '&') == QueryEntries(m.keys, m.values, encode)
  {
    if m.keys != [] {
      EntriesAmpersandFree(m, ps, encode);
      assert |QueryEntries(m.keys, m.values, encode)| == |m.keys|;
      SplitJoin(QueryEntries(m.keys, m.values, encode), '&');
    }
  }

  /** Entries built from '&'-free names, with an encoder that never emits '&', hold no '&'. */
  lemma EntriesAmpersandFree(m: SortedMap, ps: seq<(string, string)>, encode: string -> string)
    requires m.Valid() && m.values.Keys == Names(ps)
    requires forall i :: 0 <= i < |ps| ==> '&' !in ps[i].0
    requires forall v :: '&' !in encode(v)
    ensures var es := QueryEntries(m.keys, m.values, encode);
            forall i :: 0 <= i < |es| ==> '&' !in es[i]
  {
    var es := QueryEntries(m.keys, m.values, encode);
    forall i | 0 <= i < |es| ensures '&' !in es[i] {
      var k := m.keys[i];
      assert k in Names(ps);
      var j :| 0 <= j < |ps| && ps[j].0 == k;
      assert '&' !in k;
    }
  }

  /** With distinct names, reordering the query's fields does not change the canonical query string. */
  lemma CanonicalQueryOrderIndependent(q1: Option<string>, q2: Option<string>, encode: string -> string)
    requires DistinctNames(QueryPairs(QueryFields(q1))) && DistinctNames(QueryPairs(QueryFields(q2)))
    requires forall e :: e in QueryPairs(QueryFields(q1)) <==> e in QueryPairs(QueryFields(q2))
    ensures CanonicalQuery(q1, encode) == CanonicalQuery(q2, encode)
  {
    FromPairsOrderIndependent(QueryPairs(QueryFields(q1)), QueryPairs(QueryFields(q2)));
  }

  /** A query that parses to one pair has that pair's entry as its canonical query. */
  lemma OneKeyQuery(query: Option<string>, a: string, x: string, encode: string -> string)
    requires QueryPairs(QueryFields(query)) == [(a, x)]
    ensures CanonicalQuery(query, encode) == QueryEntry(a, x, encode)
  {
    var ps := [(a, x)];
    var m := QueryParameters(query);
    assert Names(ps) == {a} by {
      assert ps[0].0 == a;
    }
    SortedUnique(m.keys, [a]);
    LastValueOfDistinct(ps, a, x);
  }

  /** A query that parses to two pairs with ordered names joins their two entries. */
  lemma TwoKeyQuery(query: Option<string>, a: string, x: string, b: string, y: string, encode: string -> string)
    requires QueryPairs(QueryFields(query)) == [(a, x), (b, y)] && Less(a, b)
    ensures CanonicalQuery(query, encode) == QueryEntry(a, x, encode) + "&" + QueryEntry(b, y, encode)
  {
    LessIrreflexive(a);
    TwoKeys(a, b, x, y);
    TwoValues(a, b, x, y);
    var m := QueryParameters(query);
    TwoEntries(m.keys, m.values, a, x, b, y, encode);
  }

  lemma TwoEntries(keys: seq<string>, values: map<string, string>, a: string, x: string, b: string, y: string,
                   encode: string -> string)
    requires keys == [a, b] && values == map[a := x, b := y] && a != b
    ensures Join(QueryEntries(keys, values, encode), '&') == QueryEntry(a, x, encode) + "&" + QueryEntry(b, y, encode)
  {
    assert QueryEntries(keys, values, encode) == [QueryEntry(a, x, encode), QueryEntry(b, y, encode)];
    JoinSnoc([QueryEntry(a, x, encode)], QueryEntry(b, y, encode), '&');
  }

  /** A leading `&` splits off an empty first field. */
  lemma LeadingEmptyFieldFields(f: string)
    requires f != "" && '&' !in f
    ensures QueryFields(Some("&" + f)) == ["", f]
  {
    assert Join(["", f], '&') == "&" + f by {
      JoinSnoc([""], f, '&');
    }
    JavaSplitJoin(["", f], '&');
  }

  /** The empty first field parses to the pair ("", ""). */
  lemma LeadingEmptyFieldPairs(p: (string, string))
    requires PlainParameters([p])
    ensures QueryPairs(QueryFields(Some("&" + FieldOf(p)))) == [("", ""), p]
  {
    PlainFields([p]);
    assert FieldsOf([p]) == [FieldOf(p)];
    LeadingEmptyFieldFields(FieldOf(p));
    assert ParseField("") == Some(("", ""));
    QueryPairsSnoc([], "", ("", ""));
    ParsePlainField(p);
    QueryPairsSnoc([""], FieldOf(p), p);
  }

  /** A trailing `&` adds an empty last field, which String.split drops. */
  lemma TrailingEmptyFieldPairs(p: (string, string))
    requires PlainParameters([p])
    ensures QueryPairs(QueryFields(Some(FieldOf(p) + "&"))) == [p]
  {
    var f := FieldOf(p);
    PlainFields([p]);
    assert FieldsOf([p]) == [f];
    assert f + "&" == f + ['&'] + "";
    SplitOnAround(f, '&', "");
    SplitOnNoSeparator(f, '&');
    assert DropTrailingEmpty([f, ""]) == [f];
    assert QueryFields(Some(f + "&")) == [f];
    ParsePlainField(p);
    QueryPairsSnoc([], f, p);
  }

  /** An empty field between two others is kept too: String.split drops only trailing empty pieces. */
  lemma InnerEmptyFieldPairs(p: (string, string), q: (string, string))
    requires PlainParameters([p]) && PlainParameters([q])
    ensures QueryPairs(QueryFields(Some(FieldOf(p) + "&&" + FieldOf(q)))) == [p, ("", ""), q]
  {
    var f, g := FieldOf(p), FieldOf(q);
    assert QueryFields(Some(f + "&&" + g)) == [f] + [""] + [g] by {
      PlainFields([p]);
      PlainFields([q]);
      assert FieldsOf([p]) == [f] && FieldsOf([q]) == [g];
      InnerEmptyFieldFields(f, g);
    }
    assert QueryPairs([f] + [""] + [g]) == [p] + [("", "")] + [q] by {
      assert [p][0] == p && [q][0] == q;
      ParsePlainField(p);
      ParsePlainField(q);
      ThreeFieldPairs(f, g, p, q);
    }
    assert [p] + [("", "")] + [q] == [p, ("", ""), q];
  }

  lemma InnerEmptyFieldFields(f: string, g: string)
    requires f != "" && '&' !in f && g != "" && '&' !in g
    ensures QueryFields(Some(f + "&&" + g)) == [f] + [""] + [g]
  {
    assert Join([f, "", g], '&') == f + "&&" + g by {
      JoinSnoc([f], "", '&');
      JoinSnoc([f, ""], g, '&');
    }
    JavaSplitJoin([f, "", g], '&');
    assert [f, "", g] == [f] + [""] + [g];
  }

  lemma ThreeFieldPairs(f: string, g: string, p: (string, string), q: (string, string))
    requires ParseField(f) == Some(p) && ParseField(g) == Some(q)
    ensures QueryPairs([f] + [""] + [g]) == [p] + [("", "")] + [q]
  {
    assert QueryPairs([f]) == [p] by {
      QueryPairsSnoc([], f, p);
      assert [] + [f] == [f];
    }
    assert QueryPairs([f] + [""]) == [p] + [("", "")] by {
      EmptyFieldParses();
      QueryPairsSnoc([f], "", ("", ""));
    }
    QueryPairsSnoc([f] + [""], g, q);
  }

  /** An empty field splits at `=` into the one token "", so it is the pair ("", ""). */
  lemma EmptyFieldParses()
    ensures ParseField("") == Some(("", ""))
  {
  }

  /** At the front, an empty field is the parameter "" with an empty value, which sorts first. */
  lemma LeadingEmptyFieldQuery(p: (string, string), encode: string -> string)
    requires PlainParameters([p]) && p.0 != ""
    ensures CanonicalQuery(Some("&" + FieldOf(p)), encode) == "=&" + QueryEntry(p.0, p.1, encode)
  {
    LeadingEmptyFieldPairs(p);
    TwoKeyQuery(Some("&" + FieldOf(p)), "", "", p.0, p.1, encode);
    EmptyEntryFirst(QueryEntry(p.0, p.1, encode), encode);
  }

  lemma EmptyEntryFirst(entry: string, encode: string -> string)
    ensures QueryEntry("", "", encode) + "&" + entry == "=&" + entry
  {
  }

  /** At the end, an empty field is dropped. */
  lemma TrailingEmptyFieldQuery(p: (string, string), encode: string -> string)
    requires PlainParameters([p])
    ensures CanonicalQuery(Some(FieldOf(p) + "&"), encode) == QueryEntry(p.0, p.1, encode)
  {
    TrailingEmptyFieldPairs(p);
    OneKeyQuery(Some(FieldOf(p) + "&"), p.0, p.1, encode);
  }

  /**
   * Where an empty field sits matters: the same fields in two orders, with
   * the empty one first or last, give two canonical queries.
   */
  lemma EmptyFieldPosition(p: (string, string), encode: string -> string)
    requires PlainParameters([p]) && p.0 != ""
    ensures CanonicalQuery(Some("&" + FieldOf(p)), encode) != CanonicalQuery(Some(FieldOf(p) + "&"), encode)
  {
    LeadingEmptyFieldQuery(p, encode);
    TrailingEmptyFieldQuery(p, encode);
    var entry := QueryEntry(p.0, p.1, encode);
    assert |"=&" + entry| != |entry|;
  }

  /** Parameters that a query string can carry as written: no `=` or `&` inside, and never both parts empty. */
  predicate PlainParameters(ps: seq<(string, string)>)
  {
    forall i :: 0 <= i < |ps| ==>
      '=' !in ps[i].0 && '=' !in ps[i].1 && '&' !in ps[i].0 && '&' !in ps[i].1
      && (ps[i].0 != "" || ps[i].1 != "")
  }

  /** The field `name=value` of one parameter. */
  function FieldOf(p: (string, string)): string
  {
    p.0 + "=" + p.1
  }

  /** The fields of a parameter list, in order. */
  function FieldsOf(ps: seq<(string, string)>): (fields: seq<string>)
    ensures |fields| == |ps|
  {
    if ps == [] then [] else FieldsOf(ps[..|ps| - 1]) + [FieldOf(ps[|ps| - 1])]
  }

  /** Parsing the fields of a plain parameter list gives the list back, in order. */
  lemma {:induction false} QueryPairsOfFields(ps: seq<(string, string)>)
    requires PlainParameters(ps)
    ensures QueryPairs(FieldsOf(ps)) == ps
    decreases |ps|
  {
    if ps != [] {
      var n := |ps| - 1;
      PlainPrefix(ps, n);
      QueryPairsOfFields(ps[..n]);
      ParsePlainField(ps[n]);
      QueryPairsSnoc(FieldsOf(ps[..n]), FieldOf(ps[n]), ps[n]);
      LastSplit(ps);
    }
  }

  /** A non-empty list is its prefix followed by its last element. */
  lemma LastSplit(ps: seq<(string, string)>)
    requires ps != []
    ensures ps == ps[..|ps| - 1] + [ps[|ps| - 1]]
  {
  }

  lemma PlainPrefix(ps: seq<(string, string)>, n: nat)
    requires PlainParameters(ps) && n <= |ps|
    ensures PlainParameters(ps[..n])
  {
    forall i | 0 <= i < n ensures ps[..n][i] == ps[i] { }
  }

  /** A plain `name=value` field parses to its name and value. */
  lemma ParsePlainField(p: (string, string))
    requires '=' !in p.0 && '=' !in p.1 && (p.0 != "" || p.1 != "")
    ensures ParseField(FieldOf(p)) == Some(p)
  {
    ParseFieldNameValue(p.0, p.1, "");
    assert p.0 + "=" + p.1 + "" == FieldOf(p);
  }

  /** A field that parses to a pair appends that pair. */
  lemma QueryPairsSnoc(fields: seq<string>, field: string, pair: (string, string))
    requires ParseField(field) == Some(pair)
    ensures QueryPairs(fields + [field]) == QueryPairs(fields) + [pair]
  {
    assert (fields + [field])[..|fields|] == fields;
  }

  /** Each field of a plain parameter list is `&`-free and not empty. */
  lemma {:induction false} PlainFields(ps: seq<(string, string)>)
    requires PlainParameters(ps)
    ensures forall i :: 0 <= i < |ps| ==> '&' !in FieldsOf(ps)[i] && FieldsOf(ps)[i] != ""
    decreases |ps|
  {
    if ps != [] {
      var n := |ps| - 1;
      PlainFields(ps[..n]);
      assert FieldsOf(ps)[..n] == FieldsOf(ps[..n]);
      assert FieldsOf(ps)[n] == ps[n].0 + "=" + ps[n].1;
      assert '&' !in ps[n].0 + "=" + ps[n].1;
    }
  }

  /**
   * The query string of a plain parameter list, its `name=value` fields
   * joined by `&`, parses back to exactly that list, in order.
   */
  lemma QueryRoundTrip(ps: seq<(string, string)>)
    requires PlainParameters(ps)
    ensures QueryPairs(QueryFields(Some(Join(FieldsOf(ps), '&')))) == ps
  {
    QueryPairsOfFields(ps);
    if ps != [] {
      var fields := FieldsOf(ps);
      PlainFields(ps);
      JavaSplitJoin(fields, '&');
      assert Join(fields, '&') != "" by {
        if |fields| > 1 {
          assert Join(fields, '&') == Join(fields[..|fields| - 1], '&') + ['&'] + fields[|fields| - 1];
        }
      }
    }
  }

  /**
   * Reordering the fields of a query string built from a plain parameter list
   * with distinct names does not change its canonical query.
   */
  lemma PlainQueryOrderIndependent(ps: seq<(string, string)>, qs: seq<(string, string)>, encode: string -> string)
    requires PlainParameters(ps) && PlainParameters(qs)
    requires DistinctNames(ps) && DistinctNames(qs)
    requires forall e :: e in ps <==> e in qs
    ensures CanonicalQuery(Some(Join(FieldsOf(ps), '&')), encode) == CanonicalQuery(Some(Join(FieldsOf(qs), '&')), encode)
  {
    QueryRoundTrip(ps);
    QueryRoundTrip(qs);
    CanonicalQueryOrderIndependent(Some(Join(FieldsOf(ps), '&')), Some(Join(FieldsOf(qs), '&')), encode);
  }

  // ---------------------------------------------------------------------
  // Headers

  /** getSortedHeaders: every (name, value) header put, in list order, into a TreeMap keyed by the raw name. */
  method GetSortedHeaders(headers: seq<(string, string)>) returns (sorted: SortedMap)
    ensures sorted == FromPairs(headers)
    ensures StrictlySorted(sorted.keys)
    ensures forall k :: k in sorted.keys <==> k in Names(headers)
    ensures forall k :: k in sorted.keys ==> sorted.values[k] == LastValue(headers, k)
  {
    sorted := Empty;
    for i := 0 to |headers|
      invariant sorted == FromPairs(headers[..i])
    {
      assert headers[..i + 1][..i] == headers[..i];
      sorted := sorted.Put(headers[i].0, headers[i].1);
    }
    assert headers[..|headers|] == headers;
  }

  /** The signed-headers list: the lower-cased names in key order, separated by `;`. */
  function SignedHeaders(sorted: SortedMap): string
  {
    Join(LowerAll(sorted.keys), ';')
  }

  /** getSignedHeaders: append each lower-cased name and `;`, then drop the final `;`. */
  method GetSignedHeaders(sorted: SortedMap) returns (s: string)
    ensures s == SignedHeaders(sorted)
  {
    var keys := sorted.keys;
    s := "";
    for i := 0 to |keys|
      invariant s == Terminated(LowerAll(keys[..i]), ';')
    {
      assert LowerAll(keys[..i + 1])[..i] == LowerAll(keys[..i]);
      s := s + Lower(keys[i]) + ";";
    }
    assert keys[..|keys|] == keys;
    if |s| > 0 && s[|s| - 1] == ';' {
      s := s[..|s| - 1];
    }
    if keys != [] {
      TerminatedIsJoinPlusSeparator(LowerAll(keys), ';');
    }
  }

  /**
   * The signed-headers list holds one lower-cased name per distinct raw
   * name, in raw-name order, with one `;` fewer than names.
   */
  lemma SignedHeadersNames(sorted: SortedMap)
    requires sorted.keys != []
    requires forall k :: k in sorted.keys ==> ';' !in k
    ensures SplitOn(SignedHeaders(sorted), ';') == LowerAll(sorted.keys)
    ensures Count(SignedHeaders(sorted), ';') == |sorted.keys| - 1
  {
    var names := LowerAll(sorted.keys);
    forall i | 0 <= i < |names| ensures ';' !in names[i] {
      LowerKeepsAbsent(sorted.keys[i], ';');
    }
    SplitJoin(names, ';');
    JoinSeparatorCount(names, ';');
  }

  /** One canonical header line: lower-cased name, `:`, the value, a newline. */
  function HeaderLine(name: string, value: string): string
  {
    Lower(name) + ":" + value + "\n"
  }

  function HeaderLines(keys: seq<string>, values: map<string, string>): (s: string)
    requires forall k :: k in keys ==> k in values
    ensures s == "" || s[|s| - 1] == '\n'
  {
    if keys == [] then ""
    else HeaderLines(keys[..|keys| - 1], values) + HeaderLine(keys[|keys| - 1], values[keys[|keys| - 1]])
  }

  /** The canonical header block: one line per key of the sorted map, in key order. */
  function CanonicalHeaders(sorted: SortedMap): string
    requires sorted.Valid()
  {
    HeaderLines(sorted.keys, sorted.values)
  }

  /** One more key adds its line to the end of the block. */
  lemma HeaderLinesStep(keys: seq<string>, values: map<string, string>, i: nat)
    requires forall k :: k in keys ==> k in values
    requires i < |keys|
    ensures forall k :: k in keys[..i] ==> k in values
    ensures HeaderLines(keys[..i + 1], values) == HeaderLines(keys[..i], values) + HeaderLine(keys[i], values[keys[i]])
  {
    assert keys[..i + 1][..i] == keys[..i];
  }

  /** getStandardizedHeaders: append one `lowercase-name:value` line per key, in key order. */
  method GetStandardizedHeaders(sorted: SortedMap) returns (s: string)
    requires sorted.Valid()
    ensures s == CanonicalHeaders(sorted)
  {
    var keys, values := sorted.keys, sorted.values;
    s := "";
    for i := 0 to |keys|
      invariant s == HeaderLines(keys[..i], values)
    {
      HeaderLinesStep(keys, values, i);
      // lower(name), ":", the value and "\n", appended as one line
      var line := Lower(keys[i]) + ":" + values[keys[i]] + "\n";
      s := s + line;
    }
    assert keys[..|keys|] == keys;
  }

  /**
   * The header block determines every value: with the same keys and no
   * newline inside names or values, equal blocks mean equal values.
   */
  lemma {:induction false} HeaderLinesDetermineValues(keys: seq<string>, v1: map<string, string>, v2: map<string, string>)
    requires forall k :: k in keys ==> k in v1 && k in v2
    requires forall k :: k in keys ==> '\n' !in k && '\n' !in v1[k] && '\n' !in v2[k]
    requires HeaderLines(keys, v1) == HeaderLines(keys, v2)
    ensures forall k :: k in keys ==> v1[k] == v2[k]
    decreases |keys|
  {
    if keys != [] {
      var n := |keys| - 1;
      var k := keys[n];
      var init := keys[..n];
      assert k in keys;
      LastLineDeterminesValue(HeaderLines(init, v1), HeaderLines(init, v2), k, v1[k], v2[k]);
      assert forall j :: j in init ==> j in keys;
      HeaderLinesDetermineValues(init, v1, v2);
      assert keys == init + [k];
    }
  }

  /** The last line of a header block, and what precedes it, can be read back. */
  lemma LastLineDeterminesValue(h1: string, h2: string, name: string, a: string, b: string)
    requires h1 == "" || h1[|h1| - 1] == '\n'
    requires h2 == "" || h2[|h2| - 1] == '\n'
    requires '\n' !in name && '\n' !in a && '\n' !in b
    requires h1 + HeaderLine(name, a) == h2 + HeaderLine(name, b)
    ensures h1 == h2 && a == b
  {
    var l1, l2 := Lower(name) + ":" + a, Lower(name) + ":" + b;
    LowerKeepsAbsent(name, '\n');
    var s1, s2 := h1 + HeaderLine(name, a), h2 + HeaderLine(name, b);
    assert s1 == (h1 + l1) + "\n" && h1 + l1 == s1[..|s1| - 1];
    assert s2 == (h2 + l2) + "\n" && h2 + l2 == s2[..|s2| - 1];
    SplitAfterLastSeparator(h1, l1, h2, l2, '\n');
    assert a == l1[|Lower(name)| + 1..];
    assert b == l2[|Lower(name)| + 1..];
  }

  /**
   * With distinct names, the insertion order of the headers changes neither
   * the canonical header block nor the signed-headers list.
   */
  lemma CanonicalHeadersOrderIndependent(h1: seq<(string, string)>, h2: seq<(string, string)>)
    requires DistinctNames(h1) && DistinctNames(h2)
    requires forall e :: e in h1 <==> e in h2
    ensures CanonicalHeaders(FromPairs(h1)) == CanonicalHeaders(FromPairs(h2))
    ensures SignedHeaders(FromPairs(h1)) == SignedHeaders(FromPairs(h2))
  {
    FromPairsOrderIndependent(h1, h2);
  }

  // ---------------------------------------------------------------------
  // Canonical request

  /**
   * getCanonicalRequest: verb, path, query, header block and signed list,
   * each followed by a newline, then the payload placeholder. The path is
   * used as it stands and nothing of the body enters.
   */
  function CanonicalRequest(verb: string, path: string, query: string, headers: string, signed: string): (r: string)
    ensures |r| >= |verb| + |path| + 2 + |UnsignedPayload|
    ensures r[..|verb| + |path| + 2] == verb + "\n" + path + "\n"
    ensures r[|r| - |UnsignedPayload|..] == UnsignedPayload
  {
    verb + "\n" + path + "\n" + query + "\n" + headers + "\n" + signed + "\n" + UnsignedPayload
  }

  /** The canonical request of a request with the given verb, path, query and header list. */
  function CanonicalRequestOf(verb: string, path: string, query: Option<string>,
                              headers: seq<(string, string)>, encode: string -> string): string
  {
    var sorted := FromPairs(headers);
    CanonicalRequest(verb, path, CanonicalQuery(query, encode), CanonicalHeaders(sorted), SignedHeaders(sorted))
  }

  /** Around fixed verb, path, query and signed list, the canonical request determines the header block. */
  lemma CancelAround(p: string, a: string, b: string, t1: string, t2: string, t3: string, t4: string)
    requires p + a + t1 + t2 + t3 + t4 == p + b + t1 + t2 + t3 + t4
    ensures a == b
  {
    var t := t1 + t2 + t3 + t4;
    assert p + a + t1 + t2 + t3 + t4 == p + a + t;
    assert p + b + t1 + t2 + t3 + t4 == p + b + t;
    assert a == (p + a + t)[|p|..|p| + |a|];
    assert b == (p + b + t)[|p|..|p| + |b|];
  }

  lemma CanonicalRequestDeterminesHeaders(verb: string, path: string, query: string, h1: string, h2: string, signed: string)
    requires CanonicalRequest(verb, path, query, h1, signed) == CanonicalRequest(verb, path, query, h2, signed)
    ensures h1 == h2
  {
    CancelAround(verb + "\n" + path + "\n" + query + "\n", h1, h2, "\n", signed, "\n", UnsignedPayload);
  }

  lemma NoNewlineInSortedHeaders(headers: seq<(string, string)>)
    requires forall i :: 0 <= i < |headers| ==> '\n' !in headers[i].0 && '\n' !in headers[i].1
    ensures forall k :: k in FromPairs(headers).keys ==> '\n' !in k && '\n' !in FromPairs(headers).values[k]
  {
    var m := FromPairs(headers);
    forall k | k in m.keys ensures '\n' !in k && '\n' !in m.values[k] {
      var i :| 0 <= i < |headers| && headers[i] == (k, LastValue(headers, k));
    }
  }

  /**
   * The signature binds header values: two header lists with the same
   * distinct names (and no newline in names or values) whose canonical
   * requests agree give every name the same value.
   */
  lemma HeaderValuesAreSigned(verb: string, path: string, query: Option<string>,
                              h1: seq<(string, string)>, h2: seq<(string, string)>, encode: string -> string)
    requires FromPairs(h1).keys == FromPairs(h2).keys
    requires forall i :: 0 <= i < |h1| ==> '\n' !in h1[i].0 && '\n' !in h1[i].1
    requires forall i :: 0 <= i < |h2| ==> '\n' !in h2[i].0 && '\n' !in h2[i].1
    requires CanonicalRequestOf(verb, path, query, h1, encode) == CanonicalRequestOf(verb, path, query, h2, encode)
    ensures FromPairs(h1).values == FromPairs(h2).values
  {
    var m1, m2 := FromPairs(h1), FromPairs(h2);
    var q := CanonicalQuery(query, encode);
    assert SignedHeaders(m1) == SignedHeaders(m2);
    assert CanonicalRequestOf(verb, path, query, h1, encode)
        == CanonicalRequest(verb, path, q, CanonicalHeaders(m1), SignedHeaders(m1));
    assert CanonicalRequestOf(verb, path, query, h2, encode)
        == CanonicalRequest(verb, path, q, CanonicalHeaders(m2), SignedHeaders(m1));
    CanonicalRequestDeterminesHeaders(verb, path, q, CanonicalHeaders(m1), CanonicalHeaders(m2), SignedHeaders(m1));
    NoNewlineInSortedHeaders(h1);
    NoNewlineInSortedHeaders(h2);
    CanonicalHeadersDetermineValues(m1, m2);
  }

  /** Two sorted header maps with the same names and the same header block give each name the same value. */
  lemma CanonicalHeadersDetermineValues(m1: SortedMap, m2: SortedMap)
    requires m1.Valid() && m2.Valid() && m1.keys == m2.keys
    requires forall k :: k in m1.keys ==> '\n' !in k && '\n' !in m1.values[k] && '\n' !in m2.values[k]
    requires CanonicalHeaders(m1) == CanonicalHeaders(m2)
    ensures m1.values == m2.values
  {
    HeaderLinesDetermineValues(m1.keys, m1.values, m2.values);
    AgreeingValuesSameMap(m1, m2);
  }
}
