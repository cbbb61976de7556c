/**
 * String helpers shared by the canonicalizer and the signer: Java's string
 * ordering, ASCII lower-casing, splitting on one character (both plainly and
 * with the trailing-empty rule of Java's String.split) and joining.
 */
module Text {

  /** The order of Java's String.compareTo: character by character, a proper prefix first. */
  predicate Less(a: string, b: string)
  {
    if a == [] then b != []
    else if b == [] then false
    else a[0] < b[0] || (a[0] == b[0] && Less(a[1..], b[1..]))
  }

  lemma {:induction false} LessIrreflexive(a: string)
    ensures !Less(a, a)
  {
    if a != [] {
      LessIrreflexive(a[1..]);
    }
  }

  lemma {:induction false} LessTransitive(a: string, b: string, c: string)
    requires Less(a, b) && Less(b, c)
    ensures Less(a, c)
  {
    if a != [] && b != [] && c != [] && a[0] == b[0] == c[0] {
      LessTransitive(a[1..], b[1..], c[1..]);
    }
  }

  lemma {:induction false} LessTotal(a: string, b: string)
    requires a != b
    ensures Less(a, b) || Less(b, a)
  {
    if a != [] && b != [] && a[0] == b[0] {
      assert a == [a[0]] + a[1..] && b == [b[0]] + b[1..];
      LessTotal(a[1..], b[1..]);
    }
  }

  lemma LessAsymmetric(a: string, b: string)
    requires Less(a, b)
    ensures !Less(b, a)
  {
    if Less(b, a) {
      LessTransitive(a, b, a);
      LessIrreflexive(a);
    }
  }

  /** A common prefix does not change the order. */
  lemma {:induction false} LessCommonPrefix(p: string, a: string, b: string)
    requires Less(a, b)
    ensures Less(p + a, p + b)
  {
    if p != [] {
      LessCommonPrefix(p[1..], a, b);
      assert (p + a)[1..] == p[1..] + a && (p + b)[1..] == p[1..] + b;
      assert (p + a)[0] == p[0] == (p + b)[0];
    } else {
      assert p + a == a && p + b == b;
    }
  }

  /** Strictly increasing in Java's string order, hence free of duplicates. */
  predicate StrictlySorted(s: seq<string>)
  {
    forall i, j :: 0 <= i < j < |s| ==> Less(s[i], s[j])
  }

  lemma FirstIsMember(s: seq<string>)
    ensures s != [] ==> s[0] in s
  {
  }

  /** Two strictly sorted sequences with the same elements are the same sequence. */
  lemma {:induction false} SortedUnique(a: seq<string>, b: seq<string>)
    requires StrictlySorted(a) && StrictlySorted(b)
    requires forall x :: x in a <==> x in b
    ensures a == b
    decreases |a|
  {
    if a == [] {
      FirstIsMember(b);
    } else {
      assert b != [] by { assert a[0] in b; }
      assert a[0] in b && b[0] in a;
      if a[0] != b[0] {
        var i :| 0 <= i < |a| && a[i] == b[0];
        var j :| 0 <= j < |b| && b[j] == a[0];
        assert i > 0 && j > 0;
        assert Less(a[0], b[0]);
        assert Less(b[0], a[0]);
        LessAsymmetric(a[0], b[0]);
      }
      forall x
        ensures x in a[1..] <==> x in b[1..]
      {
        if x in a[1..] {
          var i :| 1 <= i < |a| && a[i] == x;
          assert Less(a[0], x);
          LessIrreflexive(x);
          assert x in b && x != b[0];
          var j :| 0 <= j < |b| && b[j] == x;
          assert j != 0;
        }
        if x in b[1..] {
          var j :| 1 <= j < |b| && b[j] == x;
          assert Less(b[0], x);
          LessIrreflexive(x);
          assert x in a && x != a[0];
          var i :| 0 <= i < |a| && a[i] == x;
          assert i != 0;
        }
      }
      SortedUnique(a[1..], b[1..]);
      assert a == [a[0]] + a[1..] && b == [b[0]] + b[1..];
    }
  }

  /** Lower-casing of one character, for the ASCII letters A to Z. */
  function LowerChar(c: char): (r: char)
    ensures 'A' <= c <= 'Z' ==> 'a' <= r <= 'z' && r as int - c as int == 32
    ensures !('A' <= c <= 'Z') ==> r == c
  {
    if 'A' <= c <= 'Z' then (c as int + 32) as char else c
  }

  /** String.toLowerCase, restricted to ASCII letters. */
  function Lower(s: string): (r: string)
    ensures |r| == |s|
    ensures forall i :: 0 <= i < |s| ==> r[i] == LowerChar(s[i])
  {
    if s == [] then [] else [LowerChar(s[0])] + Lower(s[1..])
  }

  /** Lower-cases every element. */
  function LowerAll(names: seq<string>): (r: seq<string>)
    ensures |r| == |names|
    ensures forall i :: 0 <= i < |names| ==> r[i] == Lower(names[i])
  {
    if names == [] then [] else [Lower(names[0])] + LowerAll(names[1..])
  }

  /** Number of occurrences of `c` in `s`. */
  function Count(s: string, c: char): nat
  {
    multiset(s)[c]
  }

  /**
   * The pieces of `s` between the occurrences of `c`, empty pieces included:
   * there is always one piece more than there are separators.
   */
  function SplitOn(s: string, c: char): (r: seq<string>)
    ensures |r| >= 1
    ensures forall i :: 0 <= i < |r| ==> c !in r[i]
    ensures forall i, x :: 0 <= i < |r| && x in r[i] ==> x in s
  {
    if s == [] then [""]
    else
      var rest := SplitOn(s[1..], c);
      assert s == [s[0]] + s[1..];
      if s[0] == c then [""] + rest
      else [[s[0]] + rest[0]] + rest[1..]
  }

  /** There is one piece more than there are separators. */
  lemma {:induction false} SplitOnCount(s: string, c: char)
    ensures |SplitOn(s, c)| == Count(s, c) + 1
  {
    if s != [] {
      SplitOnCount(s[1..], c);
      assert s == [s[0]] + s[1..];
      assert multiset(s) == multiset([s[0]]) + multiset(s[1..]);
    }
  }

  lemma {:induction false} SplitOnNoSeparator(s: string, c: char)
    requires c !in s
    ensures SplitOn(s, c) == [s]
  {
    if s != [] {
      SplitOnNoSeparator(s[1..], c);
      assert s == [s[0]] + s[1..];
    }
  }

  /** Splitting distributes over a separator occurrence. */
  lemma {:induction false} SplitOnAround(a: string, c: char, b: string)
    ensures SplitOn(a + [c] + b, c) == SplitOn(a, c) + SplitOn(b, c)
    decreases |a|
  {
    var s := a + [c] + b;
    if a == [] {
      assert s[1..] == b;
    } else {
      assert s[1..] == a[1..] + [c] + b;
      SplitOnAround(a[1..], c, b);
    }
  }

  /** Elements separated by `c`, without a leading or trailing separator. */
  function Join(xs: seq<string>, c: char): (r: string)
    ensures xs == [] ==> r == ""
    ensures |xs| == 1 ==> r == xs[0]
  {
    if xs == [] then ""
    else if |xs| == 1 then xs[0]
    else Join(xs[..|xs| - 1], c) + [c] + xs[|xs| - 1]
  }

  /** Appending one element to a join appends a separator and the element. */
  lemma JoinSnoc(xs: seq<string>, x: string, c: char)
    ensures Join(xs + [x], c) == if xs == [] then x else Join(xs, c) + [c] + x
  {
    assert (xs + [x])[..|xs|] == xs;
  }

  /** Every element followed by `c`, as a builder that appends `x` then `c` produces. */
  function Terminated(xs: seq<string>, c: char): string
  {
    if xs == [] then "" else Terminated(xs[..|xs| - 1], c) + xs[|xs| - 1] + [c]
  }

  /** A terminated list is the joined list plus one trailing separator. */
  lemma {:induction false} TerminatedIsJoinPlusSeparator(xs: seq<string>, c: char)
    requires xs != []
    ensures Terminated(xs, c) == Join(xs, c) + [c]
    decreases |xs|
  {
    if |xs| > 1 {
      TerminatedIsJoinPlusSeparator(xs[..|xs| - 1], c);
    } else {
      assert xs[..0] == [];
    }
  }

  /** Splitting a join recovers the elements when none contains the separator. */
  lemma {:induction false} SplitJoin(xs: seq<string>, c: char)
    requires xs != []
    requires forall i :: 0 <= i < |xs| ==> c !in xs[i]
    ensures SplitOn(Join(xs, c), c) == xs
    decreases |xs|
  {
    if |xs| == 1 {
      SplitOnNoSeparator(xs[0], c);
    } else {
      var init, last := xs[..|xs| - 1], xs[|xs| - 1];
      assert SplitOn(Join(xs, c), c) == SplitOn(Join(init, c), c) + [last] by {
        assert Join(xs, c) == Join(init, c) + [c] + last;
        SplitOnAround(Join(init, c), c, last);
        SplitOnNoSeparator(last, c);
      }
      assert forall i :: 0 <= i < |init| ==> init[i] == xs[i];
      SplitJoin(init, c);
      assert xs == init + [last];
    }
  }

  /** A join of separator-free elements holds exactly one separator fewer than it has elements. */
  lemma {:induction false} JoinSeparatorCount(xs: seq<string>, c: char)
    requires xs != []
    requires forall i :: 0 <= i < |xs| ==> c !in xs[i]
    ensures Count(Join(xs, c), c) == |xs| - 1
    decreases |xs|
  {
    if |xs| > 1 {
      JoinSeparatorCount(xs[..|xs| - 1], c);
      assert multiset(Join(xs, c)) == multiset(Join(xs[..|xs| - 1], c)) + multiset([c]) + multiset(xs[|xs| - 1]);
    }
  }

  /** The piece after the last separator is what follows that separator. */
  lemma LastPiece(x: string, y: string, c: char)
    requires x == [] || x[|x| - 1] == c
    requires c !in y
    ensures var r := SplitOn(x + y, c); r[|r| - 1] == y
  {
    SplitOnNoSeparator(y, c);
    if x != [] {
      var x' := x[..|x| - 1];
      assert x + y == x' + [c] + y;
      SplitOnAround(x', c, y);
    } else {
      assert x + y == y;
    }
  }

  /**
   * Cutting a string after its last separator is unambiguous: two ways of
   * writing it as (empty or separator-terminated) + (separator-free) agree.
   */
  lemma SplitAfterLastSeparator(x1: string, y1: string, x2: string, y2: string, c: char)
    requires x1 == [] || x1[|x1| - 1] == c
    requires x2 == [] || x2[|x2| - 1] == c
    requires c !in y1 && c !in y2
    requires x1 + y1 == x2 + y2
    ensures x1 == x2 && y1 == y2
  {
    LastPiece(x1, y1, c);
    LastPiece(x2, y2, c);
    assert x1 == (x1 + y1)[..|x1|];
    assert x2 == (x2 + y2)[..|x2|];
  }

  /** A character other than the separator that no element contains is absent from the join. */
  lemma {:induction false} JoinAvoids(xs: seq<string>, c: char, d: char)
    requires d != c
    requires forall i :: 0 <= i < |xs| ==> d !in xs[i]
    ensures d !in Join(xs, c)
    decreases |xs|
  {
    if |xs| > 1 {
      JoinAvoids(xs[..|xs| - 1], c, d);
    }
  }

  /** Lower-casing introduces no character other than a lower-case letter. */
  lemma LowerKeepsAbsent(s: string, c: char)
    requires c !in s && !('a' <= c <= 'z')
    ensures c !in Lower(s)
  {
    forall i | 0 <= i < |s| ensures Lower(s)[i] != c {
      assert s[i] != c;
    }
  }

  /** Drops empty strings from the end, as String.split does with its pieces. */
  function DropTrailingEmpty(xs: seq<string>): (r: seq<string>)
    ensures |r| <= |xs| && r == xs[..|r|]
    ensures r != [] ==> r[|r| - 1] != ""
    ensures forall i :: |r| <= i < |xs| ==> xs[i] == ""
  {
    if xs != [] && xs[|xs| - 1] == "" then DropTrailingEmpty(xs[..|xs| - 1]) else xs
  }

  /**
   * Java's s.split(c) for a one-character pattern: a string without the
   * separator (the empty string included) gives itself alone; otherwise the
   * pieces around the separators, with trailing empty pieces removed.
   */
  function JavaSplit(s: string, c: char): (r: seq<string>)
    ensures c !in s ==> r == [s]
    ensures forall i :: 0 <= i < |r| ==> c !in r[i]
    ensures forall i, x :: 0 <= i < |r| && x in r[i] ==> x in s
  {
    if c !in s then [s] else DropTrailingEmpty(SplitOn(s, c))
  }

  /** The pieces are all empty exactly when the string is made only of separators. */
  lemma {:induction false} SplitOnAllEmpty(s: string, c: char)
    ensures (forall i :: 0 <= i < |SplitOn(s, c)| ==> SplitOn(s, c)[i] == "")
        <==> (forall i :: 0 <= i < |s| ==> s[i] == c)
  {
    if s != [] {
      var rest := SplitOn(s[1..], c);
      SplitOnAllEmpty(s[1..], c);
      assert s == [s[0]] + s[1..];
      if s[0] == c {
        var pieces := SplitOn(s, c);
        assert pieces == [""] + rest;
        assert (forall i :: 0 <= i < |pieces| ==> pieces[i] == "") <==> (forall i :: 0 <= i < |rest| ==> rest[i] == "") by {
          if forall i :: 0 <= i < |rest| ==> rest[i] == "" {
            forall i | 0 < i < |pieces| ensures pieces[i] == "" {
              assert pieces[i] == rest[i - 1];
            }
          }
          if forall i :: 0 <= i < |pieces| ==> pieces[i] == "" {
            forall i | 0 <= i < |rest| ensures rest[i] == "" {
              assert rest[i] == pieces[i + 1];
            }
          }
        }
        assert (forall i :: 0 <= i < |s| ==> s[i] == c) <==> (forall i :: 0 <= i < |s| - 1 ==> s[1..][i] == c) by {
          if forall i :: 0 <= i < |s| - 1 ==> s[1..][i] == c {
            forall i | 0 < i < |s| ensures s[i] == c {
              assert s[i] == s[1..][i - 1];
            }
          }
        }
      } else {
        assert SplitOn(s, c)[0] != "";
      }
    }
  }

  /** String.split leaves no piece exactly when the string is a non-empty run of separators. */
  lemma JavaSplitEmpty(s: string, c: char)
    ensures JavaSplit(s, c) == [] <==> s != "" && forall i :: 0 <= i < |s| ==> s[i] == c
  {
    if c in s {
      SplitOnAllEmpty(s, c);
      var pieces := SplitOn(s, c);
      var r := DropTrailingEmpty(pieces);
      if r == [] {
        assert forall i :: 0 <= i < |pieces| ==> pieces[i] == "";
      } else {
        assert pieces[|r| - 1] != "";
      }
    } else if s != "" {
      assert s[0] != c;
    }
  }

  /**
   * String.split inverts a join whose pieces hold no separator and whose last
   * piece is not empty (an empty last piece would be dropped as trailing).
   */
  lemma JavaSplitJoin(xs: seq<string>, c: char)
    requires xs != [] && xs[|xs| - 1] != ""
    requires forall i :: 0 <= i < |xs| ==> c !in xs[i]
    ensures JavaSplit(Join(xs, c), c) == xs
  {
    SplitJoin(xs, c);
    if c !in Join(xs, c) {
      SplitOnNoSeparator(Join(xs, c), c);
    }
  }
}
