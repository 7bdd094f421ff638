/**
 * Rust's `str::split` for a pattern that is a single character, as used with `"."` and
 * `" "` by the address parser. Splitting always yields at least one piece: an empty string
 * yields one empty piece, and two adjacent delimiters yield an empty piece between them.
 * `Join` is not called by the parser; it is the reference definition against which
 * `Split` is proved (each undoes the other).
 */
module TextSplit {

  /** The pieces of `s` between occurrences of `d`, in order (`s.split(d)`). */
  function Split(s: string, d: char): (pieces: seq<string>)
    ensures |pieces| >= 1
    decreases |s|
  {
    if s == [] then [[]]
    else
      var rest := Split(s[1..], d);
      if s[0] == d then [[]] + rest
      else [[s[0]] + rest[0]] + rest[1..]
  }

  /** No piece contains the delimiter. */
  lemma {:induction false} SplitPiecesLackDelimiter(s: string, d: char)
    ensures forall i :: 0 <= i < |Split(s, d)| ==> d !in Split(s, d)[i]
    decreases |s|
  {
    if s != [] {
      var rest := Split(s[1..], d);
      SplitPiecesLackDelimiter(s[1..], d);
      if s[0] != d {
        assert d !in rest[0];
        assert d !in [s[0]] + rest[0];
        assert Split(s, d) == [[s[0]] + rest[0]] + rest[1..];
        forall i | 1 <= i < |Split(s, d)| ensures d !in Split(s, d)[i] {
          assert Split(s, d)[i] == rest[i];
        }
      } else {
        assert Split(s, d) == [[]] + rest;
        forall i | 1 <= i < |Split(s, d)| ensures d !in Split(s, d)[i] {
          assert Split(s, d)[i] == rest[i - 1];
        }
      }
    }
  }

  /** There is one piece more than there are delimiters. */
  lemma {:induction false} SplitCount(s: string, d: char)
    ensures |Split(s, d)| == multiset(s)[d] + 1
    decreases |s|
  {
    if s != [] {
      SplitCount(s[1..], d);
      assert s == [s[0]] + s[1..];
      assert multiset(s) == multiset([s[0]]) + multiset(s[1..]);
    }
  }

  /** A delimiter-free piece between two delimiters comes out as a piece of its own. */
  lemma SplitAround(s: string, p: string, t: string, d: char)
    requires d !in p
    ensures Split(s + [d] + p + [d] + t, d) == Split(s, d) + [p] + Split(t, d)
  {
    assert s + [d] + p + [d] + t == s + [d] + (p + [d] + t);
    SplitAppend(s, p + [d] + t, d);
    SplitAppend(p, t, d);
    SplitWithoutDelimiter(p, d);
  }

  /** The pieces glued back together with `d` between neighbours: the inverse of `Split`. */
  function Join(pieces: seq<string>, d: char): string
    decreases |pieces|
  {
    if |pieces| == 0 then []
    else if |pieces| == 1 then pieces[0]
    else pieces[0] + [d] + Join(pieces[1..], d)
  }

  /** A string without the delimiter is a single piece. */
  lemma {:induction false} SplitWithoutDelimiter(s: string, d: char)
    requires d !in s
    ensures Split(s, d) == [s]
    decreases |s|
  {
    if s != [] {
      assert s == [s[0]] + s[1..];
      assert d !in s[1..];
      SplitWithoutDelimiter(s[1..], d);
    }
  }

  /** Splitting distributes over a delimiter: what lies on either side is split independently. */
  lemma {:induction false} SplitAppend(a: string, b: string, d: char)
    ensures Split(a + [d] + b, d) == Split(a, d) + Split(b, d)
    decreases |a|
  {
    var s := a + [d] + b;
    if a == [] {
      assert s[1..] == b;
    } else {
      assert s[1..] == a[1..] + [d] + b;
      SplitAppend(a[1..], b, d);
    }
  }

  /** Joining a list of two or more pieces puts the first piece, then the delimiter, before the rest joined. */
  lemma JoinCons(p: string, ps: seq<string>, d: char)
    requires |ps| >= 1
    ensures Join([p] + ps, d) == p + [d] + Join(ps, d)
  {
    assert ([p] + ps)[1..] == ps;
  }

  /** Joining four pieces puts the delimiter between each pair of neighbours. */
  lemma JoinFour(a: string, b: string, c: string, e: string, d: char)
    ensures Join([a, b, c, e], d) == a + [d] + b + [d] + c + [d] + e
  {
    JoinCons(c, [e], d);
    assert [c, e] == [c] + [e];
    JoinCons(b, [c, e], d);
    assert [b, c, e] == [b] + [c, e];
    JoinCons(a, [b, c, e], d);
    assert [a, b, c, e] == [a] + [b, c, e];
    assert a + [d] + (b + [d] + (c + [d] + e)) == a + [d] + b + [d] + c + [d] + e;
  }

  /** Splitting undoes joining, for a non-empty list of pieces none of which holds the delimiter. */
  lemma {:induction false} SplitJoin(pieces: seq<string>, d: char)
    requires |pieces| >= 1
    requires forall i :: 0 <= i < |pieces| ==> d !in pieces[i]
    ensures Split(Join(pieces, d), d) == pieces
    decreases |pieces|
  {
    if |pieces| == 1 {
      SplitWithoutDelimiter(pieces[0], d);
    } else {
      SplitWithoutDelimiter(pieces[0], d);
      SplitJoin(pieces[1..], d);
      SplitAppend(pieces[0], Join(pieces[1..], d), d);
      assert pieces == [pieces[0]] + pieces[1..];
    }
  }

  /** Prefixing the first piece with a character prefixes the joined string with it. */
  lemma JoinPrefixFirst(c: char, pieces: seq<string>, d: char)
    requires |pieces| >= 1
    ensures Join([[c] + pieces[0]] + pieces[1..], d) == [c] + Join(pieces, d)
  {
    if |pieces| > 1 {
      JoinCons([c] + pieces[0], pieces[1..], d);
      JoinCons(pieces[0], pieces[1..], d);
      assert pieces == [pieces[0]] + pieces[1..];
    }
  }

  /** Joining undoes splitting: no character of the input is lost or added. */
  lemma {:induction false} JoinSplit(s: string, d: char)
    ensures Join(Split(s, d), d) == s
    decreases |s|
  {
    if s != [] {
      var rest := Split(s[1..], d);
      JoinSplit(s[1..], d);
      assert s == [s[0]] + s[1..];
      if s[0] == d {
        JoinCons([], rest, d);
      } else {
        JoinPrefixFirst(s[0], rest, d);
      }
    }
  }
}
