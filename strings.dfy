/** `String.Split(char)` and its inverse, joining with a separator. */
module Strings {

  /**
   * The pieces of `s` between occurrences of `sep`, as .NET's `Split(sep)`
   * returns them: one more piece than there are separators, empty pieces kept.
   */
  function Split(s: string, sep: char): (parts: seq<string>)
    ensures |parts| >= 1
    decreases |s|
  {
    if s == [] then [""]
    else
      var rest := Split(s[1..], sep);
      if s[0] == sep then [""] + rest
      else [[s[0]] + rest[0]] + rest[1..]
  }

  /** There is one more piece than there are separators. */
  lemma {:induction false} SplitCount(s: string, sep: char)
    ensures |Split(s, sep)| == multiset(s)[sep] + 1
    decreases |s|
  {
    if s != [] {
      assert s == [s[0]] + s[1..];
      SplitCount(s[1..], sep);
    }
  }

  /** No piece contains the separator, and every character of a piece comes from `s`. */
  lemma {:induction false} SplitPieces(s: string, sep: char)
    ensures forall p :: p in Split(s, sep) ==> sep !in p && forall c :: c in p ==> c in s
    decreases |s|
  {
    if s != [] {
      SplitPieces(s[1..], sep);
      var rest := Split(s[1..], sep);
      assert forall c :: c in s[1..] ==> c in s;
      if s[0] != sep {
        var first := [s[0]] + rest[0];
        assert rest[0] in rest;
        assert forall c :: c in first ==> c == s[0] || c in rest[0];
        forall p | p in Split(s, sep) ensures sep !in p && forall c :: c in p ==> c in s {
          if p != first {
            assert p in rest[1..];
            assert p in rest;
          }
        }
      }
    }
  }

  /** The pieces glued back together with `sep` between consecutive pieces. */
  function Join(parts: seq<string>, sep: char): string
    decreases |parts|
  {
    if parts == [] then ""
    else if |parts| == 1 then parts[0]
    else parts[0] + [sep] + Join(parts[1..], sep)
  }

  /** Splitting loses nothing: joining the pieces gives back the input. */
  lemma {:induction false} JoinSplit(s: string, sep: char)
    ensures Join(Split(s, sep), sep) == s
    decreases |s|
  {
    if s != [] {
      JoinSplit(s[1..], sep);
      var rest := Split(s[1..], sep);
      if s[0] == sep {
        JoinSplitSeparator(s, sep, rest);
      } else {
        JoinSplitLetter(s, sep, rest);
      }
    }
  }

  lemma JoinSplitSeparator(s: string, sep: char, rest: seq<string>)
    requires s != [] && s[0] == sep && rest == Split(s[1..], sep) && Join(rest, sep) == s[1..]
    ensures Join(Split(s, sep), sep) == s
  {
    assert Split(s, sep) == [""] + rest;
    JoinCons("", rest, sep);
    assert s == [s[0]] + s[1..];
  }

  lemma JoinSplitLetter(s: string, sep: char, rest: seq<string>)
    requires s != [] && s[0] != sep && rest == Split(s[1..], sep) && Join(rest, sep) == s[1..]
    ensures Join(Split(s, sep), sep) == s
  {
    assert Split(s, sep) == [[s[0]] + rest[0]] + rest[1..];
    JoinPrepend(s[0], rest, sep);
    assert [s[0]] + s[1..] == s;
  }

  /** Putting a character in front of the first piece puts it in front of the join. */
  lemma JoinPrepend(c: char, ps: seq<string>, sep: char)
    requires |ps| >= 1
    ensures Join([[c] + ps[0]] + ps[1..], sep) == [c] + Join(ps, sep)
  {
    var first := [c] + ps[0];
    if |ps| == 1 {
      assert [first] + ps[1..] == [first];
    } else {
      var later := Join(ps[1..], sep);
      assert Join([first] + ps[1..], sep) == first + [sep] + later by {
        JoinCons(first, ps[1..], sep);
      }
      assert Join(ps, sep) == ps[0] + [sep] + later by {
        JoinCons(ps[0], ps[1..], sep);
        assert [ps[0]] + ps[1..] == ps;
      }
      assert first + [sep] + later == [c] + (ps[0] + [sep] + later);
    }
  }

  /** A first piece is followed by the separator and the join of the rest. */
  lemma JoinCons(x: string, ps: seq<string>, sep: char)
    requires ps != []
    ensures Join([x] + ps, sep) == x + [sep] + Join(ps, sep)
  {
    assert ([x] + ps)[1..] == ps;
  }

  /** A string without the separator is a single piece. */
  lemma {:induction false} SplitWithoutSeparator(s: string, sep: char)
    requires sep !in s
    ensures Split(s, sep) == [s]
    decreases |s|
  {
    if s != [] {
      assert s == [s[0]] + s[1..];
      SplitWithoutSeparator(s[1..], sep);
    }
  }

  /** A separator after a separator-free prefix ends the first piece there. */
  lemma {:induction false} SplitAfterPiece(a: string, sep: char, b: string)
    requires sep !in a
    ensures Split(a + [sep] + b, sep) == [a] + Split(b, sep)
    decreases |a|
  {
    var s := a + [sep] + b;
    if a == [] {
      assert s[1..] == b;
    } else {
      assert s[1..] == a[1..] + [sep] + b;
      SplitAfterPiece(a[1..], sep, b);
      assert a == [a[0]] + a[1..];
    }
  }

  /** Joining separator-free pieces can be undone by splitting. */
  lemma {:induction false} SplitJoin(parts: seq<string>, sep: char)
    requires |parts| >= 1
    requires forall p :: p in parts ==> sep !in p
    ensures Split(Join(parts, sep), sep) == parts
    decreases |parts|
  {
    if |parts| == 1 {
      SplitWithoutSeparator(parts[0], sep);
    } else {
      assert parts[0] in parts;
      SplitJoin(parts[1..], sep);
      SplitAfterPiece(parts[0], sep, Join(parts[1..], sep));
      assert parts == [parts[0]] + parts[1..];
    }
  }
}
