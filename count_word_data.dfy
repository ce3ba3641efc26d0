/**
 * The scraper's word table: each element's inner HTML is reduced to ASCII
 * letters and spaces, split at single spaces, and the pieces are grouped and
 * counted. The loop over elements replaces the table at every element that
 * has a value.
 */
module CountWordData {
  import opened Common
  import opened Strings
  import opened Tables

  /** The characters the filter keeps: ASCII letters and the space. */
  predicate Kept(c: char) {
    ('A' <= c <= 'Z') || ('a' <= c <= 'z') || c == ' '
  }

  /** A piece made only of ASCII letters. */
  predicate AsciiLetters(s: string) {
    forall c :: c in s ==> Kept(c) && c != ' '
  }

  /** The inner HTML with every character other than an ASCII letter or a space deleted. */
  function StripDisallowed(s: string): (r: string)
    ensures forall c :: c in r ==> Kept(c)
    decreases |s|
  {
    if s == [] then []
    else
      var rest := StripDisallowed(s[1..]);
      if Kept(s[0]) then [s[0]] + rest else rest
  }

  /** Every kept character survives as often as it occurs; nothing else does. */
  lemma {:induction false} StripCounts(s: string, c: char)
    ensures multiset(StripDisallowed(s))[c] == if Kept(c) then multiset(s)[c] else 0
    decreases |s|
  {
    if s == [] {
    } else {
      assert s == [s[0]] + s[1..];
      StripCounts(s[1..], c);
    }
  }

  /** Deleting characters works piece by piece. */
  lemma {:induction false} StripAppend(a: string, b: string)
    ensures StripDisallowed(a + b) == StripDisallowed(a) + StripDisallowed(b)
    decreases |a|
  {
    if a == [] {
      assert a + b == b;
    } else {
      assert (a + b)[0] == a[0];
      assert (a + b)[1..] == a[1..] + b;
      StripAppend(a[1..], b);
      if Kept(a[0]) {
        assert StripDisallowed(a) == [a[0]] + StripDisallowed(a[1..]);
      }
    }
  }

  /** A string of kept characters passes through unchanged. */
  lemma {:induction false} StripKept(s: string)
    requires forall c :: c in s ==> Kept(c)
    ensures StripDisallowed(s) == s
    decreases |s|
  {
    if s != [] {
      assert s == [s[0]] + s[1..];
      StripKept(s[1..]);
    }
  }

  /** The per-element step: filter, split at single spaces, group and count. */
  function ElementTable(innerHtml: string): Table {
    Tally(Split(StripDisallowed(innerHtml), ' '))
  }

  /** The index of the last element that has a value, if any. */
  function LastWithValue(elements: seq<string>, hasValue: string -> bool): (r: Option<nat>)
    ensures r.None? <==> forall i :: 0 <= i < |elements| ==> !hasValue(elements[i])
    ensures r.Some? ==> r.value < |elements| && hasValue(elements[r.value])
    ensures r.Some? ==> forall j :: r.value < j < |elements| ==> !hasValue(elements[j])
    decreases |elements|
  {
    if elements == [] then None
    else if hasValue(elements[|elements| - 1]) then Some(|elements| - 1)
    else
      var p := elements[..|elements| - 1];
      assert forall i :: 0 <= i < |p| ==> p[i] == elements[i];
      LastWithValue(p, hasValue)
  }

  /** The table the scraper returns for `elements`: the last valued element's, or empty. */
  function ScrapedTable(elements: seq<string>, hasValue: string -> bool): Table {
    match LastWithValue(elements, hasValue)
    case None => []
    case Some(i) => ElementTable(elements[i])
  }

  /**
   * One more element either leaves the table as it was (no value) or
   * replaces it entirely by that element's own table.
   */
  lemma ScrapedTableStep(elements: seq<string>, e: string, hasValue: string -> bool)
    ensures ScrapedTable(elements + [e], hasValue) ==
      if hasValue(e) then ElementTable(e) else ScrapedTable(elements, hasValue)
  {
    var s := elements + [e];
    assert s[..|s| - 1] == elements;
    assert s[|s| - 1] == e;
    match LastWithValue(elements, hasValue)
    case None =>
    case Some(i) => assert s[i] == elements[i];
  }

  /**
   * Walks the elements, skipping those whose inner HTML has no value and
   * replacing the dictionary by the table of each one that has.
   */
  method FetchWordsWithCount(elements: seq<string>, hasValue: string -> bool) returns (wordDictionary: Table)
    ensures wordDictionary == ScrapedTable(elements, hasValue)
  {
    wordDictionary := [];
    for i := 0 to |elements|
      invariant wordDictionary == ScrapedTable(elements[..i], hasValue)
    {
      ScrapedTableStep(elements[..i], elements[i], hasValue);
      assert elements[..i + 1] == elements[..i] + [elements[i]];
      var innerHtml := elements[i];
      if !hasValue(innerHtml) {
        continue;
      }
      var matches := StripDisallowed(innerHtml);
      wordDictionary := Tally(Split(matches, ' '));
    }
    assert elements[..|elements|] == elements;
  }

  // ---------------------------------------------------------------------
  // Properties of one element's table

  /** Every key is made of ASCII letters only (possibly none: the empty piece). */
  lemma ElementTableKeys(innerHtml: string)
    ensures forall e :: e in ElementTable(innerHtml) ==> AsciiLetters(e.key)
  {
    var parts := Split(StripDisallowed(innerHtml), ' ');
    TallyKeysIn(parts);
    SplitPieces(StripDisallowed(innerHtml), ' ');
  }

  /** The counts add up to the number of pieces: one more than the spaces in the input. */
  lemma ElementTableSum(innerHtml: string)
    ensures Sum(ElementTable(innerHtml)) == multiset(innerHtml)[' '] + 1
  {
    TallySum(Split(StripDisallowed(innerHtml), ' '));
    StripCounts(innerHtml, ' ');
    SplitCount(StripDisallowed(innerHtml), ' ');
  }

  /** A key's count is the number of pieces equal to it; a string that is no piece is absent. */
  lemma ElementTableLookup(innerHtml: string, k: string)
    ensures TryGetValue(ElementTable(innerHtml), k) ==
      var parts := Split(StripDisallowed(innerHtml), ' ');
      if k in parts then Some(multiset(parts)[k]) else None
  {
    TallyLookup(Split(StripDisallowed(innerHtml), ' '), k);
  }

  /** A single piece of letters forms a one-entry table. */
  lemma SinglePieceTable(w: string)
    requires AsciiLetters(w)
    ensures ElementTable(w) == [Entry(w, 1)]
  {
    StripKept(w);
    SplitWithoutSeparator(w, ' ');
    TallyOne(w);
  }

  lemma TallyOne(w: string)
    ensures Tally([w]) == [Entry(w, 1)]
  {
    assert [w][..0] == [];
    assert Distinct([w]) == [w];
  }

  lemma TallyTwo(u: string, v: string)
    requires u != v
    ensures Tally([u, v]) == [Entry(u, 1), Entry(v, 1)]
  {
    DistinctTwo(u, v);
    assert multiset([u, v]) == multiset{u, v};
  }

  lemma DistinctTwo(u: string, v: string)
    requires u != v
    ensures Distinct([u, v]) == [u, v]
  {
    assert [u, v][..1] == [u];
    assert Distinct([u]) == [u] by {
      assert [u][..0] == [];
    }
  }

  lemma StripGlued(u: string, v: string)
    requires AsciiLetters(u) && AsciiLetters(v)
    ensures StripDisallowed(u + "\n" + v) == u + v
  {
    var nl := "\n";
    assert StripDisallowed(nl) == [] by {
      assert !Kept(nl[0]) && nl[1..] == [];
    }
    StripKept(u);
    StripKept(v);
    StripAppend(u, nl);
    assert StripDisallowed(u + nl) == u;
    StripAppend(u + nl, v);
  }

  lemma LettersGlued(u: string, v: string)
    requires AsciiLetters(u) && AsciiLetters(v)
    ensures AsciiLetters(u + v)
  {
    forall c | c in u + v ensures Kept(c) && c != ' ' {
      assert c in u || c in v;
    }
  }

  /** A newline is deleted, not a separator: words on adjacent lines are glued together. */
  lemma NewLineGlues(u: string, v: string)
    requires AsciiLetters(u) && AsciiLetters(v)
    ensures ElementTable(u + "\n" + v) == [Entry(u + v, 1)]
  {
    StripGlued(u, v);
    LettersGlued(u, v);
    SplitWithoutSeparator(u + v, ' ');
    TallyOne(u + v);
  }

  lemma StripSpaced(u: string, sep: string, v: string)
    requires AsciiLetters(u) && AsciiLetters(v) && forall c :: c in sep ==> c == ' '
    ensures StripDisallowed(u + sep + v) == u + sep + v
  {
    forall c | c in u + sep + v ensures Kept(c) {
      assert c in u || c in sep || c in v;
    }
    StripKept(u + sep + v);
  }

  lemma SplitDoubleSpace(u: string, v: string)
    requires ' ' !in u && ' ' !in v
    ensures Split(u + "  " + v, ' ') == [u, "", v]
  {
    assert u + "  " + v == u + [' '] + ([] + [' '] + v);
    SplitAfterPiece(u, ' ', [] + [' '] + v);
    SplitAfterPiece([], ' ', v);
    SplitWithoutSeparator(v, ' ');
  }

  lemma EmptyPieceOnce(u: string, v: string)
    requires u != "" && v != ""
    ensures multiset([u, "", v])[""] == 1
  {
    assert multiset([u, "", v]) == multiset{u} + multiset{""} + multiset{v};
  }

  /** Two consecutive spaces produce an empty piece, which is counted like any word. */
  lemma DoubleSpaceCountsEmpty(u: string, v: string)
    requires AsciiLetters(u) && AsciiLetters(v) && u != "" && v != ""
    ensures Split(StripDisallowed(u + "  " + v), ' ') == [u, "", v]
    ensures TryGetValue(ElementTable(u + "  " + v), "") == Some(1)
  {
    StripSpaced(u, "  ", v);
    SplitDoubleSpace(u, v);
    EmptyPieceOnce(u, v);
    TallyLookup([u, "", v], "");
  }

  /** Two different letter pieces separated by a space give two keys, in order. */
  lemma TwoPiecesTwoKeys(u: string, v: string)
    requires AsciiLetters(u) && AsciiLetters(v) && u != v
    ensures ElementTable(u + " " + v) == [Entry(u, 1), Entry(v, 1)]
  {
    var s := u + " " + v;
    StripSpaced(u, " ", v);
    assert s == u + [' '] + v;
    SplitAfterPiece(u, ' ', v);
    SplitWithoutSeparator(v, ' ');
    assert Split(s, ' ') == [u, v];
    TallyTwo(u, v);
  }

  /** There is no case folding: "Word word" keeps both spellings as separate keys. */
  lemma NoCaseFolding(s: string, u: string, v: string)
    requires u == "Word" && v == "word" && s == u + " " + v
    ensures ElementTable(s) == [Entry(u, 1), Entry(v, 1)]
  {
    assert u[0] != v[0];
    TwoPiecesTwoKeys(u, v);
  }

  // ---------------------------------------------------------------------
  // The overwrite in the element loop, and the accumulating loop it stands for

  /** The pieces of every element that has a value, in document order. */
  function AllPieces(elements: seq<string>, hasValue: string -> bool): seq<string>
    decreases |elements|
  {
    if elements == [] then []
    else
      var p := AllPieces(elements[..|elements| - 1], hasValue);
      var e := elements[|elements| - 1];
      if hasValue(e) then p + Split(StripDisallowed(e), ' ') else p
  }

  /** Counts `items` on top of the table of the items `seen` so far. */
  method AddOccurrences(counts: Table, ghost seen: seq<string>, items: seq<string>) returns (r: Table)
    requires counts == Tally(seen)
    ensures r == Tally(seen + items)
  {
    r := counts;
    ghost var done := seen;
    assert seen + items[..0] == seen;
    TallyKeys(seen);
    for j := 0 to |items|
      invariant done == seen + items[..j]
      invariant r == Tally(done) && DistinctKeys(r)
    {
      var current := TryGetValue(r, items[j]);
      r := Put(r, items[j], current.GetOr(0) + 1);
      CountStepInto(done, items[j], r);
      TallyKeys(done + [items[j]]);
      AppendPrefixSnoc(seen, items, j);
      done := done + [items[j]];
    }
    assert items[..|items|] == items;
  }

  lemma AppendPrefixSnoc(seen: seq<string>, items: seq<string>, j: nat)
    requires j < |items|
    ensures seen + items[..j + 1] == (seen + items[..j]) + [items[j]]
  {
    assert items[..j + 1] == items[..j] + [items[j]];
  }

  /**
   * The loop with the dictionary carried across elements: every piece of
   * every element that has a value is counted once.
   */
  method FetchAllWordsWithCount(elements: seq<string>, hasValue: string -> bool) returns (wordDictionary: Table)
    ensures wordDictionary == Tally(AllPieces(elements, hasValue))
    ensures Sum(wordDictionary) == |AllPieces(elements, hasValue)|
  {
    wordDictionary := [];
    for i := 0 to |elements|
      invariant wordDictionary == Tally(AllPieces(elements[..i], hasValue))
    {
      assert elements[..i + 1][..i] == elements[..i];
      var innerHtml := elements[i];
      if !hasValue(innerHtml) {
        continue;
      }
      var pieces := Split(StripDisallowed(innerHtml), ' ');
      wordDictionary := AddOccurrences(wordDictionary, AllPieces(elements[..i], hasValue), pieces);
    }
    assert elements[..|elements|] == elements;
    TallySum(AllPieces(elements, hasValue));
  }

  /** Every piece of every element that has a value is among all the pieces, as often. */
  lemma {:induction false} AllPiecesCountsEveryElement(elements: seq<string>, hasValue: string -> bool, i: nat)
    requires i < |elements| && hasValue(elements[i])
    ensures multiset(Split(StripDisallowed(elements[i]), ' ')) <= multiset(AllPieces(elements, hasValue))
    decreases |elements|
  {
    var p := elements[..|elements| - 1];
    if i < |elements| - 1 {
      assert p[i] == elements[i];
      AllPiecesCountsEveryElement(p, hasValue, i);
    }
  }

  /** With a single element that has a value, the overwrite does no harm: both loops agree. */
  lemma {:induction false} SingleValuedElementAgrees(elements: seq<string>, hasValue: string -> bool, i: nat)
    requires i < |elements| && hasValue(elements[i])
    requires forall j :: 0 <= j < |elements| && j != i ==> !hasValue(elements[j])
    ensures Tally(AllPieces(elements, hasValue)) == ScrapedTable(elements, hasValue)
  {
    AllPiecesOfOne(elements, hasValue, i);
  }

  lemma {:induction false} AllPiecesOfOne(elements: seq<string>, hasValue: string -> bool, i: nat)
    requires i < |elements| && hasValue(elements[i])
    requires forall j :: 0 <= j < |elements| && j != i ==> !hasValue(elements[j])
    ensures AllPieces(elements, hasValue) == Split(StripDisallowed(elements[i]), ' ')
    decreases |elements|
  {
    var p := elements[..|elements| - 1];
    if i < |elements| - 1 {
      assert p[i] == elements[i];
      AllPiecesOfOne(p, hasValue, i);
    } else {
      NoValuedNoPieces(p, hasValue);
      assert [] + Split(StripDisallowed(elements[i]), ' ') == Split(StripDisallowed(elements[i]), ' ');
    }
  }

  lemma {:induction false} NoValuedNoPieces(elements: seq<string>, hasValue: string -> bool)
    requires forall j :: 0 <= j < |elements| ==> !hasValue(elements[j])
    ensures AllPieces(elements, hasValue) == []
    decreases |elements|
  {
    if elements != [] {
      NoValuedNoPieces(elements[..|elements| - 1], hasValue);
    }
  }

  /**
   * The overwrite loses words: with two valued elements holding different
   * words, the first word is missing from the returned table, although the
   * accumulating loop counts it once.
   */
  lemma OverwriteLosesEarlierElement(u: string, v: string, hasValue: string -> bool)
    requires AsciiLetters(u) && AsciiLetters(v) && u != v
    requires hasValue(u) && hasValue(v)
    ensures TryGetValue(ScrapedTable([u, v], hasValue), u) == None
    ensures TryGetValue(Tally(AllPieces([u, v], hasValue)), u) == Some(1)
  {
    LastOfTwo(u, v, hasValue);
    SinglePieceTable(v);
    assert Keys([Entry(v, 1)]) == [v];
    PiecesOfTwo(u, v, hasValue);
    TallyLookup([u, v], u);
    assert multiset([u, v])[u] == 1;
  }

  lemma LastOfTwo(u: string, v: string, hasValue: string -> bool)
    requires hasValue(v)
    ensures ScrapedTable([u, v], hasValue) == ElementTable(v)
  {
    assert LastWithValue([u, v], hasValue) == Some(1);
  }

  lemma PiecesOfTwo(u: string, v: string, hasValue: string -> bool)
    requires AsciiLetters(u) && AsciiLetters(v)
    requires hasValue(u) && hasValue(v)
    ensures AllPieces([u, v], hasValue) == [u, v]
  {
    var elements := [u, v];
    assert elements[..1] == [u] && elements[..1][..0] == [];
    StripKept(u);
    StripKept(v);
    SplitWithoutSeparator(u, ' ');
    SplitWithoutSeparator(v, ' ');
    assert AllPieces(elements[..1], hasValue) == [] + [u];
  }
}
