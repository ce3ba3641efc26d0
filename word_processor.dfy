/**
 * WordProcessorService: splits text into words (maximal runs of letters),
 * lower-cases them and counts their occurrences.
 *
 * Letter classification (`\p{L}`) and the culture-dependent `ToLower` are
 * outside the model and come in as the parameters `isLetter` and `lower`;
 * `IsAsciiLetter` and `AsciiLower` are one instance of them.
 */
module WordProcessor {
  import opened Common
  import opened Tables

  predicate AllLetters(w: string, isLetter: char -> bool) {
    forall i :: 0 <= i < |w| ==> isLetter(w[i])
  }

  /** The length of the run of letters at the start of `s`. */
  function LetterRun(s: string, isLetter: char -> bool): (n: nat)
    ensures n <= |s|
    ensures AllLetters(s[..n], isLetter)
    ensures n < |s| ==> !isLetter(s[n])
  {
    if s == [] || !isLetter(s[0]) then 0
    else
      var m := LetterRun(s[1..], isLetter);
      assert s[..m + 1] == [s[0]] + s[1..][..m];
      m + 1
  }

  /** The matches of the regular expression `\p{L}+` in `text`, left to right. */
  function Words(text: string, isLetter: char -> bool): seq<string>
    decreases |text|
  {
    if text == [] then []
    else if !isLetter(text[0]) then Words(text[1..], isLetter)
    else
      var n := LetterRun(text, isLetter);
      [text[..n]] + Words(text[n..], isLetter)
  }

  /** Every word is a non-empty run of letters. */
  lemma {:induction false} WordsAreLetterRuns(text: string, isLetter: char -> bool)
    ensures forall w :: w in Words(text, isLetter) ==> |w| > 0 && AllLetters(w, isLetter)
    decreases |text|
  {
    if text != [] {
      if !isLetter(text[0]) {
        WordsAreLetterRuns(text[1..], isLetter);
      } else {
        var n := LetterRun(text, isLetter);
        WordsAreLetterRuns(text[n..], isLetter);
      }
    }
  }

  /** A non-empty run of letters is exactly one word. */
  lemma WordsOfLetters(w: string, isLetter: char -> bool)
    requires |w| > 0 && AllLetters(w, isLetter)
    ensures Words(w, isLetter) == [w]
  {
    assert w[..|w|] == w && w[|w|..] == [];
  }

  /** Text without letters has no words. */
  lemma {:induction false} WordsOfNonLetters(s: string, isLetter: char -> bool)
    requires forall i :: 0 <= i < |s| ==> !isLetter(s[i])
    ensures Words(s, isLetter) == []
    decreases |s|
  {
    if s != [] {
      WordsOfNonLetters(s[1..], isLetter);
    }
  }

  /** A non-letter separates: the words of `a + [c] + b` are those of `a` followed by those of `b`. */
  lemma {:induction false} WordsSeparator(a: string, c: char, b: string, isLetter: char -> bool)
    requires !isLetter(c)
    ensures Words(a + [c] + b, isLetter) == Words(a, isLetter) + Words(b, isLetter)
    decreases |a|
  {
    var s := a + [c] + b;
    if a == [] {
      assert s[1..] == b;
    } else if !isLetter(a[0]) {
      assert s[1..] == a[1..] + [c] + b;
      WordsSeparator(a[1..], c, b, isLetter);
    } else {
      var n := LetterRun(a, isLetter);
      WordsSeparator(a[n..], c, b, isLetter);
      WordsSeparatorAtLetter(a, c, b, isLetter);
    }
  }

  /** The letter case of `WordsSeparator`, given the claim for what follows the first word. */
  lemma WordsSeparatorAtLetter(a: string, c: char, b: string, isLetter: char -> bool)
    requires !isLetter(c) && a != [] && isLetter(a[0])
    requires var n := LetterRun(a, isLetter);
      Words(a[n..] + [c] + b, isLetter) == Words(a[n..], isLetter) + Words(b, isLetter)
    ensures Words(a + [c] + b, isLetter) == Words(a, isLetter) + Words(b, isLetter)
  {
    var n := LetterRun(a, isLetter);
    RunOfJoined(a, c, b, isLetter);
    SlicesOfJoined(a, c, b, n);
    WordsAtLetter(a + [c] + b, isLetter);
    WordsAtLetter(a, isLetter);
    ConsAssoc(a[..n], Words(a[n..], isLetter), Words(b, isLetter));
  }

  lemma RunOfJoined(a: string, c: char, b: string, isLetter: char -> bool)
    requires !isLetter(c)
    ensures LetterRun(a + [c] + b, isLetter) == LetterRun(a, isLetter)
  {
    LetterRunPrefix(a, [c] + b, isLetter);
    assert a + [c] + b == a + ([c] + b);
  }

  lemma SlicesOfJoined(a: string, c: char, b: string, n: nat)
    requires n <= |a|
    ensures (a + [c] + b)[..n] == a[..n]
    ensures (a + [c] + b)[n..] == a[n..] + [c] + b
  {
  }

  /** A text starting with a letter starts with the word of its leading run. */
  lemma WordsAtLetter(s: string, isLetter: char -> bool)
    requires s != [] && isLetter(s[0])
    ensures Words(s, isLetter) == [s[..LetterRun(s, isLetter)]] + Words(s[LetterRun(s, isLetter)..], isLetter)
  {
  }

  /** Regrouping a concatenation, kept apart from the lemmas that unfold `Words`. */
  lemma ConsAssoc(x: string, p: seq<string>, q: seq<string>)
    ensures ([x] + p) + q == [x] + (p + q)
  {
  }

  /** Appending text after a non-letter does not lengthen the leading run. */
  lemma {:induction false} LetterRunPrefix(a: string, b: string, isLetter: char -> bool)
    requires b != [] && !isLetter(b[0])
    ensures LetterRun(a + b, isLetter) == LetterRun(a, isLetter)
    decreases |a|
  {
    if a != [] {
      assert (a + b)[1..] == a[1..] + b;
      LetterRunPrefix(a[1..], b, isLetter);
    }
  }

  /** Every match lower-cased, in order. */
  function LowerAll(ws: seq<string>, lower: string -> string): (r: seq<string>)
    ensures |r| == |ws| && forall i :: 0 <= i < |ws| ==> r[i] == lower(ws[i])
  {
    seq(|ws|, i requires 0 <= i < |ws| => lower(ws[i]))
  }

  /** The table `FetchWordsWithCount` returns for `text`. */
  function WordTable(text: string, isLetter: char -> bool, lower: string -> string): Table {
    Tally(LowerAll(Words(text, isLetter), lower))
  }

  /**
   * `CountOccurrences`: one pass over the items, looking each up and storing
   * its count plus one. The result is the occurrence table of the items.
   */
  method CountOccurrences(items: seq<string>) returns (counts: Table)
    ensures counts == Tally(items)
    ensures DistinctKeys(counts)
    ensures Sum(counts) == |items|
  {
    counts := [];
    for i := 0 to |items|
      invariant counts == Tally(items[..i])
    {
      var item := items[i];
      var count := 0;
      match TryGetValue(counts, item) {
        case Some(c) => count := c;
        case None =>
      }
      assert count == TryGetValue(counts, item).GetOr(0);
      TallyPrefixStep(items, i);
      counts := Put(counts, item, count + 1);
    }
    assert items[..|items|] == items;
    TallyKeys(items);
    TallySum(items);
  }

  /**
   * `FetchWordsWithCount`: the occurrence table of the lower-cased words of
   * `text`. Every key is a lower-cased word of the text.
   */
  method FetchWordsWithCount(text: string, isLetter: char -> bool, lower: string -> string)
    returns (counts: Table)
    ensures counts == WordTable(text, isLetter, lower)
    ensures Sum(counts) == |Words(text, isLetter)|
    ensures forall e :: e in counts ==> exists w :: w in Words(text, isLetter) && e.key == lower(w)
  {
    var wordsSplits := LowerAll(Words(text, isLetter), lower);
    counts := CountOccurrences(wordsSplits);
    TallyKeysIn(wordsSplits);
    forall e | e in counts ensures exists w :: w in Words(text, isLetter) && e.key == lower(w) {
      var j :| 0 <= j < |wordsSplits| && wordsSplits[j] == e.key;
      assert Words(text, isLetter)[j] in Words(text, isLetter);
    }
  }

  // An ASCII instance of the letter class and of lower-casing.

  predicate IsAsciiLetter(c: char) {
    'A' <= c <= 'Z' || 'a' <= c <= 'z'
  }

  function AsciiLowerChar(c: char): char {
    if 'A' <= c <= 'Z' then (c as int + 32) as char else c
  }

  function AsciiLower(w: string): string {
    seq(|w|, i requires 0 <= i < |w| => AsciiLowerChar(w[i]))
  }

  /** With the ASCII instance, every key consists of lower-case letters only. */
  lemma AsciiKeysAreLowerLetters(text: string)
    ensures forall e :: e in WordTable(text, IsAsciiLetter, AsciiLower) ==>
              forall i :: 0 <= i < |e.key| ==> 'a' <= e.key[i] <= 'z'
  {
    var ws := LowerAll(Words(text, IsAsciiLetter), AsciiLower);
    WordsAreLetterRuns(text, IsAsciiLetter);
    TallyKeysIn(ws);
    forall e | e in WordTable(text, IsAsciiLetter, AsciiLower)
      ensures forall i :: 0 <= i < |e.key| ==> 'a' <= e.key[i] <= 'z'
    {
      var j :| 0 <= j < |ws| && ws[j] == e.key;
      assert Words(text, IsAsciiLetter)[j] in Words(text, IsAsciiLetter);
    }
  }

  /** A word followed by a non-letter comes first, then the words of the rest. */
  lemma WordThen(a: string, c: char, b: string, isLetter: char -> bool)
    requires |a| > 0 && AllLetters(a, isLetter) && !isLetter(c)
    ensures Words(a + [c] + b, isLetter) == [a] + Words(b, isLetter)
  {
    WordsOfLetters(a, isLetter);
    WordsSeparator(a, c, b, isLetter);
  }

  /** A leading non-letter is skipped. */
  lemma SkipNonLetter(c: char, b: string, isLetter: char -> bool)
    requires !isLetter(c)
    ensures Words([c] + b, isLetter) == Words(b, isLetter)
  {
    assert ([c] + b)[1..] == b;
  }

  /** Text with no letters gives an empty table. */
  lemma NoLettersNoKeys(text: string, isLetter: char -> bool, lower: string -> string)
    requires forall i :: 0 <= i < |text| ==> !isLetter(text[i])
    ensures WordTable(text, isLetter, lower) == []
  {
    WordsOfNonLetters(text, isLetter);
  }

  /** A word the text does not contain is not a key (with the ASCII instance). */
  lemma WordProcessorExampleMissingWord()
    ensures TryGetValue(WordTable("HIAWATHA", IsAsciiLetter, AsciiLower), "leicester") == None
    ensures TryGetValue(WordTable("HIAWATHA", IsAsciiLetter, AsciiLower), "hiawatha") == Some(1)
  {
    SingleWordTable("HIAWATHA", "hiawatha");
  }

  lemma SingleWordTable(w: string, lw: string)
    requires w == "HIAWATHA" && lw == "hiawatha"
    ensures WordTable(w, IsAsciiLetter, AsciiLower) == [Entry(lw, 1)]
  {
    assert AllLetters(w, IsAsciiLetter);
    assert AsciiLower(w) == lw;
    OneWordTable(w, lw);
  }

  /** A single word of letters gives one entry, under its lower-cased form. */
  lemma OneWordTable(w: string, lw: string)
    requires |w| > 0 && AllLetters(w, IsAsciiLetter) && AsciiLower(w) == lw
    ensures WordTable(w, IsAsciiLetter, AsciiLower) == [Entry(lw, 1)]
  {
    WordsOfLetters(w, IsAsciiLetter);
    assert LowerAll([w], AsciiLower) == [lw];
    assert Distinct([lw]) == [lw] by {
      assert [lw][..0] == [];
    }
  }

  /** Differently cased occurrences merge under one lower-case key (with the ASCII instance). */
  lemma WordProcessorExampleCaseFold()
    ensures WordTable("Go go GO", IsAsciiLetter, AsciiLower) == [Entry("go", 3)]
  {
    CaseFoldTable("Go go GO", "Go", "go", "GO");
  }

  lemma CaseFoldTable(s: string, a: string, b: string, c: string)
    requires a == "Go" && b == "go" && c == "GO" && s == a + " " + b + " " + c
    ensures WordTable(s, IsAsciiLetter, AsciiLower) == [Entry(b, 3)]
  {
    CaseFoldWords(s, a, b, c);
    assert AsciiLower(a) == b && AsciiLower(b) == b && AsciiLower(c) == b;
    assert LowerAll([a, b, c], AsciiLower) == [b, b, b];
    TallyOfThree(b);
  }

  lemma CaseFoldWords(s: string, a: string, b: string, c: string)
    requires a == "Go" && b == "go" && c == "GO" && s == a + " " + b + " " + c
    ensures Words(s, IsAsciiLetter) == [a, b, c]
  {
    assert AllLetters(a, IsAsciiLetter) && AllLetters(b, IsAsciiLetter) && AllLetters(c, IsAsciiLetter);
    ThreeWords(a, b, c);
  }

  /** Three words separated by single spaces. */
  lemma ThreeWords(a: string, b: string, c: string)
    requires |a| > 0 && |b| > 0 && |c| > 0
    requires AllLetters(a, IsAsciiLetter) && AllLetters(b, IsAsciiLetter) && AllLetters(c, IsAsciiLetter)
    ensures Words(a + " " + b + " " + c, IsAsciiLetter) == [a, b, c]
  {
    assert a + " " + b + " " + c == a + [' '] + (b + [' '] + c);
    WordThen(a, ' ', b + [' '] + c, IsAsciiLetter);
    WordThen(b, ' ', c, IsAsciiLetter);
    WordsOfLetters(c, IsAsciiLetter);
  }

  lemma TallyOfThree(b: string)
    ensures Tally([b, b, b]) == [Entry(b, 3)]
  {
    var ws := [b, b, b];
    assert ws[..2][..1] == ws[..1] && ws[..1][..0] == [];
    assert Distinct(ws[..1]) == [b];
    assert Distinct(ws[..2]) == [b];
    assert ws[..2] == ws[..|ws| - 1];
    assert Distinct(ws) == [b];
    assert multiset(ws)[b] == 3;
  }

  /**
   * Punctuation, spaces and digits separate words, and repeated words are
   * counted (with the ASCII instance). The text is
   * "Ugudwash,Ugudwash,Ugudwash,Ugudwash,Ugudwash, hello, test 1".
   */
  lemma WordProcessorExampleRepeated(text: string)
    requires var u := "Ugudwash"; text == u + "," + u + "," + u + "," + u + "," + u + ", " + "hello" + ", " + "test" + " 1"
    ensures TryGetValue(WordTable(text, IsAsciiLetter, AsciiLower), "ugudwash") == Some(5)
  {
    assert AllLetters("Ugudwash", IsAsciiLetter);
    assert AllLetters("hello", IsAsciiLetter);
    assert AllLetters("test", IsAsciiLetter);
    RepeatedWords(text, "Ugudwash", "hello", "test");
    RepeatedCount("Ugudwash", "hello", "test", "ugudwash");
  }

  lemma RepeatedWords(text: string, u: string, h: string, t: string)
    requires |u| > 0 && |h| > 0 && |t| > 0
    requires AllLetters(u, IsAsciiLetter) && AllLetters(h, IsAsciiLetter) && AllLetters(t, IsAsciiLetter)
    requires text == u + "," + u + "," + u + "," + u + "," + u + ", " + h + ", " + t + " 1"
    ensures Words(text, IsAsciiLetter) == [u, u, u, u, u, h, t]
  {
    var r := u + (", " + (h + (", " + (t + " 1"))));
    var whole := u + [','] + (u + [','] + (u + [','] + (u + [','] + r)));
    assert text == whole by {
      ReassociateRepeated(u, h, t);
    }
    RepeatedWholeWords(u, h, t, r, whole);
  }

  lemma RepeatedWholeWords(u: string, h: string, t: string, r: string, whole: string)
    requires |u| > 0 && |h| > 0 && |t| > 0
    requires AllLetters(u, IsAsciiLetter) && AllLetters(h, IsAsciiLetter) && AllLetters(t, IsAsciiLetter)
    requires r == u + (", " + (h + (", " + (t + " 1"))))
    requires whole == u + [','] + (u + [','] + (u + [','] + (u + [','] + r)))
    ensures Words(whole, IsAsciiLetter) == [u, u, u, u, u, h, t]
  {
    PhrasesWords(u, h, t);
    FourCommas(u, r, [u] + ([h] + [t]));
    FlattenRepeated(u, h, t);
  }

  /** The nested word lists of the repeated-word example, written flat. */
  lemma FlattenRepeated(u: string, h: string, t: string)
    ensures [u] + ([u] + ([u] + ([u] + ([u] + ([h] + [t]))))) == [u, u, u, u, u, h, t]
  {
  }

  lemma PhrasesWords(u: string, h: string, t: string)
    requires |u| > 0 && |h| > 0 && |t| > 0
    requires AllLetters(u, IsAsciiLetter) && AllLetters(h, IsAsciiLetter) && AllLetters(t, IsAsciiLetter)
    ensures Words(u + (", " + (h + (", " + (t + " 1")))), IsAsciiLetter) == [u] + ([h] + [t])
  {
    TailWords(t);
    PhraseWords(h, t + " 1", [t]);
    PhraseWords(u, h + (", " + (t + " 1")), [h] + [t]);
  }

  lemma FourCommas(u: string, r: string, ws: seq<string>)
    requires |u| > 0 && AllLetters(u, IsAsciiLetter)
    requires Words(r, IsAsciiLetter) == ws
    ensures Words(u + [','] + (u + [','] + (u + [','] + (u + [','] + r))), IsAsciiLetter)
         == [u] + ([u] + ([u] + ([u] + ws)))
  {
    CommaThen(u, r, ws);
    CommaThen(u, u + [','] + r, [u] + ws);
    CommaThen(u, u + [','] + (u + [','] + r), [u] + ([u] + ws));
    CommaThen(u, u + [','] + (u + [','] + (u + [','] + r)), [u] + ([u] + ([u] + ws)));
  }

  /** A word followed by a comma and more text. */
  lemma CommaThen(w: string, rest: string, ws: seq<string>)
    requires |w| > 0 && AllLetters(w, IsAsciiLetter)
    requires Words(rest, IsAsciiLetter) == ws
    ensures Words(w + [','] + rest, IsAsciiLetter) == [w] + ws
  {
    WordThen(w, ',', rest, IsAsciiLetter);
  }

  /** A word followed by ", " and more text. */
  lemma PhraseWords(w: string, rest: string, ws: seq<string>)
    requires |w| > 0 && AllLetters(w, IsAsciiLetter)
    requires Words(rest, IsAsciiLetter) == ws
    ensures Words(w + (", " + rest), IsAsciiLetter) == [w] + ws
  {
    assert w + (", " + rest) == w + [','] + ([' '] + rest);
    WordThen(w, ',', [' '] + rest, IsAsciiLetter);
    SkipNonLetter(' ', rest, IsAsciiLetter);
  }

  /** The repeated-word text regrouped from the right, one word and separator at a time. */
  lemma ReassociateRepeated(u: string, h: string, t: string)
    ensures u + "," + u + "," + u + "," + u + "," + u + ", " + h + ", " + t + " 1"
         == u + [','] + (u + [','] + (u + [','] + (u + [','] + (u + (", " + (h + (", " + (t + " 1"))))))))
  {
  }

  lemma TailWords(t: string)
    requires |t| > 0 && AllLetters(t, IsAsciiLetter)
    ensures Words(t + " 1", IsAsciiLetter) == [t]
  {
    assert t + " 1" == t + [' '] + "1";
    WordThen(t, ' ', "1", IsAsciiLetter);
    WordsOfNonLetters("1", IsAsciiLetter);
  }

  lemma RepeatedCount(u: string, h: string, t: string, lu: string)
    requires u == "Ugudwash" && h == "hello" && t == "test" && lu == "ugudwash"
    ensures TryGetValue(Tally(LowerAll([u, u, u, u, u, h, t], AsciiLower)), lu) == Some(5)
  {
    assert AsciiLower(u) == lu;
    var lh, lt := AsciiLower(h), AsciiLower(t);
    assert |lh| != |lu| && |lt| != |lu|;
    assert LowerAll([u, u, u, u, u, h, t], AsciiLower) == [lu, lu, lu, lu, lu, lh, lt];
    FiveOfSeven(lu, lh, lt);
  }

  lemma FiveOfSeven(x: string, y: string, z: string)
    requires y != x && z != x
    ensures TryGetValue(Tally([x, x, x, x, x, y, z]), x) == Some(5)
  {
    var xs := [x, x, x, x, x, y, z];
    assert xs == [x, x, x, x, x] + [y, z];
    assert multiset([x, x, x, x, x])[x] == 5;
    assert multiset([y, z])[x] == 0;
    TallyLookup(xs, x);
  }
}
