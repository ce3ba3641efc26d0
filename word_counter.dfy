/**
 * WordCounterService: ranks the word table by count, looks up every ranked
 * word once, joins the responses back onto the ranked words by their `Word`
 * field and assembles the output list in ranked order.
 *
 * The lookups run concurrently in the service, but their results come back
 * in the order of the words, so they are modelled as a map over the ranked
 * words with an abstract `lookup` function.
 */
module WordCounter {
  import opened Common
  import opened Tables
  import WordProcessor

  /** One definition record; every field may be null and is passed through. */
  datatype Definition = Definition(
    kind: Option<string>,
    definition: Option<string>,
    example: Option<string>,
    emoji: Option<string>,
    imageUrl: Option<string>)

  /**
   * What the lookup returns. A response for an unknown word or a failed
   * request carries no `word`.
   */
  datatype ApiResponse = ApiResponse(
    word: Option<string>,
    definitions: Option<seq<Definition>>,
    pronunciation: Option<string>,
    httpCode: int,
    message: Option<string>)

  /** One element of the service's result list. */
  datatype WordCountApiResponse = WordCountApiResponse(word: string, count: int, definitions: seq<Definition>)

  /** `ToDictionary` throws when two elements have the same key. */
  datatype ServiceError = DuplicateKey(word: string)

  // ---------------------------------------------------------------------
  // Ranking: OrderByDescending(x => x.Value).Take(limit)

  predicate NonIncreasing(t: Table) {
    forall i, j :: 0 <= i < j < |t| ==> t[i].count >= t[j].count
  }

  /** The entries with count `c`, in their order in `t`. */
  function WithCount(t: Table, c: int): Table {
    if t == [] then []
    else (if t[0].count == c then [t[0]] else []) + WithCount(t[1..], c)
  }

  lemma {:induction false} WithCountAppend(a: Table, b: Table, c: int)
    ensures WithCount(a + b, c) == WithCount(a, c) + WithCount(b, c)
    decreases |a|
  {
    if a == [] {
      assert a + b == b;
    } else {
      var head := if a[0].count == c then [a[0]] else [];
      assert a + b == [a[0]] + (a[1..] + b);
      WithCountCons(a[0], a[1..] + b, c);
      WithCountAppend(a[1..], b, c);
      WithCountCons(a[0], a[1..], c);
      assert [a[0]] + a[1..] == a;
      assert head + (WithCount(a[1..], c) + WithCount(b, c)) == (head + WithCount(a[1..], c)) + WithCount(b, c);
    }
  }

  /** Inserts `e` into a table sorted by descending count, after every entry whose count is at least `e.count`. */
  function InsertByCount(s: Table, e: Entry): Table {
    if s == [] then [e]
    else if s[0].count < e.count then [e] + s
    else [s[0]] + InsertByCount(s[1..], e)
  }

  /** The stable sort by descending count that `OrderByDescending` performs (an insertion sort). */
  function OrderByCountDescending(t: Table): Table {
    if t == [] then []
    else InsertByCount(OrderByCountDescending(t[..|t| - 1]), t[|t| - 1])
  }

  lemma {:induction false} InsertByCountPermutes(s: Table, e: Entry)
    ensures multiset(InsertByCount(s, e)) == multiset(s) + multiset{e}
  {
    if s != [] && s[0].count >= e.count {
      InsertByCountPermutes(s[1..], e);
      assert s == [s[0]] + s[1..];
    }
  }

  lemma {:induction false} InsertByCountSorted(s: Table, e: Entry)
    requires NonIncreasing(s)
    ensures NonIncreasing(InsertByCount(s, e))
    decreases |s|
  {
    if s != [] && s[0].count >= e.count {
      var rest := InsertByCount(s[1..], e);
      NonIncreasingTail(s);
      InsertByCountSorted(s[1..], e);
      InsertByCountMembers(s[1..], e);
      forall x | x in rest ensures s[0].count >= x.count {
        if x != e {
          var k :| 0 <= k < |s[1..]| && s[1..][k] == x;
          assert s[k + 1] == x;
        }
      }
      ConsSorted(s[0], rest);
    }
  }

  lemma NonIncreasingTail(s: Table)
    requires NonIncreasing(s) && s != []
    ensures NonIncreasing(s[1..])
  {
    forall i, j | 0 <= i < j < |s[1..]| ensures s[1..][i].count >= s[1..][j].count {
      assert s[1..][i] == s[i + 1] && s[1..][j] == s[j + 1];
    }
  }

  lemma ConsSorted(x: Entry, rest: Table)
    requires NonIncreasing(rest)
    requires forall y :: y in rest ==> x.count >= y.count
    ensures NonIncreasing([x] + rest)
  {
    var r := [x] + rest;
    forall i, j | 0 <= i < j < |r| ensures r[i].count >= r[j].count {
      assert r[j] == rest[j - 1];
      if i == 0 {
        assert rest[j - 1] in rest;
      } else {
        assert r[i] == rest[i - 1];
      }
    }
  }

  /** Sorting only reorders the table. */
  lemma {:induction false} OrderByCountDescendingPermutes(t: Table)
    ensures multiset(OrderByCountDescending(t)) == multiset(t)
    decreases |t|
  {
    if t != [] {
      var p := t[..|t| - 1];
      assert t == p + [t[|t| - 1]];
      OrderByCountDescendingPermutes(p);
      InsertByCountPermutes(OrderByCountDescending(p), t[|t| - 1]);
    }
  }

  /** The sorted table has non-increasing counts. */
  lemma {:induction false} OrderByCountDescendingSorted(t: Table)
    ensures NonIncreasing(OrderByCountDescending(t))
    decreases |t|
  {
    if t != [] {
      OrderByCountDescendingSorted(t[..|t| - 1]);
      InsertByCountSorted(OrderByCountDescending(t[..|t| - 1]), t[|t| - 1]);
    }
  }

  /** No entry of a descending table has a count above the first one's. */
  lemma {:induction false} WithCountAboveHead(s: Table, c: int)
    requires NonIncreasing(s)
    requires s != [] ==> c > s[0].count
    ensures WithCount(s, c) == []
  {
    if s != [] {
      WithCountAboveHead(s[1..], c);
    }
  }

  lemma WithCountCons(x: Entry, s: Table, c: int)
    ensures WithCount([x] + s, c) == (if x.count == c then [x] else []) + WithCount(s, c)
  {
    assert ([x] + s)[0] == x && ([x] + s)[1..] == s;
  }

  /** Insertion places `e` after every entry with the same count. */
  lemma {:induction false} InsertByCountWithCount(s: Table, e: Entry, c: int)
    requires NonIncreasing(s)
    ensures WithCount(InsertByCount(s, e), c)
         == WithCount(s, c) + (if e.count == c then [e] else [])
    decreases |s|
  {
    if s == [] {
      WithCountCons(e, [], c);
    } else if s[0].count < e.count {
      InsertAtFront(s, e, c);
    } else {
      NonIncreasingTail(s);
      InsertByCountWithCount(s[1..], e, c);
      InsertAfterHead(s, e, c);
    }
  }

  lemma InsertAtFront(s: Table, e: Entry, c: int)
    requires NonIncreasing(s) && s != [] && s[0].count < e.count
    ensures WithCount(InsertByCount(s, e), c) == WithCount(s, c) + (if e.count == c then [e] else [])
  {
    assert InsertByCount(s, e) == [e] + s;
    WithCountCons(e, s, c);
    if e.count == c {
      WithCountAboveHead(s, c);
      assert WithCount(s, c) + [e] == [e] + [];
    } else {
      assert [] + WithCount(s, c) == WithCount(s, c) + [];
    }
  }

  lemma InsertAfterHead(s: Table, e: Entry, c: int)
    requires s != [] && s[0].count >= e.count
    requires WithCount(InsertByCount(s[1..], e), c) == WithCount(s[1..], c) + (if e.count == c then [e] else [])
    ensures WithCount(InsertByCount(s, e), c) == WithCount(s, c) + (if e.count == c then [e] else [])
  {
    var rest := InsertByCount(s[1..], e);
    var head := if s[0].count == c then [s[0]] else [];
    var tail := if e.count == c then [e] else [];
    assert InsertByCount(s, e) == [s[0]] + rest;
    WithCountCons(s[0], rest, c);
    WithCountCons(s[0], s[1..], c);
    assert [s[0]] + s[1..] == s;
    assert head + (WithCount(s[1..], c) + tail) == (head + WithCount(s[1..], c)) + tail;
  }

  /**
   * The sort is stable: for every count, the entries with that count keep the
   * order they have in the input table.
   */
  lemma {:induction false} OrderByCountDescendingStable(t: Table, c: int)
    ensures WithCount(OrderByCountDescending(t), c) == WithCount(t, c)
    decreases |t|
  {
    if t != [] {
      var p := t[..|t| - 1];
      var x := t[|t| - 1];
      assert t == p + [x];
      OrderByCountDescendingStable(p, c);
      OrderByCountDescendingSorted(p);
      InsertByCountWithCount(OrderByCountDescending(p), x, c);
      WithCountAppend(p, [x], c);
      assert WithCount([x], c) == (if x.count == c then [x] else []) by {
        assert [x][1..] == [];
      }
    }
  }

  /** `Take(n)`: the first `n` entries, none for a negative `n`. */
  function Take(s: Table, n: int): (r: Table)
    ensures |r| == if n <= 0 then 0 else if n < |s| then n else |s|
    ensures r <= s
  {
    if n <= 0 then [] else if n < |s| then s[..n] else s
  }

  /** The ranked words: `OrderByDescending(x => x.Value).Take(limit)`. */
  function Rank(t: Table, limit: int): Table {
    Take(OrderByCountDescending(t), limit)
  }

  /** The ranking has min(limit, number of words) entries, none when the limit is not positive. */
  lemma RankLength(t: Table, limit: int)
    ensures |Rank(t, limit)| == if limit <= 0 then 0 else if limit < |t| then limit else |t|
  {
    OrderByCountDescendingPermutes(t);
    assert |OrderByCountDescending(t)| == |multiset(OrderByCountDescending(t))| == |multiset(t)| == |t|;
  }

  /** Counts along the ranking never increase. */
  lemma RankNonIncreasing(t: Table, limit: int)
    ensures NonIncreasing(Rank(t, limit))
  {
    var s := OrderByCountDescending(t);
    var r := Rank(t, limit);
    OrderByCountDescendingSorted(t);
    forall i, j | 0 <= i < j < |r| ensures r[i].count >= r[j].count {
      assert r[i] == s[i] && r[j] == s[j];
    }
  }

  /**
   * The ranking holds the most frequent words: every entry it leaves out has a
   * count no higher than any entry it keeps, and it keeps only entries of the table.
   */
  lemma RankKeepsTop(t: Table, limit: int)
    ensures forall e :: e in Rank(t, limit) ==> e in t
    ensures forall e, f :: e in t && e !in Rank(t, limit) && f in Rank(t, limit) ==> f.count >= e.count
  {
    var s := OrderByCountDescending(t);
    var r := Rank(t, limit);
    OrderByCountDescendingPermutes(t);
    OrderByCountDescendingSorted(t);
    forall e | e in r ensures e in t {
      assert e in multiset(s);
    }
    forall e, f | e in t && e !in r && f in r ensures f.count >= e.count {
      assert e in multiset(s);
      var j :| 0 <= j < |s| && s[j] == e;
      var i :| 0 <= i < |r| && r[i] == f;
      if j < |r| {
        assert r[j] == e;
      }
      assert s[i] == f;
    }
  }

  /** Entries of equal count stay in table order in the ranking: a prefix of the table's entries with that count. */
  lemma RankStable(t: Table, limit: int, c: int)
    ensures WithCount(Rank(t, limit), c) <= WithCount(t, c)
  {
    var s := OrderByCountDescending(t);
    var r := Rank(t, limit);
    OrderByCountDescendingStable(t, c);
    assert s == r + s[|r|..];
    WithCountAppend(r, s[|r|..], c);
  }

  /** Every entry of the insertion result is `e` or an entry of `s`. */
  lemma InsertByCountMembers(s: Table, e: Entry)
    ensures forall x :: x in InsertByCount(s, e) ==> x == e || x in s
  {
    InsertByCountPermutes(s, e);
    forall x | x in InsertByCount(s, e) ensures x == e || x in s {
      assert x in multiset(InsertByCount(s, e));
    }
  }

  /** Prepending an entry whose key is new keeps the keys distinct. */
  lemma ConsDistinct(x: Entry, rest: Table)
    requires DistinctKeys(rest)
    requires forall y :: y in rest ==> y.key != x.key
    ensures DistinctKeys([x] + rest)
  {
    var r := [x] + rest;
    forall i, j | 0 <= i < j < |r| ensures r[i].key != r[j].key {
      assert r[j] == rest[j - 1];
      if i == 0 {
        assert rest[j - 1] in rest;
      } else {
        assert r[i] == rest[i - 1];
      }
    }
  }

  /** A table with distinct keys keeps them distinct through insertion. */
  lemma {:induction false} InsertByCountDistinct(s: Table, e: Entry)
    requires DistinctKeys(s)
    requires forall x :: x in s ==> x.key != e.key
    ensures DistinctKeys(InsertByCount(s, e))
  {
    if s == [] {
    } else if s[0].count < e.count {
      ConsDistinct(e, s);
    } else {
      assert s == [s[0]] + s[1..];
      assert forall x :: x in s[1..] ==> x in s;
      InsertByCountDistinct(s[1..], e);
      var rest := InsertByCount(s[1..], e);
      InsertByCountMembers(s[1..], e);
      forall x | x in rest ensures x.key != s[0].key {
        if x != e {
          var k :| 0 <= k < |s[1..]| && s[1..][k] == x;
          assert s[k + 1] == x;
        }
      }
      ConsDistinct(s[0], rest);
    }
  }

  /**
   * The ranking of a dictionary has distinct keys, so the `ToDictionary` that
   * follows the `Take` never fails.
   */
  lemma {:induction false} OrderByCountDescendingDistinct(t: Table)
    requires DistinctKeys(t)
    ensures DistinctKeys(OrderByCountDescending(t))
    decreases |t|
  {
    if t != [] {
      var p := t[..|t| - 1];
      var x := t[|t| - 1];
      OrderByCountDescendingDistinct(p);
      OrderByCountDescendingPermutes(p);
      forall y | y in OrderByCountDescending(p) ensures y.key != x.key {
        assert y in multiset(OrderByCountDescending(p));
        var i :| 0 <= i < |p| && p[i] == y;
      }
      InsertByCountDistinct(OrderByCountDescending(p), x);
    }
  }

  lemma RankDistinct(t: Table, limit: int)
    requires DistinctKeys(t)
    ensures DistinctKeys(Rank(t, limit))
  {
    OrderByCountDescendingDistinct(t);
  }

  /** Ties keep table order: counts {a: 5, b: 5, c: 3} with limit 2 rank as [a, b]. */
  lemma RankTieExample(a: string, b: string, c: string)
    ensures Rank([Entry(a, 5), Entry(b, 5), Entry(c, 3)], 2) == [Entry(a, 5), Entry(b, 5)]
  {
    var t := [Entry(a, 5), Entry(b, 5), Entry(c, 3)];
    assert t[..1][..0] == [] && t[..2][..1] == t[..1] && t[..|t| - 1] == t[..2];
    assert OrderByCountDescending(t[..1]) == [Entry(a, 5)];
    assert InsertByCount([], Entry(b, 5)) == [Entry(b, 5)];
    assert InsertByCount([Entry(a, 5)], Entry(b, 5)) == [Entry(a, 5), Entry(b, 5)] by {
      assert [Entry(a, 5)][1..] == [];
    }
    assert OrderByCountDescending(t[..2]) == [Entry(a, 5), Entry(b, 5)];
    var ab := [Entry(a, 5), Entry(b, 5)];
    assert InsertByCount(ab[1..], Entry(c, 3)) == [Entry(b, 5), Entry(c, 3)] by {
      assert ab[1..][1..] == [];
    }
    assert InsertByCount(ab, Entry(c, 3)) == [Entry(a, 5), Entry(b, 5), Entry(c, 3)];
    assert OrderByCountDescending(t) == [Entry(a, 5), Entry(b, 5), Entry(c, 3)];
  }

  // ---------------------------------------------------------------------
  // Lookups and the definitions dictionary

  /**
   * `Task.WhenAll(sortedWords.Select(w => FetchDefinitionsAsync(w.Key)))`:
   * one lookup per ranked word, with that word as argument; the i-th response
   * belongs to the i-th word.
   */
  function FetchAll(sortedWords: Table, lookup: string -> ApiResponse): (responses: seq<ApiResponse>)
    ensures |responses| == |sortedWords|
    ensures forall i :: 0 <= i < |sortedWords| ==> responses[i] == lookup(sortedWords[i].key)
  {
    seq(|sortedWords|, i requires 0 <= i < |sortedWords| => lookup(sortedWords[i].key))
  }

  /** The filter `x.Word.HasValue()`. */
  predicate HasWord(r: ApiResponse, hasValue: string -> bool) {
    HasValue(r.word, hasValue)
  }

  /** A response's definitions, with a null list read as the empty list. */
  function DefinitionsOrEmpty(r: ApiResponse): seq<Definition> {
    r.definitions.GetOr([])
  }

  /** No two responses that carry a word carry the same word. */
  predicate UniqueWords(rs: seq<ApiResponse>, hasValue: string -> bool) {
    forall i, j :: 0 <= i < j < |rs| && HasWord(rs[i], hasValue) && HasWord(rs[j], hasValue) ==>
      rs[i].word.value != rs[j].word.value
  }

  /**
   * `apiResponses.Where(x => x.Word.HasValue()).ToDictionary(x => x.Word, ...)`:
   * responses without a word are dropped; the others are keyed by their word;
   * the first response whose word is already a key makes construction fail.
   */
  function DefinitionsByWord(rs: seq<ApiResponse>, hasValue: string -> bool)
    : (r: Result<map<string, seq<Definition>>, ServiceError>)
    ensures r.Success? <==> UniqueWords(rs, hasValue)
    ensures r.Success? ==> r.value.Keys == WordSet(rs, hasValue)
  {
    if rs == [] then Success(map[])
    else
      var p := rs[..|rs| - 1];
      var x := rs[|rs| - 1];
      WordSetSnoc(rs, hasValue);
      UniqueWordsSnoc(rs, hasValue);
      match DefinitionsByWord(p, hasValue)
      case Failure(e) => Failure(e)
      case Success(m) =>
        if !HasWord(x, hasValue) then Success(m)
        else if x.word.value in m then Failure(DuplicateKey(x.word.value))
        else Success(m[x.word.value := DefinitionsOrEmpty(x)])
  }

  /** Every response that carries a word is stored under it, with its definitions (or none). */
  lemma {:induction false} DefinitionsByWordValues(rs: seq<ApiResponse>, hasValue: string -> bool)
    requires UniqueWords(rs, hasValue)
    ensures forall i :: 0 <= i < |rs| && HasWord(rs[i], hasValue) ==>
      DefinitionsByWord(rs, hasValue).value[rs[i].word.value] == DefinitionsOrEmpty(rs[i])
    decreases |rs|
  {
    if rs != [] {
      var p := rs[..|rs| - 1];
      var x := rs[|rs| - 1];
      WordSetSnoc(rs, hasValue);
      UniqueWordsSnoc(rs, hasValue);
      DefinitionsByWordValues(p, hasValue);
      var m := DefinitionsByWord(p, hasValue).value;
      forall i | 0 <= i < |rs| && HasWord(rs[i], hasValue)
        ensures DefinitionsByWord(rs, hasValue).value[rs[i].word.value] == DefinitionsOrEmpty(rs[i])
      {
        if i < |p| {
          assert rs[i] == p[i];
          assert rs[i].word.value in WordSet(p, hasValue);
        }
      }
    }
  }

  /** A failure names a word that two responses carry. */
  lemma {:induction false} DefinitionsByWordFailure(rs: seq<ApiResponse>, hasValue: string -> bool)
    requires !UniqueWords(rs, hasValue)
    ensures var w := DefinitionsByWord(rs, hasValue).error.word;
      exists i, j :: 0 <= i < j < |rs| && HasWord(rs[i], hasValue) && HasWord(rs[j], hasValue) &&
        rs[i].word.value == w && rs[j].word.value == w
    decreases |rs|
  {
    var p := rs[..|rs| - 1];
    var x := rs[|rs| - 1];
    WordSetSnoc(rs, hasValue);
    UniqueWordsSnoc(rs, hasValue);
    assert forall i :: 0 <= i < |p| ==> p[i] == rs[i];
    if !UniqueWords(p, hasValue) {
      DefinitionsByWordFailure(p, hasValue);
    } else {
      var w := x.word.value;
      var i :| 0 <= i < |p| && HasWord(p[i], hasValue) && p[i].word.value == w;
      assert HasWord(rs[i], hasValue) && HasWord(rs[|rs| - 1], hasValue);
    }
  }

  /** The words carried by the responses. */
  function WordSet(rs: seq<ApiResponse>, hasValue: string -> bool): set<string> {
    set i | 0 <= i < |rs| && HasWord(rs[i], hasValue) :: rs[i].word.value
  }

  lemma WordSetSnoc(rs: seq<ApiResponse>, hasValue: string -> bool)
    requires rs != []
    ensures var p, x := rs[..|rs| - 1], rs[|rs| - 1];
      WordSet(rs, hasValue) == WordSet(p, hasValue) + (if HasWord(x, hasValue) then {x.word.value} else {})
  {
    var p := rs[..|rs| - 1];
    assert forall i :: 0 <= i < |p| ==> p[i] == rs[i];
  }

  lemma UniqueWordsSnoc(rs: seq<ApiResponse>, hasValue: string -> bool)
    requires rs != []
    ensures var p, x := rs[..|rs| - 1], rs[|rs| - 1];
      UniqueWords(rs, hasValue) <==>
        UniqueWords(p, hasValue) && (HasWord(x, hasValue) ==> x.word.value !in WordSet(p, hasValue))
  {
    var p := rs[..|rs| - 1];
    assert forall i :: 0 <= i < |p| ==> p[i] == rs[i];
  }

  /** The definitions stored under `word`, or the empty list when the word is not a key. */
  function DefinitionsFor(definitions: map<string, seq<Definition>>, word: string): seq<Definition> {
    if word in definitions then definitions[word] else []
  }

  /**
   * The definitions of the response whose word is `word`, searched by word and
   * not by position; empty when no response carries that word.
   */
  function MatchingDefinitions(rs: seq<ApiResponse>, word: string, hasValue: string -> bool): seq<Definition> {
    if rs == [] then []
    else if HasWord(rs[0], hasValue) && rs[0].word.value == word then DefinitionsOrEmpty(rs[0])
    else MatchingDefinitions(rs[1..], word, hasValue)
  }

  /** A response without a word contributes nothing to any word's definitions. */
  lemma {:induction false} MatchingDefinitionsSkipsWordless(a: seq<ApiResponse>, x: ApiResponse, b: seq<ApiResponse>,
                                                           word: string, hasValue: string -> bool)
    requires !HasWord(x, hasValue)
    ensures MatchingDefinitions(a + [x] + b, word, hasValue) == MatchingDefinitions(a + b, word, hasValue)
  {
    if a == [] {
      assert (a + [x] + b)[1..] == b && a + b == b;
    } else {
      assert (a + [x] + b)[0] == a[0] && (a + b)[0] == a[0];
      assert (a + [x] + b)[1..] == a[1..] + [x] + b;
      assert (a + b)[1..] == a[1..] + b;
      MatchingDefinitionsSkipsWordless(a[1..], x, b, word, hasValue);
    }
  }

  /** With unique words, the response carrying a word is the one whose definitions it gets. */
  lemma {:induction false} MatchingDefinitionsAt(rs: seq<ApiResponse>, word: string, hasValue: string -> bool)
    requires UniqueWords(rs, hasValue)
    ensures forall j :: 0 <= j < |rs| && HasWord(rs[j], hasValue) && rs[j].word.value == word ==>
              MatchingDefinitions(rs, word, hasValue) == DefinitionsOrEmpty(rs[j])
    ensures (forall j :: 0 <= j < |rs| ==> !(HasWord(rs[j], hasValue) && rs[j].word.value == word)) ==>
              MatchingDefinitions(rs, word, hasValue) == []
  {
    if rs != [] {
      assert UniqueWords(rs[1..], hasValue) by {
        forall i, j | 0 <= i < j < |rs[1..]| ensures !(HasWord(rs[1..][i], hasValue) && HasWord(rs[1..][j], hasValue) && rs[1..][i].word.value == rs[1..][j].word.value) {
          assert rs[1..][i] == rs[i + 1] && rs[1..][j] == rs[j + 1];
        }
      }
      MatchingDefinitionsAt(rs[1..], word, hasValue);
      forall j | 0 < j < |rs| ensures rs[j] == rs[1..][j - 1] { }
    }
  }

  /** Looking a word up in the dictionary built from the responses is matching it against the responses' words. */
  lemma DefinitionsForMatches(rs: seq<ApiResponse>, word: string, hasValue: string -> bool)
    requires UniqueWords(rs, hasValue)
    ensures DefinitionsFor(DefinitionsByWord(rs, hasValue).value, word) == MatchingDefinitions(rs, word, hasValue)
  {
    var m := DefinitionsByWord(rs, hasValue).value;
    MatchingDefinitionsAt(rs, word, hasValue);
    DefinitionsByWordValues(rs, hasValue);
    if word in m {
      assert word in WordSet(rs, hasValue);
      var j :| 0 <= j < |rs| && HasWord(rs[j], hasValue) && rs[j].word.value == word;
    }
  }

  /**
   * The join is by word, not by position: responses arriving in any order
   * give the same dictionary.
   */
  lemma DefinitionsByWordOrderIrrelevant(rs: seq<ApiResponse>, qs: seq<ApiResponse>, hasValue: string -> bool)
    requires multiset(rs) == multiset(qs)
    requires UniqueWords(rs, hasValue) && UniqueWords(qs, hasValue)
    ensures DefinitionsByWord(rs, hasValue) == DefinitionsByWord(qs, hasValue)
  {
    var m := DefinitionsByWord(rs, hasValue).value;
    var n := DefinitionsByWord(qs, hasValue).value;
    DefinitionsByWordValues(rs, hasValue);
    DefinitionsByWordValues(qs, hasValue);
    forall w | w in m ensures w in n && n[w] == m[w] {
      assert w in WordSet(rs, hasValue);
      var i :| 0 <= i < |rs| && HasWord(rs[i], hasValue) && rs[i].word.value == w;
      var j := SameResponse(rs, qs, i);
      assert HasWord(qs[j], hasValue) && qs[j].word.value == w;
    }
    forall w | w in n ensures w in m {
      assert w in WordSet(qs, hasValue);
      var j :| 0 <= j < |qs| && HasWord(qs[j], hasValue) && qs[j].word.value == w;
      var i := SameResponse(qs, rs, j);
      assert HasWord(rs[i], hasValue) && rs[i].word.value == w;
    }
    assert m == n;
  }

  /** A response of one arrangement also occurs in any other arrangement. */
  lemma SameResponse(rs: seq<ApiResponse>, qs: seq<ApiResponse>, i: nat) returns (j: nat)
    requires multiset(rs) == multiset(qs)
    requires i < |rs|
    ensures j < |qs| && qs[j] == rs[i]
  {
    assert rs[i] in multiset(qs);
    j :| 0 <= j < |qs| && qs[j] == rs[i];
  }

  // ---------------------------------------------------------------------
  // Assembly and the whole service call

  /**
   * The `foreach` over the ranked words that appends one result per word, with
   * its definitions from the dictionary, or none.
   */
  method Assemble(sortedWords: Table, definitions: map<string, seq<Definition>>)
    returns (wordCountsWithDefinitions: seq<WordCountApiResponse>)
    ensures |wordCountsWithDefinitions| == |sortedWords|
    ensures forall i :: 0 <= i < |sortedWords| ==>
      wordCountsWithDefinitions[i] ==
        WordCountApiResponse(sortedWords[i].key, sortedWords[i].count, DefinitionsFor(definitions, sortedWords[i].key))
  {
    wordCountsWithDefinitions := [];
    for i := 0 to |sortedWords|
      invariant |wordCountsWithDefinitions| == i
      invariant forall k :: 0 <= k < i ==>
        wordCountsWithDefinitions[k] ==
          WordCountApiResponse(sortedWords[k].key, sortedWords[k].count, DefinitionsFor(definitions, sortedWords[k].key))
    {
      var word := sortedWords[i].key;
      var count := sortedWords[i].count;
      var value: seq<Definition>;
      if word in definitions {
        value := definitions[word];
      } else {
        value := [];
      }
      wordCountsWithDefinitions := wordCountsWithDefinitions + [WordCountApiResponse(word, count, value)];
    }
  }

  /**
   * What the service returns for ranked words and their responses: a failure
   * exactly when two responses carry the same word; otherwise one result per
   * ranked word, in ranked order, with that word's count and the definitions of
   * the response carrying that word.
   */
  predicate Enriches(sortedWords: Table, responses: seq<ApiResponse>, hasValue: string -> bool,
                     r: Result<seq<WordCountApiResponse>, ServiceError>)
  {
    && (r.Success? <==> UniqueWords(responses, hasValue))
    && (r.Success? ==>
          && |r.value| == |sortedWords|
          && forall i :: 0 <= i < |sortedWords| ==>
               && r.value[i].word == sortedWords[i].key
               && r.value[i].count == sortedWords[i].count
               && r.value[i].definitions == MatchingDefinitions(responses, sortedWords[i].key, hasValue))
    && (r.Failure? ==>
          exists i, j :: 0 <= i < j < |responses| && HasWord(responses[i], hasValue) && HasWord(responses[j], hasValue) &&
            responses[i].word.value == r.error.word && responses[j].word.value == r.error.word)
  }

  /**
   * `ProcessWordsWithDefinitionsAsync(text, limit)`: count the words of the
   * text, rank them, look each ranked word up and return the ranked words with
   * their definitions.
   */
  method ProcessWordsWithDefinitions(text: string, limit: int,
                                     isLetter: char -> bool, lower: string -> string,
                                     lookup: string -> ApiResponse, hasValue: string -> bool)
    returns (r: Result<seq<WordCountApiResponse>, ServiceError>)
    ensures var sortedWords := Rank(WordProcessor.WordTable(text, isLetter, lower), limit);
            Enriches(sortedWords, FetchAll(sortedWords, lookup), hasValue, r)
    ensures r.Success? ==>
      |r.value| == var n := |WordProcessor.WordTable(text, isLetter, lower)|;
                   if limit <= 0 then 0 else if limit < n then limit else n
    ensures r.Success? ==> forall i, j :: 0 <= i < j < |r.value| ==> r.value[i].count >= r.value[j].count
  {
    var fetchWordsWithCounts := WordProcessor.FetchWordsWithCount(text, isLetter, lower);
    var sortedWords := Rank(fetchWordsWithCounts, limit);
    var apiResponses := FetchAll(sortedWords, lookup);
    var definitions := DefinitionsByWord(apiResponses, hasValue);
    if definitions.Failure? {
      DefinitionsByWordFailure(apiResponses, hasValue);
      return Failure(definitions.error);
    }
    var wordCountsWithDefinitions := Assemble(sortedWords, definitions.value);
    forall i | 0 <= i < |sortedWords|
      ensures wordCountsWithDefinitions[i].definitions == MatchingDefinitions(apiResponses, sortedWords[i].key, hasValue)
    {
      DefinitionsForMatches(apiResponses, sortedWords[i].key, hasValue);
    }
    RankLength(fetchWordsWithCounts, limit);
    RankNonIncreasing(fetchWordsWithCounts, limit);
    r := Success(wordCountsWithDefinitions);
  }
}
