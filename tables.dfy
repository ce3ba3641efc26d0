/**
 * A `Dictionary<string, int>` from which nothing is ever removed. Its
 * enumeration order is the order in which keys were first inserted, and the
 * ranking step depends on that order, so it is modelled as a sequence of
 * entries with distinct keys rather than as a `map`.
 */
module Tables {
  import opened Common

  /** One key of the dictionary with its count. */
  datatype Entry = Entry(key: string, count: int)

  type Table = seq<Entry>

  /** The keys in enumeration order. */
  function Keys(t: Table): seq<string> {
    seq(|t|, i requires 0 <= i < |t| => t[i].key)
  }

  predicate DistinctKeys(t: Table) {
    forall i, j :: 0 <= i < j < |t| ==> t[i].key != t[j].key
  }

  /** `Dictionary.TryGetValue`: the count stored under `k`, if any. */
  function TryGetValue(t: Table, k: string): (r: Option<int>)
    ensures r.None? <==> k !in Keys(t)
    ensures r.Some? ==> Entry(k, r.value) in t
  {
    if t == [] then None
    else
      assert Keys(t) == [t[0].key] + Keys(t[1..]);
      if t[0].key == k then Some(t[0].count)
      else TryGetValue(t[1..], k)
  }

  /**
   * The indexer assignment `t[k] = v`: an existing key keeps its place and
   * gets the new count, a new key is appended at the end.
   */
  function Put(t: Table, k: string, v: int): (r: Table)
    requires DistinctKeys(t)
    ensures DistinctKeys(r)
    ensures k in Keys(t) ==> |r| == |t|
    ensures k !in Keys(t) ==> r == t + [Entry(k, v)]
    ensures forall i :: 0 <= i < |t| ==> r[i] == (if t[i].key == k then Entry(k, v) else t[i])
  {
    if k in Keys(t) then
      seq(|t|, i requires 0 <= i < |t| => if t[i].key == k then Entry(k, v) else t[i])
    else
      assert forall i :: 0 <= i < |t| ==> t[i].key != k by {
        assert forall i :: 0 <= i < |t| ==> Keys(t)[i] == t[i].key;
      }
      t + [Entry(k, v)]
  }

  /** The sum of all counts. */
  function Sum(t: Table): int {
    if t == [] then 0 else t[0].count + Sum(t[1..])
  }

  lemma {:induction false} SumAppend(t: Table, e: Entry)
    ensures Sum(t + [e]) == Sum(t) + e.count
  {
    if t != [] {
      assert (t + [e])[1..] == t[1..] + [e];
      SumAppend(t[1..], e);
    }
  }

  /** Replacing one entry changes the sum by the difference of the counts. */
  lemma {:induction false} SumReplace(t: Table, i: nat, e: Entry)
    requires i < |t|
    ensures Sum(t[i := e]) == Sum(t) - t[i].count + e.count
  {
    if i > 0 {
      assert t[i := e][1..] == t[1..][i - 1 := e];
      SumReplace(t[1..], i - 1, e);
    }
  }

  /** Overwriting the count of a present key changes the sum by the difference. */
  lemma SumPut(t: Table, i: nat, v: int)
    requires DistinctKeys(t)
    requires i < |t|
    ensures Sum(Put(t, t[i].key, v)) == Sum(t) - t[i].count + v
  {
    var k := t[i].key;
    assert Keys(t)[i] == k;
    assert Put(t, k, v) == t[i := Entry(k, v)];
    SumReplace(t, i, Entry(k, v));
  }

  /** The items in order of first occurrence, each once. */
  function Distinct(items: seq<string>): (d: seq<string>)
    ensures forall x :: x in d <==> x in items
    ensures forall i, j :: 0 <= i < j < |d| ==> d[i] != d[j]
  {
    if items == [] then []
    else
      var p := items[..|items| - 1];
      var x := items[|items| - 1];
      assert items == p + [x];
      var d := Distinct(p);
      if x in d then d else d + [x]
  }

  /**
   * The occurrence table of `items`: one entry per distinct item, in order of
   * first occurrence, whose count is the number of times the item occurs.
   */
  function Tally(items: seq<string>): Table {
    var d := Distinct(items);
    seq(|d|, i requires 0 <= i < |d| => Entry(d[i], multiset(items)[d[i]]))
  }

  /** The keys of the occurrence table are the distinct items, in first-occurrence order. */
  lemma TallyKeys(items: seq<string>)
    ensures Keys(Tally(items)) == Distinct(items)
    ensures DistinctKeys(Tally(items))
  {
    assert forall i :: 0 <= i < |Distinct(items)| ==> Keys(Tally(items))[i] == Distinct(items)[i];
  }

  /** Looking a key up in the occurrence table gives its number of occurrences, or nothing when it never occurs. */
  lemma TallyLookup(items: seq<string>, k: string)
    ensures TryGetValue(Tally(items), k) == if k in items then Some(multiset(items)[k]) else None
  {
    TallyKeys(items);
    var t := Tally(items);
    var r := TryGetValue(t, k);
    if r.Some? {
      var i :| 0 <= i < |t| && t[i] == Entry(k, r.value);
      assert Distinct(items)[i] == k;
    }
  }

  /** Every key of the occurrence table is one of the items. */
  lemma TallyKeysIn(items: seq<string>)
    ensures forall e :: e in Tally(items) ==> e.key in items
  {
    forall e | e in Tally(items) ensures e.key in items {
      var i :| 0 <= i < |Tally(items)| && Tally(items)[i] == e;
      assert Distinct(items)[i] in Distinct(items);
    }
  }

  /**
   * One iteration of the counting loop: look `x` up (absent counts as 0) and
   * store that count plus one. On the table of `p` this gives the table of `p + [x]`.
   */
  lemma CountStep(p: seq<string>, x: string)
    ensures DistinctKeys(Tally(p))
    ensures Put(Tally(p), x, TryGetValue(Tally(p), x).GetOr(0) + 1) == Tally(p + [x])
  {
    TallyKeys(p);
    TallyCountOrZero(p, x);
    TallySnoc(p, x);
  }

  /** `CountStep` for the table `next` that the step builds from the table of `p`. */
  lemma CountStepInto(p: seq<string>, x: string, next: Table)
    requires DistinctKeys(Tally(p))
    requires next == Put(Tally(p), x, TryGetValue(Tally(p), x).GetOr(0) + 1)
    ensures next == Tally(p + [x])
  {
    CountStep(p, x);
  }

  /** An absent key counts as zero occurrences. */
  lemma TallyCountOrZero(p: seq<string>, x: string)
    ensures TryGetValue(Tally(p), x).GetOr(0) == multiset(p)[x]
  {
    TallyLookup(p, x);
    if x !in p {
      assert multiset(p)[x] == 0;
    }
  }

  /** `CountStep` on the prefix of length `i`: it yields the table of the prefix of length `i + 1`. */
  lemma TallyPrefixStep(items: seq<string>, i: nat)
    requires i < |items|
    ensures DistinctKeys(Tally(items[..i]))
    ensures Put(Tally(items[..i]), items[i], TryGetValue(Tally(items[..i]), items[i]).GetOr(0) + 1) == Tally(items[..i + 1])
  {
    PrefixSnoc(items, i);
    CountStep(items[..i], items[i]);
  }

  lemma PrefixSnoc<T>(items: seq<T>, i: nat)
    requires i < |items|
    ensures items[..i + 1] == items[..i] + [items[i]]
  {
  }

  /** Every stored count is positive. */
  lemma TallyPositive(items: seq<string>)
    ensures forall e :: e in Tally(items) ==> e.count >= 1
  {
    forall e | e in Tally(items) ensures e.count >= 1 {
      var i :| 0 <= i < |Tally(items)| && Tally(items)[i] == e;
      assert Distinct(items)[i] in items;
    }
  }

  /** Counting one more item is one `t[x] = count + 1` step on the table of the prefix. */
  lemma TallySnoc(p: seq<string>, x: string)
    ensures Tally(p + [x]) == Put(Tally(p), x, multiset(p)[x] + 1)
  {
    var q := p + [x];
    assert q[..|q| - 1] == p;
    assert multiset(q) == multiset(p) + multiset{x};
    var t := Tally(p);
    var d := Distinct(p);
    TallyKeys(p);
    var r := Put(t, x, multiset(p)[x] + 1);
    var u := Tally(q);
    if x in d {
      assert Distinct(q) == d;
      assert |u| == |r|;
      forall i | 0 <= i < |u| ensures u[i] == r[i] {
        assert t[i].key == d[i];
      }
    } else {
      assert Distinct(q) == d + [x];
      assert x !in p;
      forall i | 0 <= i < |u| ensures u[i] == r[i] {
        if i < |t| {
          assert t[i].key == d[i] && d[i] != x;
        }
      }
    }
  }

  /** The counts of the occurrence table add up to the number of items. */
  lemma {:induction false} TallySum(items: seq<string>)
    ensures Sum(Tally(items)) == |items|
    decreases |items|
  {
    if items != [] {
      var p := items[..|items| - 1];
      var x := items[|items| - 1];
      assert items == p + [x];
      TallySum(p);
      TallySnoc(p, x);
      TallySumStep(p, x);
    }
  }

  /** One more item adds one to the sum of the counts. */
  lemma TallySumStep(p: seq<string>, x: string)
    ensures Sum(Put(Tally(p), x, multiset(p)[x] + 1)) == Sum(Tally(p)) + 1
  {
    TallyKeys(p);
    var t := Tally(p);
    if x in p {
      assert x in Keys(t);
      var i :| 0 <= i < |t| && Keys(t)[i] == x;
      assert t[i].count == multiset(p)[x];
      SumPut(t, i, multiset(p)[x] + 1);
    } else {
      assert multiset(p)[x] == 0;
      SumAppend(t, Entry(x, 1));
    }
  }

  /** Keys are only ever added: the keys of a shorter prefix are a prefix of the keys of a longer one. */
  lemma TallyKeysGrow(items: seq<string>, i: nat, j: nat)
    requires i <= j <= |items|
    ensures Keys(Tally(items[..i])) <= Keys(Tally(items[..j]))
  {
    TallyKeys(items[..i]);
    TallyKeys(items[..j]);
    DistinctGrow(items, i, j);
  }

  lemma {:induction false} DistinctGrow(items: seq<string>, i: nat, j: nat)
    requires i <= j <= |items|
    ensures Distinct(items[..i]) <= Distinct(items[..j])
    decreases j - i
  {
    if i < j {
      DistinctGrow(items, i, j - 1);
      DistinctSnocPrefix(items, j);
    }
  }

  /** One more item never disturbs the first occurrences seen so far. */
  lemma DistinctSnocPrefix(items: seq<string>, j: nat)
    requires 0 < j <= |items|
    ensures Distinct(items[..j - 1]) <= Distinct(items[..j])
  {
    var q := items[..j];
    assert q[..|q| - 1] == items[..j - 1];
  }
}
