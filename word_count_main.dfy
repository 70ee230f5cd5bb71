/** The data flow of MarkLogicWordCount.main, from the connector's records
    to the sorted value distribution that is saved as text. */
module MarkLogicWordCountMain {
  import opened Wrappers
  import opened Dom
  import opened StringOrder
  import opened PairRdd
  import opened MarkLogicWordCount

  /** flatMapToPair(ELEMENT_NAME_VALUE_PAIR_EXTRACTOR): the pairs of every
      record, record after record. A record on which the extractor throws
      fails the whole job. */
  function FlatMapToPairs(records: seq<InputRecord>): Result<seq<NameValue>, Fault>
  {
    if records == [] then Success([])
    else
      match FlatMapToPairs(records[..|records| - 1])
      case Failure(e) => Failure(e)
      case Success(ps) =>
        match ElementNameValuePairs(records[|records| - 1])
        case Failure(e) => Failure(e)
        case Success(qs) => Success(ps + qs)
  }

  /** The job fails exactly when the extractor throws on some record. */
  lemma {:induction false} FlatMapToPairsFails(records: seq<InputRecord>)
    ensures FlatMapToPairs(records).Failure? <==>
      exists i :: 0 <= i < |records| && ElementNameValuePairs(records[i]).Failure?
  {
    if records != [] {
      var n := |records| - 1;
      var init := records[..n];
      FlatMapToPairsFails(init);
      assert forall i :: 0 <= i < n ==> init[i] == records[i];
    }
  }

  /** groupByKey, then mapValues(DISTINCT_VALUE_COUNTER). */
  function DistinctValueCountMap(pairs: seq<NameValue>): seq<Count>
  {
    MapValues(DistinctValueCount, GroupByKey(pairs))
  }

  /** The values paired with an element name anywhere in the pairs. */
  function ValueSet(pairs: seq<NameValue>, name: string): set<string>
  {
    set i | 0 <= i < |pairs| && pairs[i].0 == name :: pairs[i].1
  }

  /** One entry per element name that occurs, each holding the number of
      distinct values seen with that name (so at least 1). */
  lemma DistinctValueCountMapSpec(pairs: seq<NameValue>)
    ensures NoDuplicates(Keys(DistinctValueCountMap(pairs)))
    ensures forall name :: name in Keys(DistinctValueCountMap(pairs)) <==> name in Keys(pairs)
    ensures forall i :: 0 <= i < |DistinctValueCountMap(pairs)| ==>
      var e := DistinctValueCountMap(pairs)[i];
      e.1 == |ValueSet(pairs, e.0)| && e.1 >= 1
  {
    var g := GroupByKey(pairs);
    var m := DistinctValueCountMap(pairs);
    forall i | 0 <= i < |m|
      ensures m[i].1 == |ValueSet(pairs, m[i].0)| && m[i].1 >= 1
    {
      var name := g[i].0;
      var vs := ValuesOf(pairs, name);
      assert Keys(g)[i] == name;
      assert m[i] == (name, DistinctValueCount(vs));
      forall v ensures v in DistinctValues(vs) <==> v in ValueSet(pairs, name) {
        if v in ValueSet(pairs, name) {
          var j :| 0 <= j < |pairs| && pairs[j].0 == name && pairs[j].1 == v;
          assert pairs[j] == (name, v);
        }
      }
      assert DistinctValues(vs) == ValueSet(pairs, name);
      DistinctValueCountBounds(vs);
    }
  }

  /** Number of pairs whose composite key is key. */
  function Occurrences(pairs: seq<NameValue>, key: string): nat
  {
    if pairs == [] then 0
    else
      var last := pairs[|pairs| - 1];
      Occurrences(pairs[..|pairs| - 1], key) + (if CompositeKey(last.0, last.1) == key then 1 else 0)
  }

  /** Sum of a count list. */
  function Sum(vs: seq<int>): int
  {
    if vs == [] then 0 else Sum(vs[..|vs| - 1]) + vs[|vs| - 1]
  }

  /** Folding with ELEMENT_VALUE_COUNT_REDUCER sums. */
  lemma {:induction false} ReduceCountsIsSum(vs: seq<int>)
    requires |vs| > 0
    ensures FoldLeft1(CountReducer, vs) == Sum(vs)
  {
    if |vs| > 1 {
      ReduceCountsIsSum(vs[..|vs| - 1]);
    }
  }

  /** Reducing two parts separately and combining the partial results with
      the reducer gives the total (what a per-partition combine relies on). */
  lemma {:induction false} SumConcat(a: seq<int>, b: seq<int>)
    ensures Sum(a + b) == CountReducer(Sum(a), Sum(b))
  {
    if b != [] {
      var init := b[..|b| - 1];
      SumConcat(a, init);
      assert (a + b)[..|a + b| - 1] == a + init;
    } else {
      assert a + b == a;
    }
  }

  /** Sum(s) is s[i] plus the sum of the rest. */
  lemma SumRemove(s: seq<int>, i: nat)
    requires i < |s|
    ensures Sum(s) == s[i] + Sum(s[..i] + s[i + 1..])
  {
    var l, x, r := s[..i], s[i], s[i + 1..];
    assert s == (l + [x]) + r;
    SumConcat(l + [x], r);
    SumConcat(l, [x]);
    SumConcat(l, r);
    assert [x][..0] == [];
  }

  /** The reduced count does not depend on the order of the values. */
  lemma {:induction false} SumPermutation(a: seq<int>, b: seq<int>)
    requires multiset(a) == multiset(b)
    ensures Sum(a) == Sum(b)
    decreases |a|
  {
    if a != [] {
      var n := |a| - 1;
      var x := a[n];
      assert x in multiset(b);
      var i :| 0 <= i < |b| && b[i] == x;
      var b' := b[..i] + b[i + 1..];
      assert a == a[..n] + [x];
      assert b == b[..i] + [x] + b[i + 1..];
      assert multiset(a) == multiset(a[..n]) + multiset{x};
      assert multiset(b) == multiset(b[..i]) + multiset{x} + multiset(b[i + 1..]);
      assert multiset(b') == multiset(b[..i]) + multiset(b[i + 1..]);
      calc {
        multiset(a[..n]);
        multiset(a) - multiset{x};
        multiset(b) - multiset{x};
        multiset(b');
      }
      SumPermutation(a[..n], b');
      SumRemove(b, i);
    }
  }

  /** reduceByKey may combine a key's counts in any order: every
      rearrangement of the values folds to the same total. */
  lemma ReduceCountsOrderIndependent(vs: seq<int>, ws: seq<int>)
    requires |vs| > 0 && multiset(vs) == multiset(ws)
    ensures |ws| > 0 && FoldLeft1(CountReducer, vs) == FoldLeft1(CountReducer, ws)
  {
    assert |ws| == |multiset(ws)| == |multiset(vs)| == |vs|;
    ReduceCountsIsSum(vs);
    ReduceCountsIsSum(ws);
    SumPermutation(vs, ws);
  }

  /** Mapping a sequence with one more pair appends one mapped pair. */
  lemma MappedSnoc(pairs: seq<NameValue>)
    requires pairs != []
    ensures MapToPair(OccurrenceMapper, pairs) ==
      MapToPair(OccurrenceMapper, pairs[..|pairs| - 1]) + [OccurrenceMapper(pairs[|pairs| - 1])]
  {
  }

  /** Every mapped pair carries 1, so the counts for a key sum to its
      number of occurrences. */
  lemma {:induction false} MappedCountsSum(pairs: seq<NameValue>, key: string)
    ensures Sum(ValuesOf(MapToPair(OccurrenceMapper, pairs), key)) == Occurrences(pairs, key)
  {
    if pairs != [] {
      var n := |pairs| - 1;
      var init, last := pairs[..n], pairs[n];
      MappedCountsSum(init, key);
      MappedSnoc(pairs);
      var mi := MapToPair(OccurrenceMapper, init);
      var m := OccurrenceMapper(last);
      ValuesOfSnoc(mi, m, key);
      if m.0 == key {
        SumConcat(ValuesOf(mi, key), [1]);
        assert [1][..0] == [];
      } else {
        assert ValuesOf(mi, key) + [] == ValuesOf(mi, key);
      }
    }
  }

  /** A composite key is among the mapped keys exactly when it occurs. */
  lemma {:induction false} MappedKeysOccur(pairs: seq<NameValue>, key: string)
    ensures key in Keys(MapToPair(OccurrenceMapper, pairs)) <==> Occurrences(pairs, key) > 0
  {
    if pairs != [] {
      var n := |pairs| - 1;
      var init, last := pairs[..n], pairs[n];
      MappedKeysOccur(init, key);
      MappedSnoc(pairs);
      var mi := MapToPair(OccurrenceMapper, init);
      var m := OccurrenceMapper(last);
      assert (mi + [m])[..n] == mi;
      assert Keys(mi + [m]) == Keys(mi) + [m.0];
    }
  }

  /** mapToPair(mapper), then reduceByKey(reducer). */
  function OccurrenceAggregateCountMap(pairs: seq<NameValue>): seq<Count>
  {
    ReduceByKey(CountReducer, MapToPair(OccurrenceMapper, pairs))
  }

  /** A key has an aggregate entry exactly when it occurs. */
  lemma AggregateKey(pairs: seq<NameValue>, key: string)
    ensures key in Keys(OccurrenceAggregateCountMap(pairs)) <==> Occurrences(pairs, key) > 0
  {
    MappedKeysOccur(pairs, key);
  }

  /** The aggregate count of a key is its number of occurrences. */
  lemma AggregateEntry(pairs: seq<NameValue>, j: nat)
    requires j < |OccurrenceAggregateCountMap(pairs)|
    ensures OccurrenceAggregateCountMap(pairs)[j].1 == Occurrences(pairs, OccurrenceAggregateCountMap(pairs)[j].0)
    ensures OccurrenceAggregateCountMap(pairs)[j].1 >= 1
  {
    var mapped := MapToPair(OccurrenceMapper, pairs);
    var agg := OccurrenceAggregateCountMap(pairs);
    var key := agg[j].0;
    assert Keys(agg)[j] == key;
    ReduceCountsIsSum(ValuesOf(mapped, key));
    MappedCountsSum(pairs, key);
    MappedKeysOccur(pairs, key);
  }

  /** One entry per composite key that occurs, each holding its number of
      occurrences. */
  lemma OccurrenceAggregateSpec(pairs: seq<NameValue>)
    ensures NoDuplicates(Keys(OccurrenceAggregateCountMap(pairs)))
    ensures forall key :: key in Keys(OccurrenceAggregateCountMap(pairs)) <==> Occurrences(pairs, key) > 0
    ensures forall j :: 0 <= j < |OccurrenceAggregateCountMap(pairs)| ==>
      OccurrenceAggregateCountMap(pairs)[j].1 == Occurrences(pairs, OccurrenceAggregateCountMap(pairs)[j].0)
  {
    forall key ensures key in Keys(OccurrenceAggregateCountMap(pairs)) <==> Occurrences(pairs, key) > 0 {
      AggregateKey(pairs, key);
    }
    forall j | 0 <= j < |OccurrenceAggregateCountMap(pairs)|
      ensures OccurrenceAggregateCountMap(pairs)[j].1 == Occurrences(pairs, OccurrenceAggregateCountMap(pairs)[j].0)
    {
      AggregateEntry(pairs, j);
    }
  }

  /** filter(ELEMENT_VALUE_COUNT_FILTER) on the aggregate counts. */
  function RelevantOccurrenceCounts(pairs: seq<NameValue>): seq<Count>
  {
    Filter(CountFilter, OccurrenceAggregateCountMap(pairs))
  }

  /** An entry is in the aggregate map exactly when its count is the true,
      positive, occurrence count of its key. */
  lemma AggregateMembership(pairs: seq<NameValue>, e: Count)
    ensures e in OccurrenceAggregateCountMap(pairs) <==> e.1 == Occurrences(pairs, e.0) && e.1 > 0
  {
    var agg := OccurrenceAggregateCountMap(pairs);
    if e in agg {
      var j :| 0 <= j < |agg| && agg[j] == e;
      AggregateEntry(pairs, j);
    }
    if e.1 == Occurrences(pairs, e.0) && e.1 > 0 {
      AggregateKey(pairs, e.0);
      var j :| 0 <= j < |agg| && Keys(agg)[j] == e.0;
      AggregateEntry(pairs, j);
      assert agg[j] == e;
    }
  }

  /** An entry survives exactly when it is a composite key with its true
      occurrence count and that count exceeds 1; a second filter pass
      changes nothing. */
  lemma RelevantOccurrenceSpec(pairs: seq<NameValue>)
    ensures forall e :: e in RelevantOccurrenceCounts(pairs) <==> e.1 == Occurrences(pairs, e.0) && e.1 > 1
    ensures Filter(CountFilter, RelevantOccurrenceCounts(pairs)) == RelevantOccurrenceCounts(pairs)
    ensures NoDuplicates(Keys(RelevantOccurrenceCounts(pairs)))
  {
    var agg := OccurrenceAggregateCountMap(pairs);
    OccurrenceAggregateSpec(pairs);
    FilterKeysNoDuplicates(CountFilter, agg);
    forall e ensures e in RelevantOccurrenceCounts(pairs) <==> e.1 == Occurrences(pairs, e.0) && e.1 > 1 {
      AggregateMembership(pairs, e);
    }
    FilterIdempotent(CountFilter, agg);
  }

  /** The filter's threshold: a count of 1 is dropped, a count of 2 kept. */
  lemma CountFilterThreshold(key: string, c: int)
    ensures CountFilter((key, c)) <==> c > 1
    ensures !CountFilter((key, 1)) && CountFilter((key, 2))
  {
  }

  /** union, then sortByKey(true). */
  function SortedValueDistribution(pairs: seq<NameValue>): seq<Count>
  {
    SortByKey(Union(DistinctValueCountMap(pairs), RelevantOccurrenceCounts(pairs)))
  }

  /** The output is a permutation of the two count maps together, with keys
      in non-decreasing String.compareTo order. */
  lemma SortedValueDistributionSpec(pairs: seq<NameValue>)
    ensures multiset(SortedValueDistribution(pairs)) ==
      multiset(DistinctValueCountMap(pairs)) + multiset(RelevantOccurrenceCounts(pairs))
    ensures forall i, j :: 0 <= i < j < |SortedValueDistribution(pairs)| ==>
      KeyLe(SortedValueDistribution(pairs)[i].0, SortedValueDistribution(pairs)[j].0)
  {
    SortedByKeyPairwise(SortedValueDistribution(pairs));
  }

  /** Every key appears in the output once per branch that produced it:
      the distinct-count map and the filtered occurrence map are each free
      of duplicate keys, so a key is repeated only when both hold it. */
  lemma SortedValueDistributionKeys(pairs: seq<NameValue>, k: string)
    ensures multiset(Keys(SortedValueDistribution(pairs)))[k] ==
      (if k in Keys(DistinctValueCountMap(pairs)) then 1 else 0) +
      (if k in Keys(RelevantOccurrenceCounts(pairs)) then 1 else 0)
  {
    var dm, rel := DistinctValueCountMap(pairs), RelevantOccurrenceCounts(pairs);
    KeysPermutation(SortedValueDistribution(pairs), Union(dm, rel));
    KeysConcat(dm, rel);
    DistinctValueCountMapSpec(pairs);
    RelevantOccurrenceSpec(pairs);
    NoDuplicatesCount(Keys(dm), k);
    NoDuplicatesCount(Keys(rel), k);
  }

  /** The whole job: the sorted value distribution of all extracted pairs,
      or the fault that aborted extraction. */
  function WordCount(records: seq<InputRecord>): Result<seq<Count>, Fault>
  {
    match FlatMapToPairs(records)
    case Failure(e) => Failure(e)
    case Success(pairs) => Success(SortedValueDistribution(pairs))
  }

  /** The job fails exactly when the extractor throws on some record;
      otherwise its output is sorted by key. */
  lemma WordCountSpec(records: seq<InputRecord>)
    ensures WordCount(records).Failure? <==>
      exists i :: 0 <= i < |records| && ElementNameValuePairs(records[i]).Failure?
    ensures WordCount(records).Success? ==> SortedByKey(WordCount(records).value)
  {
    FlatMapToPairsFails(records);
  }

  /** A document whose root element has the children <name1>value1</name1>
      and <name2>value2</name2>. */
  function TwoChildDocument(uri: string, name1: string, value1: string, name2: string, value2: string): InputRecord
  {
    var root := Element("root", [Element(name1, [Text(value1)]), Element(name2, [Text(value2)])]);
    InputRecord(Some(DocumentUri(uri)), Some(MarkLogicNode(Some(Document([root])))))
  }

  /** The extractor yields the two children's (name, text) pairs. */
  lemma TwoChildDocumentPairs(uri: string, name1: string, value1: string, name2: string, value2: string)
    ensures ElementNameValuePairs(TwoChildDocument(uri, name1, value1, name2, value2))
      == Success([(name1, value1), (name2, value2)])
  {
    var c1, c2 := Element(name1, [Text(value1)]), Element(name2, [Text(value2)]);
    var cs := [c1, c2];
    var doc := Document([Element("root", cs)]);
    assert DocumentElement(doc) == Some(Element("root", cs));
    forall n: string, v: string ensures TextContent(Element(n, [Text(v)])) == v {
      assert [Text(v)][..0] == [];
      assert ChildrenText([]) == "";
      assert TextContent(Text(v)) == v;
      assert ChildrenText([Text(v)]) == ChildrenText([]) + TextContent(Text(v));
    }
    assert PairOf(c1) == (name1, value1) && PairOf(c2) == (name2, value2);
    assert cs[..1] == [c1] && [c1][..0] == [];
    assert ElementPairs([c1]) == ElementPairs([]) + [PairOf(c1)];
    assert ElementPairs(cs) == ElementPairs([c1]) + [PairOf(c2)];
    assert ElementPairs([]) == [];
    assert ElementPairs(cs) == [(name1, value1), (name2, value2)];
    var rec := TwoChildDocument(uri, name1, value1, name2, value2);
    assert rec == InputRecord(Some(DocumentUri(uri)), Some(MarkLogicNode(Some(doc))));
    assert IsDocumentRecord(rec);
    assert ElementNameValuePairs(rec) == Success(ElementPairs(cs));
  }

  lemma ExampleExtraction()
    ensures FlatMapToPairs([TwoChildDocument("/1.xml", "a", "x", "b", "y"), TwoChildDocument("/2.xml", "a", "x", "b", "z")])
      == Success([("a", "x"), ("b", "y"), ("a", "x"), ("b", "z")])
  {
    var r1, r2 := TwoChildDocument("/1.xml", "a", "x", "b", "y"), TwoChildDocument("/2.xml", "a", "x", "b", "z");
    TwoChildDocumentPairs("/1.xml", "a", "x", "b", "y");
    TwoChildDocumentPairs("/2.xml", "a", "x", "b", "z");
    var p1: seq<NameValue> := [("a", "x"), ("b", "y")];
    var p2: seq<NameValue> := [("a", "x"), ("b", "z")];
    assert [] + p1 == p1;
    assert FlatMapToPairs([]) == Success([]);
    assert FlatMapToPairs([r1]) == Success(p1);
    var rs := [r1, r2];
    assert rs[..1] == [r1];
    assert FlatMapToPairs(rs) == Success(p1 + p2);
    assert p1 + p2 == [("a", "x"), ("b", "y"), ("a", "x"), ("b", "z")];
  }

  /** Dedup of a key list of the example's shape: a, b, a, then c. */
  lemma ExampleDedup(keys: seq<string>, a: string, b: string, c: string)
    requires keys == [a, b, a, c] && a != b && c != a
    ensures Dedup(keys) == if c == b then [a, b] else [a, b, c]
  {
    assert keys[..3] == [a, b, a];
    assert [a, b, a][..2] == [a, b];
    assert [a, b][..1] == [a];
    assert [a][..0] == [];
    assert Dedup([a]) == [a];
    assert Dedup([a, b]) == [a, b];
    assert Dedup([a, b, a]) == [a, b];
  }

  lemma ExampleGroupKeys(pairs: seq<NameValue>)
    requires pairs == [("a", "x"), ("b", "y"), ("a", "x"), ("b", "z")]
    ensures Dedup(Keys(pairs)) == ["a", "b"]
  {
    assert Keys(pairs) == ["a", "b", "a", "b"];
    ExampleDedup(Keys(pairs), "a", "b", "b");
  }

  lemma ExampleGroupValues()
    ensures ValuesOf([("a", "x"), ("b", "y"), ("a", "x"), ("b", "z")], "a") == ["x", "x"]
    ensures ValuesOf([("a", "x"), ("b", "y"), ("a", "x"), ("b", "z")], "b") == ["y", "z"]
  {
    var pairs: seq<NameValue> := [("a", "x"), ("b", "y"), ("a", "x"), ("b", "z")];
    var p3 := pairs[..3];
    assert p3 == [("a", "x"), ("b", "y"), ("a", "x")];
    var p2 := p3[..2];
    assert p2 == [("a", "x"), ("b", "y")];
    var p1 := p2[..1];
    assert p1 == [("a", "x")];
    assert p1[..0] == [];
    assert ValuesOf(p1, "a") == ["x"] && ValuesOf(p1, "b") == [];
    assert ValuesOf(p2, "a") == ["x"] && ValuesOf(p2, "b") == ["y"];
    assert ValuesOf(p3, "a") == ["x", "x"] && ValuesOf(p3, "b") == ["y"];
  }

  lemma ExampleGroups(pairs: seq<NameValue>)
    requires pairs == [("a", "x"), ("b", "y"), ("a", "x"), ("b", "z")]
    ensures GroupByKey(pairs) == [("a", ["x", "x"]), ("b", ["y", "z"])]
  {
    ExampleGroupKeys(pairs);
    ExampleGroupValues();
  }

  lemma ExampleDistinctValueCounts(xs: seq<string>, ys: seq<string>)
    requires xs == ["x", "x"] && ys == ["y", "z"]
    ensures DistinctValueCount(xs) == 1 && DistinctValueCount(ys) == 2
  {
    assert DistinctValues(xs) == {"x"};
    assert DistinctValues(ys) == {"y", "z"};
  }

  lemma ExampleDistinctCounts(pairs: seq<NameValue>)
    requires pairs == [("a", "x"), ("b", "y"), ("a", "x"), ("b", "z")]
    ensures DistinctValueCountMap(pairs) == [("a", 1), ("b", 2)]
  {
    ExampleGroups(pairs);
    var g := GroupByKey(pairs);
    ExampleDistinctValueCounts(g[0].1, g[1].1);
  }

  lemma ExampleMappedPairs(pairs: seq<NameValue>)
    requires pairs == [("a", "x"), ("b", "y"), ("a", "x"), ("b", "z")]
    ensures MapToPair(OccurrenceMapper, pairs) == [("a:x", 1), ("b:y", 1), ("a:x", 1), ("b:z", 1)]
  {
    assert CompositeKey("a", "x") == "a:x";
    assert CompositeKey("b", "y") == "b:y";
    assert CompositeKey("b", "z") == "b:z";
  }

  lemma ExampleAggregateKeys(mapped: seq<Count>)
    requires mapped == [("a:x", 1), ("b:y", 1), ("a:x", 1), ("b:z", 1)]
    ensures Dedup(Keys(mapped)) == ["a:x", "b:y", "b:z"]
  {
    assert Keys(mapped) == ["a:x", "b:y", "a:x", "b:z"];
    ExampleDedup(Keys(mapped), "a:x", "b:y", "b:z");
  }

  lemma ExampleAggregateValues(mapped: seq<Count>)
    requires mapped == [("a:x", 1), ("b:y", 1), ("a:x", 1), ("b:z", 1)]
    ensures ValuesOf(mapped, "a:x") == [1, 1]
    ensures ValuesOf(mapped, "b:y") == [1]
    ensures ValuesOf(mapped, "b:z") == [1]
  {
    var p3 := mapped[..3];
    assert p3 == [("a:x", 1), ("b:y", 1), ("a:x", 1)];
    var p2 := p3[..2];
    assert p2 == [("a:x", 1), ("b:y", 1)];
    var p1 := p2[..1];
    assert p1 == [("a:x", 1)];
    assert p1[..0] == [];
    assert ValuesOf(p1, "a:x") == [1] && ValuesOf(p1, "b:y") == [] && ValuesOf(p1, "b:z") == [];
    assert ValuesOf(p2, "a:x") == [1] && ValuesOf(p2, "b:y") == [1] && ValuesOf(p2, "b:z") == [];
    assert ValuesOf(p3, "a:x") == [1, 1] && ValuesOf(p3, "b:y") == [1] && ValuesOf(p3, "b:z") == [];
  }

  lemma ExampleOccurrenceGroups(mapped: seq<Count>)
    requires mapped == [("a:x", 1), ("b:y", 1), ("a:x", 1), ("b:z", 1)]
    ensures GroupByKey(mapped) == [("a:x", [1, 1]), ("b:y", [1]), ("b:z", [1])]
  {
    ExampleAggregateKeys(mapped);
    ExampleAggregateValues(mapped);
  }

  lemma ExampleReduce(mapped: seq<Count>)
    requires mapped == [("a:x", 1), ("b:y", 1), ("a:x", 1), ("b:z", 1)]
    ensures ReduceByKey(CountReducer, mapped) == [("a:x", 2), ("b:y", 1), ("b:z", 1)]
  {
    ExampleOccurrenceGroups(mapped);
    assert [1, 1][..1] == [1];
  }

  lemma ExampleAggregate(pairs: seq<NameValue>)
    requires pairs == [("a", "x"), ("b", "y"), ("a", "x"), ("b", "z")]
    ensures OccurrenceAggregateCountMap(pairs) == [("a:x", 2), ("b:y", 1), ("b:z", 1)]
  {
    ExampleMappedPairs(pairs);
    ExampleReduce(MapToPair(OccurrenceMapper, pairs));
  }

  lemma ExampleFilter(agg: seq<Count>)
    requires agg == [("a:x", 2), ("b:y", 1), ("b:z", 1)]
    ensures Filter(CountFilter, agg) == [("a:x", 2)]
  {
    assert agg[..2] == [("a:x", 2), ("b:y", 1)];
    assert agg[..2][..1] == [("a:x", 2)];
    assert [("a:x", 2)][..0] == [];
    assert Filter(CountFilter, [("a:x", 2)]) == [("a:x", 2)];
    assert Filter(CountFilter, [("a:x", 2), ("b:y", 1)]) == [("a:x", 2)];
  }

  lemma ExampleSortTail(b: Count, x: Count)
    requires b == ("b", 2) && x == ("a:x", 2)
    ensures SortByKey([b, x]) == [x, b]
  {
    assert CompareTo("b", "a:x") == 1;
    assert [x][1..] == [];
    assert SortByKey([x]) == [x];
    assert [b, x][1..] == [x];
  }

  lemma ExampleSort(a: Count, b: Count, x: Count)
    requires a == ("a", 1) && b == ("b", 2) && x == ("a:x", 2)
    ensures SortByKey([a, b, x]) == [a, x, b]
  {
    ExampleSortTail(b, x);
    assert "a"[1..] == [];
    assert CompareTo("a", "a:x") == -2;
    assert [a, b, x][1..] == [b, x];
  }

  /** <a>x</a><b>y</b> and <a>x</a><b>z</b>: a has one distinct value, b
      has two, and only a:x occurs more than once. */
  lemma WordCountExample()
    ensures WordCount([TwoChildDocument("/1.xml", "a", "x", "b", "y"), TwoChildDocument("/2.xml", "a", "x", "b", "z")])
      == Success([("a", 1), ("a:x", 2), ("b", 2)])
  {
    ExampleRun([TwoChildDocument("/1.xml", "a", "x", "b", "y"), TwoChildDocument("/2.xml", "a", "x", "b", "z")]);
  }

  lemma ExampleSortUnion(dm: seq<Count>, rel: seq<Count>)
    requires dm == [("a", 1), ("b", 2)] && rel == [("a:x", 2)]
    ensures SortByKey(Union(dm, rel)) == [("a", 1), ("a:x", 2), ("b", 2)]
  {
    assert Union(dm, rel) == [dm[0], dm[1], rel[0]];
    ExampleSort(dm[0], dm[1], rel[0]);
  }

  lemma ExampleStages(pairs: seq<NameValue>)
    requires pairs == [("a", "x"), ("b", "y"), ("a", "x"), ("b", "z")]
    ensures SortedValueDistribution(pairs) == [("a", 1), ("a:x", 2), ("b", 2)]
  {
    ExampleDistinctCounts(pairs);
    ExampleAggregate(pairs);
    ExampleFilter(OccurrenceAggregateCountMap(pairs));
    ExampleSortUnion(DistinctValueCountMap(pairs), RelevantOccurrenceCounts(pairs));
  }

  lemma ExampleRun(records: seq<InputRecord>)
    requires records == [TwoChildDocument("/1.xml", "a", "x", "b", "y"), TwoChildDocument("/2.xml", "a", "x", "b", "z")]
    ensures WordCount(records) == Success([("a", 1), ("a:x", 2), ("b", 2)])
  {
    ExampleExtraction();
    var pairs := FlatMapToPairs(records).value;
    ExampleStages(pairs);
  }
}
