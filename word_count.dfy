/** The transformation callbacks of MarkLogicWordCount: the element
    name/value pair extractor, the occurrence mapper, the count reducer,
    the count filter and the distinct-value counter. */
module MarkLogicWordCount {
  import opened Wrappers
  import opened Dom

  /** The connector's DocumentURI key. */
  datatype DocumentUri = DocumentUri(uri: string)

  /** The connector's MarkLogicNode value; `get()` may be null. */
  datatype MarkLogicNode = MarkLogicNode(node: Option<Node>)

  /** One record of the connector's RDD; either half may be null. */
  datatype InputRecord = InputRecord(key: Option<DocumentUri>, value: Option<MarkLogicNode>)

  /** What aborts the extractor: a document node without an element child
      makes getDocumentElement() return null, and reading its children
      throws a NullPointerException. */
  datatype Fault = NullDocumentElement

  type NameValue = (string, string)
  type Count = (string, int)

  /** The extractor's guard: key, value and wrapped node are present and the
      node is a document node. */
  predicate IsDocumentRecord(rec: InputRecord)
  {
    rec.key.Some? && rec.value.Some? && rec.value.value.node.Some? && rec.value.value.node.value.Document?
  }

  /** (getNodeName(), getTextContent()) of an element. */
  function PairOf(n: Node): NameValue
    requires n.Element?
  {
    (n.name, TextContent(n))
  }

  /** The pairs the extractor's loop collects from a child list. */
  function ElementPairs(cs: seq<Node>): seq<NameValue>
  {
    if cs == [] then []
    else
      var last := cs[|cs| - 1];
      ElementPairs(cs[..|cs| - 1]) + (if last.Element? then [PairOf(last)] else [])
  }

  /** The positions of the element children, in ascending order. */
  function ElementIndices(cs: seq<Node>): (r: seq<nat>)
    ensures forall k :: 0 <= k < |r| ==> r[k] < |cs| && cs[r[k]].Element?
    ensures forall k, l :: 0 <= k < l < |r| ==> r[k] < r[l]
    ensures forall i :: 0 <= i < |cs| && cs[i].Element? ==> i in r
  {
    if cs == [] then []
    else
      var n := |cs| - 1;
      var init := cs[..n];
      assert forall i :: 0 <= i < n ==> init[i] == cs[i];
      ElementIndices(init) + (if cs[n].Element? then [n] else [])
  }

  /** The extractor emits one pair per element child, in child order: the
      k-th pair is (name, textContent) of the k-th element child, and
      ElementIndices lists exactly the element children. */
  lemma {:induction false} ElementPairsShape(cs: seq<Node>)
    ensures |ElementPairs(cs)| == |ElementIndices(cs)|
    ensures forall k :: 0 <= k < |ElementIndices(cs)| ==>
      ElementPairs(cs)[k] == PairOf(cs[ElementIndices(cs)[k]])
  {
    if cs != [] {
      var n := |cs| - 1;
      var init := cs[..n];
      ElementPairsShape(init);
      assert forall i :: 0 <= i < n ==> init[i] == cs[i];
    }
  }

  /** ELEMENT_NAME_VALUE_PAIR_EXTRACTOR, as a function of its input record. */
  function ElementNameValuePairs(rec: InputRecord): Result<seq<NameValue>, Fault>
  {
    if !IsDocumentRecord(rec) then Success([])
    else
      match DocumentElement(rec.value.value.node.value)
      case None => Failure(NullDocumentElement)
      case Some(root) => Success(ElementPairs(root.children))
  }

  /** ELEMENT_NAME_VALUE_PAIR_EXTRACTOR.call: checks the record, then walks
      the children of the document element, collecting one pair per element
      child. A record that fails the check yields no pairs (the Java code
      also prints a warning). */
  method ExtractElementNameValuePairs(rec: InputRecord) returns (r: Result<seq<NameValue>, Fault>)
    ensures r == ElementNameValuePairs(rec)
    ensures !IsDocumentRecord(rec) ==> r == Success([])
  {
    var elementValuePairs: seq<NameValue> := [];
    if rec.key.Some? && rec.value.Some? && rec.value.value.node.Some? && rec.value.value.node.value.Document? {
      var doc := rec.value.value.node.value;
      var docElement := DocumentElement(doc);
      if docElement.None? {
        return Failure(NullDocumentElement);
      }
      var childNodes := docElement.value.children;
      var index := 0;
      while index < |childNodes|
        invariant 0 <= index <= |childNodes|
        invariant elementValuePairs == ElementPairs(childNodes[..index])
      {
        var nodeItem := childNodes[index];
        assert childNodes[..index + 1][..index] == childNodes[..index];
        if nodeItem.Element? {
          elementValuePairs := elementValuePairs + [(nodeItem.name, TextContent(nodeItem))];
        }
        index := index + 1;
      }
      assert childNodes[..index] == childNodes;
    }
    return Success(elementValuePairs);
  }

  /** The composite key name ++ ":" ++ value: the name, the delimiter, then
      the value. */
  function CompositeKey(name: string, value: string): (k: string)
    ensures |k| == |name| + 1 + |value|
    ensures k[..|name|] == name && k[|name|] == ':' && k[|name| + 1..] == value
  {
    name + ":" + value
  }

  /** With delimiter-free names the composite key determines the pair. */
  lemma CompositeKeyInjective(n1: string, v1: string, n2: string, v2: string)
    requires ':' !in n1 && ':' !in n2
    requires CompositeKey(n1, v1) == CompositeKey(n2, v2)
    ensures n1 == n2 && v1 == v2
  {
  }

  /** The delimiter is not escaped: distinct pairs can share a key. */
  lemma CompositeKeyCollision()
    ensures ("a:b", "c") != ("a", "b:c")
    ensures CompositeKey("a:b", "c") == CompositeKey("a", "b:c")
  {
  }

  /** ELEMENT_VALUE_OCCURRENCE_COUNT_MAPPER: the composite key with count 1;
      the key always holds the delimiter, so the count-0 branch is dead. */
  function OccurrenceMapper(p: NameValue): (r: Count)
    ensures r.0 == CompositeKey(p.0, p.1)
    ensures r.1 == 1
  {
    var nameValueOccurrence := CompositeKey(p.0, p.1);
    if |nameValueOccurrence| > 0 then (nameValueOccurrence, 1) else (nameValueOccurrence, 0)
  }

  /** ELEMENT_VALUE_COUNT_REDUCER. */
  function CountReducer(a: int, b: int): int
  {
    a + b
  }

  /** ELEMENT_VALUE_COUNT_FILTER: keep counts greater than 1. */
  function CountFilter(e: Count): bool
  {
    e.1 > 1
  }

  /** The set of distinct values in a value list. */
  function DistinctValues(values: seq<string>): set<string>
  {
    set v | v in values
  }

  /** What DISTINCT_VALUE_COUNTER returns: the number of distinct values. */
  function DistinctValueCount(values: seq<string>): nat
  {
    |DistinctValues(values)|
  }

  /** DISTINCT_VALUE_COUNTER.call: adds every value to a hash set, then
      returns the set's size. */
  method CountDistinctValues(values: seq<string>) returns (n: nat)
    ensures n == DistinctValueCount(values)
  {
    var distinctValues: set<string> := {};
    var i := 0;
    while i < |values|
      invariant 0 <= i <= |values|
      invariant distinctValues == DistinctValues(values[..i])
    {
      assert values[..i + 1] == values[..i] + [values[i]];
      distinctValues := distinctValues + {values[i]};
      i := i + 1;
    }
    assert values[..i] == values;
    n := |distinctValues|;
  }

  /** At most one distinct value per element; none for no elements, at
      least one for some. */
  lemma {:induction false} DistinctValueCountBounds(values: seq<string>)
    ensures DistinctValueCount(values) <= |values|
    ensures values == [] <==> DistinctValueCount(values) == 0
  {
    if values != [] {
      var init := values[..|values| - 1];
      DistinctValueCountBounds(init);
      assert values == init + [values[|values| - 1]];
      assert DistinctValues(values) == DistinctValues(init) + {values[|values| - 1]};
    }
  }

  /** The count depends only on which values occur, not on their order or
      multiplicity. */
  lemma DistinctValueCountPermutation(a: seq<string>, b: seq<string>)
    requires multiset(a) == multiset(b)
    ensures DistinctValueCount(a) == DistinctValueCount(b)
  {
    forall v ensures v in a <==> v in b {
      assert v in a <==> v in multiset(a);
      assert v in b <==> v in multiset(b);
    }
    assert DistinctValues(a) == DistinctValues(b);
  }

  /** A repeated value collapses: it does not raise the count. */
  lemma DistinctValueCountDuplicate(values: seq<string>, v: string)
    requires v in values
    ensures DistinctValueCount(values + [v]) == DistinctValueCount(values)
  {
    assert DistinctValues(values + [v]) == DistinctValues(values);
  }
}
