# MarkLogicWordCount in Dafny

This project models the statistics pipeline of the Spark example program
`MarkLogicWordCount`. The connector reads documents from a MarkLogic
database as (DocumentURI, MarkLogicNode) records. For each document the
program collects (element name, text content) pairs from the children of
the root element. It then computes two things:

- per element name, the number of distinct values (`groupByKey` and
  `mapValues(DISTINCT_VALUE_COUNTER)`);
- per `name:value` composite key, the number of occurrences (`mapToPair`,
  `reduceByKey`), keeping only keys that occur more than once (`filter`).

The two results are joined with `union` and sorted by key with `sortByKey`.

Files:

- `wrappers.dfy`: `Option` (Java null) and `Result` (an exception that
  aborts the job).
- `dom.dfy`: a small `Node` datatype standing in for `org.w3c.dom`,
  `TextContent`, and `DocumentElement` (`getDocumentElement`).
- `string_order.dfy`: `java.lang.String.compareTo`, the ordering
  `sortByKey` uses on `String` keys, with its antisymmetry, equality and
  transitivity lemmas.
- `pair_rdd.dfy`: a sequential reference meaning for the pair-RDD
  operations. An RDD is a sequence of pairs:
  - `groupByKey` lists keys by first occurrence and keeps values in input
    order;
  - `reduceByKey` is a left fold per key;
  - `filter` keeps order;
  - `union` is concatenation;
  - `sortByKey` is an insertion sort on `compareTo`.
- `word_count.dfy` (module `MarkLogicWordCount`): the five callbacks.
  - The extractor's `for` loop and the distinct counter's `while` loop are
    methods. Each is proved equal to a specification function.
  - The mapper, reducer and filter are functions.
- `word_count_main.dfy` (module `MarkLogicWordCountMain`): the data flow of
  `main`, its properties, and the worked example.

A record is not always skipped. The guard at lines 46-47 skips a record
whose key, value or wrapped node is null, or whose node is not a document
node. But for a document node with no element child, `getDocumentElement()`
returns null, and `getChildNodes()` at line 50 throws a
`NullPointerException`. The model returns `Failure(NullDocumentElement)` for
such a record, and `WordCount` then fails as a whole, as the Spark job would.

## Model

| member | source | states |
|---|---|---|
| `MarkLogicWordCount.ExtractElementNameValuePairs` | src/com/marklogic/spark/examples/MarkLogicWordCount.java:42-61 | The loop returns exactly `ElementNameValuePairs(rec)`. A record with a null key, value or node, or a non-document node, yields an empty pair list, not an error. |
| `MarkLogicWordCount.ElementPairsShape` | src/com/marklogic/spark/examples/MarkLogicWordCount.java:50-56 | There are as many pairs as element children. The k-th pair is (nodeName, textContent) of the k-th element child, so pairs come out in child order. |
| `MarkLogicWordCount.ElementIndices` | src/com/marklogic/spark/examples/MarkLogicWordCount.java:51-53 | The positions the loop emits for are strictly increasing. They are all element children and include every element child, so non-element children emit nothing. |
| `Dom.DocumentElement` | src/com/marklogic/spark/examples/MarkLogicWordCount.java:49 | The document element is the first element child of the document. It is null exactly when the document has no element child. |
| `Dom.TextContent` | src/com/marklogic/spark/examples/MarkLogicWordCount.java:54 | No contract of its own. `getTextContent` is character data for text-like nodes and the children's text for an element. `Dom.ChildrenTextConcat` and `Dom.ChildrenTextSkipsMarkup` carry its properties. |
| `Dom.ChildrenTextConcat` | src/com/marklogic/spark/examples/MarkLogicWordCount.java:54 | An element's textContent is its children's text in document order: splitting the child list splits the text. |
| `Dom.ChildrenTextSkipsMarkup` | src/com/marklogic/spark/examples/MarkLogicWordCount.java:54 | A comment or processing-instruction child adds nothing to an element's textContent. |
| `MarkLogicWordCount.CompositeKey` | src/com/marklogic/spark/examples/MarkLogicWordCount.java:68 | The key has length \|name\|+1+\|value\|. It starts with the name, has ':' right after it, and ends with the value. |
| `MarkLogicWordCount.OccurrenceMapper` | src/com/marklogic/spark/examples/MarkLogicWordCount.java:67-73 | The mapper emits the composite key with count 1 on every input. The count-0 branch can never be taken. |
| `MarkLogicWordCount.CompositeKeyInjective` | src/com/marklogic/spark/examples/MarkLogicWordCount.java:68 | If neither name contains ':', equal composite keys imply equal (name, value) pairs. |
| `MarkLogicWordCount.CompositeKeyCollision` | src/com/marklogic/spark/examples/MarkLogicWordCount.java:68 | The ':' is not escaped, so the distinct pairs ("a:b","c") and ("a","b:c") share the key "a:b:c". |
| `MarkLogicWordCount.CountDistinctValues` | src/com/marklogic/spark/examples/MarkLogicWordCount.java:96-103 | The hash-set loop returns the cardinality of the set of values. |
| `MarkLogicWordCount.DistinctValueCountBounds` | src/com/marklogic/spark/examples/MarkLogicWordCount.java:97-102 | The distinct count is at most the number of values. It is 0 exactly for an empty input. |
| `MarkLogicWordCount.DistinctValueCountPermutation` | src/com/marklogic/spark/examples/MarkLogicWordCount.java:97-102 | Two inputs with the same multiset of values have the same distinct count: order does not matter. |
| `MarkLogicWordCount.DistinctValueCountDuplicate` | src/com/marklogic/spark/examples/MarkLogicWordCount.java:100 | Adding a value that is already present leaves the count unchanged: duplicates collapse. |
| `MarkLogicWordCountMain.FlatMapToPairs` | src/com/marklogic/spark/examples/MarkLogicWordCount.java:179 | No contract of its own. `flatMapToPair` concatenates every record's pairs, record after record. `FlatMapToPairsFails` states when it fails. |
| `MarkLogicWordCountMain.FlatMapToPairsFails` | src/com/marklogic/spark/examples/MarkLogicWordCount.java:179 | `flatMapToPair` fails exactly when the extractor throws on some record. |
| `MarkLogicWordCountMain.DistinctValueCountMap` | src/com/marklogic/spark/examples/MarkLogicWordCount.java:181-183 | No contract of its own. It is `groupByKey` then `mapValues(DISTINCT_VALUE_COUNTER)`. `DistinctValueCountMapSpec` carries its properties. |
| `PairRdd.GroupByKey` | src/com/marklogic/spark/examples/MarkLogicWordCount.java:181 | `groupByKey` yields one group per distinct key, with no duplicates and the same key set as its input. Each group holds that key's values. |
| `PairRdd.MapValues` | src/com/marklogic/spark/examples/MarkLogicWordCount.java:183 | `mapValues` keeps the keys and their order and applies f to every value. |
| `MarkLogicWordCountMain.DistinctValueCountMapSpec` | src/com/marklogic/spark/examples/MarkLogicWordCount.java:181-183 | The distinct-count map has exactly one entry per element name among the pairs. Each entry's count is the number of distinct values seen with that name, so it is at least 1. |
| `PairRdd.MapToPair` | src/com/marklogic/spark/examples/MarkLogicWordCount.java:186 | `mapToPair` applies f to each element and keeps the order. |
| `PairRdd.ReduceByKey` | src/com/marklogic/spark/examples/MarkLogicWordCount.java:188 | `reduceByKey` yields one entry per distinct key, with the same key set as its input. Each entry holds the fold of that key's non-empty value list. |
| `MarkLogicWordCountMain.ReduceCountsIsSum` | src/com/marklogic/spark/examples/MarkLogicWordCount.java:77-83 | Folding with the reducer `a + b` gives the sum of the counts. |
| `MarkLogicWordCount.CountReducer` | src/com/marklogic/spark/examples/MarkLogicWordCount.java:77-83 | No contract of its own. `ELEMENT_VALUE_COUNT_REDUCER` adds two counts. `ReduceCountsIsSum`, `SumConcat` and `SumPermutation` carry its properties. |
| `MarkLogicWordCountMain.SumConcat` | src/com/marklogic/spark/examples/MarkLogicWordCount.java:81 | Reducing two parts separately and combining them with the reducer gives the total, so partial (per-partition) sums combine correctly. |
| `MarkLogicWordCountMain.SumPermutation` | src/com/marklogic/spark/examples/MarkLogicWordCount.java:81 | Any rearrangement of the counts has the same sum. |
| `MarkLogicWordCountMain.ReduceCountsOrderIndependent` | src/com/marklogic/spark/examples/MarkLogicWordCount.java:188 | Every rearrangement of a key's counts folds to the same total, so the reduce order does not matter. |
| `MarkLogicWordCountMain.MappedCountsSum` | src/com/marklogic/spark/examples/MarkLogicWordCount.java:186 | After mapping, the counts under a composite key sum to the number of pairs with that composite key. |
| `MarkLogicWordCountMain.MappedKeysOccur` | src/com/marklogic/spark/examples/MarkLogicWordCount.java:186 | A composite key is among the mapped keys exactly when some pair has that composite key. |
| `MarkLogicWordCountMain.OccurrenceAggregateCountMap` | src/com/marklogic/spark/examples/MarkLogicWordCount.java:186-188 | No contract of its own. It is `mapToPair(mapper)` then `reduceByKey(reducer)`. `OccurrenceAggregateSpec` and `AggregateMembership` carry its properties. |
| `MarkLogicWordCountMain.AggregateKey` | src/com/marklogic/spark/examples/MarkLogicWordCount.java:186-188 | A composite key has an aggregate entry exactly when some pair maps to it. |
| `MarkLogicWordCountMain.AggregateEntry` | src/com/marklogic/spark/examples/MarkLogicWordCount.java:186-188 | Each aggregate count equals the number of occurrences of its key, and it is at least 1. |
| `MarkLogicWordCountMain.OccurrenceAggregateSpec` | src/com/marklogic/spark/examples/MarkLogicWordCount.java:186-188 | Aggregate keys have no duplicates and are exactly the occurring composite keys. Each count is the key's occurrence count. |
| `MarkLogicWordCountMain.AggregateMembership` | src/com/marklogic/spark/examples/MarkLogicWordCount.java:186-188 | (k, c) is in the aggregate map exactly when c is the positive occurrence count of k. |
| `PairRdd.Filter` | src/com/marklogic/spark/examples/MarkLogicWordCount.java:190 | `filter` keeps exactly the elements that satisfy the predicate, each as often as it occurs in the input, and drops the rest. It never grows its input. |
| `PairRdd.FilterKeysNoDuplicates` | src/com/marklogic/spark/examples/MarkLogicWordCount.java:190 | Filtering a pair sequence whose keys are distinct leaves its keys distinct. |
| `PairRdd.FilterIdempotent` | src/com/marklogic/spark/examples/MarkLogicWordCount.java:190 | Filtering twice gives the same result as filtering once. |
| `MarkLogicWordCountMain.CountFilterThreshold` | src/com/marklogic/spark/examples/MarkLogicWordCount.java:89 | The filter keeps an entry exactly when its count is greater than 1: count 1 is dropped and count 2 is kept. |
| `MarkLogicWordCount.CountFilter` | src/com/marklogic/spark/examples/MarkLogicWordCount.java:85-91 | No contract of its own. `ELEMENT_VALUE_COUNT_FILTER` keeps an entry whose count is greater than 1. `CountFilterThreshold` carries its property. |
| `MarkLogicWordCountMain.RelevantOccurrenceCounts` | src/com/marklogic/spark/examples/MarkLogicWordCount.java:190 | No contract of its own. It is `filter(ELEMENT_VALUE_COUNT_FILTER)` on the aggregate. `RelevantOccurrenceSpec` carries its properties. |
| `MarkLogicWordCountMain.RelevantOccurrenceSpec` | src/com/marklogic/spark/examples/MarkLogicWordCount.java:190 | (k, c) survives exactly when c is k's occurrence count and c > 1. The surviving keys are distinct, and filtering the result again changes nothing. |
| `PairRdd.InsertByKey` | src/com/marklogic/spark/examples/MarkLogicWordCount.java:194 | Inserting into a key-sorted sequence keeps it sorted and adds exactly that element. |
| `PairRdd.SortByKey` | src/com/marklogic/spark/examples/MarkLogicWordCount.java:194 | `sortByKey(true)` returns a permutation of its input whose adjacent keys are in `compareTo` order. |
| `PairRdd.Union` | src/com/marklogic/spark/examples/MarkLogicWordCount.java:192 | No contract of its own. `union` is the first map's entries followed by the second's. `SortedValueDistributionSpec` and `SortedValueDistributionKeys` state what reaches the output. |
| `PairRdd.SortedByKeyPairwise` | src/com/marklogic/spark/examples/MarkLogicWordCount.java:194 | In a key-sorted sequence, every earlier key is less than or equal to every later key. |
| `StringOrder.CompareToAntisymmetric` | src/com/marklogic/spark/examples/MarkLogicWordCount.java:194 | `a.compareTo(b) == -b.compareTo(a)`. |
| `StringOrder.CompareToZero` | src/com/marklogic/spark/examples/MarkLogicWordCount.java:194 | `compareTo` is 0 exactly for equal strings. |
| `StringOrder.CompareToTransitive` | src/com/marklogic/spark/examples/MarkLogicWordCount.java:194 | The order `compareTo <= 0` is transitive. |
| `StringOrder.KeyLeTotal` | src/com/marklogic/spark/examples/MarkLogicWordCount.java:194 | Any two keys are comparable. |
| `StringOrder.CompareTo` | src/com/marklogic/spark/examples/MarkLogicWordCount.java:194 | No contract of its own. `String.compareTo` is the difference of the first differing characters, or of the lengths. The `StringOrder` lemmas above carry its properties. |
| `MarkLogicWordCountMain.SortedValueDistributionSpec` | src/com/marklogic/spark/examples/MarkLogicWordCount.java:192-194 | The output is a permutation of the distinct-count map together with the filtered occurrence map. Its keys are in non-decreasing `compareTo` order. |
| `MarkLogicWordCountMain.SortedValueDistributionKeys` | src/com/marklogic/spark/examples/MarkLogicWordCount.java:192-194 | A key occurs in the output once for each branch whose map holds it. Keys are never repeated within a branch, so a key appears twice only when it is both an element name and a relevant composite key. |
| `MarkLogicWordCountMain.SortedValueDistribution` | src/com/marklogic/spark/examples/MarkLogicWordCount.java:192-194 | No contract of its own. It is `union` then `sortByKey(true, 1)`. `SortedValueDistributionSpec` and `SortedValueDistributionKeys` carry its properties. |
| `MarkLogicWordCountMain.WordCountSpec` | src/com/marklogic/spark/examples/MarkLogicWordCount.java:179-194 | The job fails exactly when the extractor throws on some record. Otherwise its output is sorted by key. |
| `MarkLogicWordCountMain.WordCount` | src/com/marklogic/spark/examples/MarkLogicWordCount.java:179-197 | No contract of its own. It is the whole data flow of `main` up to `saveAsTextFile`. `WordCountSpec` and `WordCountExample` carry its properties. |
| `MarkLogicWordCountMain.WordCountExample` | src/com/marklogic/spark/examples/MarkLogicWordCount.java:179-194 | Documents with root children `<a>x</a><b>y</b>` and `<a>x</a><b>z</b>` produce exactly `(a,1)`, `(a:x,2)`, `(b,2)`. |

## Left out

- `WritableSerializer` and `MarkLogicKryoRegistrator` (lines 106-141) are left out. They are reflection-based glue between Kryo and Hadoop `Writable`, and the classes' `write`/`readFields` are not part of this model.
- Spark and Hadoop setup is left out: `SparkConf`, `JavaSparkContext`, the Hadoop `Configuration`, loading the configuration file and creating the `DocumentInputFormat` RDD (lines 150-172). These are external libraries, file I/O and network access. The records become the input sequence of `WordCount`.
- `saveAsTextFile` (line 197) is left out, because it writes to HDFS. `WordCount` returns the sorted sequence that would be written.
- The usage check with `System.exit(0)` (lines 144-147) and the warning printed for a rejected record (line 58) are left out. They are console output and process exit only; a rejected record simply yields no pairs.
- Distributed execution is replaced by sequential sequence semantics: partitioning, shuffling, running the two branches in parallel, and the single partition of `sortByKey(true, 1)`. Spark does not fix the order among entries with equal keys; the reference sort keeps input order for them.
- Java `int` wrap-around in the reducer is not modelled: counts are unbounded integers. This is a simplification.
- `StringOrder.CompareTo` compares Dafny characters (Unicode scalar values), while Java compares UTF-16 code units. The two orders differ only for characters outside the Basic Multilingual Plane.
- The DOM is reduced to document, element, text, CDATA, comment and processing-instruction nodes. A document may hold more than one element child here, which the DOM forbids; `DocumentElement` then takes the first. Attributes, entity references and namespaces are not modelled; an element name is its qualified name as a string.
- `getTextContent()` on a document node returns null in the DOM. Such a node cannot occur below a root element, and the model gives it "".
