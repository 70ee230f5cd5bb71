/** The part of the org.w3c.dom tree that the word-count extractor reads:
    node kinds, element names, child lists and textContent. */
module Dom {
  import opened Wrappers

  datatype Node =
    | Document(children: seq<Node>)
    | Element(name: string, children: seq<Node>)
    | Text(data: string)
    | CData(data: string)
    | Comment(data: string)
    | ProcessingInstruction(target: string, data: string)

  /** DOM textContent. A character-data node (text, CDATA, comment,
      processing instruction) yields its own data; an element yields the
      concatenated textContent of its children, comments and processing
      instructions excepted. The DOM gives null for a document node; it
      never occurs below the root, and is modelled as "". */
  function TextContent(n: Node): string
  {
    match n
    case Document(_) => ""
    case Element(_, cs) => ChildrenText(cs)
    case Text(d) => d
    case CData(d) => d
    case Comment(d) => d
    case ProcessingInstruction(_, d) => d
  }

  /** Concatenated textContent of a child list, skipping comments and
      processing instructions. */
  function ChildrenText(cs: seq<Node>): string
  {
    if cs == [] then ""
    else
      var last := cs[|cs| - 1];
      ChildrenText(cs[..|cs| - 1]) + (if last.Comment? || last.ProcessingInstruction? then "" else TextContent(last))
  }

  /** The textContent of a child list is the children's text in document
      order, so splitting the list splits the text. */
  lemma {:induction false} ChildrenTextConcat(a: seq<Node>, b: seq<Node>)
    ensures ChildrenText(a + b) == ChildrenText(a) + ChildrenText(b)
    decreases |b|
  {
    if b != [] {
      var init, last := b[..|b| - 1], b[|b| - 1];
      assert a + b == (a + init) + [last];
      assert (a + b)[..|a + b| - 1] == a + init && (a + b)[|a + b| - 1] == last;
      ChildrenTextConcat(a, init);
      var t := if last.Comment? || last.ProcessingInstruction? then "" else TextContent(last);
      assert ChildrenText(a + b) == ChildrenText(a + init) + t;
      assert ChildrenText(b) == ChildrenText(init) + t;
    } else {
      assert a + b == a;
    }
  }

  /** A comment or processing-instruction child adds nothing to textContent. */
  lemma ChildrenTextSkipsMarkup(a: seq<Node>, c: Node, b: seq<Node>)
    requires c.Comment? || c.ProcessingInstruction?
    ensures ChildrenText(a + [c] + b) == ChildrenText(a + b)
  {
    ChildrenTextConcat(a + [c], b);
    ChildrenTextConcat(a, [c]);
    ChildrenTextConcat(a, b);
    assert [c][..0] == [];
    assert ChildrenText([c]) == "";
  }

  /** Document.getDocumentElement(): the element child of a document node,
      or None (Java null) when the document has none. A DOM document has at
      most one element child; this tree type allows several, and the model
      then takes the first. */
  function DocumentElement(doc: Node): (r: Option<Node>)
    requires doc.Document?
    ensures r.Some? ==> r.value.Element? && r.value in doc.children
    ensures r.Some? ==>
      exists i :: 0 <= i < |doc.children| && doc.children[i] == r.value && forall j :: 0 <= j < i ==> !doc.children[j].Element?
    ensures r.None? <==> forall c :: c in doc.children ==> !c.Element?
  {
    FirstElement(doc.children)
  }

  /** The first element in a child list. */
  function FirstElement(cs: seq<Node>): (r: Option<Node>)
    ensures r.Some? ==> r.value.Element? && r.value in cs
    ensures r.Some? ==>
      exists i :: 0 <= i < |cs| && cs[i] == r.value && forall j :: 0 <= j < i ==> !cs[j].Element?
    ensures r.None? <==> forall c :: c in cs ==> !c.Element?
  {
    if cs == [] then None
    else if cs[0].Element? then Some(cs[0])
    else FirstElement(cs[1..])
  }
}
