/**
 * The XML read path: `readXmlFile` loads a document and `printXmlElement`
 * walks it in pre-order, printing an indented "Element:" line for every node
 * that has a value and a "Text:" line for every element that has text.
 *
 * The loaded document is abstract: a node carries its value (the tag name of
 * an element, the content of a text or comment node; null for some kinds),
 * whether it is an element, the text `GetText()` reports for it, and its
 * children in sibling order.
 */
module XmlPrinter {
  import opened Wrappers

  datatype Node = Node(value: Option<string>, isElement: bool, text: Option<string>, children: seq<Node>)

  /** One line of output; `depth` is the nesting level, printed as 2 * depth spaces. */
  datatype Line =
    | ElementLine(depth: nat, name: string)
    | TextLine(depth: nat, text: string)
    | ContentsHeader(file: string)
    | ReadError(file: string)      // on the error stream: the load failed
    | NoRootError                  // on the error stream: the document has no first child

  predicate IsError(line: Line) {
    line.ReadError? || line.NoRootError?
  }

  function Spaces(n: nat): (s: string)
    ensures |s| == n && forall i :: 0 <= i < n ==> s[i] == ' '
  {
    if n == 0 then "" else " " + Spaces(n - 1)
  }

  /** The text of a line as it appears on the console (without the newline). */
  function Render(line: Line): (s: string)
    ensures line.ElementLine? || line.TextLine? ==>
              |s| > 2 * line.depth && s[..2 * line.depth] == Spaces(2 * line.depth) && s[2 * line.depth] != ' '
  {
    match line
    case ElementLine(d, name) => Spaces(2 * d) + "Element: " + name
    case TextLine(d, text) => Spaces(2 * d) + "Text: " + text
    case ContentsHeader(file) => "Contents of " + file + ":"
    case ReadError(file) => "Error reading XML file: " + file
    case NoRootError => "Error parsing XML file: No root element."
  }

  /** The lines a node prints about itself, before any of its children. */
  function OwnLines(n: Node, depth: nat): (lines: seq<Line>)
    ensures |lines| <= 2
    ensures forall l :: l in lines ==> (l.ElementLine? || l.TextLine?) && l.depth == depth
  {
    (if n.value.Some? then [ElementLine(depth, n.value.value)] else [])
    + (if n.isElement && n.text.Some? then [TextLine(depth, n.text.value)] else [])
  }

  /** `printXmlElement(node, depth)`: a null node prints nothing. */
  function PrintXmlElement(node: Option<Node>, depth: nat): (lines: seq<Line>)
    ensures node.None? ==> lines == []
    ensures node.Some? ==> OwnLines(node.value, depth) <= lines
  {
    match node
    case None => []
    case Some(n) => PrintNode(n, depth)
  }

  /** The walk of a node that is not null: its own lines, then its children at depth + 1. */
  function PrintNode(n: Node, depth: nat): (lines: seq<Line>)
    ensures forall l :: l in lines ==> (l.ElementLine? || l.TextLine?) && l.depth >= depth
    decreases n, 1
  {
    OwnLines(n, depth) + PrintChildren(n.children, depth + 1)
  }

  /** The children loop over `FirstChild()` / `NextSibling()`, each child at `depth`. */
  function PrintChildren(children: seq<Node>, depth: nat): (lines: seq<Line>)
    ensures forall l :: l in lines ==> (l.ElementLine? || l.TextLine?) && l.depth >= depth
    decreases children, 0
  {
    if children == [] then []
    else PrintNode(children[0], depth) + PrintChildren(children[1..], depth)
  }

  /** What `doc.LoadFile` gives: a failure, or the document's top-level nodes. */
  datatype LoadResult = LoadFailed | Loaded(topLevel: seq<Node>)

  /**
   * `readXmlFile(file)`: only the document's first child is walked; when the
   * load fails or there is no first child a single error line is printed.
   */
  function ReadXmlFile(file: string, load: LoadResult): (lines: seq<Line>)
    ensures load.LoadFailed? ==> lines == [ReadError(file)]
    ensures load.Loaded? && load.topLevel == [] ==> lines == [NoRootError]
  {
    match load
    case LoadFailed => [ReadError(file)]
    case Loaded(topLevel) =>
      if topLevel == [] then [NoRootError]
      else [ContentsHeader(file)] + PrintXmlElement(Some(topLevel[0]), 0)
  }

  // ---------------------------------------------------------------------------
  // Reference definition: the pre-order visit list of a tree

  /** Every node paired with its depth: parent first, then each child's subtree in sibling order. */
  function Preorder(n: Node, depth: nat): (visits: seq<(Node, nat)>)
    ensures |visits| > 0 && visits[0] == (n, depth)
    decreases n, 1
  {
    [(n, depth)] + PreorderChildren(n.children, depth + 1)
  }

  function PreorderChildren(children: seq<Node>, depth: nat): seq<(Node, nat)>
    decreases children, 0
  {
    if children == [] then []
    else Preorder(children[0], depth) + PreorderChildren(children[1..], depth)
  }

  /** The lines each visited node prints about itself, in visit order. */
  function LinesOf(visits: seq<(Node, nat)>): seq<Line>
  {
    if visits == [] then [] else OwnLines(visits[0].0, visits[0].1) + LinesOf(visits[1..])
  }

  lemma {:induction false} LinesOfAppend(a: seq<(Node, nat)>, b: seq<(Node, nat)>)
    ensures LinesOf(a + b) == LinesOf(a) + LinesOf(b)
  {
    if a == [] {
      assert a + b == b;
    } else {
      assert (a + b)[1..] == a[1..] + b;
      LinesOfAppend(a[1..], b);
    }
  }

  /** Every line of a visit list comes from one visited node, printed at that node's depth. */
  lemma {:induction false} LinesOfMember(visits: seq<(Node, nat)>, line: Line)
    requires line in LinesOf(visits)
    ensures exists i :: 0 <= i < |visits| && line in OwnLines(visits[i].0, visits[i].1)
  {
    if line in OwnLines(visits[0].0, visits[0].1) {
      assert line in OwnLines(visits[0].0, visits[0].1);
    } else {
      LinesOfMember(visits[1..], line);
      var j :| 0 <= j < |visits[1..]| && line in OwnLines(visits[1..][j].0, visits[1..][j].1);
      assert visits[1..][j] == visits[j + 1];
    }
  }

  /** `printXmlElement` prints exactly the own lines of the nodes of a pre-order walk. */
  lemma {:induction false} PrintIsPreorder(n: Node, depth: nat)
    ensures PrintNode(n, depth) == LinesOf(Preorder(n, depth))
    decreases n, 1
  {
    var rest := PreorderChildren(n.children, depth + 1);
    PrintChildrenIsPreorder(n.children, depth + 1);
    LinesOfAppend([(n, depth)], rest);
    assert LinesOf([(n, depth)]) == OwnLines(n, depth) by {
      assert [(n, depth)][1..] == [];
    }
  }

  lemma {:induction false} PrintChildrenIsPreorder(children: seq<Node>, depth: nat)
    ensures PrintChildren(children, depth) == LinesOf(PreorderChildren(children, depth))
    decreases children, 0
  {
    if children != [] {
      PrintIsPreorder(children[0], depth);
      PrintChildrenIsPreorder(children[1..], depth);
      LinesOfAppend(Preorder(children[0], depth), PreorderChildren(children[1..], depth));
    }
  }

  /** Below the root every visited node is deeper than the depth the walk started at. */
  lemma {:induction false} PreorderDepths(n: Node, depth: nat)
    ensures forall i :: 0 < i < |Preorder(n, depth)| ==> Preorder(n, depth)[i].1 > depth
    decreases n, 1
  {
    PreorderChildrenDepths(n.children, depth + 1);
  }

  lemma {:induction false} PreorderChildrenDepths(children: seq<Node>, depth: nat)
    ensures forall i :: 0 <= i < |PreorderChildren(children, depth)| ==> PreorderChildren(children, depth)[i].1 >= depth
    decreases children, 0
  {
    if children != [] {
      PreorderDepths(children[0], depth);
      PreorderChildrenDepths(children[1..], depth);
      var a: seq<(Node, nat)>, b: seq<(Node, nat)> := Preorder(children[0], depth), PreorderChildren(children[1..], depth);
      assert PreorderChildren(children, depth) == a + b;
      forall i | 0 <= i < |a + b| ensures (a + b)[i].1 >= depth {
        if i >= |a| { assert (a + b)[i] == b[i - |a|]; }
      }
    }
  }

  /**
   * An "Element:" line names a visited node at the line's depth, and a "Text:"
   * line gives the text of a visited ELEMENT at the line's depth.
   */
  lemma ElementAndTextLinesComeFromNodes(n: Node, depth: nat, line: Line)
    requires line in PrintNode(n, depth)
    ensures var visits := Preorder(n, depth);
            line.ElementLine? ==>
              exists i :: 0 <= i < |visits| && visits[i].1 == line.depth && visits[i].0.value == Some(line.name)
    ensures var visits := Preorder(n, depth);
            line.TextLine? ==>
              exists i :: 0 <= i < |visits| && visits[i].1 == line.depth &&
                          visits[i].0.isElement && visits[i].0.text == Some(line.text)
  {
    PrintIsPreorder(n, depth);
    LinesOfMember(Preorder(n, depth), line);
  }

  /** The root's own lines come first, at exactly the starting depth; every later line is deeper. */
  lemma RootLinesFirst(n: Node, depth: nat)
    ensures OwnLines(n, depth) <= PrintNode(n, depth)
    ensures forall i :: |OwnLines(n, depth)| <= i < |PrintNode(n, depth)| ==> PrintNode(n, depth)[i].depth > depth
  {
    var own: seq<Line>, rest: seq<Line> := OwnLines(n, depth), PrintChildren(n.children, depth + 1);
    forall i | |own| <= i < |own + rest| ensures (own + rest)[i].depth > depth {
      assert (own + rest)[i] == rest[i - |own|];
      assert rest[i - |own|] in rest;
    }
  }

  /**
   * `readXmlFile` prints an error exactly when the load fails or the document
   * has no first child, and then that single error is all it prints; otherwise
   * it prints the header followed by the pre-order walk of the first child only.
   */
  lemma ReadXmlFileOutcome(file: string, load: LoadResult)
    ensures var lines := ReadXmlFile(file, load);
            (exists i :: 0 <= i < |lines| && IsError(lines[i])) <==> (load.LoadFailed? || load.topLevel == [])
    ensures var lines := ReadXmlFile(file, load);
            (load.LoadFailed? || load.topLevel == []) ==> |lines| == 1
    ensures load.Loaded? && load.topLevel != [] ==>
              ReadXmlFile(file, load) == [ContentsHeader(file)] + LinesOf(Preorder(load.topLevel[0], 0))
  {
    var lines := ReadXmlFile(file, load);
    if load.Loaded? && load.topLevel != [] {
      var walk := PrintNode(load.topLevel[0], 0);
      PrintIsPreorder(load.topLevel[0], 0);
      assert lines == [ContentsHeader(file)] + walk;
      forall i | 0 <= i < |lines| ensures !IsError(lines[i]) {
        if i > 0 { assert lines[i] == walk[i - 1]; assert walk[i - 1] in walk; }
      }
    } else {
      assert IsError(lines[0]);
    }
  }

  // ---------------------------------------------------------------------------
  // The first child is not always the root element

  /**
   * A document that opens with an XML declaration: `readXmlFile` walks the
   * declaration, which has no children, and never prints the root element.
   * The element text "hello" is also the `Example` element's text child, as
   * the parser keeps it.
   */
  lemma DeclarationHidesRoot()
    ensures var decl := Node(Some("xml version=\"1.0\""), false, None, []);
            var hello := Node(Some("hello"), false, None, []);
            var root := Node(Some("Root"), true, None, [Node(Some("Example"), true, Some("hello"), [hello])]);
            var lines := ReadXmlFile("notes.xml", Loaded([decl, root]));
            lines == [ContentsHeader("notes.xml"), ElementLine(0, "xml version=\"1.0\"")] &&
            ElementLine(0, "Root") !in lines &&
            ElementLine(0, "Root") in ReadXmlRoot("notes.xml", Loaded([decl, root]))
  {
    var decl := Node(Some("xml version=\"1.0\""), false, None, []);
    var hello := Node(Some("hello"), false, None, []);
    var root := Node(Some("Root"), true, None, [Node(Some("Example"), true, Some("hello"), [hello])]);
    assert FirstElement([decl, root]) == Some(root) by {
      assert [decl, root][1..] == [root];
    }
    assert PrintNode(decl, 0) == [ElementLine(0, "xml version=\"1.0\"")];
    assert PrintNode(root, 0)[0] == ElementLine(0, "Root");
  }

  /** The first top-level node that is an element: the document's root element. */
  function FirstElement(nodes: seq<Node>): (r: Option<Node>)
    ensures r.Some? ==> r.value.isElement && r.value in nodes
    ensures r.None? <==> forall i :: 0 <= i < |nodes| ==> !nodes[i].isElement
  {
    if nodes == [] then None
    else if nodes[0].isElement then Some(nodes[0])
    else FirstElement(nodes[1..])
  }

  /** `readXmlFile` walking the root element, as its "No root element" message intends. */
  function ReadXmlRoot(file: string, load: LoadResult): (lines: seq<Line>)
    ensures load.LoadFailed? ==> lines == [ReadError(file)]
  {
    match load
    case LoadFailed => [ReadError(file)]
    case Loaded(topLevel) =>
      match FirstElement(topLevel)
      case None => [NoRootError]
      case Some(root) => [ContentsHeader(file)] + PrintXmlElement(Some(root), 0)
  }

  /** The first element is preceded only by nodes that are not elements. */
  lemma {:induction false} FirstElementIsFirst(nodes: seq<Node>)
    requires FirstElement(nodes).Some?
    ensures exists k :: 0 <= k < |nodes| && nodes[k] == FirstElement(nodes).value &&
                        forall i :: 0 <= i < k ==> !nodes[i].isElement
  {
    if !nodes[0].isElement {
      FirstElementIsFirst(nodes[1..]);
      var k :| 0 <= k < |nodes[1..]| && nodes[1..][k] == FirstElement(nodes[1..]).value &&
               forall i :: 0 <= i < k ==> !nodes[1..][i].isElement;
      assert nodes[k + 1] == FirstElement(nodes).value;
      forall i | 0 <= i < k + 1 ensures !nodes[i].isElement {
        if i > 0 { assert nodes[i] == nodes[1..][i - 1]; }
      }
    }
  }

  /**
   * The corrected read prints "No root element" exactly when the loaded
   * document has no element at top level, and otherwise the header followed by
   * the pre-order walk of the first top-level element, whatever precedes it.
   */
  lemma ReadXmlRootOutcome(file: string, load: LoadResult)
    ensures load.Loaded? ==>
              (ReadXmlRoot(file, load) == [NoRootError] <==> forall i :: 0 <= i < |load.topLevel| ==> !load.topLevel[i].isElement)
    ensures load.Loaded? && FirstElement(load.topLevel).Some? ==>
              var root := FirstElement(load.topLevel).value;
              root.isElement && root in load.topLevel &&
              ReadXmlRoot(file, load) == [ContentsHeader(file)] + LinesOf(Preorder(root, 0))
  {
    if load.Loaded? && FirstElement(load.topLevel).Some? {
      PrintIsPreorder(FirstElement(load.topLevel).value, 0);
      assert ReadXmlRoot(file, load)[0] == ContentsHeader(file);
    }
  }
}
