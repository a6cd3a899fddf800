/** The tree-cleaning steps of `clean_markdown_file` (dataPrimer.py),
    applied to an already parsed document. Parsing (markdown to HTML, then
    the HTML parser) is not modelled; the document arrives as a forest. */
module HtmlTree {
  import opened Strings

  /** A parsed document node. `Other` stands for comments, doctype and
      processing-instruction strings, which `get_text()` leaves out. */
  datatype Node =
    | Text(text: string)
    | Other(text: string)
    | Element(name: string, attrs: map<string, string>, children: seq<Node>)

  /** `get_text()`: the text leaves of a forest in document order. */
  function GetText(ns: seq<Node>): string
    decreases ns
  {
    if ns == [] then "" else NodeText(ns[0]) + GetText(ns[1..])
  }

  function NodeText(n: Node): string
    decreases n
  {
    match n
    case Text(t) => t
    case Other(_) => ""
    case Element(_, _, cs) => GetText(cs)
  }

  /** Every node of the forest, at any depth, satisfies `ok`. */
  predicate All(ns: seq<Node>, ok: Node -> bool)
    decreases ns
  {
    ns == [] ||
    (ok(ns[0]) && (ns[0].Element? ==> All(ns[0].children, ok)) && All(ns[1..], ok))
  }

  lemma GetTextCons(x: Node, ys: seq<Node>)
    ensures GetText([x] + ys) == NodeText(x) + GetText(ys)
  {
    assert ([x] + ys)[0] == x;
    assert ([x] + ys)[1..] == ys;
  }

  lemma AllCons(x: Node, ys: seq<Node>, ok: Node -> bool)
    ensures All([x] + ys, ok) <==> ok(x) && (x.Element? ==> All(x.children, ok)) && All(ys, ok)
  {
    assert ([x] + ys)[0] == x;
    assert ([x] + ys)[1..] == ys;
  }

  // ---------------------------------------------------------------------
  // Deleting subtrees (lines 113-123)

  /** The three deletion passes, in program order. */
  datatype Removal = NoiseTags | RedirectLinks | EmbeddedObjects

  /** Whether a pass decomposes `n`: scripts, styles and noscript blocks;
      anchors with an `href` holding `redirect`; iframes, objects, embeds. */
  predicate Removes(step: Removal, n: Node) {
    n.Element? &&
    match step
    case NoiseTags => n.name in {"script", "style", "noscript"}
    case RedirectLinks => n.name == "a" && "href" in n.attrs && Contains(n.attrs["href"], "redirect")
    case EmbeddedObjects => n.name in {"iframe", "object", "embed"}
  }

  /** No node the pass would delete remains, at any depth. */
  predicate Free(ns: seq<Node>, step: Removal) {
    All(ns, (n: Node) => !Removes(step, n))
  }

  /** One deletion pass: every node the pass matches is removed with its
      whole subtree; everything else keeps its place. */
  function Prune(ns: seq<Node>, step: Removal): seq<Node>
    decreases ns
  {
    if ns == [] then []
    else
      var rest := Prune(ns[1..], step);
      if Removes(step, ns[0]) then rest
      else match ns[0]
        case Element(name, attrs, cs) => [Element(name, attrs, Prune(cs, step))] + rest
        case _ => [ns[0]] + rest
  }

  /** After a pass nothing it matches is left. */
  lemma {:induction false} PruneFree(ns: seq<Node>, step: Removal)
    ensures Free(Prune(ns, step), step)
    decreases ns
  {
    if ns != [] {
      PruneFree(ns[1..], step);
      if !Removes(step, ns[0]) && ns[0].Element? {
        PruneFree(ns[0].children, step);
      }
    }
  }

  /** A pass deletes nothing the other passes would need to find again:
      a forest free of one pass's matches stays free of them after any pass. */
  lemma {:induction false} PruneKeepsFree(ns: seq<Node>, step: Removal, other: Removal)
    requires Free(ns, other)
    ensures Free(Prune(ns, step), other)
    decreases ns
  {
    if ns != [] {
      PruneKeepsFree(ns[1..], step, other);
      if !Removes(step, ns[0]) && ns[0].Element? {
        PruneKeepsFree(ns[0].children, step, other);
      }
    }
  }

  /** A pass leaves a forest unchanged exactly when it matches nothing in it. */
  lemma {:induction false} PruneUnchanged(ns: seq<Node>, step: Removal)
    ensures Prune(ns, step) == ns <==> Free(ns, step)
    decreases ns
  {
    if ns != [] {
      PruneUnchanged(ns[1..], step);
      if Free(ns, step) {
        if ns[0].Element? {
          PruneUnchanged(ns[0].children, step);
        }
      } else if Prune(ns, step) == ns {
        PruneFree(ns, step);
        assert false;
      }
    }
  }

  // ---------------------------------------------------------------------
  // Flattening paragraphs and list items (lines 126-132)

  /** `tag.string = tag.get_text()`: the children become one text node
      holding the element's former text. */
  function Flatten(n: Node): (r: Node)
    requires n.Element?
    ensures r.Element? && r.name == n.name && r.attrs == n.attrs
    ensures NodeText(r) == NodeText(n)
  {
    var leaf := Text(GetText(n.children));
    assert [leaf] == [leaf] + [];
    GetTextCons(leaf, []);
    Element(n.name, n.attrs, [leaf])
  }

  /** An element whose only child is one text node. */
  predicate IsFlat(n: Node) {
    n.Element? && |n.children| == 1 && n.children[0].Text?
  }

  /** Lines 126-127. `find_all('p')` lists paragraphs in document order, so
      an outer paragraph is flattened first and the ones inside it go with
      its old children. */
  function FlattenParagraphs(ns: seq<Node>): seq<Node>
    decreases ns
  {
    if ns == [] then []
    else
      var head := match ns[0]
        case Element(name, attrs, cs) =>
          if name == "p" then Flatten(ns[0]) else Element(name, attrs, FlattenParagraphs(cs))
        case _ => ns[0];
      [head] + FlattenParagraphs(ns[1..])
  }

  /** Lines 130-132. Every `li` with a `ul` ancestor is flattened, the
      outermost first; `inList` says whether a `ul` encloses the forest. */
  function FlattenItems(ns: seq<Node>, inList: bool): seq<Node>
    decreases ns
  {
    if ns == [] then []
    else
      var head := match ns[0]
        case Element(name, attrs, cs) =>
          if name == "li" && inList then Flatten(ns[0])
          else Element(name, attrs, FlattenItems(cs, inList || name == "ul"))
        case _ => ns[0];
      [head] + FlattenItems(ns[1..], inList)
  }

  /** Every paragraph, at any depth, is flat. */
  predicate ParagraphsFlat(ns: seq<Node>) {
    All(ns, (n: Node) => n.Element? && n.name == "p" ==> IsFlat(n))
  }

  /** Every `li` below a `ul` (or below the enclosing one when `inList`) is flat. */
  predicate ItemsFlat(ns: seq<Node>, inList: bool)
    decreases ns
  {
    ns == [] ||
    ((match ns[0]
      case Element(name, _, cs) =>
        if name == "li" && inList then IsFlat(ns[0]) else ItemsFlat(cs, inList || name == "ul")
      case _ => true)
     && ItemsFlat(ns[1..], inList))
  }

  lemma {:induction false} FlattenParagraphsText(ns: seq<Node>)
    ensures GetText(FlattenParagraphs(ns)) == GetText(ns)
    decreases ns
  {
    if ns != [] {
      FlattenParagraphsText(ns[1..]);
      GetTextCons(FlattenParagraphs(ns)[0], FlattenParagraphs(ns[1..]));
      if ns[0].Element? && ns[0].name != "p" {
        FlattenParagraphsText(ns[0].children);
      }
    }
  }

  lemma {:induction false} FlattenItemsText(ns: seq<Node>, inList: bool)
    ensures GetText(FlattenItems(ns, inList)) == GetText(ns)
    decreases ns
  {
    if ns != [] {
      FlattenItemsText(ns[1..], inList);
      GetTextCons(FlattenItems(ns, inList)[0], FlattenItems(ns[1..], inList));
      if ns[0].Element? && !(ns[0].name == "li" && inList) {
        FlattenItemsText(ns[0].children, inList || ns[0].name == "ul");
      }
    }
  }

  lemma {:induction false} FlattenParagraphsFlat(ns: seq<Node>)
    ensures ParagraphsFlat(FlattenParagraphs(ns))
    decreases ns
  {
    if ns != [] {
      FlattenParagraphsFlat(ns[1..]);
      if ns[0].Element? && ns[0].name != "p" {
        FlattenParagraphsFlat(ns[0].children);
      }
    }
  }

  lemma {:induction false} FlattenItemsFlat(ns: seq<Node>, inList: bool)
    ensures ItemsFlat(FlattenItems(ns, inList), inList)
    decreases ns
  {
    if ns != [] {
      FlattenItemsFlat(ns[1..], inList);
      if ns[0].Element? && !(ns[0].name == "li" && inList) {
        FlattenItemsFlat(ns[0].children, inList || ns[0].name == "ul");
      }
    }
  }

  /** Flattening the list items does not undo the flat paragraphs. */
  lemma {:induction false} FlattenItemsKeepsParagraphs(ns: seq<Node>, inList: bool)
    requires ParagraphsFlat(ns)
    ensures ParagraphsFlat(FlattenItems(ns, inList))
    decreases ns
  {
    if ns != [] {
      var ok := (n: Node) => n.Element? && n.name == "p" ==> IsFlat(n);
      var out := FlattenItems(ns, inList);
      FlattenItemsKeepsParagraphs(ns[1..], inList);
      AllCons(ns[0], ns[1..], ok);
      AllCons(out[0], FlattenItems(ns[1..], inList), ok);
      assert out == [out[0]] + FlattenItems(ns[1..], inList);
      if ns[0].Element? && !(ns[0].name == "li" && inList) {
        var cs := ns[0].children;
        var inner := inList || ns[0].name == "ul";
        FlattenItemsKeepsParagraphs(cs, inner);
        if ns[0].name == "p" {
          assert FlattenItems(cs, inner) == [cs[0]] + FlattenItems(cs[1..], inner);
          assert cs[1..] == [];
        }
      }
    }
  }

  /** Flattening brings back nothing a deletion pass removed. */
  lemma {:induction false} FlattenParagraphsKeepsFree(ns: seq<Node>, step: Removal)
    requires Free(ns, step)
    ensures Free(FlattenParagraphs(ns), step)
    decreases ns
  {
    if ns != [] {
      FlattenParagraphsKeepsFree(ns[1..], step);
      if ns[0].Element? && ns[0].name != "p" {
        FlattenParagraphsKeepsFree(ns[0].children, step);
      }
    }
  }

  lemma {:induction false} FlattenItemsKeepsFree(ns: seq<Node>, inList: bool, step: Removal)
    requires Free(ns, step)
    ensures Free(FlattenItems(ns, inList), step)
    decreases ns
  {
    if ns != [] {
      FlattenItemsKeepsFree(ns[1..], inList, step);
      if ns[0].Element? && !(ns[0].name == "li" && inList) {
        FlattenItemsKeepsFree(ns[0].children, inList || ns[0].name == "ul", step);
      }
    }
  }

  // ---------------------------------------------------------------------
  // The whole cleaning (lines 113-135)

  /** The three deletion passes in program order. */
  function Pruned(ns: seq<Node>): seq<Node> {
    Prune(Prune(Prune(ns, NoiseTags), RedirectLinks), EmbeddedObjects)
  }

  /** The cleaned tree: deletions, then paragraphs, then list items. */
  function Cleaned(ns: seq<Node>): seq<Node> {
    FlattenItems(FlattenParagraphs(Pruned(ns)), false)
  }

  /** `soup.get_text()` after the cleaning steps. */
  function CleanText(ns: seq<Node>): string {
    GetText(Cleaned(ns))
  }

  /** What the cleaning guarantees: no deleted kind of node survives, every
      paragraph and every list item under a `ul` is one text node, and the
      flattening loses no text, so the output is the text of what survives
      the deletions. */
  lemma CleanedContract(ns: seq<Node>)
    ensures Free(Cleaned(ns), NoiseTags)
    ensures Free(Cleaned(ns), RedirectLinks)
    ensures Free(Cleaned(ns), EmbeddedObjects)
    ensures ParagraphsFlat(Cleaned(ns))
    ensures ItemsFlat(Cleaned(ns), false)
    ensures CleanText(ns) == GetText(Pruned(ns))
  {
    var p1 := Prune(ns, NoiseTags);
    var p2 := Prune(p1, RedirectLinks);
    var p3 := Prune(p2, EmbeddedObjects);
    PruneFree(ns, NoiseTags);
    PruneKeepsFree(p1, RedirectLinks, NoiseTags);
    PruneKeepsFree(p2, EmbeddedObjects, NoiseTags);
    PruneFree(p1, RedirectLinks);
    PruneKeepsFree(p2, EmbeddedObjects, RedirectLinks);
    PruneFree(p2, EmbeddedObjects);
    var f := FlattenParagraphs(p3);
    forall step: Removal ensures Free(Cleaned(ns), step) {
      FlattenParagraphsKeepsFree(p3, step);
      FlattenItemsKeepsFree(f, false, step);
    }
    FlattenParagraphsFlat(p3);
    FlattenItemsKeepsParagraphs(f, false);
    FlattenItemsFlat(f, false);
    FlattenParagraphsText(p3);
    FlattenItemsText(f, false);
  }

  /** One pass over the example's paragraph changes nothing. */
  lemma ExampleParagraphSurvives(step: Removal)
    ensures Prune([Element("p", map[], [Text("Hello "), Element("b", map[], [Text("World")])])], step)
      == [Element("p", map[], [Text("Hello "), Element("b", map[], [Text("World")])])]
  {
    var w := Text("World");
    var b := Element("b", map[], [w]);
    var h := Text("Hello ");
    var p := Element("p", map[], [h, b]);
    assert [w][1..] == [] && [b][1..] == [] && [p][1..] == [] && [h, b][1..] == [b];
    assert Prune([w], step) == [w];
    assert Prune([b], step) == [b];
    assert Prune([h, b], step) == [h, b];
  }

  /** `<script>evil()</script><p>Hello <b>World</b></p>`: the script goes,
      the paragraph's nested markup collapses, and the text is `Hello World`. */
  lemma CleaningExample()
    ensures CleanText([
      Element("script", map[], [Text("evil()")]),
      Element("p", map[], [Text("Hello "), Element("b", map[], [Text("World")])])
    ]) == "Hello World"
  {
    var w := Text("World");
    var b := Element("b", map[], [w]);
    var h := Text("Hello ");
    var p := Element("p", map[], [h, b]);
    var script := Element("script", map[], [Text("evil()")]);
    var doc := [script, p];
    assert Prune(doc, NoiseTags) == [p] by {
      assert Removes(NoiseTags, script);
      assert doc[1..] == [p];
      ExampleParagraphSurvives(NoiseTags);
    }
    ExampleParagraphSurvives(RedirectLinks);
    ExampleParagraphSurvives(EmbeddedObjects);
    assert Pruned(doc) == [p];
    CleanedContract(doc);
    assert GetText([p]) == "Hello World" by {
      assert [w][1..] == [] && [b][1..] == [] && [p][1..] == [] && [h, b][1..] == [b];
      assert GetText([w]) == "World";
      assert GetText([b]) == "World";
      assert GetText([h, b]) == "Hello World";
    }
  }
}
