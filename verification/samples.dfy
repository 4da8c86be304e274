/**
 Worked documents: parse trees as the grammar shapes them, and the HTML the
 pipeline makes of them under any admissible attribute order.
 */
module Samples {
  import opened Cst
  import opened Ast
  import opened Builder
  import opened Renderer
  import opened Document

  function Leaf(r: Rule, s: string): Pair
  {
    Pair(r, s, [])
  }

  function Attr(k: string, v: string): Pair
  {
    Pair(attribute, k + "=" + v, [Leaf(name, k), Leaf(value, v)])
  }

  /** An admissible order writes no attributes for an empty map. */
  lemma NoKeys(order: KeyOrder, path: Path)
    requires Admissible(order)
    ensures order(path, map[]) == []
  {
    EnumerationSize(order(path, map[]), map[]);
  }

  /** An admissible order writes the one key of a one-key map. */
  lemma OneKey(order: KeyOrder, path: Path, k: string, v: string)
    requires Admissible(order)
    ensures order(path, map[k := v]) == [k]
  {
    var ks := order(path, map[k := v]);
    EnumerationSize(ks, map[k := v]);
    assert ks[0] in map[k := v];
  }

  /** The element names of these documents that are not on the void list. */
  lemma OrdinaryNames()
    ensures !IsVoid("p") && !IsVoid("span") && !IsVoid("a") && !IsVoid("b") && !IsVoid("div")
  {
  }

  /** A source with one top-level element compiles to that element's rendering. */
  lemma CompileOne(p: Pair, h: Hyperlisp, order: KeyOrder)
    requires WfRoot(p) && Admissible(order) && BuildRoot(p) == [h]
    ensures OrderFits(h, order, [0])
    ensures Compile(p, order) == Render(h, order, [0])
  {
    CompileIsJoin(p, order);
  }

  /** A source with two top-level elements compiles to their renderings on two lines. */
  lemma CompileTwo(p: Pair, h1: Hyperlisp, h2: Hyperlisp, s1: string, s2: string, order: KeyOrder)
    requires WfRoot(p) && Admissible(order) && BuildRoot(p) == [h1, h2]
    requires OrderFits(h1, order, [0]) && Render(h1, order, [0]) == s1
    requires OrderFits(h2, order, [1]) && Render(h2, order, [1]) == s2
    ensures Compile(p, order) == s1 + "\n" + s2
  {
    CompileIsJoin(p, order);
    RenderingsTwo(h1, h2, s1, s2, order);
    JoinTwo(s1, s2);
  }

  lemma RenderingsTwo(h1: Hyperlisp, h2: Hyperlisp, s1: string, s2: string, order: KeyOrder)
    requires OrderFits(h1, order, [0]) && Render(h1, order, [0]) == s1
    requires OrderFits(h2, order, [1]) && Render(h2, order, [1]) == s2
    ensures Renderings([h1, h2], order, 0) == [s1, s2]
  {
  }

  lemma JoinTwo(s1: string, s2: string)
    ensures Join([s1, s2]) == s1 + "\n" + s2
  {
    assert [s1, s2][1..] == [s2];
  }

  /** `(p (br))`: a childless void element inside an ordinary one. */
  function VoidChildSource(): Pair
  {
    Pair(root, "(p (br))", [
      Pair(tag, "(p (br))", [Leaf(id, "p"), Pair(body, "(br)", [
        Pair(tag, "(br)", [Leaf(id, "br")])])])])
  }

  lemma BuildVoidChild()
    ensures WfRoot(VoidChildSource())
    ensures BuildRoot(VoidChildSource()) == [Tag("p", map[], [Tag("br", map[], [])])]
  {
    var br := Pair(tag, "(br)", [Leaf(id, "br")]);
    assert BuildTag(br) == Tag("br", map[], []);
    assert BodyItems([br]) == [Tag("br", map[], [])];
  }

  lemma RenderVoidChild(order: KeyOrder)
    requires Admissible(order)
    ensures OrderFits(Tag("p", map[], [Tag("br", map[], [])]), order, [0])
    ensures Render(Tag("p", map[], [Tag("br", map[], [])]), order, [0]) == "<p><br></p>"
  {
    var h := Tag("p", map[], [Tag("br", map[], [])]);
    AdmissibleFits(h, order, [0]);
    NoKeys(order, [0]);
    RenderBr(order);
    RenderParent("p", h.children, order, [0], "<br>");
    PText();
  }

  /** `(br)` as the only child: a void element without children. */
  lemma RenderBr(order: KeyOrder)
    requires Admissible(order)
    ensures OrderFits(Tag("br", map[], []), order, [0] + [0])
    ensures RenderChildren([Tag("br", map[], [])], order, [0], 0) == "<br>"
  {
    assert [0] + [0] == [0, 0];
    AdmissibleFits(Tag("br", map[], []), order, [0, 0]);
    NoKeys(order, [0, 0]);
    assert AttrText(map[], []) == "";
    assert IsVoid("br");
    assert Render(Tag("br", map[], []), order, [0, 0]) == RenderTag("br", map[], [], order, [0, 0]) == "<br>";
  }

  /** The final string equality, kept apart from `RenderVoidChild` because it is
      cheaper to prove on its own. */
  lemma PText()
    ensures "<" + "p" + "" + ">" + "<br>" + ("</" + "p" + ">") == "<p><br></p>"
  {
  }

  lemma VoidChild(order: KeyOrder)
    requires Admissible(order)
    ensures WfRoot(VoidChildSource())
    ensures Compile(VoidChildSource(), order) == "<p><br></p>"
  {
    BuildVoidChild();
    RenderVoidChild(order);
    CompileOne(VoidChildSource(), Tag("p", map[], [Tag("br", map[], [])]), order);
  }

  /** `(img (span "x"))`: children force the end tag even on a void name. */
  function VoidWithChildrenSource(): Pair
  {
    Pair(root, "(img (span \"x\"))", [
      Pair(tag, "(img (span \"x\"))", [Leaf(id, "img"), Pair(body, "(span \"x\")", [
        Pair(tag, "(span \"x\")", [Leaf(id, "span"), Pair(body, "\"x\"", [Leaf(text, "x")])])])])])
  }

  lemma BuildVoidWithChildren()
    ensures WfRoot(VoidWithChildrenSource())
    ensures BuildRoot(VoidWithChildrenSource()) == [Tag("img", map[], [Tag("span", map[], [Text("x")])])]
  {
    var span := Pair(tag, "(span \"x\")", [Leaf(id, "span"), Pair(body, "\"x\"", [Leaf(text, "x")])]);
    assert BodyItems([Leaf(text, "x")]) == [Text("x")];
    assert BuildTag(span) == Tag("span", map[], [Text("x")]);
    assert BodyItems([span]) == [Tag("span", map[], [Text("x")])];
  }

  lemma RenderSpan(order: KeyOrder)
    requires Admissible(order)
    ensures OrderFits(Tag("span", map[], [Text("x")]), order, [0, 0])
    ensures Render(Tag("span", map[], [Text("x")]), order, [0, 0]) == "<span>x</span>"
  {
    AdmissibleFits(Tag("span", map[], [Text("x")]), order, [0, 0]);
    NoKeys(order, [0, 0]);
    OrdinaryNames();
    assert RenderChildren([Text("x")], order, [0, 0], 0) == "x";
  }

  lemma RenderSpanChild(order: KeyOrder)
    requires Admissible(order)
    ensures OrderFits(Tag("span", map[], [Text("x")]), order, [0] + [0])
    ensures RenderChildren([Tag("span", map[], [Text("x")])], order, [0], 0) == "<span>x</span>"
  {
    RenderSpan(order);
    assert [0] + [0] == [0, 0];
  }

  lemma RenderVoidWithChildren(order: KeyOrder)
    requires Admissible(order)
    ensures OrderFits(Tag("img", map[], [Tag("span", map[], [Text("x")])]), order, [0])
    ensures Render(Tag("img", map[], [Tag("span", map[], [Text("x")])]), order, [0]) == "<img><span>x</span></img>"
  {
    AdmissibleFits(Tag("img", map[], [Tag("span", map[], [Text("x")])]), order, [0]);
    NoKeys(order, [0]);
    RenderSpanChild(order);
    RenderParent("img", [Tag("span", map[], [Text("x")])], order, [0], "<span>x</span>");
    ImgText();
  }

  /** An element without attributes but with children: start tag, the
      children's text, end tag, whatever the name. */
  lemma RenderParent(i: string, b: seq<Hyperlisp>, order: KeyOrder, path: Path, inner: string)
    requires OrderFits(Tag(i, map[], b), order, path) && order(path, map[]) == [] && |b| > 0
    requires RenderChildren(b, order, path, 0) == inner
    ensures Render(Tag(i, map[], b), order, path) == "<" + i + "" + ">" + inner + ("</" + i + ">")
  {
    assert AttrText(map[], []) == "";
    assert Render(Tag(i, map[], b), order, path) == RenderTag(i, map[], b, order, path);
  }

  /** The final string equality, kept apart from `RenderVoidWithChildren`
      because it is cheaper to prove on its own. */
  lemma ImgText()
    ensures "<" + "img" + "" + ">" + "<span>x</span>" + ("</" + "img" + ">") == "<img><span>x</span></img>"
  {
  }

  lemma VoidWithChildren(order: KeyOrder)
    requires Admissible(order)
    ensures WfRoot(VoidWithChildrenSource())
    ensures Compile(VoidWithChildrenSource(), order) == "<img><span>x</span></img>"
  {
    BuildVoidWithChildren();
    RenderVoidWithChildren(order);
    CompileOne(VoidWithChildrenSource(), Tag("img", map[], [Tag("span", map[], [Text("x")])]), order);
  }

  /** `(a)`, a comment, then `(b)`: one line per element, the comment gone (the
      spans of the root and the comment play no part in the output). */
  function TwoLinesSource(): Pair
  {
    Pair(root, "", [Pair(tag, "(a)", [Leaf(id, "a")]), Leaf(comment, ""), Pair(tag, "(b)", [Leaf(id, "b")])])
  }

  lemma BuildTwoLines()
    ensures WfRoot(TwoLinesSource())
    ensures BuildRoot(TwoLinesSource()) == [Tag("a", map[], []), Tag("b", map[], [])]
  {
    assert BuildTag(Pair(tag, "(a)", [Leaf(id, "a")])) == Tag("a", map[], []);
    assert BuildTag(Pair(tag, "(b)", [Leaf(id, "b")])) == Tag("b", map[], []);
  }

  lemma RenderEmpty(i: string, order: KeyOrder, path: Path)
    requires Admissible(order) && !IsVoid(i)
    ensures OrderFits(Tag(i, map[], []), order, path)
    ensures Render(Tag(i, map[], []), order, path) == "<" + i + "></" + i + ">"
  {
    NoKeys(order, path);
  }

  lemma RenderTwoLines(order: KeyOrder)
    requires Admissible(order)
    ensures OrderFits(Tag("a", map[], []), order, [0]) && Render(Tag("a", map[], []), order, [0]) == "<a></a>"
    ensures OrderFits(Tag("b", map[], []), order, [1]) && Render(Tag("b", map[], []), order, [1]) == "<b></b>"
  {
    OrdinaryNames();
    RenderEmpty("a", order, [0]);
    RenderEmpty("b", order, [1]);
  }

  lemma TwoLines(order: KeyOrder)
    requires Admissible(order)
    ensures WfRoot(TwoLinesSource())
    ensures Compile(TwoLinesSource(), order) == "<a></a>\n<b></b>"
  {
    BuildTwoLines();
    RenderTwoLines(order);
    CompileTwo(TwoLinesSource(), Tag("a", map[], []), Tag("b", map[], []), "<a></a>", "<b></b>", order);
    TwoLinesText();
  }

  /** The final string equality, kept apart from `TwoLines` because it is cheaper
      to prove on its own. */
  lemma TwoLinesText()
    ensures "<a></a>" + "\n" + "<b></b>" == "<a></a>\n<b></b>"
  {
  }

  /** `(div class=box "text")`: one attribute and a text body. */
  function AttributeAndTextSource(): Pair
  {
    Pair(root, "(div class=box \"text\")", [
      Pair(tag, "(div class=box \"text\")", [Leaf(id, "div"), Attr("class", "box"),
        Pair(body, "\"text\"", [Leaf(text, "text")])])])
  }

  lemma BuildAttributeAndText()
    ensures WfRoot(AttributeAndTextSource())
    ensures BuildRoot(AttributeAndTextSource()) == [Tag("div", map["class" := "box"], [Text("text")])]
  {
    var t := AttributeAndTextSource().inner[0];
    assert ScanAttributes(t, 1, map[]) == (map["class" := "box"], 2);
    assert BodyItems([Leaf(text, "text")]) == [Text("text")];
  }

  lemma ClassBox(order: KeyOrder)
    requires Admissible(order)
    ensures forall k :: k in order([0], map["class" := "box"]) ==> k in map["class" := "box"]
    ensures AttrText(map["class" := "box"], order([0], map["class" := "box"])) == " class=\"box\""
  {
    OneKey(order, [0], "class", "box");
    assert Fragment("class", "box") == " class=\"box\"";
  }

  lemma RenderAttributeAndText(order: KeyOrder)
    requires Admissible(order)
    ensures OrderFits(Tag("div", map["class" := "box"], [Text("text")]), order, [0])
    ensures Render(Tag("div", map["class" := "box"], [Text("text")]), order, [0]) == "<div class=\"box\">text</div>"
  {
    var a := map["class" := "box"];
    AdmissibleFits(Tag("div", a, [Text("text")]), order, [0]);
    ClassBox(order);
    OrdinaryNames();
    assert RenderChildren([Text("text")], order, [0], 0) == "text";
    assert RenderTag("div", a, [Text("text")], order, [0]) == "<div" + " class=\"box\"" + ">" + "text" + "</div>";
    DivText();
  }

  /** The final string equality, kept apart from `RenderAttributeAndText`
      because it is cheaper to prove on its own. */
  lemma DivText()
    ensures "<div" + " class=\"box\"" + ">" + "text" + "</div>" == "<div class=\"box\">text</div>"
  {
  }

  lemma AttributeAndText(order: KeyOrder)
    requires Admissible(order)
    ensures WfRoot(AttributeAndTextSource())
    ensures Compile(AttributeAndTextSource(), order) == "<div class=\"box\">text</div>"
  {
    BuildAttributeAndText();
    RenderAttributeAndText(order);
    CompileOne(AttributeAndTextSource(), Tag("div", map["class" := "box"], [Text("text")]), order);
  }

  /** `(img src=a)`: attributes and no body, so the body step runs on the last
      attribute, finds its name first and yields nothing; no end tag. */
  function AttributesOnlySource(): Pair
  {
    Pair(root, "(img src=a)", [Pair(tag, "(img src=a)", [Leaf(id, "img"), Attr("src", "a")])])
  }

  lemma BuildAttributesOnly()
    ensures WfRoot(AttributesOnlySource())
    ensures BuildRoot(AttributesOnlySource()) == [Tag("img", map["src" := "a"], [])]
  {
    var t := AttributesOnlySource().inner[0];
    assert ScanAttributes(t, 1, map[]) == (map["src" := "a"], 1);
    assert BuildBody(Attr("src", "a")) == [];
  }

  lemma RenderAttributesOnly(order: KeyOrder)
    requires Admissible(order)
    ensures OrderFits(Tag("img", map["src" := "a"], []), order, [0])
    ensures Render(Tag("img", map["src" := "a"], []), order, [0]) == "<img src=\"a\">"
  {
    var a := map["src" := "a"];
    OneKey(order, [0], "src", "a");
    assert Fragment("src", "a") == " src=\"a\"";
    assert AttrText(a, ["src"]) == " src=\"a\"";
    assert IsVoid("img");
    assert RenderTag("img", a, [], order, [0]) == "<img" + " src=\"a\"" + ">";
  }

  lemma AttributesOnly(order: KeyOrder)
    requires Admissible(order)
    ensures WfRoot(AttributesOnlySource())
    ensures Compile(AttributesOnlySource(), order) == "<img src=\"a\">"
  {
    BuildAttributesOnly();
    RenderAttributesOnly(order);
    CompileOne(AttributesOnlySource(), Tag("img", map["src" := "a"], []), order);
  }

  /** `(a x=1 x=2)`: a repeated key keeps its last value. */
  function RepeatedKeySource(): Pair
  {
    Pair(root, "(a x=1 x=2)", [Pair(tag, "(a x=1 x=2)", [Leaf(id, "a"), Attr("x", "1"), Attr("x", "2")])])
  }

  lemma BuildRepeatedKey()
    ensures WfRoot(RepeatedKeySource())
    ensures BuildRoot(RepeatedKeySource()) == [Tag("a", map["x" := "2"], [])]
  {
    var t := RepeatedKeySource().inner[0];
    assert Key(t.inner[2]) == "x" && Val(t.inner[2]) == "2";
    assert map["x" := "1"]["x" := "2"] == map["x" := "2"];
    assert ScanAttributes(t, 2, map["x" := "1"]) == (map["x" := "2"], 2);
    assert ScanAttributes(t, 1, map[]) == (map["x" := "2"], 2);
    assert BuildBody(Attr("x", "2")) == [];
  }

  lemma RenderRepeatedKey(order: KeyOrder)
    requires Admissible(order)
    ensures OrderFits(Tag("a", map["x" := "2"], []), order, [0])
    ensures Render(Tag("a", map["x" := "2"], []), order, [0]) == "<a x=\"2\"></a>"
  {
    var a := map["x" := "2"];
    OneKey(order, [0], "x", "2");
    assert Fragment("x", "2") == " x=\"2\"";
    assert AttrText(a, ["x"]) == " x=\"2\"";
    OrdinaryNames();
    RenderChildless("a", a, order, [0], " x=\"2\"");
    XText();
  }

  /** A childless ordinary element: its start tag, then at once its end tag. */
  lemma RenderChildless(i: string, a: map<string, string>, order: KeyOrder, path: Path, attrs: string)
    requires OrderFits(Tag(i, a, []), order, path) && !IsVoid(i)
    requires AttrText(a, order(path, a)) == attrs
    ensures Render(Tag(i, a, []), order, path) == "<" + i + attrs + ">" + "</" + i + ">"
  {
    assert RenderChildren([], order, path, 0) == "";
    assert Render(Tag(i, a, []), order, path) == RenderTag(i, a, [], order, path);
  }

  /** The final string equality, kept apart from `RenderRepeatedKey` because it
      is cheaper to prove on its own. */
  lemma XText()
    ensures "<" + "a" + " x=\"2\"" + ">" + "</" + "a" + ">" == "<a x=\"2\"></a>"
  {
  }

  lemma RepeatedKey(order: KeyOrder)
    requires Admissible(order)
    ensures WfRoot(RepeatedKeySource())
    ensures Compile(RepeatedKeySource(), order) == "<a x=\"2\"></a>"
  {
    BuildRepeatedKey();
    RenderRepeatedKey(order);
    CompileOne(RepeatedKeySource(), Tag("a", map["x" := "2"], []), order);
  }
}
