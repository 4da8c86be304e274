# Hyperlisp to HTML, modelled in Dafny

Hyperlisp is a Lisp-flavoured markup language. A document is a sequence of
parenthesised tags and comments. A tag such as `(div class=box (p "hi"))` has an
identifier, zero or more `name=value` attributes and an optional body of
nested tags, text runs and comments. The compiler in `src/main.rs` turns such a
document into HTML in three stages:

1. the pest parser produces a concrete parse tree;
2. `root`, `tag` and `body` fold that tree into the `Hyperlisp` enum;
3. the enum's `Display` implementation writes HTML, and `main` joins the
   top-level elements.

This project models stages 2 and 3 and the assembly in `main`.

- `cst.dfy` (module `Cst`) models the parse tree.
  - A `Pair` is a rule kind, the exact slice of source it matched, and its
    sub-matches.
  - Predicates state the shapes the grammar allows, as the comments at
    `src/main.rs:88`, `:101` and `:125` describe them.
  - The builder's `unwrap()` and `unreachable!()` calls become preconditions
    on these shapes.
- `ast.dfy` (module `Ast`) models the `Hyperlisp` tree and the list of void
  element names.
- `builder.dfy` (module `Builder`) models `root`, `tag` and `body`. Their loops
  are recursive functions over the children, and lemmas state what they
  compute:
  - the attribute map holds exactly the attribute names written, and a
    repeated name keeps the last value;
  - children are the non-comment body items, in order;
  - comments never leave a trace.
- `render.dfy` (module `Renderer`) models `Display::fmt`.
  - `Render` takes the attribute order as a parameter; see "Attribute order"
    below.
  - It proves the end-tag rule as an if-and-only-if.
  - It proves that two attribute orders can only permute the characters of
    the output.
  - It proves that the order cannot show at all when no tag has two
    attributes.
- `document.dfy` (module `Document`) models the assembly in `main`. Each
  top-level rendering gets `"\n"` appended, the results are concatenated, and
  the text is trimmed with `trim_matches('\n')`. It proves this equals joining
  the renderings with single newlines.
- `samples.dfy` (module `Samples`) compiles six small documents and proves
  the HTML each one produces under every admissible attribute order.

## Attribute order

The program keeps attributes in a `std::collections::HashMap` and writes them
in its iteration order. That order is unspecified. With the default randomly
seeded hasher, it can differ between runs of the same program on the same
input.

`Render` therefore takes a `KeyOrder`: a function from a node's position and
its attribute map to the list of keys, in the order they are written.

- `OrderFits` requires only that each such list names every key of its map
  exactly once.
- `Admissible` requires the same for every position and every map.

The position argument lets different tags with equal maps be written in
different orders, as separate `HashMap` instances may be.

Because of this, the output for a tag with two or more attributes is not
determined by the input. `RenderAnagram` proves that any two orders give the
same multiset of characters. `RenderDeterministic` proves that they give the
same text when no tag has more than one attribute.

## The `name` arm of `body`

`body` has an arm `Rule::name => return result` (`src/main.rs:132`). That arm
may look unreachable, but it is not.

1. When a tag has attributes and no body, the attribute loop of `tag` breaks
   on the last attribute pair.
2. `tag` then passes that attribute pair to `body`.
3. The pair's first child is its `name`, so `body` returns an empty vector
   straight away.

The model keeps this path: `BuildBody` accepts an attribute pair and
`BodyItems` has the `name` arm. `BuildBody`'s contract states the resulting
empty child list, and `Samples.AttributesOnly` shows the path end to end.

## Model

| member | source | states |
|---|---|---|
| Cst.TagChild | src/main.rs:101-121 | In a grammatical tag, every child after the identifier is a well-formed attribute, except that the last child may be the body instead. So the attribute loop can always take a name and a value, and whatever it stops at is a body or an attribute. |
| Builder.BuildRoot | src/main.rs:87-98 | `root` yields exactly one element per non-comment child of the root, and every element it yields is a tag. |
| Builder.RootItems | src/main.rs:89-97 | The k-th element `root` yields is the tag built from the k-th non-comment child, in source order. |
| Builder.RootCommentsIgnored | src/main.rs:92 | Removing the comments from the root beforehand does not change `root`'s result. |
| Builder.BuildTag | src/main.rs:100-122 | A built tag is named by its identifier's text. A bare `(id)` has no attributes and no children. A tag without a body has no children. A tag with a body has the children `body` builds from it. |
| Builder.ScanAttributes | src/main.rs:110-120 | The attribute loop always stops at the tag's last child: either its body or its last attribute. |
| Builder.ScanAttributesKeys | src/main.rs:110-120 | The attribute loop adds to the map exactly the names of the attributes it passes, and removes nothing. |
| Builder.ScanAttributesKeeps | src/main.rs:114 | An existing entry whose name no remaining attribute carries keeps its value through the loop. |
| Builder.ScanAttributesLatest | src/main.rs:110-120 | After the loop, each name maps to the value of the last attribute with that name, because a `HashMap` insert overwrites. |
| Builder.TagAttributes | src/main.rs:104-121 | A built tag's attribute keys are exactly the attribute names written in the tag. Each key maps to the value of its last occurrence. |
| Builder.BuildBody | src/main.rs:124-137 | `body` applied to an attribute pair (a tag with attributes but no body) yields no children, because its first child is the `name`. |
| Builder.BodyItems | src/main.rs:126-136 | Handed an attribute pair's children, which start with the `name`, `body` returns no nodes at once through the `name` arm (:132). Handed a body's items, it yields exactly one node per non-comment item. |
| Builder.BodyItemsConverted | src/main.rs:127-134 | Over a body's items, `body` skips each comment and turns every other item, in order, into one node: a text into `Text` of its exact slice, a tag into the tag built from it. |
| Builder.BodyItemsKept | src/main.rs:126-136 | Read by position: the k-th node `body` yields is built from the k-th non-comment item of the body. |
| Builder.KeptSound | src/main.rs:131 | Skipping comments keeps only pairs of the input, and none of them is a comment. |
| Builder.KeptComplete | src/main.rs:131 | Skipping comments drops nothing else: every pair that is not a comment is still there. |
| Builder.TagChildren | src/main.rs:121-136 | A built tag's children: none without a body; otherwise one per non-comment body item, in source order. |
| Builder.BodyCommentsIgnored | src/main.rs:131 | Removing the comments from a body beforehand does not change `body`'s result. |
| Renderer.Render | src/main.rs:143-172 | Text renders verbatim. A tag renders as a string of at least two characters that starts with `<` followed by the tag's name and ends with `>`. |
| Renderer.RenderTag | src/main.rs:147-171 | The rendering of a tag starts with `<` followed by its name and ends with `>`. Unless the name is void and the tag has no children, it ends with the end tag `</name>`. |
| Renderer.FragmentFields | src/main.rs:151 | One attribute is written as a space, the key, `="`, the value and a closing `"`. The key and the value can be read back from their positions. |
| Renderer.AttrText | src/main.rs:149-152 | The attribute text is empty exactly when no attribute is written. Otherwise it starts with the space before the first key and ends with the closing quote of the last value. |
| Renderer.RenderChildren | src/main.rs:154-157 | The children's text is empty exactly when every child is an empty text: a child tag always writes something. |
| Renderer.EndTag | src/main.rs:159-171 | A tag's rendering ends with its end tag `</name>` if and only if its name is not on the void list or it has children. |
| Renderer.AdmissibleFits | src/main.rs:150 | An order that enumerates every map, as iterating a `HashMap` does, fits every tree. |
| Renderer.EnumerationSize | src/main.rs:149-152 | Every attribute is written exactly once: an admissible key list has one entry per key of the map. |
| Renderer.EnumerationsAgree | src/main.rs:150 | Any two iteration orders of the same map are permutations of each other. |
| Renderer.AttrTextPermutation | src/main.rs:149-152 | Writing the attributes in a permuted order only permutes the characters of the attribute text. |
| Renderer.RenderAnagram | src/main.rs:140-175 | Under any two admissible attribute orders, a node's two renderings contain the same characters with the same multiplicities. |
| Renderer.ChildrenAnagram | src/main.rs:154-157 | The concatenated renderings of a tag's children are anagrams under any two admissible orders. |
| Renderer.RenderDeterministic | src/main.rs:149-152 | When no tag has more than one attribute, every admissible order renders the same text. |
| Renderer.SingleEnumeration | src/main.rs:150 | A map with at most one key has exactly one iteration order. |
| Document.TrimStart | src/main.rs:52 | The leading trim removes a prefix made only of newlines, and what remains does not start with a newline. |
| Document.TrimEnd | src/main.rs:52 | The trailing trim removes a suffix made only of newlines, and what remains does not end with a newline. |
| Document.TrimNewlines | src/main.rs:52 | `trim_matches('\n')` returns a slice of its input with only newlines before and after it, and with no newline at either of its own ends. It is empty exactly when the input holds nothing but newlines. |
| Document.Renderings | src/main.rs:47-50 | One rendering per top-level node, in order. The rendering of a tag is non-empty and neither starts nor ends with a newline, though a text inside it may hold newlines. |
| Document.Terminated | src/main.rs:49-50 | Appending a newline to each rendering and concatenating gives the empty string for no renderings. Otherwise the text opens with the first rendering, followed by its newline, and ends with a newline. |
| Document.RenderDocument | src/main.rs:47-52 | The assembled document has no newline at either end, and a document without top-level nodes is the empty string. |
| Document.TerminatedIsJoin | src/main.rs:49-50 | Appending a newline to each rendering and concatenating gives the newline-joined renderings plus one final newline. |
| Document.DocumentIsJoin | src/main.rs:47-52 | The document equals the top-level renderings joined by single newlines: the trim removes only the last appended newline. |
| Document.DocumentEnds | src/main.rs:47-52 | A document of top-level tags is empty exactly when there are no tags. Otherwise it starts with `<` and ends with `>`. |
| Document.Compile | src/main.rs:45-52 | The compiled output is empty exactly when the source has no top-level tag. Otherwise it opens with the first tag's `<` and closes with the last tag's `>`. |
| Document.CompileIsJoin | src/main.rs:47-52 | The compiled document is the renderings of the top-level tags, in source order, joined by single newlines. A rendering may itself span several lines when a text inside it holds a newline. |
| Samples.VoidChild | src/main.rs:159-161 | `(p (br))` compiles to `<p><br></p>`: a void element without children gets no end tag. |
| Samples.VoidWithChildren | src/main.rs:159-170 | `(img (span "x"))` compiles to `<img><span>x</span></img>`: a void name with children still gets its end tag. |
| Samples.TwoLines | src/main.rs:47-52 | Two top-level tags with a comment between them compile to `<a></a>`, a newline and `<b></b>`. |
| Samples.AttributeAndText | src/main.rs:149-170 | `(div class=box "text")` compiles to `<div class="box">text</div>`. |
| Samples.AttributesOnly | src/main.rs:110-132 | `(img src=a)` compiles to `<img src="a">`: `body` runs on the attribute and yields nothing. |
| Samples.RepeatedKey | src/main.rs:114 | `(a x=1 x=2)` compiles to `<a x="2"></a>`: the later value wins. |

## Left out

- The pest parser and its grammar file `hyperlisp.pest`, which is not part of this model. Parse trees are taken as given, and the predicates in `Cst` state the shapes the builder relies on, as written in the grammar comments in `src/main.rs`.
- Syntax errors: `main` unwraps the parse result (`src/main.rs:47`) and panics on a malformed document. The model starts from a parsed tree.
- The command line (`ezcli` flags, `help`), reading the input file, and writing or printing the result (`src/main.rs:34-85`). These are I/O.
- Panics in the builder (`unwrap()`, `unreachable!()`): they become the preconditions `WfRoot`, `WfTag`, `WfBody` and `WfAttribute`, which the grammar guarantees.
- Lifetimes and borrowed `&str` slices: the model copies the matched text into `string` values, which has no effect on the output.
- The iteration order of `HashMap`: it is a parameter, constrained only to enumerate each map's keys exactly once. Which order a given run uses is not modelled.
- `fmt::Result` errors: formatting into the `String` that `collect` builds cannot fail, so rendering returns a plain string.
- Ast.IsVoid: the `VOID` array is modelled as a set of the same 17 names, because the program only asks whether a name is in it.
- Renderer.Render: its contract states the outer shape of a tag's rendering, and the exact text is its definition. The end-tag rule and the order properties are stated as separate lemmas (`EndTag`, `RenderAnagram`, `RenderDeterministic`).
- Renderer.RenderTag: its contract states the start (`<` and the name) and, when there is one, the end tag. What lies between, the attribute text and the children's text, is given by its definition, and the contracts of `AttrText` and `RenderChildren` describe those parts.
- Builder.BodyItems: its own contract states the `name` arm and the number of nodes. Which node each item becomes is stated by the lemmas `BodyItemsConverted` and `BodyItemsKept`. A contract of `BodyItems` in terms of `BuildTag` would make each function's contract mention the other, which the verifier cannot use efficiently.
- Samples: the spans of the root and comment pairs in these trees are placeholders, since the compiler never reads them.
