/**
 The parse tree the Hyperlisp grammar produces, and the shape constraints
 the grammar puts on it. The parser itself is not modelled: a `Pair` is
 "whatever the parser matched", and the predicates below say which trees
 the grammar can produce. They stand where the tree builder relies on
 `unwrap()` and `unreachable!()`.
 */
module Cst {

  /** The rule kinds that produce pairs (whitespace is silent and produces none). */
  datatype Rule = root | comment | tag | id | attribute | name | value | body | text

  /** One matched rule: its kind, the exact slice of source it matched, and the
      pairs matched by its sub-rules, in source order. */
  datatype Pair = Pair(rule: Rule, span: string, inner: seq<Pair>)

  /** attribute = name "=" value: a name pair followed by a value pair. */
  predicate WfAttribute(a: Pair)
  {
    && a.rule == attribute
    && |a.inner| == 2
    && a.inner[0].rule == name
    && a.inner[1].rule == value
  }

  /** tag = "(" id (" " attribute)* (" "? body)? ")": an id, then attributes,
      and optionally one body as the last child. */
  predicate WfTag(t: Pair)
    decreases t, 0
  {
    && t.rule == tag
    && |t.inner| >= 1
    && t.inner[0].rule == id
    && (forall i :: 1 <= i < |t.inner| - 1 ==> WfAttribute(t.inner[i]))
    && (|t.inner| >= 2 ==> WfAttribute(t.inner[|t.inner| - 1]) || WfBody(t.inner[|t.inner| - 1]))
  }

  /** One element of a body: a comment, a text run or a well-formed tag. */
  predicate WfItem(c: Pair)
    decreases c, 1
  {
    c.rule == comment || c.rule == text || (c.rule == tag && WfTag(c))
  }

  /** body = (comment | tag | text)+ */
  predicate WfBody(b: Pair)
    decreases b, 0
  {
    && b.rule == body
    && |b.inner| >= 1
    && forall i :: 0 <= i < |b.inner| ==> WfItem(b.inner[i])
  }

  /** root = (WHITESPACE | comment | tag)*: only comments and tags survive as pairs. */
  predicate WfRoot(p: Pair)
  {
    forall i :: 0 <= i < |p.inner| ==> p.inner[i].rule == comment || (p.inner[i].rule == tag && WfTag(p.inner[i]))
  }

  /** A tag whose last child is a body (rather than only an id and attributes). */
  predicate HasBody(t: Pair)
  {
    |t.inner| >= 2 && t.inner[|t.inner| - 1].rule == body
  }

  /** A child of a well-formed tag, after the id, is either one of its
      attributes or (only in last place) its body. */
  lemma TagChild(t: Pair, k: int)
    requires WfTag(t) && 1 <= k < |t.inner|
    ensures t.inner[k].rule == attribute ==> WfAttribute(t.inner[k])
    ensures t.inner[k].rule != attribute ==> k == |t.inner| - 1 && WfBody(t.inner[k])
  {
    if k == |t.inner| - 1 && t.inner[k].rule == attribute {
      assert !WfBody(t.inner[k]);
    }
  }

  /** The attribute name and value of a well-formed attribute pair. */
  function Key(a: Pair): string
    requires WfAttribute(a)
  {
    a.inner[0].span
  }

  function Val(a: Pair): string
    requires WfAttribute(a)
  {
    a.inner[1].span
  }
}
