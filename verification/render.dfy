/**
 The HTML renderer (the `Display` implementation of the AST). Text is written
 verbatim, each attribute as ` key="value"` without escaping, children in
 order, and a childless element whose name is on the void list gets no end
 tag.

 The program iterates over a `HashMap`, whose order is not specified. The
 renderer therefore takes the order as a parameter: for the tag at position
 `path` with attribute map `a`, `order(path, a)` lists the keys in the order
 they are written. The only assumption is `OrderFits`: every such list names
 each key of its map exactly once.
 */
module Renderer {
  import opened Ast

  /** The position of a node: the child indices leading to it from the top level. */
  type Path = seq<nat>

  type KeyOrder = (Path, map<string, string>) -> seq<string>

  predicate NoDuplicates(ks: seq<string>)
  {
    forall i, j :: 0 <= i < j < |ks| ==> ks[i] != ks[j]
  }

  /** `ks` lists every key of `a` exactly once and nothing else. */
  predicate Enumerates(ks: seq<string>, a: map<string, string>)
  {
    && (forall i :: 0 <= i < |ks| ==> ks[i] in a)
    && (forall k :: k in a ==> k in ks)
    && NoDuplicates(ks)
  }

  /** `order` enumerates the attributes of every tag in the tree `h` at `path`. */
  predicate OrderFits(h: Hyperlisp, order: KeyOrder, path: Path)
  {
    match h
    case Text(_) => true
    case Tag(_, a, b) =>
      && Enumerates(order(path, a), a)
      && forall k :: 0 <= k < |b| ==> OrderFits(b[k], order, path + [k])
  }

  /** An order that enumerates every map at every position, as iterating a
      `HashMap` does. */
  ghost predicate Admissible(order: KeyOrder)
  {
    forall path, a :: Enumerates(order(path, a), a)
  }

  /** An admissible order fits every tree. */
  lemma {:induction false} AdmissibleFits(h: Hyperlisp, order: KeyOrder, path: Path)
    requires Admissible(order)
    decreases h
    ensures OrderFits(h, order, path)
  {
    match h
    case Text(_) =>
    case Tag(_, _, b) =>
      forall k | 0 <= k < |b|
        ensures OrderFits(b[k], order, path + [k])
      {
        AdmissibleFits(b[k], order, path + [k]);
      }
  }

  /** One attribute as written: a space, the key, `="`, the value, `"`. */
  function Fragment(k: string, v: string): string
  {
    " " + k + "=\"" + v + "\""
  }

  /** A fragment is framed by a space and a quote, and its key and value can be
      read back from their positions. */
  lemma FragmentFields(k: string, v: string)
    ensures var r := Fragment(k, v);
      && |r| == |k| + |v| + 4
      && r[0] == ' ' && r[|r| - 1] == '"'
      && r[1..|k| + 1] == k && r[|k| + 1..|k| + 3] == "=\"" && r[|k| + 3..|r| - 1] == v
  {
  }

  /** The attribute text: the fragments of the keys `ks`, in that order. It is
      empty exactly when no key is written, and otherwise starts with the space
      before the first key and ends in the closing quote of the last value. */
  function AttrText(a: map<string, string>, ks: seq<string>): (r: string)
    requires forall k :: k in ks ==> k in a
    ensures r == "" <==> ks == []
    ensures ks != [] ==> r[0] == ' ' && r[|r| - 1] == '"'
  {
    if ks == [] then ""
    else
      FragmentFields(ks[0], a[ks[0]]);
      Fragment(ks[0], a[ks[0]]) + AttrText(a, ks[1..])
  }

  /** The HTML text of one node. */
  function Render(h: Hyperlisp, order: KeyOrder, path: Path): (r: string)
    requires OrderFits(h, order, path)
    decreases h, 2, 0
    ensures h.Text? ==> r == h.content
    ensures h.Tag? ==> |r| >= 2 && r[0] == '<' && r[|r| - 1] == '>'
    ensures h.Tag? ==> |r| > |h.name| && r[..|h.name| + 1] == "<" + h.name
  {
    match h
    case Text(s) => s
    case Tag(i, a, b) => RenderTag(i, a, b, order, path)
  }

  /** The HTML text of the element `i` with attributes `a` and children `b`:
      it opens with `<` and the name, and unless the name is void and there are
      no children it closes with the end tag. */
  function RenderTag(i: string, a: map<string, string>, b: seq<Hyperlisp>, order: KeyOrder, path: Path): (r: string)
    requires OrderFits(Tag(i, a, b), order, path)
    decreases b, 1, 0
    ensures |r| >= 2 && r[0] == '<' && r[|r| - 1] == '>'
    ensures |r| > |i| && r[..|i| + 1] == "<" + i
    ensures !(IsVoid(i) && |b| == 0) ==> EndsWith(r, "</" + i + ">")
  {
    var open := "<" + i + AttrText(a, order(path, a)) + ">";
    var close := "</" + i + ">";
    if IsVoid(i) && |b| == 0 then
      Opening(i, AttrText(a, order(path, a)), "");
      open
    else
      var inner := RenderChildren(b, order, path, 0);
      Opening(i, AttrText(a, order(path, a)), inner + close);
      Closing(open + inner, close);
      open + inner + close
  }

  /** A start tag followed by anything begins with `<` and the name. */
  lemma Opening(i: string, attrs: string, rest: string)
    ensures var s := "<" + i + attrs + ">" + rest;
      |s| > |i| + 1 && s[..|i| + 1] == "<" + i && s[0] == '<'
  {
  }

  lemma Closing(s: string, close: string)
    ensures EndsWith(s + close, close)
  {
  }

  /** The children `b[k..]` of the tag at `path`, rendered and concatenated in
      order. Only empty text children render to nothing. */
  function RenderChildren(b: seq<Hyperlisp>, order: KeyOrder, path: Path, k: nat): (r: string)
    requires k <= |b|
    requires forall j :: k <= j < |b| ==> OrderFits(b[j], order, path + [j])
    decreases b, 0, |b| - k
    ensures r == "" <==> forall j :: k <= j < |b| ==> b[j] == Text("")
  {
    if k == |b| then "" else Render(b[k], order, path + [k]) + RenderChildren(b, order, path, k + 1)
  }

  predicate EndsWith(s: string, suffix: string)
  {
    |suffix| <= |s| && s[|s| - |suffix|..] == suffix
  }

  /** No name on the void list is empty or ends in a double quote. */
  lemma VoidNames(i: string)
    requires IsVoid(i)
    ensures |i| > 0 && i[|i| - 1] != '"'
  {
  }

  /** The end tag policy: the rendering of a tag ends with its end tag exactly
      when the name is not on the void list or the tag has children. */
  lemma EndTag(i: string, a: map<string, string>, b: seq<Hyperlisp>, order: KeyOrder, path: Path)
    requires OrderFits(Tag(i, a, b), order, path)
    ensures EndsWith(Render(Tag(i, a, b), order, path), "</" + i + ">") <==> !(IsVoid(i) && |b| == 0)
  {
    var r := Render(Tag(i, a, b), order, path);
    var close := "</" + i + ">";
    if IsVoid(i) && |b| == 0 {
      var ks := order(path, a);
      VoidNames(i);
      assert r == RenderTag(i, a, b, order, path) == "<" + i + AttrText(a, ks) + ">";
      if ks == [] {
        assert |r| < |close|;
      } else {
        assert r[|r| - 2] == '"' != i[|i| - 1] == close[|close| - 2];
      }
    }
  }

  /** The attribute text of a concatenation of key lists. */
  lemma {:induction false} AttrTextAppend(a: map<string, string>, p: seq<string>, q: seq<string>)
    requires forall k :: k in p ==> k in a
    requires forall k :: k in q ==> k in a
    ensures AttrText(a, p + q) == AttrText(a, p) + AttrText(a, q)
  {
    if p == [] {
      assert p + q == q;
    } else {
      assert (p + q)[1..] == p[1..] + q;
      AttrTextAppend(a, p[1..], q);
    }
  }

  lemma SplitAt(ks: seq<string>, j: nat)
    requires j < |ks|
    ensures ks == ks[..j] + ([ks[j]] + ks[j + 1..])
  {
  }

  /** Taking the same key out of two permutations leaves two permutations. */
  lemma RemoveMatching(ks1: seq<string>, ks2: seq<string>, j: nat)
    requires ks1 != [] && j < |ks2| && ks2[j] == ks1[0]
    requires multiset(ks1) == multiset(ks2)
    ensures multiset(ks1[1..]) == multiset(ks2[..j] + ks2[j + 1..])
  {
    assert ks1 == [ks1[0]] + ks1[1..];
    assert ks2 == ks2[..j] + [ks2[j]] + ks2[j + 1..];
    forall y
      ensures multiset(ks1[1..])[y] == multiset(ks2[..j] + ks2[j + 1..])[y]
    {
      assert multiset(ks1)[y] == multiset(ks2)[y];
    }
  }

  /** Moving one key to the front only reorders the characters. */
  lemma {:induction false} MoveToFront(a: map<string, string>, before: seq<string>, x: string, after: seq<string>)
    requires forall k :: k in before ==> k in a
    requires forall k :: k in after ==> k in a
    requires x in a
    ensures multiset(AttrText(a, before + ([x] + after)))
         == multiset(Fragment(x, a[x])) + multiset(AttrText(a, before + after))
  {
    AttrTextAppend(a, before, [x] + after);
    AttrTextAppend(a, [x], after);
    AttrTextAppend(a, before, after);
    assert AttrText(a, [x]) == Fragment(x, a[x]);
    Swap(AttrText(a, before), Fragment(x, a[x]), AttrText(a, after));
  }

  /** Moving the middle piece of three to the front keeps the characters. */
  lemma Swap(p: string, f: string, q: string)
    ensures multiset(p + (f + q)) == multiset(f) + multiset(p + q)
  {
  }

  /** Reordering the keys only reorders the characters of the attribute text. */
  lemma {:induction false} AttrTextPermutation(a: map<string, string>, ks1: seq<string>, ks2: seq<string>)
    requires forall k :: k in ks1 ==> k in a
    requires forall k :: k in ks2 ==> k in a
    requires multiset(ks1) == multiset(ks2)
    decreases |ks1|
    ensures multiset(AttrText(a, ks1)) == multiset(AttrText(a, ks2))
  {
    if ks1 == [] {
      assert |ks2| == |multiset(ks2)| == 0;
    } else {
      var x := ks1[0];
      assert x in multiset(ks2);
      var j :| 0 <= j < |ks2| && ks2[j] == x;
      var before, after := ks2[..j], ks2[j + 1..];
      RemoveMatching(ks1, ks2, j);
      AttrTextPermutation(a, ks1[1..], before + after);
      SplitAt(ks2, j);
      MoveToFront(a, before, x, after);
      assert AttrText(a, ks1) == Fragment(x, a[x]) + AttrText(a, ks1[1..]);
    }
  }

  /** A key list without duplicates holds each key at most once. */
  lemma {:induction false} DistinctCount(ks: seq<string>, x: string)
    requires NoDuplicates(ks)
    ensures multiset(ks)[x] == if x in ks then 1 else 0
  {
    if ks != [] {
      assert ks == [ks[0]] + ks[1..];
      assert ks[0] !in ks[1..];
      DistinctCount(ks[1..], x);
    }
  }

  /** Any two enumerations of the same map are permutations of each other. */
  lemma EnumerationsAgree(a: map<string, string>, ks1: seq<string>, ks2: seq<string>)
    requires Enumerates(ks1, a) && Enumerates(ks2, a)
    ensures multiset(ks1) == multiset(ks2)
  {
    forall x
      ensures multiset(ks1)[x] == multiset(ks2)[x]
    {
      DistinctCount(ks1, x);
      DistinctCount(ks2, x);
    }
  }

  /** A key list without duplicates has as many distinct keys as entries. */
  lemma {:induction false} DistinctElements(ks: seq<string>)
    requires NoDuplicates(ks)
    ensures |set x | x in ks| == |ks|
  {
    if ks != [] {
      var rest := set x | x in ks[1..];
      assert (set x | x in ks) == {ks[0]} + rest;
      assert ks[0] !in rest;
      DistinctElements(ks[1..]);
    }
  }

  /** Every attribute is written exactly once: an enumeration has one entry
      per key of the map. */
  lemma EnumerationSize(ks: seq<string>, a: map<string, string>)
    requires Enumerates(ks, a)
    ensures |ks| == |a|
  {
    assert (set x | x in ks) == a.Keys;
    DistinctElements(ks);
  }

  /** The attribute order cannot change what a node renders to beyond the
      order of its characters: any two admissible orders give anagrams. */
  lemma {:induction false} RenderAnagram(h: Hyperlisp, o1: KeyOrder, o2: KeyOrder, path: Path)
    requires OrderFits(h, o1, path) && OrderFits(h, o2, path)
    decreases h
    ensures multiset(Render(h, o1, path)) == multiset(Render(h, o2, path))
  {
    match h
    case Text(_) =>
    case Tag(i, a, b) =>
      EnumerationsAgree(a, o1(path, a), o2(path, a));
      AttrTextPermutation(a, o1(path, a), o2(path, a));
      ChildrenAnagram(b, o1, o2, path, 0);
  }

  lemma {:induction false} ChildrenAnagram(b: seq<Hyperlisp>, o1: KeyOrder, o2: KeyOrder, path: Path, k: nat)
    requires k <= |b|
    requires forall j :: k <= j < |b| ==> OrderFits(b[j], o1, path + [j]) && OrderFits(b[j], o2, path + [j])
    decreases b, |b| - k
    ensures multiset(RenderChildren(b, o1, path, k)) == multiset(RenderChildren(b, o2, path, k))
  {
    if k < |b| {
      RenderAnagram(b[k], o1, o2, path + [k]);
      ChildrenAnagram(b, o1, o2, path, k + 1);
    }
  }

  /** No tag in `h` has more than one attribute. */
  predicate FewAttributes(h: Hyperlisp)
  {
    match h
    case Text(_) => true
    case Tag(_, a, b) => |a| <= 1 && forall k :: 0 <= k < |b| ==> FewAttributes(b[k])
  }

  /** A map with at most one key has only one enumeration. */
  lemma SingleEnumeration(a: map<string, string>, ks1: seq<string>, ks2: seq<string>)
    requires Enumerates(ks1, a) && Enumerates(ks2, a) && |a| <= 1
    ensures ks1 == ks2
  {
    EnumerationSize(ks1, a);
    EnumerationSize(ks2, a);
  }

  /** Where no tag has two attributes, the attribute order cannot show: every
      two admissible orders render the same text. */
  lemma {:induction false} RenderDeterministic(h: Hyperlisp, o1: KeyOrder, o2: KeyOrder, path: Path)
    requires OrderFits(h, o1, path) && OrderFits(h, o2, path) && FewAttributes(h)
    decreases h
    ensures Render(h, o1, path) == Render(h, o2, path)
  {
    match h
    case Text(_) =>
    case Tag(i, a, b) =>
      SingleEnumeration(a, o1(path, a), o2(path, a));
      ChildrenDeterministic(b, o1, o2, path, 0);
  }

  lemma {:induction false} ChildrenDeterministic(b: seq<Hyperlisp>, o1: KeyOrder, o2: KeyOrder, path: Path, k: nat)
    requires k <= |b|
    requires forall j :: k <= j < |b| ==> OrderFits(b[j], o1, path + [j]) && OrderFits(b[j], o2, path + [j]) && FewAttributes(b[j])
    decreases b, |b| - k
    ensures RenderChildren(b, o1, path, k) == RenderChildren(b, o2, path, k)
  {
    if k < |b| {
      RenderDeterministic(b[k], o1, o2, path + [k]);
      ChildrenDeterministic(b, o1, o2, path, k + 1);
    }
  }
}
