/**
 The tree builder: folds a parse tree into the AST. `BuildRoot`, `BuildTag`
 and `BuildBody` follow the program's `root`, `tag` and `body`; the loops
 inside them become `RootItems`, `ScanAttributes` and `BodyItems`.
 */
module Builder {
  import opened Cst
  import opened Ast

  /** The names of the well-formed attributes among `cs[k..]`. */
  ghost function AttributeKeys(cs: seq<Pair>, k: nat): set<string>
  {
    set i | k <= i < |cs| && WfAttribute(cs[i]) :: Key(cs[i])
  }

  /** `cs[i]` is an attribute and no later attribute in `cs` has the same name. */
  ghost predicate LastOfKey(cs: seq<Pair>, i: int)
    requires 0 <= i < |cs|
  {
    && WfAttribute(cs[i])
    && forall j :: i < j < |cs| && WfAttribute(cs[j]) ==> Key(cs[j]) != Key(cs[i])
  }

  /** `cs` without its comment pairs, in the same order. */
  function Kept(cs: seq<Pair>): (r: seq<Pair>)
    ensures |r| <= |cs|
    ensures forall k :: 0 <= k < |r| ==> r[k].rule != comment
  {
    if cs == [] then []
    else if cs[0].rule == comment then Kept(cs[1..])
    else [cs[0]] + Kept(cs[1..])
  }

  /** Only pairs of `cs` are kept, and no comment among them. */
  lemma {:induction false} KeptSound(cs: seq<Pair>)
    ensures forall c :: c in Kept(cs) ==> c in cs && c.rule != comment
  {
    if cs != [] {
      KeptSound(cs[1..]);
    }
  }

  /** Nothing but comments is dropped: every other pair of `cs` is kept. */
  lemma {:induction false} KeptComplete(cs: seq<Pair>, c: Pair)
    requires c in cs && c.rule != comment
    ensures c in Kept(cs)
  {
    if cs[0] != c {
      KeptComplete(cs[1..], c);
    }
  }

  /** The pairs `body` is handed: a body's items (comments, texts, tags), or the
      children of an attribute pair, which start with its `name`. */
  predicate BodyInput(cs: seq<Pair>)
  {
    (forall i :: 0 <= i < |cs| ==> WfItem(cs[i])) || (|cs| > 0 && cs[0].rule == name)
  }

  /** `root`: the top-level tags in source order, comments skipped. */
  function BuildRoot(p: Pair): (r: seq<Hyperlisp>)
    requires WfRoot(p)
    ensures |r| == |Kept(p.inner)|
    ensures forall k :: 0 <= k < |r| ==> r[k].Tag?
  {
    RootItems(p.inner)
  }

  /** The loop of `root` over the children `cs`. */
  function RootItems(cs: seq<Pair>): (r: seq<Hyperlisp>)
    requires forall i :: 0 <= i < |cs| ==> cs[i].rule == comment || (cs[i].rule == tag && WfTag(cs[i]))
    ensures |r| == |Kept(cs)|
    ensures forall k :: 0 <= k < |r| ==> Kept(cs)[k].rule == tag && WfTag(Kept(cs)[k]) && r[k] == BuildTag(Kept(cs)[k])
  {
    if cs == [] then []
    else
      KeptStep(cs);
      if cs[0].rule == comment then RootItems(cs[1..])
      else KeptTags(cs); [BuildTag(cs[0])] + RootItems(cs[1..])
  }

  /** What survives of the root's children once comments are dropped is tags. */
  lemma KeptTags(cs: seq<Pair>)
    requires forall i :: 0 <= i < |cs| ==> cs[i].rule == comment || (cs[i].rule == tag && WfTag(cs[i]))
    ensures forall k :: 0 <= k < |Kept(cs)| ==> Kept(cs)[k].rule == tag && WfTag(Kept(cs)[k])
  {
    KeptSound(cs);
  }

  /** `tag`: the id's text as the name, the attributes folded into a map with
      later duplicates winning, and the children built from the body if any. */
  function BuildTag(t: Pair): (r: Hyperlisp)
    requires WfTag(t)
    decreases t, 2
    ensures r.Tag? && r.name == t.inner[0].span
    ensures |t.inner| == 1 ==> r.attributes == map[]
    ensures !HasBody(t) ==> r.children == []
    ensures HasBody(t) ==> WfBody(t.inner[|t.inner| - 1]) && r.children == BodyItems(t.inner[|t.inner| - 1].inner)
  {
    var id := t.inner[0];
    if |t.inner| == 1 then
      Tag(id.span, map[], [])
    else
      var (attributes, k) := ScanAttributes(t, 1, map[]);
      TagChild(t, k);
      Tag(id.span, attributes, BuildBody(t.inner[k]))
  }

  /** The `while let Rule::attribute` loop of `tag`, entered at child `k` with
      the map `m` built so far. Returns the final map and the index of the pair
      the loop stopped at, which `tag` then hands to `body`. */
  function ScanAttributes(t: Pair, k: nat, m: map<string, string>): (r: (map<string, string>, nat))
    requires WfTag(t) && 1 <= k < |t.inner|
    decreases |t.inner| - k
    ensures r.1 == |t.inner| - 1
  {
    var ats := t.inner[k];
    TagChild(t, k);
    if ats.rule != attribute then
      (m, k)
    else
      var m' := m[Key(ats) := Val(ats)];
      if k + 1 < |t.inner| then ScanAttributes(t, k + 1, m') else (m', k)
  }

  /** Splitting off child `k` from the attribute names of `cs[k..]`. */
  lemma AttributeKeysStep(cs: seq<Pair>, k: nat)
    requires k < |cs|
    ensures AttributeKeys(cs, k) == (if WfAttribute(cs[k]) then {Key(cs[k])} else {}) + AttributeKeys(cs, k + 1)
  {
    var head := if WfAttribute(cs[k]) then {Key(cs[k])} else {};
    forall key | key in AttributeKeys(cs, k)
      ensures key in head + AttributeKeys(cs, k + 1)
    {
      var i :| k <= i < |cs| && WfAttribute(cs[i]) && Key(cs[i]) == key;
      if i > k {
        assert key in AttributeKeys(cs, k + 1);
      }
    }
    forall key | key in AttributeKeys(cs, k + 1)
      ensures key in AttributeKeys(cs, k)
    {
      var i :| k + 1 <= i < |cs| && WfAttribute(cs[i]) && Key(cs[i]) == key;
    }
  }

  /** The attribute loop adds exactly the names of the attributes it passes. */
  lemma {:induction false} ScanAttributesKeys(t: Pair, k: nat, m: map<string, string>)
    requires WfTag(t) && 1 <= k < |t.inner|
    decreases |t.inner| - k
    ensures ScanAttributes(t, k, m).0.Keys == m.Keys + AttributeKeys(t.inner, k)
  {
    var ats := t.inner[k];
    TagChild(t, k);
    AttributeKeysStep(t.inner, k);
    if ats.rule == attribute {
      var m' := m[Key(ats) := Val(ats)];
      if k + 1 < |t.inner| {
        ScanAttributesKeys(t, k + 1, m');
      } else {
        assert AttributeKeys(t.inner, k + 1) == {};
      }
    } else {
      assert AttributeKeys(t.inner, k + 1) == {};
    }
  }

  /** A name no attribute of `t.inner[k..]` carries keeps its old value. */
  lemma {:induction false} ScanAttributesKeeps(t: Pair, k: nat, m: map<string, string>, key: string)
    requires WfTag(t) && 1 <= k < |t.inner|
    requires key in m && key !in AttributeKeys(t.inner, k)
    decreases |t.inner| - k
    ensures key in ScanAttributes(t, k, m).0 && ScanAttributes(t, k, m).0[key] == m[key]
  {
    var ats := t.inner[k];
    TagChild(t, k);
    AttributeKeysStep(t.inner, k);
    if ats.rule == attribute && k + 1 < |t.inner| {
      ScanAttributesKeeps(t, k + 1, m[Key(ats) := Val(ats)], key);
    }
  }

  /** For every name, the value the attribute loop leaves in the map is the one
      of the last attribute with that name. */
  lemma {:induction false} ScanAttributesLatest(t: Pair, k: nat, m: map<string, string>, i: nat)
    requires WfTag(t) && 1 <= k <= i < |t.inner| && LastOfKey(t.inner, i)
    decreases |t.inner| - k
    ensures Key(t.inner[i]) in ScanAttributes(t, k, m).0
    ensures ScanAttributes(t, k, m).0[Key(t.inner[i])] == Val(t.inner[i])
  {
    var ats := t.inner[k];
    TagChild(t, k);
    if ats.rule == attribute {
      var m' := m[Key(ats) := Val(ats)];
      if k + 1 < |t.inner| {
        if i == k {
          LastOfKeyFresh(t.inner, k);
          ScanAttributesKeeps(t, k + 1, m', Key(ats));
        } else {
          ScanAttributesLatest(t, k + 1, m', i);
        }
      }
    } else {
      assert false;
    }
  }

  /** The attribute map of a built tag: its keys are exactly the attribute
      names written in the tag, and each maps to the value of the last
      attribute with that name. */
  lemma {:induction false} TagAttributes(t: Pair)
    requires WfTag(t)
    ensures BuildTag(t).attributes.Keys == AttributeKeys(t.inner, 1)
    ensures forall i :: 1 <= i < |t.inner| && LastOfKey(t.inner, i) ==>
      Key(t.inner[i]) in BuildTag(t).attributes && BuildTag(t).attributes[Key(t.inner[i])] == Val(t.inner[i])
  {
    if |t.inner| > 1 {
      ScanAttributesKeys(t, 1, map[]);
      forall i | 1 <= i < |t.inner| && LastOfKey(t.inner, i)
        ensures Key(t.inner[i]) in BuildTag(t).attributes && BuildTag(t).attributes[Key(t.inner[i])] == Val(t.inner[i])
      {
        ScanAttributesLatest(t, 1, map[], i);
      }
    }
  }

  /** The last attribute with a given name has no namesake after it. */
  lemma LastOfKeyFresh(cs: seq<Pair>, i: nat)
    requires i < |cs| && LastOfKey(cs, i)
    ensures Key(cs[i]) !in AttributeKeys(cs, i + 1)
  {
  }

  /** `body`: the elements built from the pair's children. */
  function BuildBody(b: Pair): (r: seq<Hyperlisp>)
    requires WfBody(b) || WfAttribute(b)
    decreases b, 1
    ensures WfAttribute(b) ==> r == []
  {
    BodyItems(b.inner)
  }

  /** The loop of `body`: tags recurse, texts keep their exact slice, comments
      are skipped, and a `name` pair ends the loop with what was built so far.
      Over a body's items it yields one node per non-comment item (which node
      each one becomes is `BodyItemsKept`); over an attribute's children it
      stops at once on the `name`. */
  function BodyItems(cs: seq<Pair>): (r: seq<Hyperlisp>)
    requires BodyInput(cs)
    decreases cs, 0
    ensures |cs| > 0 && cs[0].rule == name ==> r == []
    ensures (forall i :: 0 <= i < |cs| ==> WfItem(cs[i])) ==> |r| == |Kept(cs)|
  {
    if cs == [] then []
    else
      var rest := cs[1..];
      match cs[0].rule
      case tag => [BuildTag(cs[0])] + BodyItems(rest)
      case text => [Text(cs[0].span)] + BodyItems(rest)
      case comment => BodyItems(rest)
      case name => []
      case _ => assert false; []
  }

  /** `r` is `cs` with the comments dropped and every other item converted,
      in order. */
  predicate Converted(cs: seq<Pair>, r: seq<Hyperlisp>)
  {
    if cs == [] then r == []
    else if cs[0].rule == comment then Converted(cs[1..], r)
    else r != [] && WfItem(cs[0]) && r[0] == Convert(cs[0]) && Converted(cs[1..], r[1..])
  }

  /** Over a body's items, `body` converts every non-comment item, in order. */
  lemma {:induction false} BodyItemsConverted(cs: seq<Pair>)
    requires forall i :: 0 <= i < |cs| ==> WfItem(cs[i])
    ensures BodyInput(cs)
    ensures Converted(cs, BodyItems(cs))
  {
    if cs != [] {
      BodyItemsConverted(cs[1..]);
    }
  }

  /** Read by position: the k-th node is the conversion of the k-th
      non-comment item. */
  lemma {:induction false} ConvertedKept(cs: seq<Pair>, r: seq<Hyperlisp>)
    requires Converted(cs, r)
    ensures |r| == |Kept(cs)|
    ensures forall k :: 0 <= k < |r| ==> Kept(cs)[k] in cs && WfItem(Kept(cs)[k]) && r[k] == Convert(Kept(cs)[k])
  {
    if cs != [] {
      KeptStep(cs);
      KeptSound(cs);
      ConvertedKept(cs[1..], if cs[0].rule == comment then r else r[1..]);
      if cs[0].rule != comment {
        forall k | 1 <= k < |r|
          ensures Kept(cs)[k] == Kept(cs[1..])[k - 1] && r[k] == r[1..][k - 1]
        {
        }
      }
    }
  }

  /** Over a body's items, `body` yields one node per non-comment item, in order. */
  lemma BodyItemsKept(cs: seq<Pair>)
    requires forall i :: 0 <= i < |cs| ==> WfItem(cs[i])
    ensures BodyInput(cs)
    ensures |BodyItems(cs)| == |Kept(cs)|
    ensures forall k :: 0 <= k < |Kept(cs)| ==> Kept(cs)[k] in cs && WfItem(Kept(cs)[k]) && BodyItems(cs)[k] == Convert(Kept(cs)[k])
  {
    BodyItemsConverted(cs);
    ConvertedKept(cs, BodyItems(cs));
  }

  /** `Kept` peels off one pair at a time. */
  lemma KeptStep(cs: seq<Pair>)
    requires cs != []
    ensures cs[0].rule == comment ==> Kept(cs) == Kept(cs[1..])
    ensures cs[0].rule != comment ==> Kept(cs) == [cs[0]] + Kept(cs[1..])
  {
  }

  /** A body item once comments are dropped: a text run becomes `Text` of its
      exact slice, a tag is built. */
  function Convert(c: Pair): Hyperlisp
    requires WfItem(c) && c.rule != comment
  {
    if c.rule == text then Text(c.span) else BuildTag(c)
  }

  /** The children of a built tag: none without a body; otherwise one node per
      non-comment item of the body, in source order. */
  lemma TagChildren(t: Pair)
    requires WfTag(t)
    ensures !HasBody(t) ==> BuildTag(t).children == []
    ensures HasBody(t) ==>
      var items := Kept(t.inner[|t.inner| - 1].inner);
      && |BuildTag(t).children| == |items|
      && forall k :: 0 <= k < |items| ==> WfItem(items[k]) && BuildTag(t).children[k] == Convert(items[k])
  {
    if HasBody(t) {
      BodyItemsKept(t.inner[|t.inner| - 1].inner);
    }
  }

  /** Dropping comments first changes nothing. */
  lemma {:induction false} KeptTwice(cs: seq<Pair>)
    ensures Kept(Kept(cs)) == Kept(cs)
  {
    if cs != [] {
      KeptTwice(cs[1..]);
    }
  }

  /** Comments in a body produce no node: the body built without them is the same. */
  lemma BodyCommentsIgnored(cs: seq<Pair>)
    requires forall i :: 0 <= i < |cs| ==> WfItem(cs[i])
    ensures forall i :: 0 <= i < |Kept(cs)| ==> WfItem(Kept(cs)[i])
    ensures BodyItems(Kept(cs)) == BodyItems(cs)
  {
    KeptTwice(cs);
    KeptSound(cs);
    BodyItemsKept(cs);
    BodyItemsKept(Kept(cs));
  }

  /** Comments at the top level produce no node either. */
  lemma {:induction false} RootCommentsIgnored(cs: seq<Pair>)
    requires forall i :: 0 <= i < |cs| ==> cs[i].rule == comment || (cs[i].rule == tag && WfTag(cs[i]))
    ensures forall i :: 0 <= i < |Kept(cs)| ==> Kept(cs)[i].rule == tag && WfTag(Kept(cs)[i])
    ensures RootItems(Kept(cs)) == RootItems(cs)
  {
    KeptTwice(cs);
    KeptTags(cs);
  }
}
