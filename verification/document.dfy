/**
 Document assembly: every top-level element is rendered and followed by a
 newline, the pieces are concatenated, and newlines are trimmed from both
 ends of the result (`str::trim_matches('\n')`).
 */
module Document {
  import opened Cst
  import opened Ast
  import opened Builder
  import opened Renderer

  /** Drops every leading newline. */
  function TrimStart(s: string): (r: string)
    ensures |r| <= |s| && r == s[|s| - |r|..]
    ensures forall i :: 0 <= i < |s| - |r| ==> s[i] == '\n'
    ensures r == [] || r[0] != '\n'
  {
    if |s| > 0 && s[0] == '\n' then TrimStart(s[1..]) else s
  }

  /** Drops every trailing newline. */
  function TrimEnd(s: string): (r: string)
    ensures |r| <= |s| && r == s[..|r|]
    ensures forall i :: |r| <= i < |s| ==> s[i] == '\n'
    ensures r == [] || r[|r| - 1] != '\n'
  {
    if |s| > 0 && s[|s| - 1] == '\n' then TrimEnd(s[..|s| - 1]) else s
  }

  /** `trim_matches('\n')`: newlines trimmed from both ends. The result is a
      slice of `s` with only newlines around it and none at either of its ends;
      it is empty exactly when `s` holds nothing but newlines. */
  function TrimNewlines(s: string): (r: string)
    ensures r == [] || (r[0] != '\n' && r[|r| - 1] != '\n')
    ensures r == [] <==> forall i :: 0 <= i < |s| ==> s[i] == '\n'
    ensures exists j :: NewlinesAround(s, j, r)
  {
    var t := TrimStart(s);
    var r := TrimEnd(t);
    assert NewlinesAround(s, |s| - |t|, r);
    r
  }

  /** `r` sits in `s` at offset `j`, with only newlines before and after it. */
  predicate NewlinesAround(s: string, j: int, r: string)
  {
    && 0 <= j <= |s| - |r|
    && s[j..j + |r|] == r
    && (forall i :: 0 <= i < j ==> s[i] == '\n')
    && (forall i :: j + |r| <= i < |s| ==> s[i] == '\n')
  }

  /** The renderings of the top-level nodes `nodes[k..]`; node `k` sits at path `[k]`. */
  function Renderings(nodes: seq<Hyperlisp>, order: KeyOrder, k: nat): (rs: seq<string>)
    requires k <= |nodes|
    requires forall j :: k <= j < |nodes| ==> OrderFits(nodes[j], order, [j])
    decreases |nodes| - k
    ensures |rs| == |nodes| - k
    ensures forall i :: 0 <= i < |rs| ==> rs[i] == Render(nodes[k + i], order, [k + i])
    ensures forall i :: 0 <= i < |rs| && nodes[k + i].Tag? ==> NoEdgeNewline(rs[i])
  {
    if k == |nodes| then [] else [Render(nodes[k], order, [k])] + Renderings(nodes, order, k + 1)
  }

  /** Each string followed by a newline, all concatenated: the first string
      leads and the text ends in a newline, unless there are no strings. */
  function Terminated(rs: seq<string>): (r: string)
    ensures rs == [] <==> r == ""
    ensures rs != [] ==> |r| > |rs[0]| && r[..|rs[0]|] == rs[0] && r[|rs[0]|] == '\n' && r[|r| - 1] == '\n'
  {
    if rs == [] then "" else rs[0] + "\n" + Terminated(rs[1..])
  }

  /** The HTML document: the top-level renderings, newline-terminated and
      trimmed. It has no newline at either end, and no nodes give no text. */
  function RenderDocument(nodes: seq<Hyperlisp>, order: KeyOrder): (r: string)
    requires forall j :: 0 <= j < |nodes| ==> OrderFits(nodes[j], order, [j])
    ensures r == [] || (r[0] != '\n' && r[|r| - 1] != '\n')
    ensures nodes == [] ==> r == ""
  {
    var t := Terminated(Renderings(nodes, order, 0));
    assert nodes == [] ==> t == "";
    TrimNewlines(t)
  }

  /** The reference: the strings joined with a single newline between neighbours. */
  function Join(rs: seq<string>): string
  {
    if rs == [] then ""
    else if |rs| == 1 then rs[0]
    else rs[0] + "\n" + Join(rs[1..])
  }

  /** A non-empty string that neither starts nor ends with a newline. It may
      hold newlines inside, for instance from a text child. */
  predicate NoEdgeNewline(r: string)
  {
    |r| > 0 && r[0] != '\n' && r[|r| - 1] != '\n'
  }

  /** Newline-terminating is joining plus one final newline. */
  lemma {:induction false} TerminatedIsJoin(rs: seq<string>)
    requires rs != []
    ensures Terminated(rs) == Join(rs) + "\n"
  {
    if |rs| > 1 {
      TerminatedIsJoin(rs[1..]);
    }
  }

  /** Joining strings without edge newlines gives one without edge newlines. */
  lemma {:induction false} JoinNoEdgeNewline(rs: seq<string>)
    requires rs != []
    requires forall k :: 0 <= k < |rs| ==> NoEdgeNewline(rs[k])
    ensures NoEdgeNewline(Join(rs))
  {
    if |rs| > 1 {
      JoinNoEdgeNewline(rs[1..]);
    }
  }

  /** `TrimEnd` removes one newline appended to a string without edge newlines, and nothing else. */
  lemma TrimEndOne(s: string)
    requires NoEdgeNewline(s)
    ensures TrimEnd(s + "\n") == s
  {
    var t := s + "\n";
    assert t[..|t| - 1] == s;
  }

  /** Trimming removes exactly the final newline when no piece has an edge newline. */
  lemma {:induction false} TrimmedIsJoin(rs: seq<string>)
    requires forall k :: 0 <= k < |rs| ==> NoEdgeNewline(rs[k])
    ensures TrimNewlines(Terminated(rs)) == Join(rs)
  {
    if rs != [] {
      TerminatedIsJoin(rs);
      JoinNoEdgeNewline(rs);
      var t := Join(rs) + "\n";
      assert t[0] != '\n';
      TrimEndOne(Join(rs));
    }
  }

  /** The document is the top-level renderings joined by single newlines (so an
      empty document is empty): each rendering of a tag starts with `<` and
      ends with `>`, so the trim only removes the last appended newline. */
  lemma {:induction false} DocumentIsJoin(nodes: seq<Hyperlisp>, order: KeyOrder)
    requires forall j :: 0 <= j < |nodes| ==> nodes[j].Tag? && OrderFits(nodes[j], order, [j])
    ensures RenderDocument(nodes, order) == Join(Renderings(nodes, order, 0))
  {
    TrimmedIsJoin(Renderings(nodes, order, 0));
  }

  /** The whole pipeline after parsing: the root pair's tags built and
      rendered as a document. The result is empty exactly when the source has
      no top-level tag; otherwise it opens with the first tag's `<` and closes
      with the last tag's `>`. */
  function Compile(p: Pair, order: KeyOrder): (r: string)
    requires WfRoot(p) && Admissible(order)
    ensures r == "" <==> |Kept(p.inner)| == 0
    ensures r != "" ==> Angled(r)
  {
    var nodes := BuildRoot(p);
    AllFit(nodes, order);
    DocumentEnds(nodes, order);
    RenderDocument(nodes, order)
  }

  /** A document of tags is empty exactly when there are no tags, and
      otherwise starts with `<` and ends with `>`. */
  lemma DocumentEnds(nodes: seq<Hyperlisp>, order: KeyOrder)
    requires forall j :: 0 <= j < |nodes| ==> nodes[j].Tag? && OrderFits(nodes[j], order, [j])
    ensures RenderDocument(nodes, order) == "" <==> nodes == []
    ensures nodes != [] ==> Angled(RenderDocument(nodes, order))
  {
    var rs := Renderings(nodes, order, 0);
    DocumentIsJoin(nodes, order);
    forall k | 0 <= k < |rs|
      ensures Angled(rs[k])
    {
      assert rs[k] == Render(nodes[k], order, [k]);
    }
    JoinAngled(rs);
    var d := RenderDocument(nodes, order);
    assert d == Join(rs);
  }

  /** A string that starts with `<` and ends with `>`, as a rendered tag does. */
  predicate Angled(s: string)
  {
    |s| > 0 && s[0] == '<' && s[|s| - 1] == '>'
  }

  /** Joining renderings of tags starts with `<` and ends with `>`. */
  lemma {:induction false} JoinAngled(rs: seq<string>)
    requires forall k :: 0 <= k < |rs| ==> Angled(rs[k])
    ensures rs == [] <==> Join(rs) == ""
    ensures rs != [] ==> Angled(Join(rs))
  {
    if |rs| > 1 {
      JoinAngled(rs[1..]);
    }
  }

  lemma AllFit(nodes: seq<Hyperlisp>, order: KeyOrder)
    requires Admissible(order)
    ensures forall j :: 0 <= j < |nodes| ==> OrderFits(nodes[j], order, [j])
  {
    forall j | 0 <= j < |nodes|
      ensures OrderFits(nodes[j], order, [j])
    {
      AdmissibleFits(nodes[j], order, [j]);
    }
  }

  /** The compiled document is the renderings of the top-level tags of the
      source, in source order, joined by single newlines. A rendering spans
      several lines when a text inside it holds a newline. */
  lemma {:induction false} CompileIsJoin(p: Pair, order: KeyOrder)
    requires WfRoot(p) && Admissible(order)
    ensures forall j :: 0 <= j < |BuildRoot(p)| ==> OrderFits(BuildRoot(p)[j], order, [j])
    ensures Compile(p, order) == Join(Renderings(BuildRoot(p), order, 0))
    ensures |Renderings(BuildRoot(p), order, 0)| == |Kept(p.inner)|
  {
    AllFit(BuildRoot(p), order);
    DocumentIsJoin(BuildRoot(p), order);
  }
}
