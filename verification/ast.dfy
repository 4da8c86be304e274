/**
 The abstract syntax tree of a Hyperlisp document and the fixed list of
 element names that render without an end tag.
 */
module Ast {

  /** An element with its name, attribute mapping and ordered children, or a
      run of literal text. Attribute keys are unique; a later duplicate has
      already overwritten an earlier one when the tree is built. */
  datatype Hyperlisp =
    | Tag(name: string, attributes: map<string, string>, children: seq<Hyperlisp>)
    | Text(content: string)

  /** Whether `name` is one of the 17 names whose childless elements get no
      end tag (the program's `VOID` array, of which it only ever asks whether
      a name is in it). */
  predicate IsVoid(name: string)
  {
    name in {
      "area", "base", "br", "col", "embed", "hr", "img", "input", "link", "meta", "param", "source",
      "track", "wbr", "command", "keygen", "menuitem"
    }
  }
}
