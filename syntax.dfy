/** The part of the host compiler's attribute syntax that annotation extraction inspects. */
module Syntax {

  /** A literal in an attribute; only string literals matter here. */
  datatype LitKind = Str(s: string) | Int(i: int) | Bool(b: bool)

  /** `#[name]`, `#[name(items, ...)]` or `#[name = literal]`. */
  datatype MetaItemKind =
    | Word(wordName: string)
    | List(listName: string, items: seq<NestedMetaItem>)
    | NameValue(name: string, literal: LitKind)

  /** An entry of a list attribute: a nested meta item or a bare literal. */
  datatype NestedMetaItem = MetaItem(item: MetaItemKind) | Literal(lit: LitKind)

  /** An attribute attached to a function declaration. */
  datatype Attribute = Attribute(value: MetaItemKind)
}
