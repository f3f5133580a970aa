/** The part of the SWC TypeScript syntax tree that interface extraction
    inspects. The parser hands back a union of node kinds told apart by their
    `type` discriminant; every kind the extractor does not recognise is kept
    here only as that discriminant string (`tag`). */
module SwcAst {

  datatype Option<+T> = None | Some(value: T)

  /** The `kind` of a `TsKeywordType`: the primitive keyword types. */
  datatype Keyword =
    | Any | Unknown | Number | Object | Boolean | BigInt | String
    | Symbol | Void | Undefined | Null | Never | Intrinsic

  /** The text of an identifier: never empty. */
  type IdentifierText = s: string | |s| > 0 witness "_"

  /** An `Identifier` node; `value` is its text. */
  datatype Identifier = Identifier(value: IdentifierText)

  /** The key of a property signature: an `Identifier` node, or a key of
      any other node kind (a string or numeric literal, ...). A computed key
      `[foo]` whose expression is an identifier is an `Identifier` node. */
  datatype PropertyKey =
    | IdentifierKey(id: Identifier)
    | OtherKey(tag: string)

  /** The type carried by a `TsTypeAnnotation`. */
  datatype TsType =
    | KeywordType(kind: Keyword)
    | OtherType(tag: string)

  /** An item of a `TsInterfaceBody`. The annotation is `None` when the
      parser gives `null` or `undefined` for it. */
  datatype InterfaceMember =
    | PropertySignature(key: PropertyKey, typeAnnotation: Option<TsType>)
    | OtherMember(tag: string)

  /** A `TsInterfaceDeclaration`: its identifier and `body.body`. */
  datatype InterfaceDeclaration = InterfaceDeclaration(id: Identifier, body: seq<InterfaceMember>)

  /** A top-level module item or statement. */
  datatype ModuleItem =
    | InterfaceItem(decl: InterfaceDeclaration)
    | OtherItem(tag: string)
}
