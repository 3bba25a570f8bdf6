/**
 * The part of a TypeScript syntax tree that the metadata extractor looks at:
 * the top-level statements of one source file, and for class and interface
 * declarations their names, heritage clauses and members. Every text field
 * holds what `getText()` returns for the corresponding node, so quotes and
 * punctuation written in the source are kept.
 */
module Syntax {
  import opened Results

  /** `extends` or `implements`; the extractor does not distinguish them. */
  datatype HeritageToken = ExtendsKeyword | ImplementsKeyword

  /**
   * One heritage clause, with the expression text of each of its types
   * (`Action` for `extends Action` or `implements Action<T>`; `ngrx.Action`
   * for a qualified name). An absent `heritageClauses` list is the empty list.
   */
  datatype HeritageClause = HeritageClause(token: HeritageToken, typeExpressions: seq<string>)

  /** The type annotation of a property signature. */
  datatype TypeNode =
    | LiteralType(literalText: string)  // e.g. `'[Truck] Get Items'`, quotes included
    | OtherType(text: string)           // `string`, `typeof X`, a union, ...
    | NoType                            // no annotation at all

  /** A property signature of an interface: its name text, its `?` token and its annotation. */
  datatype PropertySignature = PropertySignature(name: string, optional: bool, typeNode: TypeNode)

  /** An interface member: a property signature, or a method, call, construct or index signature. */
  datatype InterfaceMember = Property(signature: PropertySignature) | OtherSignature(text: string)

  /** A class element: its name text when it has a name (constructors do not), and its full text. */
  datatype ClassMember = ClassMember(name: Option<string>, text: string)

  /** A class declaration; `export default class ...` may have no name. */
  datatype ClassDeclaration =
    ClassDeclaration(name: Option<string>, heritageClauses: seq<HeritageClause>, members: seq<ClassMember>)

  datatype InterfaceDeclaration =
    InterfaceDeclaration(name: string, heritageClauses: seq<HeritageClause>, members: seq<InterfaceMember>)

  /** A top-level statement of the source file. */
  datatype Statement =
    | ClassStatement(classDecl: ClassDeclaration)
    | InterfaceStatement(interfaceDecl: InterfaceDeclaration)
    | OtherStatement
}
