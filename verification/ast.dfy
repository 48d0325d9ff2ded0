/**
 The values that `get_docs_for_var_declarator` consumes and produces: the
 parts of the syntax tree it inspects (binding patterns, initializers,
 declaration kinds), the symbol-table summary it consults, the observable
 shape of a type definition, and the documentation entries it emits.
 */
module Ast {

  datatype Option<+T> = None | Some(value: T) {
    function GetOr(default: T): T {
      match this
      case Some(v) => v
      case None => default
    }
  }

  /** The keyword of a variable declaration: `var`, `let` or `const`. */
  datatype VarDeclKind = Var | Let | Const

  /** The tag of a type definition; only three tags are inspected. */
  datatype TypeKind = Array | Tuple | TypeLiteral | Keyword | TypeRef | Union | OtherKind

  /**
   A type definition, reduced to the fields the extractor reads: the
   optional kind, the element type of an array, the element list of a tuple
   and the property table of a type literal. `repr` is the rendered text of
   the type and only serves to tell types apart.
   */
  datatype TypeDef = TypeDef(
    repr: string,
    kind: Option<TypeKind>,
    arrayElem: Option<TypeDef>,
    tuple: Option<seq<TypeDef>>,
    typeLiteral: Option<seq<LiteralProperty>>)

  /** One entry of a type literal's property table. */
  datatype LiteralProperty = LiteralProperty(name: string, tsType: Option<TypeDef>)

  /**
   A binding pattern. Every annotation is already converted to a TypeDef.
   `OtherPat` stands for assignment-with-default, expression and invalid
   patterns, none of which the extractor looks into.
   */
  datatype Pat =
    | IdentPat(name: string, typeAnn: Option<TypeDef>)
    | ObjectPat(props: seq<ObjectPatProp>, typeAnn: Option<TypeDef>)
    | ArrayPat(elems: seq<Option<Pat>>, typeAnn: Option<TypeDef>)
    | RestPat(arg: Pat, typeAnn: Option<TypeDef>)
    | OtherPat

  /**
   A property of an object pattern: `key: value`, shorthand `key` (with or
   without a default), or `...arg`. The key is already stringified.
   */
  datatype ObjectPatProp =
    | KeyValue(key: string, value: Pat)
    | Assign(key: string)
    | Rest(arg: Pat, typeAnn: Option<TypeDef>)

  /** A resolved identifier: its symbol text and its syntax context. */
  datatype Id = Id(sym: string, ctxt: nat)

  /** An initializer expression: a bare identifier, or anything else. */
  datatype Expr = IdentExpr(id: Id) | OtherExpr

  datatype VarDecl = VarDecl(kind: VarDeclKind)

  datatype VarDeclarator = VarDeclarator(name: Pat, init: Option<Expr>)

  /**
   One declaration site of a symbol: a variable declarator (given by its
   binding pattern) or any other kind of node.
   */
  datatype DeclSite = VarSite(name: Pat) | OtherSite

  /** The symbol table of a module: resolved identifier to its declaration sites. */
  datatype ModuleInfo = ModuleInfo(symbols: map<Id, seq<DeclSite>>)

  /** The documentation of one bound name. */
  datatype VariableDef = VariableDef(tsType: Option<TypeDef>, kind: VarDeclKind)

  type Item = (string, VariableDef)

  /**
   What the extractor returns: the entries in source order, or the abort
   raised by `assert!` when something follows a rest element.
   */
  datatype Outcome = Emitted(items: seq<Item>) | RestNotLastPanic

  /** Every entry carries the declaration kind `kind`. */
  predicate AllOfKind(items: seq<Item>, kind: VarDeclKind) {
    forall k :: 0 <= k < |items| ==> items[k].1.kind == kind
  }
}
