/**
 `get_docs_for_var_declarator`: resolve the declarator's effective top-level
 type once, then project it through the binding pattern into one entry per
 bound name, each carrying the declaration's kind.
 */
module Variable {
  import opened Ast
  import opened Resolve
  import ObjectProjection
  import ArrayProjection

  /**
   The only inputs on which the source panics in `unwrap`: an array pattern
   whose loop reaches an identifier element while the top-level type is an
   array without element type or a tuple without element list.
   */
  predicate UnwrapSafe(info: ModuleInfo, d: VarDeclarator, inferred: Option<TypeDef>) {
    d.name.ArrayPat? && ArrayProjection.ReadsElementType(d.name.elems) ==>
      ArrayProjection.ElementTypeDefined(ResolveType(info, d, inferred))
  }

  /** The documentation entries of a declarator. */
  function Docs(info: ModuleInfo, decl: VarDecl, d: VarDeclarator, inferred: Option<TypeDef>): Outcome
    requires UnwrapSafe(info, d, inferred)
  {
    var top := ResolveType(info, d, inferred);
    match d.name
    case IdentPat(name, _) => Emitted([(name, VariableDef(top, decl.kind))])
    case ObjectPat(props, _) => ObjectProjection.ObjectDocs(props, top, decl.kind)
    case ArrayPat(elems, _) => ArrayProjection.ArrayDocs(elems, top, decl.kind)
    case _ => Emitted([])
  }

  /** Kind propagation: every entry carries the declaration's kind. */
  lemma KindPropagation(info: ModuleInfo, decl: VarDecl, d: VarDeclarator, inferred: Option<TypeDef>)
    requires UnwrapSafe(info, d, inferred)
    ensures Docs(info, decl, d, inferred).Emitted? ==> AllOfKind(Docs(info, decl, d, inferred).items, decl.kind)
  {
    var top := ResolveType(info, d, inferred);
    match d.name
    case ObjectPat(props, _) =>
      ObjectProjection.ObjectItemsKind(props, top, decl.kind);
    case ArrayPat(elems, _) =>
      if !ArrayProjection.RestBeforeEnd(elems) {
        ArrayProjection.IdentTypesDefinedWhenRestLast(elems, top);
        ArrayProjection.ArrayItemsKind(elems, top, decl.kind);
      }
    case _ =>
  }

  /**
   The extractor. The type-resolution cascade runs first; a plain identifier
   then gives one entry, object and array patterns are projected, and any
   other pattern gives nothing.
   */
  method GetDocsForVarDeclarator(info: ModuleInfo, decl: VarDecl, d: VarDeclarator, inferred: Option<TypeDef>)
    returns (out: Outcome)
    requires UnwrapSafe(info, d, inferred)
    ensures out == Docs(info, decl, d, inferred)
    ensures out.Emitted? ==> AllOfKind(out.items, decl.kind)
    ensures d.name.IdentPat? ==>
      out == Emitted([(d.name.name, VariableDef(ResolveType(info, d, inferred), decl.kind))])
    ensures !(d.name.IdentPat? || d.name.ObjectPat? || d.name.ArrayPat?) ==> out == Emitted([])
    ensures out.RestNotLastPanic? ==> d.name.ObjectPat? || d.name.ArrayPat?
  {
    var items: seq<Item> := [];
    var tsType := ResolveType(info, d, inferred);
    match d.name {
      case IdentPat(name, _) =>
        items := items + [(name, VariableDef(tsType, decl.kind))];
      case ObjectPat(props, _) =>
        out := ObjectProjection.ProjectObject(props, tsType, decl.kind);
        return;
      case ArrayPat(elems, _) =>
        out := ArrayProjection.ProjectArray(elems, tsType, decl.kind);
        return;
      case _ =>
    }
    out := Emitted(items);
  }

  /**
   Alias inheritance: `x = y` with no annotation of its own, where `y`'s
   first declaration site is `y: T`, documents `x` with type `T`, whatever
   the inferencer says.
   */
  lemma AliasInheritance(info: ModuleInfo, decl: VarDecl, x: string, y: Id, yName: string, t: TypeDef,
                         inferred: Option<TypeDef>)
    requires y in info.symbols && info.symbols[y] != []
    requires info.symbols[y][0] == VarSite(IdentPat(yName, Some(t)))
    ensures Docs(info, decl, VarDeclarator(IdentPat(x, None), Some(IdentExpr(y))), inferred)
         == Emitted([(x, VariableDef(Some(t), decl.kind))])
  {
  }
}
