/**
 Worked declarations, each stated as the entries the extractor documents for
 it. The inferencer's result is left as a parameter wherever the outcome does
 not depend on it.
 */
module Scenarios {
  import opened Ast
  import opened Resolve
  import opened Variable
  import ObjectProjection
  import ArrayProjection

  function Keyword(repr: string): TypeDef {
    TypeDef(repr, Some(TypeKind.Keyword), None, None, None)
  }

  const Number := Keyword("number")
  const Str := Keyword("string")
  const Bool := Keyword("boolean")

  /** `{ a: number; b: string }` */
  const ABLiteral := TypeDef("{ a: number; b: string }", Some(TypeLiteral), None, None,
    Some([LiteralProperty("a", Some(Number)), LiteralProperty("b", Some(Str))]))

  /** `[number, boolean, string]` */
  const NumBoolStr := TypeDef("[number, boolean, string]", Some(Tuple), None, Some([Number, Bool, Str]), None)

  /** `number[]` */
  const NumberArray := TypeDef("number[]", Some(Array), Some(Number), None, None)

  const NoSymbols := ModuleInfo(map[])

  /** `const x: number = 1;` */
  lemma AnnotatedIdentifier(inferred: Option<TypeDef>)
    ensures Docs(NoSymbols, VarDecl(Const), VarDeclarator(IdentPat("x", Some(Number)), Some(OtherExpr)), inferred)
         == Emitted([("x", VariableDef(Some(Number), Const))])
  {
  }

  /** `const y: string = "hi"; const z = y;`, documenting `z`. */
  lemma AliasChase(inferred: Option<TypeDef>)
    ensures var y := Id("y", 0);
      Docs(ModuleInfo(map[y := [VarSite(IdentPat("y", Some(Str)))]]), VarDecl(Const),
           VarDeclarator(IdentPat("z", None), Some(IdentExpr(y))), inferred)
      == Emitted([("z", VariableDef(Some(Str), Const))])
  {
  }

  /** `let { a, b: bb }: { a: number; b: string } = obj;` */
  lemma ObjectWithRename(inferred: Option<TypeDef>)
    ensures Docs(NoSymbols, VarDecl(Let),
                 VarDeclarator(ObjectPat([Assign("a"), KeyValue("b", IdentPat("bb", None))], Some(ABLiteral)),
                               Some(IdentExpr(Id("obj", 0)))), inferred)
         == Emitted([("a", VariableDef(Some(Number), Let)), ("bb", VariableDef(Some(Str), Let))])
  {
    var props := [Assign("a"), KeyValue("b", IdentPat("bb", None))];
    ObjectProjection.KeyedEntries(props, Some(ABLiteral), Let);
    var table := ABLiteral.typeLiteral.value;
    assert "a"[0] != "b"[0];
    assert table[1..] == [LiteralProperty("b", Some(Str))];
    assert ObjectProjection.FindTyped(table[1..], "b") == Some(Str);
    assert ObjectProjection.LookupProperty(Some(ABLiteral), "a") == Some(Number);
    assert ObjectProjection.LookupProperty(Some(ABLiteral), "b") == Some(Str);
  }

  /** `const { a, ...rest }: { a: number; b: string } = obj;` with the rest annotated. */
  lemma ObjectWithRest(inferred: Option<TypeDef>, restType: TypeDef)
    ensures Docs(NoSymbols, VarDecl(Const),
                 VarDeclarator(ObjectPat([Assign("a"), Rest(IdentPat("rest", None), Some(restType))], Some(ABLiteral)),
                               Some(IdentExpr(Id("obj", 0)))), inferred)
         == Emitted([("a", VariableDef(Some(Number), Const)), ("rest", VariableDef(Some(restType), Const))])
  {
    var props := [Assign("a"), Rest(IdentPat("rest", None), Some(restType))];
    var d := VarDeclarator(ObjectPat(props, Some(ABLiteral)), Some(IdentExpr(Id("obj", 0))));
    assert ResolveType(NoSymbols, d, inferred) == Some(ABLiteral);
    assert !ObjectProjection.RestBeforeEnd(props);
    assert props[..1] == [Assign("a")] && props[..1][..0] == [];
    assert ObjectProjection.LookupProperty(Some(ABLiteral), "a") == Some(Number);
    assert ObjectProjection.ObjectItems(props[..1], Some(ABLiteral), Const)
        == [("a", VariableDef(Some(Number), Const))];
    assert ObjectProjection.ObjectItems(props, Some(ABLiteral), Const)
        == [("a", VariableDef(Some(Number), Const)), ("rest", VariableDef(Some(restType), Const))];
  }

  /** `const [p, , q]: [number, boolean, string] = t;` */
  lemma TupleWithHole(inferred: Option<TypeDef>)
    ensures Docs(NoSymbols, VarDecl(Const),
                 VarDeclarator(ArrayPat([Some(IdentPat("p", None)), None, Some(IdentPat("q", None))], Some(NumBoolStr)),
                               Some(IdentExpr(Id("t", 0)))), inferred)
         == Emitted([("p", VariableDef(Some(Number), Const)), ("q", VariableDef(Some(Str), Const))])
  {
    var elems := [Some(IdentPat("p", None)), None, Some(IdentPat("q", None))];
    assert elems[..2] == [Some(IdentPat("p", None)), None];
    assert elems[..2][..1] == [Some(IdentPat("p", None))];
    assert elems[..2][..1][..0] == [];
    var top := Some(NumBoolStr);
    var d := VarDeclarator(ArrayPat(elems, top), Some(IdentExpr(Id("t", 0))));
    assert ResolveType(NoSymbols, d, inferred) == top;
    assert !ArrayProjection.RestBeforeEnd(elems);
    assert ArrayProjection.ArrayItems(elems[..2][..1], top, Const) == [("p", VariableDef(Some(Number), Const))];
    assert ArrayProjection.ArrayItems(elems[..2], top, Const) == [("p", VariableDef(Some(Number), Const))];
  }

  /** `const [first, ...tail]: number[] = arr;` */
  lemma ArrayWithRest(inferred: Option<TypeDef>)
    ensures Docs(NoSymbols, VarDecl(Const),
                 VarDeclarator(ArrayPat([Some(IdentPat("first", None)), Some(RestPat(IdentPat("tail", None), None))],
                                        Some(NumberArray)),
                               Some(IdentExpr(Id("arr", 0)))), inferred)
         == Emitted([("first", VariableDef(Some(Number), Const)), ("tail", VariableDef(Some(NumberArray), Const))])
  {
    var elems := [Some(IdentPat("first", None)), Some(RestPat(IdentPat("tail", None), None))];
    assert elems[..1] == [Some(IdentPat("first", None))];
    assert elems[..1][..0] == [];
    var top := Some(NumberArray);
    var d := VarDeclarator(ArrayPat(elems, top), Some(IdentExpr(Id("arr", 0))));
    assert ResolveType(NoSymbols, d, inferred) == top;
    assert !ArrayProjection.RestBeforeEnd(elems);
    assert ArrayProjection.ArrayItems(elems[..1], top, Const) == [("first", VariableDef(Some(Number), Const))];
  }

  /** `const [...rest, ] = arr;` with a hole after the rest aborts: the rest check precedes the hole skip. */
  lemma HoleAfterRest(inferred: Option<TypeDef>)
    ensures Docs(NoSymbols, VarDecl(Const),
                 VarDeclarator(ArrayPat([Some(RestPat(IdentPat("rest", None), None)), None], None),
                               Some(IdentExpr(Id("arr", 0)))), inferred)
         == RestNotLastPanic
  {
    var elems: seq<Option<Pat>> := [Some(RestPat(IdentPat("rest", None), None)), None];
    assert ArrayProjection.IsRestElem(elems[0]);
    assert ArrayProjection.RestBeforeEnd(elems);
  }
}
