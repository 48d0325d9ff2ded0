/**
 Projection of the effective top-level type through an array pattern: one
 entry per identifier element and per rest element with an identifier
 target, in index order. Holes and other element patterns emit nothing. An
 identifier element takes the array's element type or the tuple slot at its
 index (holes counted); a rest element takes its own annotation, else the
 whole top-level type when that is an array. Any slot after a rest aborts.
 */
module ArrayProjection {
  import opened Ast

  /**
   The top-level type carries what a non-rest element's type is read from:
   the element type when its kind is array, the element list when it is a
   tuple. Without it the source panics on `unwrap`.
   */
  predicate ElementTypeDefined(top: Option<TypeDef>) {
    top.Some? ==>
      (top.value.kind == Some(Array) ==> top.value.arrayElem.Some?) &&
      (top.value.kind == Some(Tuple) ==> top.value.tuple.Some?)
  }

  /** The type of the non-rest element at source index `i`. */
  function ElementType(top: Option<TypeDef>, i: nat): Option<TypeDef>
    requires ElementTypeDefined(top)
  {
    match top
    case None => None
    case Some(t) =>
      match t.kind
      case Some(Array) => Some(t.arrayElem.value)
      case Some(Tuple) => if i < |t.tuple.value| then Some(t.tuple.value[i]) else None
      case _ => None
  }

  /** The type of a rest element: its own annotation, else the whole top-level type if that is an array. */
  function RestType(ann: Option<TypeDef>, top: Option<TypeDef>): Option<TypeDef> {
    if ann.Some? then ann
    else if top.Some? && top.value.kind == Some(Array) then top
    else None
  }

  predicate IsIdentElem(e: Option<Pat>) {
    e.Some? && e.value.IdentPat?
  }

  predicate IsRestElem(e: Option<Pat>) {
    e.Some? && e.value.RestPat?
  }

  /** The name an element is emitted under, if any. */
  function ElemBinding(e: Option<Pat>): Option<string> {
    match e
    case Some(IdentPat(name, _)) => Some(name)
    case Some(RestPat(arg, _)) => if arg.IdentPat? then Some(arg.name) else None
    case _ => None
  }

  /** The type the entry of the element at source index `i` carries. */
  function ElemType(i: nat, e: Option<Pat>, top: Option<TypeDef>): Option<TypeDef>
    requires IsIdentElem(e) ==> ElementTypeDefined(top)
  {
    if IsRestElem(e) then RestType(e.value.typeAnn, top)
    else if IsIdentElem(e) then ElementType(top, i)
    else None
  }

  /** Every identifier element can have its type read. */
  predicate IdentTypesDefined(elems: seq<Option<Pat>>, top: Option<TypeDef>) {
    forall i :: 0 <= i < |elems| && IsIdentElem(elems[i]) ==> ElementTypeDefined(top)
  }

  /** The entries of the first |elems| slots, in index order. */
  function ArrayItems(elems: seq<Option<Pat>>, top: Option<TypeDef>, kind: VarDeclKind): seq<Item>
    requires IdentTypesDefined(elems, top)
  {
    if elems == [] then []
    else
      var n := |elems| - 1;
      var e := elems[n];
      ArrayItems(elems[..n], top, kind) +
        if ElemBinding(e).Some? then [(ElemBinding(e).value, VariableDef(ElemType(n, e, top), kind))] else []
  }

  /** Some rest element is followed by another slot (a hole included). */
  predicate RestBeforeEnd(elems: seq<Option<Pat>>) {
    exists j :: 0 <= j < |elems| - 1 && IsRestElem(elems[j])
  }

  /** No rest element occurs before index `i`. */
  predicate NoRestBefore(elems: seq<Option<Pat>>, i: nat)
    requires i <= |elems|
  {
    forall j :: 0 <= j < i ==> !IsRestElem(elems[j])
  }

  /**
   The loop reaches an identifier element (whose type it then reads) before
   any rest element has aborted it.
   */
  predicate ReadsElementType(elems: seq<Option<Pat>>) {
    exists i :: 0 <= i < |elems| && IsIdentElem(elems[i]) && NoRestBefore(elems, i)
  }

  lemma IdentTypesDefinedWhenRestLast(elems: seq<Option<Pat>>, top: Option<TypeDef>)
    requires ReadsElementType(elems) ==> ElementTypeDefined(top)
    requires !RestBeforeEnd(elems)
    ensures IdentTypesDefined(elems, top)
  {
  }

  /** What projecting through the array pattern yields. */
  function ArrayDocs(elems: seq<Option<Pat>>, top: Option<TypeDef>, kind: VarDeclKind): Outcome
    requires ReadsElementType(elems) ==> ElementTypeDefined(top)
  {
    if RestBeforeEnd(elems) then RestNotLastPanic
    else
      IdentTypesDefinedWhenRestLast(elems, top);
      Emitted(ArrayItems(elems, top, kind))
  }

  /**
   The array-pattern loop: walks the slots with their index, checking the rest
   flag before skipping holes, and pushes one entry per identifier or
   identifier-target rest.
   */
  method ProjectArray(elems: seq<Option<Pat>>, top: Option<TypeDef>, kind: VarDeclKind) returns (out: Outcome)
    requires ReadsElementType(elems) ==> ElementTypeDefined(top)
    ensures out == ArrayDocs(elems, top, kind)
    ensures out.RestNotLastPanic? <==> exists j :: 0 <= j < |elems| - 1 && IsRestElem(elems[j])
    ensures out.Emitted? ==> AllOfKind(out.items, kind)
  {
    var items: seq<Item> := [];
    var reachedRest := false;
    for i := 0 to |elems|
      invariant reachedRest <==> (i > 0 && IsRestElem(elems[i - 1]))
      invariant forall j :: 0 <= j < i - 1 ==> !IsRestElem(elems[j])
      invariant IdentTypesDefined(elems[..i], top)
      invariant items == ArrayItems(elems[..i], top, kind)
    {
      assert elems[..i + 1][..i] == elems[..i];
      if reachedRest {
        return RestNotLastPanic;
      }
      assert IsIdentElem(elems[i]) ==> NoRestBefore(elems, i);
      if elems[i].None? {
        continue;
      }
      var name: string, restTypeAnn: Option<TypeDef>;
      match elems[i].value {
        case IdentPat(n, _) =>
          name, restTypeAnn := n, None;
        case RestPat(arg, typeAnn) =>
          reachedRest := true;
          if !arg.IdentPat? {
            continue;
          }
          name, restTypeAnn := arg.name, typeAnn;
        case _ =>
          continue;
      }
      var tsType;
      if !reachedRest {
        tsType := ElementType(top, i);
      } else {
        tsType := RestType(restTypeAnn, top);
      }
      items := items + [(name, VariableDef(tsType, kind))];
    }
    assert elems[..|elems|] == elems;
    ArrayItemsKind(elems, top, kind);
    return Emitted(items);
  }

  /** Every entry carries the declaration kind. */
  lemma {:induction false} ArrayItemsKind(elems: seq<Option<Pat>>, top: Option<TypeDef>, kind: VarDeclKind)
    requires IdentTypesDefined(elems, top)
    ensures AllOfKind(ArrayItems(elems, top, kind), kind)
  {
    if elems != [] {
      ArrayItemsKind(elems[..|elems| - 1], top, kind);
    }
  }

  /** The source indices (holes counted) of the slots that emit an entry, in increasing order. */
  function Emitting(elems: seq<Option<Pat>>): (r: seq<nat>)
    ensures forall k :: 0 <= k < |r| ==> r[k] < |elems| && ElemBinding(elems[r[k]]).Some?
    ensures forall k, l :: 0 <= k < l < |r| ==> r[k] < r[l]
    ensures forall i :: 0 <= i < |elems| && ElemBinding(elems[i]).Some? ==> i in r
  {
    if elems == [] then []
    else
      var init := elems[..|elems| - 1];
      var r0 := Emitting(init);
      assert forall i :: 0 <= i < |init| ==> init[i] == elems[i];
      if ElemBinding(elems[|elems| - 1]).Some? then r0 + [|elems| - 1] else r0
  }

  /**
   Order and content of the entries: the k-th entry comes from the k-th
   emitting slot, under its binding name and with the type projected for
   that slot's source index.
   */
  lemma {:induction false} ArrayItemsAt(elems: seq<Option<Pat>>, top: Option<TypeDef>, kind: VarDeclKind)
    requires IdentTypesDefined(elems, top)
    ensures |ArrayItems(elems, top, kind)| == |Emitting(elems)|
    ensures forall k :: 0 <= k < |Emitting(elems)| ==>
      var i := Emitting(elems)[k];
      ArrayItems(elems, top, kind)[k] == (ElemBinding(elems[i]).value, VariableDef(ElemType(i, elems[i], top), kind))
  {
    if elems != [] {
      var n := |elems| - 1;
      var init := elems[..n];
      assert forall i :: 0 <= i < |init| ==> init[i] == elems[i];
      assert IdentTypesDefined(init, top);
      ArrayItemsAt(init, top, kind);
      var items0, items := ArrayItems(init, top, kind), ArrayItems(elems, top, kind);
      var pos0, pos := Emitting(init), Emitting(elems);
      assert pos == if ElemBinding(elems[n]).Some? then pos0 + [n] else pos0;
      assert items == items0 + if ElemBinding(elems[n]).Some? then [(ElemBinding(elems[n]).value, VariableDef(ElemType(n, elems[n], top), kind))] else [];
      forall k | 0 <= k < |pos0|
        ensures items[k] == (ElemBinding(elems[pos[k]]).value, VariableDef(ElemType(pos[k], elems[pos[k]], top), kind))
      {
        assert items[k] == items0[k];
        assert pos[k] == pos0[k];
        assert init[pos0[k]] == elems[pos0[k]];
      }
    }
  }

  /**
   Over an array type with element type `e`: every entry has type `e`,
   except a rest entry, which can only be the last one.
   */
  lemma ArrayTypeProjection(elems: seq<Option<Pat>>, top: Option<TypeDef>, kind: VarDeclKind, e: TypeDef)
    requires top.Some? && top.value.kind == Some(Array) && top.value.arrayElem == Some(e)
    requires ArrayDocs(elems, top, kind).Emitted?
    ensures var items := ArrayDocs(elems, top, kind).items;
      forall k :: 0 <= k < |items| ==>
        items[k].1.tsType == Some(e) || (k == |items| - 1 && IsRestElem(elems[|elems| - 1]))
  {
    ArrayItemsAt(elems, top, kind);
    var items := ArrayDocs(elems, top, kind).items;
    var pos := Emitting(elems);
    forall k | 0 <= k < |items|
      ensures items[k].1.tsType == Some(e) || (k == |items| - 1 && IsRestElem(elems[|elems| - 1]))
    {
      if k < |items| - 1 {
        assert pos[k] < pos[k + 1] < |elems|;
      }
    }
  }

  /**
   A trailing rest with an identifier target and no annotation of its own
   contributes the last entry, typed with the whole top-level type when that
   is an array.
   */
  lemma RestCollectsArray(elems: seq<Option<Pat>>, top: Option<TypeDef>, kind: VarDeclKind)
    requires ReadsElementType(elems) ==> ElementTypeDefined(top)
    requires ArrayDocs(elems, top, kind).Emitted?
    requires elems != [] && IsRestElem(elems[|elems| - 1])
    requires elems[|elems| - 1].value.arg.IdentPat? && elems[|elems| - 1].value.typeAnn.None?
    ensures var items := ArrayDocs(elems, top, kind).items;
      items != [] &&
      items[|items| - 1] ==
        (elems[|elems| - 1].value.arg.name,
         VariableDef(if top.Some? && top.value.kind == Some(Array) then top else None, kind))
  {
  }

  /**
   Over a tuple type: the k-th entry takes the tuple slot at its element's
   source index, holes counted, or none past the end of the tuple.
   */
  lemma TupleSlotProjection(elems: seq<Option<Pat>>, top: Option<TypeDef>, kind: VarDeclKind, slots: seq<TypeDef>)
    requires top.Some? && top.value.kind == Some(Tuple) && top.value.tuple == Some(slots)
    requires ArrayDocs(elems, top, kind).Emitted?
    ensures var items := ArrayDocs(elems, top, kind).items;
      |items| == |Emitting(elems)| &&
      forall k :: 0 <= k < |items| && !IsRestElem(elems[Emitting(elems)[k]]) ==>
        var i := Emitting(elems)[k];
        items[k] == (elems[i].value.name, VariableDef(if i < |slots| then Some(slots[i]) else None, kind))
  {
  }

  /**
   Over a top-level type that is absent, has no kind, or is neither an array
   nor a tuple: identifier elements get no type, and a rest element gets only
   its own annotation.
   */
  lemma UntypedProjection(elems: seq<Option<Pat>>, top: Option<TypeDef>, kind: VarDeclKind)
    requires top.None? || top.value.kind.None? || (top.value.kind != Some(Array) && top.value.kind != Some(Tuple))
    requires ArrayDocs(elems, top, kind).Emitted?
    ensures var items := ArrayDocs(elems, top, kind).items;
      |items| == |Emitting(elems)| &&
      forall k :: 0 <= k < |items| ==>
        var e := elems[Emitting(elems)[k]];
        items[k].1.tsType == (if IsRestElem(e) then e.value.typeAnn else None)
  {
  }
}
