/**
 Projection of the effective top-level type through an object pattern: one
 entry per property, in source order. A key-value or shorthand property takes
 its type from the type literal's property table by key; a rest property
 takes only its own annotation. A property after a rest aborts.
 */
module ObjectProjection {
  import opened Ast

  /** A table entry that `find_map` accepts for `name`: the name matches and a type is present. */
  predicate Matches(p: LiteralProperty, name: string) {
    p.name == name && p.tsType.Some?
  }

  /**
   `find_map` over a property table: the type of the first property whose
   name matches and whose type is present. A matching name with no type does
   not stop the search.
   */
  function FindTyped(props: seq<LiteralProperty>, name: string): (r: Option<TypeDef>)
    ensures r.Some? <==> exists k :: 0 <= k < |props| && Matches(props[k], name)
    ensures r.Some? ==>
      exists k :: 0 <= k < |props| && Matches(props[k], name) && r == props[k].tsType &&
        forall j :: 0 <= j < k ==> !Matches(props[j], name)
  {
    if props == [] then None
    else if Matches(props[0], name) then props[0].tsType
    else
      var r := FindTyped(props[1..], name);
      assert forall k :: 1 <= k < |props| ==> props[1..][k - 1] == props[k];
      r
  }

  /**
   The type a non-rest property named `name` gets: looked up in the top-level
   type's property table whatever the top-level type's kind, none when there
   is no top-level type or no table.
   */
  function LookupProperty(top: Option<TypeDef>, name: string): (r: Option<TypeDef>)
    ensures r.Some? <==>
      top.Some? && top.value.typeLiteral.Some? &&
      exists k :: 0 <= k < |top.value.typeLiteral.value| && Matches(top.value.typeLiteral.value[k], name)
    ensures r.Some? ==>
      exists k :: 0 <= k < |top.value.typeLiteral.value| &&
        top.value.typeLiteral.value[k].name == name && r == top.value.typeLiteral.value[k].tsType
  {
    match top
    case None => None
    case Some(t) =>
      match t.typeLiteral
      case None => None
      case Some(props) => FindTyped(props, name)
  }

  /**
   The name a property is emitted under, if any: the identifier a key-value
   property renames to (the key itself when the value is not an identifier),
   the shorthand key, or the rest target when it is an identifier.
   */
  function PropBinding(p: ObjectPatProp): Option<string> {
    match p
    case KeyValue(key, value) => Some(if value.IdentPat? then value.name else key)
    case Assign(key) => Some(key)
    case Rest(arg, _) => if arg.IdentPat? then Some(arg.name) else None
  }

  /** The type a property's entry carries: by key for key-value and shorthand, the own annotation for a rest. */
  function PropType(p: ObjectPatProp, top: Option<TypeDef>): Option<TypeDef> {
    match p
    case KeyValue(key, _) => LookupProperty(top, key)
    case Assign(key) => LookupProperty(top, key)
    case Rest(_, ann) => ann
  }

  /** The entries one property contributes: none or one. */
  function PropItems(p: ObjectPatProp, top: Option<TypeDef>, kind: VarDeclKind): seq<Item> {
    if PropBinding(p).Some? then [(PropBinding(p).value, VariableDef(PropType(p, top), kind))] else []
  }

  /** The entries of a list of properties, in source order. */
  function ObjectItems(props: seq<ObjectPatProp>, top: Option<TypeDef>, kind: VarDeclKind): seq<Item> {
    if props == [] then []
    else ObjectItems(props[..|props| - 1], top, kind) + PropItems(props[|props| - 1], top, kind)
  }

  /** Some rest property is followed by another property. */
  predicate RestBeforeEnd(props: seq<ObjectPatProp>) {
    exists j :: 0 <= j < |props| - 1 && props[j].Rest?
  }

  /** What projecting through the object pattern yields. */
  function ObjectDocs(props: seq<ObjectPatProp>, top: Option<TypeDef>, kind: VarDeclKind): Outcome {
    if RestBeforeEnd(props) then RestNotLastPanic else Emitted(ObjectItems(props, top, kind))
  }

  /** The object-pattern loop: walks the properties, pushing one entry each, with the rest flag checked first. */
  method ProjectObject(props: seq<ObjectPatProp>, top: Option<TypeDef>, kind: VarDeclKind) returns (out: Outcome)
    ensures out == ObjectDocs(props, top, kind)
    ensures out.RestNotLastPanic? <==> exists j :: 0 <= j < |props| - 1 && props[j].Rest?
    ensures out.Emitted? ==> AllOfKind(out.items, kind)
  {
    var items: seq<Item> := [];
    var reachedRest := false;
    for i := 0 to |props|
      invariant reachedRest <==> (i > 0 && props[i - 1].Rest?)
      invariant forall j :: 0 <= j < i - 1 ==> !props[j].Rest?
      invariant items == ObjectItems(props[..i], top, kind)
    {
      assert props[..i + 1][..i] == props[..i];
      if reachedRest {
        return RestNotLastPanic;
      }
      var name: string, reassignName: Option<string>, restTypeAnn: Option<TypeDef>;
      match props[i] {
        case KeyValue(key, value) =>
          name := key;
          reassignName := if value.IdentPat? then Some(value.name) else None;
          restTypeAnn := None;
        case Assign(key) =>
          name, reassignName, restTypeAnn := key, None, None;
        case Rest(arg, typeAnn) =>
          reachedRest := true;
          if !arg.IdentPat? {
            continue;
          }
          name, reassignName, restTypeAnn := arg.name, None, typeAnn;
      }
      var tsType := if !reachedRest then LookupProperty(top, name) else restTypeAnn;
      items := items + [(reassignName.GetOr(name), VariableDef(tsType, kind))];
    }
    assert props[..|props|] == props;
    ObjectItemsKind(props, top, kind);
    return Emitted(items);
  }

  /** Every entry carries the declaration kind. */
  lemma {:induction false} ObjectItemsKind(props: seq<ObjectPatProp>, top: Option<TypeDef>, kind: VarDeclKind)
    ensures AllOfKind(ObjectItems(props, top, kind), kind)
  {
    if props != [] {
      ObjectItemsKind(props[..|props| - 1], top, kind);
    }
  }

  /** The source indices of the properties that emit an entry, in increasing order. */
  function Emitting(props: seq<ObjectPatProp>): (r: seq<nat>)
    ensures forall k :: 0 <= k < |r| ==> r[k] < |props| && PropBinding(props[r[k]]).Some?
    ensures forall k, l :: 0 <= k < l < |r| ==> r[k] < r[l]
    ensures forall i :: 0 <= i < |props| && PropBinding(props[i]).Some? ==> i in r
  {
    if props == [] then []
    else
      var init := props[..|props| - 1];
      var r0 := Emitting(init);
      assert forall i :: 0 <= i < |init| ==> init[i] == props[i];
      if PropBinding(props[|props| - 1]).Some? then r0 + [|props| - 1] else r0
  }

  /**
   Order and content of the entries: the k-th entry comes from the k-th
   emitting property, under that property's binding name and with its
   projected type.
   */
  lemma {:induction false} ObjectItemsAt(props: seq<ObjectPatProp>, top: Option<TypeDef>, kind: VarDeclKind)
    ensures |ObjectItems(props, top, kind)| == |Emitting(props)|
    ensures forall k :: 0 <= k < |Emitting(props)| ==>
      var p := props[Emitting(props)[k]];
      ObjectItems(props, top, kind)[k] == (PropBinding(p).value, VariableDef(PropType(p, top), kind))
  {
    if props != [] {
      var n := |props| - 1;
      var init := props[..n];
      assert forall i :: 0 <= i < |init| ==> init[i] == props[i];
      ObjectItemsAt(init, top, kind);
      var items0, items := ObjectItems(init, top, kind), ObjectItems(props, top, kind);
      var pos0, pos := Emitting(init), Emitting(props);
      assert pos == if PropBinding(props[n]).Some? then pos0 + [n] else pos0;
      assert items == items0 + PropItems(props[n], top, kind);
      forall k | 0 <= k < |pos0|
        ensures items[k] == (PropBinding(props[pos[k]]).value, VariableDef(PropType(props[pos[k]], top), kind))
      {
        assert items[k] == items0[k];
        assert pos[k] == pos0[k];
        assert init[pos0[k]] == props[pos0[k]];
      }
    }
  }

  /**
   Rename capture and type-literal projection: when no property is a rest,
   entry i is named by property i's rename (or key) and typed by looking the
   key up in the property table.
   */
  lemma KeyedEntries(props: seq<ObjectPatProp>, top: Option<TypeDef>, kind: VarDeclKind)
    requires forall i :: 0 <= i < |props| ==> !props[i].Rest?
    ensures ObjectDocs(props, top, kind).Emitted?
    ensures |ObjectDocs(props, top, kind).items| == |props|
    ensures forall i :: 0 <= i < |props| ==>
      ObjectDocs(props, top, kind).items[i] ==
        (if props[i].KeyValue? && props[i].value.IdentPat? then props[i].value.name else props[i].key,
         VariableDef(LookupProperty(top, props[i].key), kind))
  {
    ObjectItemsAt(props, top, kind);
    EmittingAll(props);
  }

  /** When every property emits, the emitting indices are exactly 0, 1, 2, ... */
  lemma {:induction false} EmittingAll(props: seq<ObjectPatProp>)
    requires forall i :: 0 <= i < |props| ==> PropBinding(props[i]).Some?
    ensures |Emitting(props)| == |props|
    ensures forall k :: 0 <= k < |props| ==> Emitting(props)[k] == k
  {
    if props != [] {
      var init := props[..|props| - 1];
      assert forall i :: 0 <= i < |init| ==> init[i] == props[i];
      EmittingAll(init);
    }
  }

  /**
   Rest terminality: a trailing rest with an identifier target contributes
   the last entry, typed only by its own annotation.
   */
  lemma RestEntryIsLast(props: seq<ObjectPatProp>, top: Option<TypeDef>, kind: VarDeclKind)
    requires ObjectDocs(props, top, kind).Emitted?
    requires props != [] && props[|props| - 1].Rest? && props[|props| - 1].arg.IdentPat?
    ensures var items := ObjectDocs(props, top, kind).items;
      items != [] &&
      items[|items| - 1] == (props[|props| - 1].arg.name, VariableDef(props[|props| - 1].typeAnn, kind)) &&
      forall j :: 0 <= j < |props| - 1 ==> !props[j].Rest?
  {
  }
}
