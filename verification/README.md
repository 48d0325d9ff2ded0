# Variable-declarator documentation in deno_doc, modelled in Dafny

This project models `get_docs_for_var_declarator` from deno_doc
(`src/variable.rs`). The function takes one declarator of a `var`, `let` or
`const` statement. It returns one `(name, VariableDef { ts_type, kind })`
entry per name the declarator binds. It works in two stages.

1. **Type-resolution cascade.** The declarator's effective top-level type
   comes from the first source that yields one:
   - the pattern's own annotation;
   - the declaration sites of the symbol that a bare-identifier initializer
     refers to;
   - literal-shape inference.
2. **Projection.** The type is projected through the binding pattern:
   - a plain identifier gets the whole type;
   - an object pattern looks each key up in the type literal's property
     table, honouring renames and rest;
   - an array pattern takes the array element type or the tuple slot at the
     source index, honouring holes and rest;
   - any other pattern binds nothing.

Files:

- `ast.dfy` (module `Ast`): the syntax-tree fragments, the observable shape
  of a type definition, the symbol-table summary and the emitted entries.
- `resolve.dfy` (module `Resolve`): the cascade, as pure functions.
- `object_projection.dfy` (module `ObjectProjection`): the object loop. It is
  a method with a `for` loop, a growing `items` sequence and the
  `reached_rest` flag. The method is proved equal to a recursive
  specification, `ObjectDocs`, and lemmas state what that specification
  means.
- `array_projection.dfy` (module `ArrayProjection`): the array loop, built the
  same way against `ArrayDocs`.
- `variable.dfy` (module `Variable`): the entry point
  `GetDocsForVarDeclarator` and its specification `Docs`.
- `scenarios.dfy` (module `Scenarios`): worked declarations, each stated as
  the entries it documents.

How the collaborators are represented:

- Annotations are already-converted `TypeDef` values.
- The symbol table is a map from resolved identifiers to their declaration
  sites. A site is either a variable declarator, given by its binding pattern,
  or some other node.
- The literal-shape inferencer is one input, `inferred`. It stands for the
  inferencer's result on the declarator being documented.
- The `assert!` that a rest element is last becomes the result
  `RestNotLastPanic`.
- The two `unwrap` calls in the array loop become a precondition,
  `UnwrapSafe`. It holds exactly when the loop cannot reach an identifier
  element while the type is an array without an element type, or a tuple
  without an element list.

Where the design can be read more than one way, the model follows the code:

- **Inference inside the declaration-site loop** (src/variable.rs:61-65)
  runs on the *outer* declarator, with the outer declaration's `const` flag.
  The `var_declarator` bound at :49 is scoped to its `if let`. So every call
  inside the loop returns the same value as the final fallback at :77-81.
  `ChaseDecls` states the consequence: once inference succeeds, no site after
  the first is ever consulted.
- **A key-value property whose value is not an identifier** is still emitted
  under its key. Its type is looked up by that key (:100-102, :123-134). It is
  not forced to none.
- **The property-table lookup** is a `find_map` (:126-132). It returns the
  first property whose name matches *and* whose type is present. A matching
  name with no type does not stop the search.
- **The array loop checks the rest flag before skipping holes** (:151-154).
  So a hole after a rest aborts too.

## Model

| member | source | states |
|---|---|---|
| `Resolve.PatternAnnotation` | src/variable.rs:35-40 | only identifier, object and array patterns contribute an annotation |
| `Resolve.ChaseDecls` | src/variable.rs:48-70 | the site scan returns the first site's annotation or the inferred type when inference succeeds; when it fails, the annotation of the first annotated site, and none exactly when no site is annotated |
| `Resolve.ResolveType` | src/variable.rs:26-82 | a pattern annotation wins unconditionally; without a resolvable bare-identifier initializer the inferred type is used; a referenced symbol whose first site is annotated passes that annotation on; the result is none exactly when every source is empty |
| `Resolve.ResolvedTypeHasSource` | src/variable.rs:41-82 | the resolved type is always the pattern annotation, the inferred type or some referenced site's annotation |
| `ObjectProjection.FindTyped` | src/variable.rs:126-132 | the lookup finds a type iff some property has the name and a present type, and then returns the first such property's type |
| `ObjectProjection.LookupProperty` | src/variable.rs:123-134 | a non-rest property's type comes from the top-level type's property table, whatever the type's kind; none without a type or a table |
| `ObjectProjection.ProjectObject` | src/variable.rs:93-147 | the loop produces exactly `ObjectDocs`; it aborts iff some rest property (with any target) is followed by another property; every entry carries the declaration kind |
| `ObjectProjection.ObjectItemsKind` | src/variable.rs:141-144 | every object entry carries the declaration kind |
| `ObjectProjection.ObjectItemsAt` | src/variable.rs:95-146 | the k-th entry comes from the k-th emitting property, in source order, under its binding name and with its projected type |
| `ObjectProjection.KeyedEntries` | src/variable.rs:97-108 | without rest properties, entry i is named by property i's identifier rename (else its key) and typed by looking the key up |
| `ObjectProjection.RestEntryIsLast` | src/variable.rs:109-139 | a trailing identifier rest gives the last entry, typed only by its own annotation, and no earlier property is a rest |
| `ArrayProjection.ProjectArray` | src/variable.rs:148-207 | the loop produces exactly `ArrayDocs`; it aborts iff a rest element is followed by any slot, holes included; every entry carries the declaration kind |
| `ArrayProjection.ArrayItemsKind` | src/variable.rs:201-204 | every array entry carries the declaration kind |
| `ArrayProjection.ArrayItemsAt` | src/variable.rs:150-205 | the k-th entry comes from the k-th emitting slot, in index order with holes counted, under its name and with the type projected for that index |
| `ArrayProjection.ArrayTypeProjection` | src/variable.rs:172-175 | over an array type, every entry has the element type except a rest entry, which can only be the last |
| `ArrayProjection.TupleSlotProjection` | src/variable.rs:176-181 | over a tuple type, a non-rest entry takes the tuple slot at its source index, or none past the tuple's end |
| `ArrayProjection.UntypedProjection` | src/variable.rs:172-199 | over an absent, kindless or other-kind type, identifier entries get none and a rest entry only its own annotation |
| `ArrayProjection.RestCollectsArray` | src/variable.rs:185-199 | a trailing identifier rest without annotation gets the whole top-level type when that is an array, else none |
| `Variable.KindPropagation` | src/variable.rs:84-209 | every emitted entry carries the declaration's kind |
| `Variable.GetDocsForVarDeclarator` | src/variable.rs:20-211 | the extractor produces exactly `Docs`; an identifier pattern yields one entry with the resolved type; unsupported patterns yield nothing; only destructuring patterns can abort; every entry carries the kind |
| `Variable.AliasInheritance` | src/variable.rs:44-58 | `x = y` with no annotation, where `y`'s first site is `y: T`, documents `x` as `T`, whatever inference says |
| `Scenarios.AnnotatedIdentifier` | src/variable.rs:35-92 | `const x: number = 1` documents `x: number` |
| `Scenarios.AliasChase` | src/variable.rs:44-58 | `const z = y` with `const y: string` documents `z: string` |
| `Scenarios.ObjectWithRename` | src/variable.rs:97-145 | `let { a, b: bb }: { a: number; b: string }` documents `a: number`, `bb: string` |
| `Scenarios.ObjectWithRest` | src/variable.rs:109-145 | an annotated object rest gets its own annotation |
| `Scenarios.TupleWithHole` | src/variable.rs:150-181 | `[p, , q]` over `[number, boolean, string]` documents `p: number`, `q: string` |
| `Scenarios.ArrayWithRest` | src/variable.rs:172-199 | `[first, ...tail]` over `number[]` documents `first: number`, `tail: number[]` |
| `Scenarios.HoleAfterRest` | src/variable.rs:150-154 | a hole after an array rest aborts |

## Left out

- Parsing and the swc syntax tree are not modelled. Patterns, properties and
  elements are small datatypes holding names and already-converted types.
- `TsTypeDef::new` (src/variable.rs:42, 54, 137, 188) is not modelled. It
  converts annotation text into a type, and each annotation is given here as
  the converted `TypeDef`.
- `infer_simple_ts_type_from_var_decl` (src/variable.rs:61, 77) is not
  modelled. It lives in `crate::ts_type`, which is not part of this model. It
  is the single input `inferred`.
- `EsModuleInfo::symbol_from_swc`, `Symbol::decls` and `maybe_node`
  (src/variable.rs:45-50) are not modelled. They are replaced by a map from
  identifiers to declaration-site summaries.
- `crate::params::prop_name_to_string` (src/variable.rs:99) is not part of
  this model. Property keys arrive as strings.
- `TsTypeDef` keeps only its rendered text, optional kind, array element
  type, tuple element list and type-literal property table.
- The serde derives and camelCase renaming of `VariableDef` are left out.
  They only affect serialization.
- Source positions, JSDoc and the `declare` flag of the declaration are left
  out. The function does not read them.
- `Variable.GetDocsForVarDeclarator`: the `unwrap` panics in the array loop
  are a precondition (`UnwrapSafe`), not an outcome. The `assert!` panic is
  the outcome `RestNotLastPanic`. Both abort the process in the source.
