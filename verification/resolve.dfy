/**
 The type-resolution cascade of `get_docs_for_var_declarator`: the
 declarator's effective top-level type is the pattern's own annotation,
 else what the referenced symbol's declaration sites yield, else the
 literal-shape inference of the declarator.

 The inferencer is outside this model; `inferred` is its result on the
 declarator being documented (with `immutable` set for `const`). Every call
 the source makes to it, including those inside the declaration-site loop,
 passes that same declarator, so one value stands for all of them.
 */
module Resolve {
  import opened Ast

  /** The annotation the top-level pattern carries; only identifier, object and array patterns have one. */
  function PatternAnnotation(p: Pat): (r: Option<TypeDef>)
    ensures r.Some? ==> p.IdentPat? || p.ObjectPat? || p.ArrayPat?
  {
    match p
    case IdentPat(_, ann) => ann
    case ObjectPat(_, ann) => ann
    case ArrayPat(_, ann) => ann
    case _ => None
  }

  /** The identifier the initializer refers to, when it is a bare identifier. */
  function RefName(init: Option<Expr>): Option<Id> {
    match init
    case Some(IdentExpr(id)) => Some(id)
    case _ => None
  }

  /** The declaration sites of the symbol the initializer refers to, when it resolves. */
  function ReferencedSites(info: ModuleInfo, init: Option<Expr>): Option<seq<DeclSite>> {
    match RefName(init)
    case Some(id) => if id in info.symbols then Some(info.symbols[id]) else None
    case None => None
  }

  /** The annotation of a declaration site that is a variable declarator binding a plain, annotated identifier. */
  function SiteAnnotation(site: DeclSite): Option<TypeDef> {
    match site
    case VarSite(IdentPat(_, ann)) => ann
    case _ => None
  }

  /**
   The scan over the referenced symbol's declaration sites, in order. A site
   that is an annotated identifier declarator returns its annotation; any
   other site returns the inferred type when there is one; otherwise the scan
   moves on. Since `inferred` does not depend on the site, the scan never
   gets past the first site unless inference fails.
   */
  function ChaseDecls(sites: seq<DeclSite>, inferred: Option<TypeDef>): (r: Option<TypeDef>)
    ensures inferred.Some? ==>
      r == (if sites == [] then None
            else if SiteAnnotation(sites[0]).Some? then SiteAnnotation(sites[0])
            else inferred)
    ensures inferred.None? ==>
      (r.Some? <==> exists k :: 0 <= k < |sites| && SiteAnnotation(sites[k]).Some?)
    ensures inferred.None? && r.Some? ==>
      exists k :: 0 <= k < |sites| && r == SiteAnnotation(sites[k]) &&
        forall j :: 0 <= j < k ==> SiteAnnotation(sites[j]).None?
  {
    if sites == [] then None
    else if SiteAnnotation(sites[0]).Some? then SiteAnnotation(sites[0])
    else if inferred.Some? then inferred
    else
      var r := ChaseDecls(sites[1..], inferred);
      assert forall k :: 1 <= k < |sites| ==> sites[1..][k - 1] == sites[k];
      r
  }

  /**
   The effective top-level type of a declarator: the first of the pattern
   annotation, the declaration-site scan (only when the initializer is a bare
   identifier that resolves to a symbol) and the inferred type that has a value.
   */
  function ResolveType(info: ModuleInfo, d: VarDeclarator, inferred: Option<TypeDef>): (r: Option<TypeDef>)
    // an annotation on the pattern wins unconditionally
    ensures PatternAnnotation(d.name).Some? ==> r == PatternAnnotation(d.name)
    // without a resolvable bare-identifier initializer, only inference is left
    ensures PatternAnnotation(d.name).None? && ReferencedSites(info, d.init).None? ==> r == inferred
    // alias inheritance: the referenced symbol's first site's annotation is taken over
    ensures PatternAnnotation(d.name).None? && ReferencedSites(info, d.init).Some? &&
            ReferencedSites(info, d.init).value != [] &&
            SiteAnnotation(ReferencedSites(info, d.init).value[0]).Some? ==>
              r == SiteAnnotation(ReferencedSites(info, d.init).value[0])
    // otherwise inference wins over any later site
    ensures PatternAnnotation(d.name).None? && ReferencedSites(info, d.init).Some? &&
            ReferencedSites(info, d.init).value != [] &&
            SiteAnnotation(ReferencedSites(info, d.init).value[0]).None? && inferred.Some? ==>
              r == inferred
    // no type at all exactly when every source comes up empty
    ensures r.None? <==>
      PatternAnnotation(d.name).None? && inferred.None? &&
      (ReferencedSites(info, d.init).Some? ==>
        forall k :: 0 <= k < |ReferencedSites(info, d.init).value| ==>
          SiteAnnotation(ReferencedSites(info, d.init).value[k]).None?)
  {
    var chased := match ReferencedSites(info, d.init)
      case Some(sites) => ChaseDecls(sites, inferred)
      case None => None;
    if PatternAnnotation(d.name).Some? then PatternAnnotation(d.name)
    else if chased.Some? then chased
    else inferred
  }

  /**
   The type is never invented: it is the pattern's annotation, the inferred
   type, or the annotation of one of the referenced symbol's sites.
   */
  lemma ResolvedTypeHasSource(info: ModuleInfo, d: VarDeclarator, inferred: Option<TypeDef>)
    ensures var r := ResolveType(info, d, inferred);
      r.Some? ==>
        r == PatternAnnotation(d.name) || r == inferred ||
        (ReferencedSites(info, d.init).Some? &&
         exists k :: 0 <= k < |ReferencedSites(info, d.init).value| &&
           r == SiteAnnotation(ReferencedSites(info, d.init).value[k]))
  {
  }
}
