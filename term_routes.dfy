/** The route of a term page: the slugs of the taxonomy rows up the parent
    chain, then the taxonomy name, in reverse. */
module TermRoutes {
  import opened Tables

  /** `$taxonomy->parent()->first()`: the parent row, when the parent id names
      one (parent 0, the root marker, never does). */
  function ParentOf(db: Db, id: nat): (r: Option<nat>)
    requires IsTaxonomyId(db, id)
    ensures r.Some? ==> IsTaxonomyId(db, r.value) && r.value == TaxonomyAt(db, id).parent
    ensures r.Some? <==> IsTaxonomyId(db, TaxonomyAt(db, id).parent)
    ensures TaxonomyAt(db, id).parent == 0 ==> r.None?
  {
    var p := TaxonomyAt(db, id).parent;
    if IsTaxonomyId(db, p) then Some(p) else None
  }

  /** Following parent links from row id reaches a row without a parent row
      in at most n steps. */
  ghost predicate EndsWithin(db: Db, id: nat, n: nat)
    requires IsTaxonomyId(db, id)
    decreases n
  {
    match ParentOf(db, id)
    case None => true
    case Some(p) => n > 0 && EndsWithin(db, p, n - 1)
  }

  /** The parent chain from row id is finite (no cycle). */
  ghost predicate ChainEnds(db: Db, id: nat)
    requires IsTaxonomyId(db, id)
  {
    exists n: nat :: EndsWithin(db, id, n)
  }

  /** The number of parent steps the walk from row id takes, given a bound
      within which it ends. */
  ghost function Steps(db: Db, id: nat, n: nat): (k: nat)
    requires IsTaxonomyId(db, id) && EndsWithin(db, id, n)
    ensures k <= n
    decreases n
  {
    match ParentOf(db, id)
    case None => 0
    case Some(p) => 1 + Steps(db, p, n - 1)
  }

  /** The number of steps does not depend on the bound. */
  lemma {:induction false} StepsAgree(db: Db, id: nat, n: nat, m: nat)
    requires IsTaxonomyId(db, id) && EndsWithin(db, id, n) && EndsWithin(db, id, m)
    ensures Steps(db, id, n) == Steps(db, id, m)
    decreases n
  {
    match ParentOf(db, id)
    case None =>
    case Some(p) => StepsAgree(db, p, n - 1, m - 1);
  }

  /** The number of parent steps from row id to the end of its chain. */
  ghost function Depth(db: Db, id: nat): nat
    requires IsTaxonomyId(db, id) && ChainEnds(db, id)
  {
    var n: nat :| EndsWithin(db, id, n);
    Steps(db, id, n)
  }

  /** A row without a parent row ends its chain; a row with one is one step
      further from the end than its parent. */
  lemma DepthStep(db: Db, id: nat)
    requires IsTaxonomyId(db, id) && ChainEnds(db, id)
    ensures ParentOf(db, id).None? ==> Depth(db, id) == 0
    ensures ParentOf(db, id).Some? ==>
              ChainEnds(db, ParentOf(db, id).value) &&
              Depth(db, ParentOf(db, id).value) == Depth(db, id) - 1
  {
    var n: nat :| EndsWithin(db, id, n) && Depth(db, id) == Steps(db, id, n);
    if ParentOf(db, id).Some? {
      var p := ParentOf(db, id).value;
      assert EndsWithin(db, p, n - 1);
      var m: nat :| EndsWithin(db, p, m) && Depth(db, p) == Steps(db, p, m);
      StepsAgree(db, p, n - 1, m);
      assert Steps(db, id, n) == 1 + Steps(db, p, n - 1);
    }
  }

  /** The taxonomy rows of the chain from id, leaf to root. */
  ghost function Chain(db: Db, id: nat): (r: seq<nat>)
    requires IsTaxonomyId(db, id) && ChainEnds(db, id)
    ensures |r| == Depth(db, id) + 1
    ensures r[0] == id
    ensures forall i :: 0 <= i < |r| ==> IsTaxonomyId(db, r[i])
    decreases Depth(db, id)
  {
    match ParentOf(db, id)
    case None => [id]
    case Some(p) => DepthStep(db, id); [id] + Chain(db, p)
  }

  /** Each row of the chain is followed by its parent row, and the last row
      has no parent row. */
  lemma {:induction false} ChainLinks(db: Db, id: nat)
    requires IsTaxonomyId(db, id) && ChainEnds(db, id)
    ensures var c := Chain(db, id);
            && (forall i :: 0 <= i < |c| - 1 ==> ParentOf(db, c[i]) == Some(c[i + 1]))
            && ParentOf(db, c[|c| - 1]).None?
    decreases Depth(db, id)
  {
    match ParentOf(db, id)
    case None =>
    case Some(p) =>
      DepthStep(db, id);
      ChainLinks(db, p);
      var c, c' := Chain(db, id), Chain(db, p);
      assert c == [id] + c';
      assert forall i :: 1 <= i < |c| ==> c[i] == c'[i - 1];
  }

  /** The slug, at the active locale, of the term of taxonomy row id. */
  function SlugOf(db: Db, id: nat, active: string): (r: string)
    requires TermsExist(db) && IsTaxonomyId(db, id)
    ensures var slugs := TermAt(db, TaxonomyAt(db, id).termId).slug;
            && (active in slugs ==> r == slugs[active])
            && (active !in slugs ==> r == "")
  {
    SlugAt(TermAt(db, TaxonomyAt(db, id).termId), active)
  }

  /** getParentSlugs: append the slug of the row's term to the accumulator,
      then continue with the parent row while there is one. */
  function ParentSlugs(db: Db, id: nat, acc: seq<string>, active: string): (r: seq<string>)
    requires TermsExist(db) && IsTaxonomyId(db, id) && ChainEnds(db, id)
    ensures |r| == |acc| + Depth(db, id) + 1
    decreases Depth(db, id)
  {
    var acc' := acc + [SlugOf(db, id, active)];
    match ParentOf(db, id)
    case None => acc'
    case Some(p) =>
      DepthStep(db, id);
      ParentSlugs(db, p, acc', active)
  }

  /** The accumulator is only appended to: starting from acc gives acc
      followed by the slugs of a walk started from nothing. */
  lemma {:induction false} ParentSlugsAcc(db: Db, id: nat, acc: seq<string>, active: string)
    requires TermsExist(db) && IsTaxonomyId(db, id) && ChainEnds(db, id)
    ensures ParentSlugs(db, id, acc, active) == acc + ParentSlugs(db, id, [], active)
    decreases Depth(db, id)
  {
    var own := SlugOf(db, id, active);
    match ParentOf(db, id)
    case None =>
    case Some(p) =>
      DepthStep(db, id);
      ParentSlugsAcc(db, p, acc + [own], active);
      ParentSlugsAcc(db, p, [own], active);
      assert [] + [own] == [own];
      assert acc + [own] + ParentSlugs(db, p, [], active) == acc + ([own] + ParentSlugs(db, p, [], active));
  }

  /** The walk gives one slug per row of the chain, leaf to root: the first
      is the starting row's own term slug. */
  lemma {:induction false} ParentSlugsAreChain(db: Db, id: nat, active: string)
    requires TermsExist(db) && IsTaxonomyId(db, id) && ChainEnds(db, id)
    ensures var r, c := ParentSlugs(db, id, [], active), Chain(db, id);
            && |r| == |c|
            && (forall i :: 0 <= i < |r| ==> r[i] == SlugOf(db, c[i], active))
            && r[0] == SlugOf(db, id, active)
    decreases Depth(db, id)
  {
    match ParentOf(db, id)
    case None =>
    case Some(p) =>
      DepthStep(db, id);
      ParentSlugsAreChain(db, p, active);
      ParentSlugsAcc(db, p, [SlugOf(db, id, active)], active);
      var r, c := ParentSlugs(db, id, [], active), Chain(db, id);
      assert [] + [SlugOf(db, id, active)] == [SlugOf(db, id, active)];
      assert r == [SlugOf(db, id, active)] + ParentSlugs(db, p, [], active);
      assert c == [id] + Chain(db, p);
  }

  function Reverse<T>(s: seq<T>): (r: seq<T>)
    ensures |r| == |s|
    ensures forall i :: 0 <= i < |s| ==> r[i] == s[|s| - 1 - i]
  {
    seq(|s|, i requires 0 <= i < |s| => s[|s| - 1 - i])
  }

  /** Reversing s followed by x puts x first, then s from its last element
      to its first. */
  lemma ReverseSnoc<T>(s: seq<T>, x: T)
    ensures |Reverse(s + [x])| == |s| + 1 && Reverse(s + [x])[0] == x
    ensures forall i :: 1 <= i <= |s| ==> Reverse(s + [x])[i] == s[|s| - i]
  {
    var t := s + [x];
    assert t[|s|] == x;
    forall i | 1 <= i <= |s| ensures Reverse(t)[i] == s[|s| - i] {
      assert t[|t| - 1 - i] == s[|s| - i];
    }
  }

  /** The assembly step of getRouteParameters from a resolved taxonomy row:
      the chain's slugs, then the taxonomy name, reversed. */
  function RouteParameters(db: Db, id: nat, active: string): (r: seq<string>)
    requires TermsExist(db) && IsTaxonomyId(db, id) && ChainEnds(db, id)
    ensures |r| == Depth(db, id) + 2
    ensures r[0] == TaxonomyAt(db, id).taxonomy
  {
    Reverse(ParentSlugs(db, id, [], active) + [TaxonomyAt(db, id).taxonomy])
  }

  /** The route is the taxonomy name followed by the walk's slugs, last
      first. */
  lemma RouteParametersShape(db: Db, id: nat, active: string)
    requires TermsExist(db) && IsTaxonomyId(db, id) && ChainEnds(db, id)
    ensures var r, s := RouteParameters(db, id, active), ParentSlugs(db, id, [], active);
            && |r| == |s| + 1 && r[0] == TaxonomyAt(db, id).taxonomy
            && forall i :: 1 <= i < |r| ==> r[i] == s[|s| - i]
  {
    ReverseSnoc(ParentSlugs(db, id, [], active), TaxonomyAt(db, id).taxonomy);
  }

  /** The route starts with the taxonomy name, then lists the chain's slugs
      root first, and ends with the row's own term slug. */
  lemma RouteParametersOrder(db: Db, id: nat, active: string)
    requires TermsExist(db) && IsTaxonomyId(db, id) && ChainEnds(db, id)
    ensures var r, c := RouteParameters(db, id, active), Chain(db, id);
            && |r| == |c| + 1
            && r[0] == TaxonomyAt(db, id).taxonomy
            && (forall i :: 1 <= i < |r| ==> r[i] == SlugOf(db, c[|c| - i], active))
            && r[|r| - 1] == SlugOf(db, id, active)
  {
    ParentSlugsAreChain(db, id, active);
    RouteParametersShape(db, id, active);
    RouteCompose(db, active, RouteParameters(db, id, active), ParentSlugs(db, id, [], active), Chain(db, id));
  }

  /** Index i of the route is slug |s| - i of the walk, which is the slug of
      row |c| - i of the chain. */
  lemma RouteCompose(db: Db, active: string, r: seq<string>, s: seq<string>, c: seq<nat>)
    requires TermsExist(db) && forall k :: 0 <= k < |c| ==> IsTaxonomyId(db, c[k])
    requires |r| == |s| + 1 && |s| == |c|
    requires forall i :: 1 <= i < |r| ==> r[i] == s[|s| - i]
    requires forall j :: 0 <= j < |s| ==> s[j] == SlugOf(db, c[j], active)
    ensures forall i :: 1 <= i < |r| ==> r[i] == SlugOf(db, c[|c| - i], active)
  {
    forall i | 1 <= i < |r| ensures r[i] == SlugOf(db, c[|c| - i], active) {
      assert r[i] == s[|s| - i];
    }
  }

  /** Two terms whose rows name each other as parent: a cycle the schema
      allows, since `parent` references nothing. */
  function CycleDb(): Db
  {
    Db([Term(map[StrKey("en") := "A"], map["en" := "a"]), Term(map[StrKey("en") := "B"], map["en" := "b"])],
       [Taxonomy(1, "genre", 2, 0), Taxonomy(2, "genre", 1, 0)],
       [])
  }

  /** On the cycle no number of steps reaches a row without a parent row. */
  lemma {:induction false} CycleNeverEndsWithin(n: nat)
    ensures !EndsWithin(CycleDb(), 1, n) && !EndsWithin(CycleDb(), 2, n)
    decreases n
  {
    assert ParentOf(CycleDb(), 1) == Some(2) && ParentOf(CycleDb(), 2) == Some(1);
    if n > 0 {
      CycleNeverEndsWithin(n - 1);
    }
  }

  /** A valid database on which the walk of getParentSlugs never ends, so
      the source recursion does not terminate there. */
  lemma CycleNeverEnds()
    ensures Valid(CycleDb()) && IsTaxonomyId(CycleDb(), 1)
    ensures !ChainEnds(CycleDb(), 1)
  {
    forall n: nat ensures !EndsWithin(CycleDb(), 1, n) {
      CycleNeverEndsWithin(n);
    }
  }

  /** getParentSlugs with a bound on the number of parent steps: it ends on
      every database, cycles included. */
  function BoundedParentSlugs(db: Db, id: nat, acc: seq<string>, active: string, fuel: nat): (r: seq<string>)
    requires TermsExist(db) && IsTaxonomyId(db, id)
    ensures |acc| < |r| <= |acc| + fuel + 1
    ensures r[..|acc|] == acc && r[|acc|] == SlugOf(db, id, active)
    decreases fuel
  {
    var acc' := acc + [SlugOf(db, id, active)];
    match ParentOf(db, id)
    case None => acc'
    case Some(p) =>
      if fuel == 0 then acc'
      else
        var r := BoundedParentSlugs(db, p, acc', active, fuel - 1);
        assert r[..|acc|] == r[..|acc'|][..|acc|];
        r
  }

  /** With a bound no smaller than the chain's depth, the bounded walk is the
      walk of getParentSlugs. */
  lemma {:induction false} BoundedParentSlugsAgree(db: Db, id: nat, acc: seq<string>, active: string, fuel: nat)
    requires TermsExist(db) && IsTaxonomyId(db, id) && ChainEnds(db, id) && Depth(db, id) <= fuel
    ensures BoundedParentSlugs(db, id, acc, active, fuel) == ParentSlugs(db, id, acc, active)
    decreases fuel
  {
    DepthStep(db, id);
    match ParentOf(db, id)
    case None =>
    case Some(p) =>
      BoundedParentSlugsAgree(db, p, acc + [SlugOf(db, id, active)], active, fuel - 1);
  }
}
