/** The read side of the HasTaxonomies capability, for a tagged entity
    (type tag and id): its pivot rows, its taxonomies, its terms, and the
    query scopes that filter entities by term or by taxonomy id. */
module HasTaxonomies {
  import opened Tables
  import opened TaxableUtils

  function ByEntity(e: Entity): Taxable -> bool
  {
    (row: Taxable) => row.entity == e
  }

  /** `$this->taxed`: the entity's pivot rows, in table order. */
  function RowsOf(db: Db, e: Entity): (r: seq<Taxable>)
    ensures forall row :: row in r <==> row in db.taxables && row.entity == e
  {
    Filter(db.taxables, ByEntity(e))
  }

  /** The entity has a pivot row naming taxonomy id. */
  predicate Linked(db: Db, e: Entity, id: nat)
  {
    exists row :: row in db.taxables && row.entity == e && row.taxonomyId == id
  }

  /** The join behind `$this->taxonomies`: the ids of the existing taxonomies
      the rows name, in row order. */
  function JoinIds(taxonomies: seq<Taxonomy>, rows: seq<Taxable>): (r: seq<nat>)
    ensures forall id :: id in r <==> 1 <= id <= |taxonomies| && exists row :: row in rows && row.taxonomyId == id
  {
    if |rows| == 0 then []
    else
      var init, last := rows[..|rows| - 1], rows[|rows| - 1];
      assert rows == init + [last];
      JoinIds(taxonomies, init) + (if 1 <= last.taxonomyId <= |taxonomies| then [last.taxonomyId] else [])
  }

  /** The ids of the entity's taxonomies, in the order of its pivot rows. */
  function AttachedIds(db: Db, e: Entity): (r: seq<nat>)
    ensures forall id :: id in r <==> IsTaxonomyId(db, id) && Linked(db, e, id)
  {
    JoinIds(db.taxonomies, RowsOf(db, e))
  }

  /** A column of the taxonomies table that getTaxonomies can pluck. */
  datatype Field = Id | TermId | TaxonomyName | Parent | Count

  datatype Value = Num(n: nat) | Text(s: string)

  function Pluck(id: nat, t: Taxonomy, column: Field): Value
  {
    match column
    case Id => Num(id)
    case TermId => Num(t.termId)
    case TaxonomyName => Text(t.taxonomy)
    case Parent => Num(t.parent)
    case Count => Num(t.count)
  }

  /** getTaxonomies: the plucked column of each of the entity's taxonomies,
      in attachment order. */
  function GetTaxonomies(db: Db, e: Entity, column: Field): (r: seq<Value>)
    ensures |r| == |AttachedIds(db, e)|
    ensures forall i :: 0 <= i < |r| ==>
              IsTaxonomyId(db, AttachedIds(db, e)[i]) &&
              r[i] == Pluck(AttachedIds(db, e)[i], TaxonomyAt(db, AttachedIds(db, e)[i]), column)
  {
    var ids := AttachedIds(db, e);
    seq(|ids|, i requires 0 <= i < |ids| => Pluck(ids[i], TaxonomyAt(db, ids[i]), column))
  }

  /** The ids getTaxonomies() lists are exactly the existing taxonomies the
      entity has a pivot row for. */
  lemma GetTaxonomiesIds(db: Db, e: Entity, id: nat)
    ensures Num(id) in GetTaxonomies(db, e, Id) <==> IsTaxonomyId(db, id) && Linked(db, e, id)
  {
    var r, ids := GetTaxonomies(db, e, Id), AttachedIds(db, e);
    if id in ids {
      var i :| 0 <= i < |ids| && ids[i] == id;
      assert r[i] == Num(id);
    }
  }

  /** `if ($taxonomy)`: a falsy taxonomy name does not filter. */
  predicate InTaxonomy(t: Taxonomy, tax: string)
  {
    !Truthy(tax) || t.taxonomy == tax
  }

  /** The term ids plucked from the entity's taxonomies. */
  function CandidateTermIds(db: Db, e: Entity, tax: string): set<nat>
  {
    set id | id in AttachedIds(db, e) && InTaxonomy(TaxonomyAt(db, id), tax) :: TaxonomyAt(db, id).termId
  }

  /** `whereIn('id', ids)` on a table of n rows: the matching ids, ascending. */
  function IdsUpTo(ids: set<nat>, n: nat): (r: seq<nat>)
    ensures forall i, j :: 0 <= i < j < |r| ==> r[i] < r[j]
    ensures forall id :: id in r <==> 1 <= id <= n && id in ids
  {
    if n == 0 then []
    else
      var init := IdsUpTo(ids, n - 1);
      assert forall i :: 0 <= i < |init| ==> init[i] < n by {
        forall i | 0 <= i < |init| ensures init[i] < n {
          assert init[i] in init;
        }
      }
      init + (if n in ids then [n] else [])
  }

  /** Term `id` belongs to one of the entity's taxonomies (one named tax,
      when tax is truthy). */
  ghost predicate UsesTerm(db: Db, e: Entity, id: nat, tax: string)
  {
    exists t :: IsTaxonomyId(db, t) && Linked(db, e, t) &&
      TaxonomyAt(db, t).termId == id && InTaxonomy(TaxonomyAt(db, t), tax)
  }

  /** getTerms: the entity's terms, each once, in id order. */
  function GetTerms(db: Db, e: Entity, tax: string): (r: seq<nat>)
    ensures forall i, j :: 0 <= i < j < |r| ==> r[i] < r[j]
    ensures forall id :: id in r <==> IsTermId(db, id) && UsesTerm(db, e, id, tax)
  {
    var c := CandidateTermIds(db, e, tax);
    assert forall id :: id in c <==> UsesTerm(db, e, id, tax) by {
      forall id | UsesTerm(db, e, id, tax) ensures id in c {
        var t :| IsTaxonomyId(db, t) && Linked(db, e, t) &&
          TaxonomyAt(db, t).termId == id && InTaxonomy(TaxonomyAt(db, t), tax);
        assert t in AttachedIds(db, e);
      }
    }
    IdsUpTo(c, |db.terms|)
  }

  /** Term `id` exists and its name at `locale` is `termName`. */
  predicate Named(db: Db, id: nat, termName: string, locale: string)
  {
    IsTermId(db, id) && NameAt(TermAt(db, id), locale) == Some(termName)
  }

  function NamedIn(db: Db, termName: string, locale: string): nat -> bool
  {
    (id: nat) => Named(db, id, termName, locale)
  }

  /** The first id of ids (a `->first()` over a `where('name->locale', ...)`)
      naming a term called termName at locale. */
  function FirstNamed(db: Db, ids: seq<nat>, termName: string, locale: string): (r: Option<nat>)
    ensures r.Some? ==> (exists k :: 0 <= k < |ids| && ids[k] == r.value &&
                           Named(db, r.value, termName, locale) &&
                           forall j :: 0 <= j < k ==> !Named(db, ids[j], termName, locale))
    ensures r.None? <==> forall k :: 0 <= k < |ids| ==> !Named(db, ids[k], termName, locale)
  {
    match First(ids, NamedIn(db, termName, locale))
    case None => None
    case Some(k) =>
      assert NamedIn(db, termName, locale)(ids[k - 1]);
      Some(ids[k - 1])
  }

  /** In a strictly increasing sequence a smaller element comes earlier. */
  lemma IncreasingIndex(ids: seq<nat>, j: nat, k: nat)
    requires forall a, b :: 0 <= a < b < |ids| ==> ids[a] < ids[b]
    requires j < |ids| && k < |ids| && ids[j] < ids[k]
    ensures j < k
  { }

  /** getTerm: among the entity's terms, the one with the lowest id whose
      name at the (resolved) locale is termName. */
  function GetTerm(db: Db, e: Entity, termName: string, tax: string, locale: string, active: string): (r: Option<nat>)
    ensures r.Some? ==> r.value in GetTerms(db, e, tax) && Named(db, r.value, termName, ResolveLocale(locale, active))
    ensures r.None? <==> forall id :: id in GetTerms(db, e, tax) ==> !Named(db, id, termName, ResolveLocale(locale, active))
  {
    FirstNamed(db, GetTerms(db, e, tax), termName, ResolveLocale(locale, active))
  }

  /** The term getTerm returns has the lowest id among the entity's terms
      with that name. */
  lemma GetTermIsLeast(db: Db, e: Entity, termName: string, tax: string, locale: string, active: string, id: nat)
    requires GetTerm(db, e, termName, tax, locale, active).Some?
    requires id in GetTerms(db, e, tax) && id < GetTerm(db, e, termName, tax, locale, active).value
    ensures !Named(db, id, termName, ResolveLocale(locale, active))
  {
    FirstNamedLeast(db, GetTerms(db, e, tax), termName, ResolveLocale(locale, active), id);
  }

  /** On strictly increasing ids, the first one named termName is the
      least one. */
  lemma FirstNamedLeast(db: Db, ids: seq<nat>, termName: string, loc: string, id: nat)
    requires forall a, b :: 0 <= a < b < |ids| ==> ids[a] < ids[b]
    requires FirstNamed(db, ids, termName, loc).Some?
    requires id in ids && id < FirstNamed(db, ids, termName, loc).value
    ensures !Named(db, id, termName, loc)
  {
    var found := FirstNamed(db, ids, termName, loc).value;
    var k :| 0 <= k < |ids| && ids[k] == found && Named(db, found, termName, loc) &&
      forall j :: 0 <= j < k ==> !Named(db, ids[j], termName, loc);
    var j :| 0 <= j < |ids| && ids[j] == id;
    IncreasingIndex(ids, j, k);
  }

  /** hasTerm: true exactly when one of the entity's terms has that name. */
  function HasTerm(db: Db, e: Entity, termName: string, tax: string, locale: string, active: string): (r: bool)
    ensures r <==> exists id :: id in GetTerms(db, e, tax) && Named(db, id, termName, ResolveLocale(locale, active))
    ensures r <==> GetTerm(db, e, termName, tax, locale, active).Some?
  {
    GetTerm(db, e, termName, tax, locale, active).Some?
  }

  /** getTermNames: each of the entity's terms' name at the active locale. */
  function GetTermNames(db: Db, e: Entity, tax: string, active: string): (r: seq<Option<string>>)
    ensures |r| == |GetTerms(db, e, tax)|
    ensures forall i :: 0 <= i < |r| ==>
              IsTermId(db, GetTerms(db, e, tax)[i]) && r[i] == NameAt(TermAt(db, GetTerms(db, e, tax)[i]), active)
  {
    var ids := GetTerms(db, e, tax);
    seq(|ids|, i requires 0 <= i < |ids| => NameAt(TermAt(db, ids[i]), active))
  }

  /** A name is listed by getTermNames exactly when hasTerm finds it at the
      active locale. */
  lemma TermNamesAgreeWithHasTerm(db: Db, e: Entity, tax: string, active: string, termName: string)
    ensures Some(termName) in GetTermNames(db, e, tax, active) <==> HasTerm(db, e, termName, tax, "", active)
  {
    var ids, names := GetTerms(db, e, tax), GetTermNames(db, e, tax, active);
    if HasTerm(db, e, termName, tax, "", active) {
      var id :| id in ids && Named(db, id, termName, active);
      var i :| 0 <= i < |ids| && ids[i] == id;
      assert names[i] == Some(termName);
    }
  }

  /** scopeHasCategory: the entity has a pivot row for taxonomy id. */
  predicate ScopeHasCategory(db: Db, e: Entity, taxId: nat): (r: bool)
    ensures r <==> exists row :: row in RowsOf(db, e) && row.taxonomyId == taxId
  {
    Linked(db, e, taxId)
  }

  /** scopeHasCategories: the entity has a pivot row for one of the ids. */
  predicate ScopeHasCategories(db: Db, e: Entity, ids: seq<nat>): (r: bool)
    ensures r <==> exists row :: row in RowsOf(db, e) && row.taxonomyId in ids
  {
    exists row :: row in db.taxables && row.entity == e && row.taxonomyId in ids
  }

  /** The ids are OR-ed: matching the list means matching one of its ids,
      so an empty list matches nothing. */
  lemma ScopeHasCategoriesIsAny(db: Db, e: Entity, ids: seq<nat>)
    ensures ScopeHasCategories(db, e, ids) <==> exists k :: 0 <= k < |ids| && ScopeHasCategory(db, e, ids[k])
    ensures ids == [] ==> !ScopeHasCategories(db, e, ids)
  {
    if ScopeHasCategories(db, e, ids) {
      var row :| row in db.taxables && row.entity == e && row.taxonomyId in ids;
      var k :| 0 <= k < |ids| && ids[k] == row.taxonomyId;
      assert ScopeHasCategory(db, e, ids[k]);
    }
  }

  /** The term ids of every taxonomy named tax, whoever uses it
      (`Taxonomy::where('taxonomy', $taxonomy)->pluck('term_id')`). */
  function TermIdsNamed(db: Db, tax: string): set<nat>
  {
    set i | 0 <= i < |db.taxonomies| && db.taxonomies[i].taxonomy == tax :: db.taxonomies[i].termId
  }

  /** The term scopeWithTerm resolves: the lowest-id term used under the
      taxonomy name tax whose name at the locale is termName. */
  function ScopeTerm(db: Db, termName: string, tax: string, locale: string): (r: Option<nat>)
    ensures r.Some? ==> r.value in TermIdsNamed(db, tax) && Named(db, r.value, termName, locale)
    ensures r.None? <==> forall id :: id in TermIdsNamed(db, tax) ==> !Named(db, id, termName, locale)
  {
    FirstNamed(db, IdsUpTo(TermIdsNamed(db, tax), |db.terms|), termName, locale)
  }

  /** The entity has a taxonomy belonging to term termId. */
  predicate UsesTermId(db: Db, e: Entity, termId: nat)
  {
    exists row :: row in db.taxables && row.entity == e && IsTaxonomyId(db, row.taxonomyId) &&
      TaxonomyAt(db, row.taxonomyId).termId == termId
  }

  function WithTerm(db: Db, e: Entity, tax: string, locale: string): string -> bool
  {
    (termName: string) =>
      match ScopeTerm(db, termName, tax, locale)
      case Some(id) => UsesTermId(db, e, id)
      case None => false
  }

  /** An entity uses a term exactly when one of its taxonomies (the
      `taxonomies` relation) belongs to it. */
  lemma UsesTermIdAttached(db: Db, e: Entity, termId: nat)
    ensures UsesTermId(db, e, termId) <==>
            exists id :: id in AttachedIds(db, e) && TaxonomyAt(db, id).termId == termId
  {
    if UsesTermId(db, e, termId) {
      var row :| row in db.taxables && row.entity == e && IsTaxonomyId(db, row.taxonomyId) &&
        TaxonomyAt(db, row.taxonomyId).termId == termId;
      assert row.taxonomyId in AttachedIds(db, e);
    }
  }

  /** scopeWithTerm: the entity has a taxonomy belonging to the term resolved
      at the locale, or at the active locale when none is given. The source
      dereferences the resolved term unconditionally, so it is required to
      exist. */
  predicate ScopeWithTerm(db: Db, e: Entity, termName: string, tax: string, locale: string, active: string): (r: bool)
    requires ScopeTerm(db, termName, tax, ResolveLocale(locale, active)).Some?
    ensures r <==> exists id :: id in AttachedIds(db, e) &&
                     TaxonomyAt(db, id).termId == ScopeTerm(db, termName, tax, ResolveLocale(locale, active)).value
  {
    var termId := ScopeTerm(db, termName, tax, ResolveLocale(locale, active)).value;
    UsesTermIdAttached(db, e, termId);
    UsesTermId(db, e, termId)
  }

  predicate AllScopeTermsExist(db: Db, termNames: seq<string>, tax: string, locale: string)
  {
    forall i :: 0 <= i < |termNames| ==> ScopeTerm(db, termNames[i], tax, locale).Some?
  }

  /** scopeWithTerms: one scopeWithTerm constraint per name, on one query. */
  predicate ScopeWithTerms(db: Db, e: Entity, termNames: seq<string>, tax: string, locale: string, active: string): (r: bool)
    requires AllScopeTermsExist(db, termNames, tax, ResolveLocale(locale, active))
    ensures termNames == [] ==> r
  {
    AllOf(termNames, WithTerm(db, e, tax, ResolveLocale(locale, active)))
  }

  /** The constraints are AND-ed: the entity matches the list exactly when it
      matches every name in it, each scoped at the locale resolved once. */
  lemma ScopeWithTermsIsAll(db: Db, e: Entity, termNames: seq<string>, tax: string, locale: string, active: string)
    requires AllScopeTermsExist(db, termNames, tax, ResolveLocale(locale, active))
    ensures ScopeWithTerms(db, e, termNames, tax, locale, active) <==>
            forall i :: 0 <= i < |termNames| ==> ScopeWithTerm(db, e, termNames[i], tax, ResolveLocale(locale, active), active)
  {
    ResolveLocaleTwice(locale, active);
    AllOfIsForall(termNames, WithTerm(db, e, tax, ResolveLocale(locale, active)));
  }

  function OfTermId(termId: nat): Taxonomy -> bool
  {
    (t: Taxonomy) => t.termId == termId
  }

  /** The resolved term has a row, and one named tax: both lookups of
      scopeWithTax find a row of that term. */
  lemma ScopeTermRows(db: Db, termName: string, tax: string, locale: string)
    requires ScopeTerm(db, termName, tax, locale).Some?
    ensures var t := ScopeTerm(db, termName, tax, locale).value;
            && First(db.taxonomies, OfTermId(t)).Some? && First(db.taxonomies, SamePair(t, tax)).Some?
            && TaxonomyAt(db, First(db.taxonomies, OfTermId(t)).value).termId == t
            && TaxonomyAt(db, First(db.taxonomies, SamePair(t, tax)).value).termId == t
  {
    var t := ScopeTerm(db, termName, tax, locale).value;
    var i :| 0 <= i < |db.taxonomies| && db.taxonomies[i].taxonomy == tax && db.taxonomies[i].termId == t;
    FirstRowOf(db.taxonomies, t, tax, i);
  }

  /** A row of term t named tax makes both lookups find a row of term t. */
  lemma FirstRowOf(rows: seq<Taxonomy>, t: nat, tax: string, i: nat)
    requires i < |rows| && rows[i].termId == t && rows[i].taxonomy == tax
    ensures First(rows, OfTermId(t)).Some? && rows[First(rows, OfTermId(t)).value - 1].termId == t
    ensures First(rows, SamePair(t, tax)).Some? && rows[First(rows, SamePair(t, tax)).value - 1].termId == t
  {
    assert OfTermId(t)(rows[i]);
    assert SamePair(t, tax)(rows[i]);
  }

  /** A pivot row of the entity for a row of term termId makes that row one
      of the entity's attached taxonomies. */
  lemma LinkedRowAttached(db: Db, e: Entity, id: nat, termId: nat)
    requires IsTaxonomyId(db, id) && TaxonomyAt(db, id).termId == termId
    ensures Linked(db, e, id) ==> exists a :: a in AttachedIds(db, e) && TaxonomyAt(db, a).termId == termId
  {
    if Linked(db, e, id) {
      assert id in AttachedIds(db, e);
    }
  }

  /** scopeWithTax as written: the resolved term's first taxonomy row of any
      name, and the entity has a pivot row for that row. */
  predicate ScopeWithTaxAsWritten(db: Db, e: Entity, termName: string, tax: string, locale: string, active: string): (r: bool)
    requires ScopeTerm(db, termName, tax, ResolveLocale(locale, active)).Some?
    ensures r ==> ScopeWithTerm(db, e, termName, tax, locale, active)
  {
    var termId := ScopeTerm(db, termName, tax, ResolveLocale(locale, active)).value;
    ScopeTermRows(db, termName, tax, ResolveLocale(locale, active));
    var k := First(db.taxonomies, OfTermId(termId)).value;
    LinkedRowAttached(db, e, k, termId);
    Linked(db, e, k)
  }

  /** scopeWithTax as intended: the resolved term's row named tax. */
  predicate ScopeWithTax(db: Db, e: Entity, termName: string, tax: string, locale: string, active: string): (r: bool)
    requires ScopeTerm(db, termName, tax, ResolveLocale(locale, active)).Some?
    ensures r ==> ScopeWithTerm(db, e, termName, tax, locale, active)
  {
    var termId := ScopeTerm(db, termName, tax, ResolveLocale(locale, active)).value;
    ScopeTermRows(db, termName, tax, ResolveLocale(locale, active));
    var k := First(db.taxonomies, SamePair(termId, tax)).value;
    LinkedRowAttached(db, e, k, termId);
    Linked(db, e, k)
  }

  /** With the unique index on (term, name), the intended scope holds exactly
      when the entity has a pivot row for the resolved term's taxonomy named
      tax. */
  lemma ScopeWithTaxIsTagged(db: Db, e: Entity, termName: string, tax: string, locale: string, active: string)
    requires UniquePairs(db.taxonomies)
    requires ScopeTerm(db, termName, tax, ResolveLocale(locale, active)).Some?
    ensures ScopeWithTax(db, e, termName, tax, locale, active) <==>
            exists id :: IsTaxonomyId(db, id) && Linked(db, e, id) &&
              TaxonomyAt(db, id).termId == ScopeTerm(db, termName, tax, ResolveLocale(locale, active)).value &&
              TaxonomyAt(db, id).taxonomy == tax
  {
    var termId := ScopeTerm(db, termName, tax, ResolveLocale(locale, active)).value;
    var i :| 0 <= i < |db.taxonomies| && db.taxonomies[i].taxonomy == tax && db.taxonomies[i].termId == termId;
    assert SamePair(termId, tax)(db.taxonomies[i]);
    PairRowLinked(db, e, termId, tax);
  }

  /** Under the unique index, the first row of a (term, name) pair is its
      only row: the entity is linked to it exactly when it is linked to a
      row of the pair. */
  lemma PairRowLinked(db: Db, e: Entity, termId: nat, tax: string)
    requires UniquePairs(db.taxonomies)
    requires First(db.taxonomies, SamePair(termId, tax)).Some?
    ensures Linked(db, e, First(db.taxonomies, SamePair(termId, tax)).value) <==>
            exists id :: IsTaxonomyId(db, id) && Linked(db, e, id) &&
              TaxonomyAt(db, id).termId == termId && TaxonomyAt(db, id).taxonomy == tax
  {
    var k := First(db.taxonomies, SamePair(termId, tax)).value;
    assert forall id :: IsTaxonomyId(db, id) && SamePair(termId, tax)(TaxonomyAt(db, id)) ==> id == k;
  }

  /** The term Drama used under the names genre (row 1) and tag (row 2),
      with a post tagged through row 2. */
  function DramaDb(): Db
  {
    Db([Term(map[StrKey("en") := "Drama"], map[])],
       [Taxonomy(1, "genre", 0, 0), Taxonomy(1, "tag", 0, 1)],
       [Taxable(2, Entity("post", 7), 0)])
  }

  lemma DramaScopeTerm()
    ensures ScopeTerm(DramaDb(), "Drama", "tag", "en") == Some(1)
  {
    var db := DramaDb();
    assert TermIdsNamed(db, "tag") == {1} by {
      assert db.taxonomies[1].taxonomy == "tag";
    }
    var one: seq<nat> := [1];
    assert IdsUpTo({1}, 1) == one by {
      assert IdsUpTo({1}, 0) == [];
    }
    assert Named(db, 1, "Drama", "en");
    assert First(one, NamedIn(db, "Drama", "en")) == Some(1) by {
      assert one[..0] == [];
    }
  }

  lemma DramaRows()
    ensures First(DramaDb().taxonomies, OfTermId(1)) == Some(1)
    ensures First(DramaDb().taxonomies, SamePair(1, "tag")) == Some(2)
    ensures !Linked(DramaDb(), Entity("post", 7), 1) && Linked(DramaDb(), Entity("post", 7), 2)
  {
    var db := DramaDb();
    assert db.taxonomies[..1][..0] == [];
    assert db.taxonomies[..1] == [db.taxonomies[0]];
    assert forall row :: row in db.taxables ==> row.taxonomyId == 2;
    assert db.taxables[0] in db.taxables;
  }

  /** The as-written scope misses a tagged entity: scoping by Drama under
      tag, with no locale given and "en" active, resolves row 1 (genre), which
      the post is not linked to, although the post is tagged Drama under tag. */
  lemma ScopeWithTaxPicksOtherTaxonomy()
    ensures ScopeTerm(DramaDb(), "Drama", "tag", ResolveLocale("", "en")) == Some(1)
    ensures !ScopeWithTaxAsWritten(DramaDb(), Entity("post", 7), "Drama", "tag", "", "en")
    ensures ScopeWithTax(DramaDb(), Entity("post", 7), "Drama", "tag", "", "en")
  {
    DramaScopeTerm();
    DramaRows();
  }
}
