/** The package's tables as one mutable store, and the HasTaxonomies writes
    as methods on it. Each method changes the three tables step by step, as
    the package's queries do, and is proved to leave them as the matching
    function of the write side left them. */
module Store {
  import opened Tables
  import opened TaxableUtils
  import opened HasTaxonomies
  import opened Tagging

  class TaxonomyStore {
    var terms: seq<Term>
    var taxonomies: seq<Taxonomy>
    var taxables: seq<Taxable>

    /** The current contents of the three tables. */
    function State(): Db
      reads this
    {
      Db(terms, taxonomies, taxables)
    }

    /** The facts the schema and the package's writes keep: references
        resolve, both unique indexes hold, no name is stored twice, and
        every counter covers its pivot rows. */
    ghost predicate Consistent()
      reads this
    {
      Valid(State()) && UniqueNames(State()) && CountsCover(State())
    }

    /** Empty tables, as the migration creates them. */
    constructor ()
      ensures State() == Db([], [], [])
      ensures Consistent()
    {
      terms, taxonomies, taxables := [], [], [];
    }

    /** createTerm: look the name up; insert a term with it when absent. */
    method CreateTerm(names: Names, slugger: Slugger) returns (id: nat)
      modifies this
      ensures (State(), id) == TaxableUtils.CreateTerm(old(State()), names, slugger)
    {
      match First(terms, NamedAs(names))
      case Some(k) =>
        id := k;
      case None =>
        terms := terms + [Term(names, slugger(terms, names))];
        id := |terms|;
    }

    /** createTaxonomies: look the (name, term, parent) row up; insert it
        with count 0 when absent. The insert fails on the (term, name)
        unique index, and the call then returns the error. */
    method CreateTaxonomies(termId: nat, name: string, parent: nat) returns (r: Result<nat>)
      requires IsTermId(State(), termId)
      modifies this
      ensures var spec := TaxableUtils.CreateTaxonomies(old(State()), termId, name, parent);
              && (r.Err? <==> spec.Err?)
              && (r.Err? ==> State() == old(State()) && r.error == spec.error)
              && (r.Ok? ==> (State(), r.value) == spec.value)
    {
      match First(taxonomies, SameRow(termId, name, parent))
      case Some(k) =>
        r := Ok(k);
      case None =>
        if First(taxonomies, SamePair(termId, name)).Some? {
          r := Err(UniqueViolation);
        } else {
          taxonomies := taxonomies + [Taxonomy(termId, name, parent, 0)];
          r := Ok(|taxonomies|);
        }
    }

    /** `attach` of the pivot row, then `count++` and `save()`. */
    method Attach(e: Entity, id: nat, order: nat)
      requires IsTaxonomyId(State(), id)
      modifies this
      ensures State() == Tagging.Attach(old(State()), e, id, order)
    {
      taxables := taxables + [Taxable(id, e, order)];
      var t := taxonomies[id - 1];
      taxonomies := taxonomies[id - 1 := t.(count := t.count + 1)];
    }

    /** The part of addSignleTerm after createTerm; returns the error that
        ended it, if any. */
    method AddPair(e: Entity, termId: nat, tax: string, parent: nat, order: nat) returns (error: Option<Error>)
      requires IsTermId(State(), termId)
      modifies this
      ensures var spec := Tagging.AddPair(old(State()), e, termId, tax, parent, order);
              && State() == spec.db
              && (error.None? <==> spec.Done?)
              && (error.Some? ==> error.value == spec.error)
    {
      var created := CreateTaxonomies(termId, tax, parent);
      match created
      case Err(err) =>
        error := Some(err);
      case Ok(id) =>
        error := None;
        if !HasPair(State(), e, termId, tax) {
          Attach(e, id, order);
        }
    }

    /** addSignleTerm on the store; returns the error that ended it, if any. */
    method AddSingleTerm(e: Entity, arg: TermArg, tax: string, parent: nat, order: nat,
                         locale: string, slugger: Slugger) returns (error: Option<Error>)
      requires IsName(arg)
      modifies this
      ensures var spec := Tagging.AddSingleTerm(old(State()), e, arg, tax, parent, order, locale, slugger);
              && State() == spec.db
              && (error.None? <==> spec.Done?)
              && (error.Some? ==> error.value == spec.error)
      ensures old(Consistent()) ==> Consistent()
    {
      ghost var db0 := State();
      if Consistent() {
        AddSingleTermCountsCover(db0, e, arg, tax, parent, order, locale, slugger);
      }
      var termId := CreateTerm(TermNames(arg, locale), slugger);
      error := AddPair(e, termId, tax, parent, order);
    }

    /** The `foreach` of addTerm: addSignleTerm on each item in order,
        stopping at the first error, which is returned. */
    method AddItems(e: Entity, items: seq<TermArg>, tax: string, parent: nat, order: nat,
                    locale: string, slugger: Slugger) returns (error: Option<Error>)
      requires AllNames(items)
      modifies this
      ensures var spec := Tagging.AddItems(old(State()), e, items, tax, parent, order, locale, slugger);
              && State() == spec.db
              && (error.None? <==> spec.Done?)
              && (error.Some? ==> error.value == spec.error)
    {
      ghost var db0 := State();
      ghost var done := Done(db0);
      error := None;
      var i := 0;
      assert items[..0] == [];
      while i < |items| && error.None?
        invariant 0 <= i <= |items|
        invariant AllNames(items[..i])
        invariant done == Tagging.AddItems(db0, e, items[..i], tax, parent, order, locale, slugger)
        invariant State() == done.db && (error.None? <==> done.Done?)
        invariant error.Some? ==> error.value == done.error
      {
        AddItemsStep(db0, e, items, i, tax, parent, order, locale, slugger);
        done := Tagging.AddSingleTerm(done.db, e, items[i], tax, parent, order, locale, slugger);
        error := AddSingleTerm(e, items[i], tax, parent, order, locale, slugger);
        i := i + 1;
      }
      if i < |items| {
        AddItemsStops(db0, e, items, i, tax, parent, order, locale, slugger);
      } else {
        assert items[..i] == items;
      }
    }

    /** addTerm on the store: one addSignleTerm for a string or an
        associative array, the `foreach` over the elements of a list. */
    method AddTerm(e: Entity, arg: TermArg, tax: string, parent: nat, order: nat,
                   locale: string, slugger: Slugger) returns (error: Option<Error>)
      requires AllNames(Items(arg))
      modifies this
      ensures var spec := Tagging.AddTerm(old(State()), e, arg, tax, parent, order, locale, slugger);
              && State() == spec.db
              && (error.None? <==> spec.Done?)
              && (error.Some? ==> error.value == spec.error)
      ensures old(Consistent()) ==> Consistent()
    {
      ghost var db0 := State();
      AddTermIsItems(db0, e, arg, tax, parent, order, locale, slugger);
      if Consistent() {
        AddTermCountsCover(db0, e, arg, tax, parent, order, locale, slugger);
      }
      error := AddItems(e, Items(arg), tax, parent, order, locale, slugger);
    }

    /** setCategory on the store. */
    method SetCategory(e: Entity, id: nat, order: nat)
      modifies this
      ensures State() == Tagging.SetCategory(old(State()), e, id, order)
      ensures old(Consistent()) ==> Consistent()
    {
      ghost var db0 := State();
      if Consistent() {
        SetCategoryCountsCover(db0, e, id, order);
      }
      if IsTaxonomyId(State(), id) && !Linked(State(), e, id) {
        Attach(e, id, order);
      }
    }

    /** The delete of removeTerm: the entity's pivot rows for taxonomy id
        go; returns how many did. */
    method Unlink(e: Entity, id: nat) returns (deleted: nat)
      modifies this
      ensures State() == Tagging.Unlink(old(State()), e, id)
      ensures deleted == |old(taxables)| - |taxables|
    {
      var kept := Filter(taxables, Keeps(e, id));
      deleted := |taxables| - |kept|;
      taxables := kept;
    }

    /** removeTerm on the store: the number of pivot rows deleted, or None
        when getTerm does not find the term. */
    method RemoveTerm(e: Entity, termName: string, tax: string, locale: string, active: string)
      returns (deleted: Option<nat>)
      modifies this
      ensures (State(), deleted) == Tagging.RemoveTerm(old(State()), e, termName, tax, locale, active)
      ensures old(Consistent()) ==> Consistent()
    {
      ghost var db0 := State();
      RemoveKeeps(db0, e, termName, tax, locale, active);
      var found := GetTerm(State(), e, termName, tax, locale, active);
      if found.None? {
        deleted := None;
      } else {
        var id := ResolvedTaxonomy(State(), e, found.value, tax).value;
        assert id == ResolvedTaxonomy(db0, e, found.value, tax).value;
        var n := Unlink(e, id);
        deleted := Some(n);
        ghost var detached := Detach(db0, e, found.value, tax);
        assert detached.0 == Tagging.Unlink(db0, e, id) == State();
        assert detached.1 == n;
      }
    }

    /** removeAllTerms on the store: the number of pivot rows deleted. */
    method RemoveAllTerms(e: Entity) returns (deleted: nat)
      modifies this
      ensures (State(), deleted) == Tagging.RemoveAllTerms(old(State()), e)
      ensures old(Consistent()) ==> Consistent()
    {
      ghost var db0 := State();
      RemoveKeeps(db0, e, "", "", "", "");
      var before := |taxables|;
      taxables := Filter(taxables, NotOf(e));
      deleted := before - |taxables|;
    }
  }
}
