/** The write side of the HasTaxonomies capability: adding terms, attaching a
    category, and removing terms, each as a function from the tables before
    the call to the tables after it. */
module Tagging {
  import opened Tables
  import opened TaxableUtils
  import opened HasTaxonomies

  /** The tables after a call, and whether it ended with an exception. An
      exception undoes nothing: every write made before it stays. */
  datatype Outcome = Done(db: Db) | Failed(db: Db, error: Error)

  /** `attach` with the pivot order, then `count++` and `save()` on the
      taxonomy. */
  function Attach(db: Db, e: Entity, id: nat, order: nat): (r: Db)
    requires IsTaxonomyId(db, id)
    ensures Grows(db, r)
    ensures Linked(r, e, id)
  {
    var t := TaxonomyAt(db, id);
    var r := Db(db.terms, db.taxonomies[id - 1 := t.(count := t.count + 1)], db.taxables + [Taxable(id, e, order)]);
    assert r.taxables[|db.taxables|] == Taxable(id, e, order);
    r
  }

  /** Attaching a taxonomy the entity is not linked to keeps the tables
      valid, and the counter keeps covering the pivot rows. */
  lemma AttachKeeps(db: Db, e: Entity, id: nat, order: nat)
    requires IsTaxonomyId(db, id) && !Linked(db, e, id)
    ensures Valid(db) ==> Valid(Attach(db, e, id, order))
    ensures CountsCover(db) ==> CountsCover(Attach(db, e, id, order))
  {
    var r := Attach(db, e, id, order);
    var row := Taxable(id, e, order);
    assert r.taxables == db.taxables + [row];
    forall t: nat {
      RowCountAppend(db.taxables, row, t);
    }
    if Valid(db) {
      forall i | 0 <= i < |db.taxables| ensures !(db.taxables[i].taxonomyId == id && db.taxables[i].entity == e) {
        assert db.taxables[i] in db.taxables;
      }
    }
  }

  /** The guard of addSignleTerm: one of the entity's taxonomies is named tax
      and belongs to term termId. */
  predicate HasPair(db: Db, e: Entity, termId: nat, tax: string)
  {
    exists id :: 1 <= id <= |db.taxonomies| && Linked(db, e, id) &&
      db.taxonomies[id - 1].termId == termId && db.taxonomies[id - 1].taxonomy == tax
  }

  /** The guard reads the `taxonomies` relation: it holds exactly when one of
      the entity's attached taxonomies has name tax and term termId. */
  lemma HasPairAttached(db: Db, e: Entity, termId: nat, tax: string)
    ensures HasPair(db, e, termId, tax) <==>
            exists id :: id in AttachedIds(db, e) &&
              TaxonomyAt(db, id).termId == termId && TaxonomyAt(db, id).taxonomy == tax
  {
    if HasPair(db, e, termId, tax) {
      var id :| 1 <= id <= |db.taxonomies| && Linked(db, e, id) &&
        db.taxonomies[id - 1].termId == termId && db.taxonomies[id - 1].taxonomy == tax;
      assert id in AttachedIds(db, e);
    }
  }

  /** The part of addSignleTerm after createTerm: find or create the
      taxonomy row of term termId, then attach it unless the entity already
      has a taxonomy of that name for the term. A unique-index violation in
      createTaxonomies ends the call. */
  function AddPair(db: Db, e: Entity, termId: nat, tax: string, parent: nat, order: nat): (r: Outcome)
    requires IsTermId(db, termId)
    ensures Grows(db, r.db) && r.db.terms == db.terms
    ensures Valid(db) ==> Valid(r.db)
  {
    match CreateTaxonomies(db, termId, tax, parent)
    case Err(error) => Failed(db, error)
    case Ok((db2, id)) =>
      if HasPair(db2, e, termId, tax) then Done(db2)
      else
        AttachKeeps(db2, e, id, order);
        GrowsTransitive(db, db2, Attach(db2, e, id, order));
        Done(Attach(db2, e, id, order))
  }

  /** addSignleTerm: find or create the term, then its taxonomy row, and
      attach the row unless the entity already has it. */
  function AddSingleTerm(db: Db, e: Entity, arg: TermArg, tax: string, parent: nat, order: nat,
                         locale: string, slugger: Slugger): (r: Outcome)
    requires IsName(arg)
    ensures Grows(db, r.db)
    ensures Valid(db) ==> Valid(r.db)
    ensures UniqueNames(db) ==> UniqueNames(r.db)
  {
    var (db1, termId) := CreateTerm(db, TermNames(arg, locale), slugger);
    CreateTermUnique(db, TermNames(arg, locale), slugger);
    var r := AddPair(db1, e, termId, tax, parent, order);
    GrowsTransitive(db, db1, r.db);
    r
  }

  /** An existing pivot row for the pair means nothing is written: the
      taxonomy row is found, or its insert fails on the unique index. */
  lemma AddPairLinked(db: Db, e: Entity, termId: nat, tax: string, parent: nat, order: nat)
    requires Valid(db) && IsTermId(db, termId) && HasPair(db, e, termId, tax)
    ensures AddPair(db, e, termId, tax, parent, order).db == db
  {
    CreateTaxonomiesCases(db, termId, tax, parent);
    var id :| 1 <= id <= |db.taxonomies| && Linked(db, e, id) &&
      db.taxonomies[id - 1].termId == termId && db.taxonomies[id - 1].taxonomy == tax;
    assert SamePair(termId, tax)(db.taxonomies[id - 1]);
  }

  /** Pivot rows unchanged and old taxonomy rows kept: a pair the entity did
      not have it still does not have. */
  lemma NoPairKept(db: Db, db2: Db, e: Entity, termId: nat, tax: string)
    requires TaxonomiesExist(db) && !HasPair(db, e, termId, tax)
    requires db2.taxables == db.taxables && db.taxonomies <= db2.taxonomies
    ensures !HasPair(db2, e, termId, tax)
  {
    forall id | 1 <= id <= |db2.taxonomies| && Linked(db2, e, id) && db2.taxonomies[id - 1].taxonomy == tax
      ensures db2.taxonomies[id - 1].termId != termId
    {
      var row :| row in db.taxables && row.entity == e && row.taxonomyId == id;
      assert IsTaxonomyId(db, id) && Linked(db, e, id);
      assert db2.taxonomies[id - 1] == db.taxonomies[id - 1];
    }
  }

  /** Without such a pivot row a successful call adds exactly one, for a
      row with the term, tax and parent, and raises that row's counter by
      one (from 0 for a new row); no other counter changes. */
  lemma AddPairAttaches(db: Db, e: Entity, termId: nat, tax: string, parent: nat, order: nat)
    requires Valid(db) && IsTermId(db, termId) && !HasPair(db, e, termId, tax)
    requires AddPair(db, e, termId, tax, parent, order).Done?
    ensures var r := AddPair(db, e, termId, tax, parent, order).db;
            exists id: nat :: IsTaxonomyId(r, id) && r.taxables == db.taxables + [Taxable(id, e, order)] &&
              TaxonomyAt(r, id).termId == termId && TaxonomyAt(r, id).taxonomy == tax && TaxonomyAt(r, id).parent == parent &&
              TaxonomyAt(r, id).count == (if id <= |db.taxonomies| then db.taxonomies[id - 1].count else 0) + 1 &&
              |r.taxonomies| <= |db.taxonomies| + 1 &&
              forall i :: 0 <= i < |db.taxonomies| && i != id - 1 ==> r.taxonomies[i] == db.taxonomies[i]
  {
    CreateTaxonomiesCases(db, termId, tax, parent);
    var (db2, id) := CreateTaxonomies(db, termId, tax, parent).value;
    NoPairKept(db, db2, e, termId, tax);
    var r := Attach(db2, e, id, order);
    assert AddPair(db, e, termId, tax, parent, order).db == r;
    assert r.taxables == db.taxables + [Taxable(id, e, order)];
  }

  /** After a successful call the entity is linked to a row with the term,
      tax and parent. */
  lemma AddPairSettles(db: Db, e: Entity, termId: nat, tax: string, parent: nat, order: nat)
    requires Valid(db) && IsTermId(db, termId)
    requires AddPair(db, e, termId, tax, parent, order).Done?
    ensures var r := AddPair(db, e, termId, tax, parent, order).db;
            exists id :: 1 <= id <= |r.taxonomies| && SameRow(termId, tax, parent)(r.taxonomies[id - 1]) && Linked(r, e, id)
  {
    var c := CreateTaxonomies(db, termId, tax, parent);
    var db2, id := c.value.0, c.value.1;
    assert SameRow(termId, tax, parent)(db2.taxonomies[id - 1]);
    if HasPair(db2, e, termId, tax) {
      var j :| 1 <= j <= |db2.taxonomies| && Linked(db2, e, j) &&
        db2.taxonomies[j - 1].termId == termId && db2.taxonomies[j - 1].taxonomy == tax;
      PairUnique(db2.taxonomies, j, id);
      AddPairWitness(db2, e, termId, tax, parent, id);
    } else {
      var r := Attach(db2, e, id, order);
      assert SameRow(termId, tax, parent)(r.taxonomies[id - 1]);
      AddPairWitness(r, e, termId, tax, parent, id);
    }
  }

  /** The row id is a witness for the conclusion of AddPairSettles. */
  lemma AddPairWitness(r: Db, e: Entity, termId: nat, tax: string, parent: nat, id: nat)
    requires 1 <= id <= |r.taxonomies| && SameRow(termId, tax, parent)(r.taxonomies[id - 1]) && Linked(r, e, id)
    ensures exists id :: 1 <= id <= |r.taxonomies| && SameRow(termId, tax, parent)(r.taxonomies[id - 1]) && Linked(r, e, id)
  { }

  /** With the entity already linked to a row with the term, tax and parent,
      the call changes nothing. */
  lemma AddPairNoop(db: Db, e: Entity, termId: nat, tax: string, parent: nat, order: nat)
    requires IsTermId(db, termId)
    requires exists id :: 1 <= id <= |db.taxonomies| && SameRow(termId, tax, parent)(db.taxonomies[id - 1]) && Linked(db, e, id)
    ensures AddPair(db, e, termId, tax, parent, order) == Done(db)
  {
    CreateTaxonomiesCases(db, termId, tax, parent);
    var id :| 1 <= id <= |db.taxonomies| && SameRow(termId, tax, parent)(db.taxonomies[id - 1]) && Linked(db, e, id);
    assert HasPair(db, e, termId, tax);
  }

  /** The counters keep covering the pivot rows: a new taxonomy row starts
      at 0 with no pivot row, and an attach raises the counter it adds to. */
  lemma AddPairCountsCover(db: Db, e: Entity, termId: nat, tax: string, parent: nat, order: nat)
    requires Valid(db) && CountsCover(db) && IsTermId(db, termId)
    ensures CountsCover(AddPair(db, e, termId, tax, parent, order).db)
  {
    var c := CreateTaxonomies(db, termId, tax, parent);
    CreateTaxonomiesCases(db, termId, tax, parent);
    if c.Ok? {
      var (db2, id) := c.value;
      if db2 != db {
        RowCountAbsent(db2.taxables, |db2.taxonomies|);
        assert forall i :: 0 <= i < |db.taxonomies| ==> db2.taxonomies[i] == db.taxonomies[i];
      }
      assert CountsCover(db2);
      if !HasPair(db2, e, termId, tax) {
        AttachKeeps(db2, e, id, order);
      }
    }
  }

  /** The entity already has a taxonomy named tax whose term is named names. */
  predicate Tagged(db: Db, e: Entity, names: Names, tax: string)
  {
    exists id :: 1 <= id <= |db.taxonomies| && Linked(db, e, id) && db.taxonomies[id - 1].taxonomy == tax &&
      IsTermId(db, db.taxonomies[id - 1].termId) && TermAt(db, db.taxonomies[id - 1].termId).name == names
  }

  /** A term already tagged under tax is not attached again and no counter
      moves: the tables stay as they were (the call may still end with an
      exception when the parent differs). */
  lemma AddSingleTermAlreadyTagged(db: Db, e: Entity, arg: TermArg, tax: string, parent: nat, order: nat,
                                   locale: string, slugger: Slugger)
    requires Valid(db) && UniqueNames(db) && IsName(arg)
    requires Tagged(db, e, TermNames(arg, locale), tax)
    ensures AddSingleTerm(db, e, arg, tax, parent, order, locale, slugger).db == db
  {
    var names := TermNames(arg, locale);
    var id :| 1 <= id <= |db.taxonomies| && Linked(db, e, id) && db.taxonomies[id - 1].taxonomy == tax &&
      IsTermId(db, db.taxonomies[id - 1].termId) && TermAt(db, db.taxonomies[id - 1].termId).name == names;
    CreateTermCases(db, names, slugger);
    var (db1, termId) := CreateTerm(db, names, slugger);
    assert NamedAs(names)(db.terms[db.taxonomies[id - 1].termId - 1]);
    assert db1 == db && termId == db.taxonomies[id - 1].termId;
    assert HasPair(db1, e, termId, tax);
    AddPairLinked(db1, e, termId, tax, parent, order);
  }

  /** Otherwise a successful call adds exactly one pivot row (taxonomy,
      entity, order), for a row with the term's name, tax and parent, and
      raises that row's counter by one (from 0 for a new row); no other
      counter changes. */
  lemma AddSingleTermAttaches(db: Db, e: Entity, arg: TermArg, tax: string, parent: nat, order: nat,
                              locale: string, slugger: Slugger)
    requires Valid(db) && IsName(arg)
    requires !Tagged(db, e, TermNames(arg, locale), tax)
    requires AddSingleTerm(db, e, arg, tax, parent, order, locale, slugger).Done?
    ensures var r := AddSingleTerm(db, e, arg, tax, parent, order, locale, slugger).db;
            exists id: nat :: IsTaxonomyId(r, id) && r.taxables == db.taxables + [Taxable(id, e, order)] &&
              TaxonomyAt(r, id).taxonomy == tax && TaxonomyAt(r, id).parent == parent &&
              TermAt(r, TaxonomyAt(r, id).termId).name == TermNames(arg, locale) &&
              TaxonomyAt(r, id).count == (if id <= |db.taxonomies| then db.taxonomies[id - 1].count else 0) + 1 &&
              |r.taxonomies| <= |db.taxonomies| + 1 &&
              forall i :: 0 <= i < |db.taxonomies| && i != id - 1 ==> r.taxonomies[i] == db.taxonomies[i]
  {
    var names := TermNames(arg, locale);
    var (db1, termId) := CreateTerm(db, names, slugger);
    NotTaggedNoPair(db, db1, e, names, termId, tax);
    AddPairAttaches(db1, e, termId, tax, parent, order);
    assert AddSingleTerm(db, e, arg, tax, parent, order, locale, slugger) == AddPair(db1, e, termId, tax, parent, order);
  }

  /** An entity without a taxonomy named tax for a term named names has no
      such pair after the term is found or created: the pivot rows are the
      same, and an old row of the term would have tagged it. */
  lemma NotTaggedNoPair(db: Db, db1: Db, e: Entity, names: Names, termId: nat, tax: string)
    requires Valid(db) && !Tagged(db, e, names, tax)
    requires db1.taxables == db.taxables && db1.taxonomies == db.taxonomies && db.terms <= db1.terms
    requires IsTermId(db1, termId) && TermAt(db1, termId).name == names
    ensures !HasPair(db1, e, termId, tax)
  {
    forall id | 1 <= id <= |db1.taxonomies| && Linked(db1, e, id) && db1.taxonomies[id - 1].taxonomy == tax
      ensures db1.taxonomies[id - 1].termId != termId
    {
      var row :| row in db.taxables && row.entity == e && row.taxonomyId == id;
      assert IsTaxonomyId(db, id) && Linked(db, e, id);
      var t := db.taxonomies[id - 1].termId;
      assert IsTermId(db, t) && db1.terms[t - 1] == db.terms[t - 1];
      assert TermAt(db, t).name != names;
    }
  }

  /** The call fails exactly when the term already exists and has a row
      named tax with another parent (and none with this parent); a failed
      call leaves the tables unchanged. */
  lemma AddSingleTermFails(db: Db, e: Entity, arg: TermArg, tax: string, parent: nat, order: nat,
                           locale: string, slugger: Slugger)
    requires Valid(db) && IsName(arg)
    ensures var r := AddSingleTerm(db, e, arg, tax, parent, order, locale, slugger);
            && (r.Failed? ==> r.db == db)
            && (r.Failed? <==>
                  match First(db.terms, NamedAs(TermNames(arg, locale)))
                  case None => false
                  case Some(termId) =>
                    (forall j :: 0 <= j < |db.taxonomies| ==> !SameRow(termId, tax, parent)(db.taxonomies[j])) &&
                    exists j :: 0 <= j < |db.taxonomies| && SamePair(termId, tax)(db.taxonomies[j]))
  {
    var names := TermNames(arg, locale);
    CreateTermCases(db, names, slugger);
    var (db1, termId) := CreateTerm(db, names, slugger);
    AddPairFails(db1, e, termId, tax, parent, order);
    assert AddSingleTerm(db, e, arg, tax, parent, order, locale, slugger) == AddPair(db1, e, termId, tax, parent, order);
    if First(db.terms, NamedAs(names)).None? {
      assert termId == |db.terms| + 1;
      forall j | 0 <= j < |db1.taxonomies| ensures !SamePair(termId, tax)(db1.taxonomies[j]) {
        assert IsTermId(db, db.taxonomies[j].termId);
      }
    } else {
      assert db1 == db;
    }
  }

  /** The part after createTerm fails exactly when createTaxonomies does,
      and then writes nothing. */
  lemma AddPairFails(db: Db, e: Entity, termId: nat, tax: string, parent: nat, order: nat)
    requires IsTermId(db, termId)
    ensures var r := AddPair(db, e, termId, tax, parent, order);
            && (r.Failed? ==> r.db == db)
            && (r.Failed? <==>
                  (forall j :: 0 <= j < |db.taxonomies| ==> !SameRow(termId, tax, parent)(db.taxonomies[j])) &&
                  exists j :: 0 <= j < |db.taxonomies| && SamePair(termId, tax)(db.taxonomies[j]))
  {
    assert AddPair(db, e, termId, tax, parent, order).Failed? <==> CreateTaxonomies(db, termId, tax, parent).Err?;
  }

  /** The term argument is stored as addSignleTerm would find it again: the
      first term with its name has a row named tax with this parent, and the
      entity is linked to that row. */
  predicate Settled(db: Db, e: Entity, names: Names, tax: string, parent: nat)
  {
    match First(db.terms, NamedAs(names))
    case None => false
    case Some(termId) =>
      exists id :: 1 <= id <= |db.taxonomies| && SameRow(termId, tax, parent)(db.taxonomies[id - 1]) && Linked(db, e, id)
  }

  /** On a settled argument addSignleTerm changes nothing. */
  lemma SettledNoop(db: Db, e: Entity, arg: TermArg, tax: string, parent: nat, order: nat,
                    locale: string, slugger: Slugger)
    requires IsName(arg) && Settled(db, e, TermNames(arg, locale), tax, parent)
    ensures AddSingleTerm(db, e, arg, tax, parent, order, locale, slugger) == Done(db)
  {
    var names := TermNames(arg, locale);
    var termId := First(db.terms, NamedAs(names)).value;
    CreateTermCases(db, names, slugger);
    assert NamedAs(names)(db.terms[termId - 1]);
    assert CreateTerm(db, names, slugger) == (db, termId);
    AddPairNoop(db, e, termId, tax, parent, order);
  }

  /** After a successful addSignleTerm its argument is settled. */
  lemma AddSingleSettles(db: Db, e: Entity, arg: TermArg, tax: string, parent: nat, order: nat,
                         locale: string, slugger: Slugger)
    requires Valid(db) && IsName(arg)
    requires AddSingleTerm(db, e, arg, tax, parent, order, locale, slugger).Done?
    ensures Settled(AddSingleTerm(db, e, arg, tax, parent, order, locale, slugger).db, e, TermNames(arg, locale), tax, parent)
  {
    var names := TermNames(arg, locale);
    var (db1, termId) := CreateTerm(db, names, slugger);
    var r := AddPair(db1, e, termId, tax, parent, order);
    assert AddSingleTerm(db, e, arg, tax, parent, order, locale, slugger) == r;
    AddPairSettles(db1, e, termId, tax, parent, order);
    assert First(r.db.terms, NamedAs(names)) == Some(termId);
  }

  /** A settled argument stays settled when the tables only grow. */
  lemma SettledGrows(db: Db, db': Db, e: Entity, names: Names, tax: string, parent: nat)
    requires Settled(db, e, names, tax, parent) && Grows(db, db')
    ensures Settled(db', e, names, tax, parent)
  {
    var termId := First(db.terms, NamedAs(names)).value;
    FirstStable(db.terms, db'.terms, NamedAs(names));
    var id :| 1 <= id <= |db.taxonomies| && SameRow(termId, tax, parent)(db.taxonomies[id - 1]) && Linked(db, e, id);
    var row :| row in db.taxables && row.entity == e && row.taxonomyId == id;
    assert row in db'.taxables;
    assert Linked(db', e, id);
    assert SameRow(termId, tax, parent)(db'.taxonomies[id - 1]);
    assert First(db'.terms, NamedAs(names)) == Some(termId);
  }

  /** Items all settled in db. */
  predicate AllSettled(db: Db, e: Entity, items: seq<TermArg>, tax: string, parent: nat, locale: string)
    requires AllNames(items)
  {
    forall i :: 0 <= i < |items| ==> Settled(db, e, TermNames(items[i], locale), tax, parent)
  }

  lemma AllSettledGrows(db: Db, db': Db, e: Entity, items: seq<TermArg>, tax: string, parent: nat, locale: string)
    requires AllNames(items) && AllSettled(db, e, items, tax, parent, locale) && Grows(db, db')
    ensures AllSettled(db', e, items, tax, parent, locale)
  {
    forall i | 0 <= i < |items| ensures Settled(db', e, TermNames(items[i], locale), tax, parent) {
      SettledGrows(db, db', e, TermNames(items[i], locale), tax, parent);
    }
  }

  /** Every element of a list argument can be stored as a name. */
  predicate AllNames(items: seq<TermArg>)
  {
    forall i :: 0 <= i < |items| ==> IsName(items[i])
  }

  /** The `foreach` of addTerm: addSignleTerm on each item in order; an
      exception stops the loop. */
  function AddItems(db: Db, e: Entity, items: seq<TermArg>, tax: string, parent: nat, order: nat,
                    locale: string, slugger: Slugger): (r: Outcome)
    requires AllNames(items)
    ensures Grows(db, r.db)
    ensures Valid(db) ==> Valid(r.db)
    ensures UniqueNames(db) ==> UniqueNames(r.db)
    decreases |items|
  {
    if |items| == 0 then Done(db)
    else
      match AddItems(db, e, items[..|items| - 1], tax, parent, order, locale, slugger)
      case Failed(db1, error) => Failed(db1, error)
      case Done(db1) =>
        var r := AddSingleTerm(db1, e, items[|items| - 1], tax, parent, order, locale, slugger);
        GrowsTransitive(db, db1, r.db);
        r
  }

  /** A string or an associative array is one term; any other array is a
      list of terms. */
  predicate IsSingle(arg: TermArg)
  {
    arg.Scalar? || IsAssoc(Keys(arg.entries))
  }

  /** The terms addTerm adds, in order. */
  function Items(arg: TermArg): (r: seq<TermArg>)
    ensures IsSingle(arg) ==> r == [arg]
    ensures !IsSingle(arg) ==> |r| == |arg.entries| && forall i :: 0 <= i < |r| ==> r[i] == arg.entries[i].1
  {
    if IsSingle(arg) then [arg] else Values(arg.entries)
  }

  /** addTerm: one addSignleTerm for a single term, one per element of a list. */
  function AddTerm(db: Db, e: Entity, arg: TermArg, tax: string, parent: nat, order: nat,
                   locale: string, slugger: Slugger): (r: Outcome)
    requires AllNames(Items(arg))
    ensures Grows(db, r.db)
    ensures Valid(db) ==> Valid(r.db)
    ensures UniqueNames(db) ==> UniqueNames(r.db)
  {
    if IsSingle(arg) then
      assert Items(arg)[0] == arg;
      AddSingleTerm(db, e, arg, tax, parent, order, locale, slugger)
    else AddItems(db, e, Values(arg.entries), tax, parent, order, locale, slugger)
  }

  /** Adding the items of a + b is adding those of a, then (unless that
      failed) those of b on the result. */
  lemma {:induction false} AddItemsConcat(db: Db, e: Entity, a: seq<TermArg>, b: seq<TermArg>, tax: string, parent: nat,
                                          order: nat, locale: string, slugger: Slugger)
    requires AllNames(a) && AllNames(b)
    ensures AllNames(a + b)
    ensures AddItems(db, e, a + b, tax, parent, order, locale, slugger) ==
            match AddItems(db, e, a, tax, parent, order, locale, slugger)
            case Failed(db1, error) => Failed(db1, error)
            case Done(db1) => AddItems(db1, e, b, tax, parent, order, locale, slugger)
    decreases |b|
  {
    assert AllNames(a + b) by {
      forall i | 0 <= i < |a + b| ensures IsName((a + b)[i]) {
        if i >= |a| { assert (a + b)[i] == b[i - |a|]; }
      }
    }
    if |b| > 0 {
      var b', x := b[..|b| - 1], b[|b| - 1];
      assert (a + b)[..|a + b| - 1] == a + b';
      assert AllNames(b');
      AddItemsConcat(db, e, a, b', tax, parent, order, locale, slugger);
    } else {
      assert a + b == a;
    }
  }

  /** One more turn of the `foreach`: on the first i + 1 items it is the
      run on the first i items followed, if that ended normally, by one
      addSignleTerm of item i. */
  lemma AddItemsStep(db: Db, e: Entity, items: seq<TermArg>, i: nat, tax: string, parent: nat, order: nat,
                     locale: string, slugger: Slugger)
    requires AllNames(items) && i < |items|
    ensures AllNames(items[..i]) && AllNames(items[..i + 1])
    ensures var before := AddItems(db, e, items[..i], tax, parent, order, locale, slugger);
            AddItems(db, e, items[..i + 1], tax, parent, order, locale, slugger) ==
              if before.Failed? then before
              else AddSingleTerm(before.db, e, items[i], tax, parent, order, locale, slugger)
  {
    PrefixStep(items, i);
  }

  /** An exception ends the `foreach`: once the run on a prefix has failed,
      the later items are never added. */
  lemma AddItemsStops(db: Db, e: Entity, items: seq<TermArg>, i: nat, tax: string, parent: nat, order: nat,
                      locale: string, slugger: Slugger)
    requires AllNames(items) && i <= |items|
    requires AllNames(items[..i]) && AddItems(db, e, items[..i], tax, parent, order, locale, slugger).Failed?
    ensures AddItems(db, e, items, tax, parent, order, locale, slugger) ==
            AddItems(db, e, items[..i], tax, parent, order, locale, slugger)
  {
    SplitAt(items, i);
    assert AllNames(items[i..]) by {
      forall k | 0 <= k < |items[i..]| ensures IsName(items[i..][k]) {
        assert items[i..][k] == items[i + k];
      }
    }
    AddItemsConcat(db, e, items[..i], items[i..], tax, parent, order, locale, slugger);
  }

  /** addTerm is exactly one addSignleTerm for a string or an associative
      array, and the addSignleTerms of the list elements, in list order,
      otherwise. */
  lemma AddTermIsItems(db: Db, e: Entity, arg: TermArg, tax: string, parent: nat, order: nat,
                       locale: string, slugger: Slugger)
    requires AllNames(Items(arg))
    ensures IsSingle(arg) ==> IsName(arg) && AddTerm(db, e, arg, tax, parent, order, locale, slugger) ==
                              AddSingleTerm(db, e, arg, tax, parent, order, locale, slugger)
    ensures AddTerm(db, e, arg, tax, parent, order, locale, slugger) ==
            AddItems(db, e, Items(arg), tax, parent, order, locale, slugger)
  {
    if IsSingle(arg) {
      assert Items(arg)[0] == arg;
      assert Items(arg)[..0] == [];
    }
  }

  lemma AllSettledSnoc(db: Db, e: Entity, init: seq<TermArg>, last: TermArg, tax: string, parent: nat, locale: string)
    requires AllNames(init) && IsName(last)
    requires AllSettled(db, e, init, tax, parent, locale) && Settled(db, e, TermNames(last, locale), tax, parent)
    ensures AllNames(init + [last]) && AllSettled(db, e, init + [last], tax, parent, locale)
  {
    var items := init + [last];
    assert forall i :: 0 <= i < |init| ==> items[i] == init[i];
    assert items[|init|] == last;
  }

  /** After a successful run every item is settled. */
  lemma {:induction false} AddItemsSettles(db: Db, e: Entity, items: seq<TermArg>, tax: string, parent: nat, order: nat,
                                           locale: string, slugger: Slugger)
    requires Valid(db) && AllNames(items)
    requires AddItems(db, e, items, tax, parent, order, locale, slugger).Done?
    ensures AllSettled(AddItems(db, e, items, tax, parent, order, locale, slugger).db, e, items, tax, parent, locale)
    decreases |items|
  {
    if |items| > 0 {
      var init, last := items[..|items| - 1], items[|items| - 1];
      assert AllNames(init);
      var o1 := AddItems(db, e, init, tax, parent, order, locale, slugger);
      assert o1.Done?;
      var db1 := o1.db;
      var r := AddSingleTerm(db1, e, last, tax, parent, order, locale, slugger).db;
      assert AddItems(db, e, items, tax, parent, order, locale, slugger).db == r;
      AddItemsSettles(db, e, init, tax, parent, order, locale, slugger);
      AllSettledGrows(db1, r, e, init, tax, parent, locale);
      AddSingleSettles(db1, e, last, tax, parent, order, locale, slugger);
      LastSplit(items);
      AllSettledSnoc(r, e, init, last, tax, parent, locale);
    }
  }

  /** On items that are all settled the loop changes nothing. */
  lemma {:induction false} AddItemsNoop(db: Db, e: Entity, items: seq<TermArg>, tax: string, parent: nat, order: nat,
                                        locale: string, slugger: Slugger)
    requires AllNames(items) && AllSettled(db, e, items, tax, parent, locale)
    ensures AddItems(db, e, items, tax, parent, order, locale, slugger) == Done(db)
    decreases |items|
  {
    if |items| > 0 {
      var init, last := items[..|items| - 1], items[|items| - 1];
      assert AllNames(init);
      assert forall i :: 0 <= i < |init| ==> init[i] == items[i];
      AddItemsNoop(db, e, init, tax, parent, order, locale, slugger);
      SettledNoop(db, e, last, tax, parent, order, locale, slugger);
    }
  }

  /** Calling addTerm again with the same arguments after a successful call
      changes nothing: every term is already attached. */
  lemma AddTermIdempotent(db: Db, e: Entity, arg: TermArg, tax: string, parent: nat, order: nat,
                          locale: string, slugger: Slugger)
    requires Valid(db) && AllNames(Items(arg))
    requires AddTerm(db, e, arg, tax, parent, order, locale, slugger).Done?
    ensures var r := AddTerm(db, e, arg, tax, parent, order, locale, slugger).db;
            AddTerm(r, e, arg, tax, parent, order, locale, slugger) == Done(r)
  {
    var r := AddTerm(db, e, arg, tax, parent, order, locale, slugger).db;
    AddTermIsItems(db, e, arg, tax, parent, order, locale, slugger);
    AddTermIsItems(r, e, arg, tax, parent, order, locale, slugger);
    AddItemsSettles(db, e, Items(arg), tax, parent, order, locale, slugger);
    AddItemsNoop(r, e, Items(arg), tax, parent, order, locale, slugger);
  }

  /** Calling addTerm twice with a single new term leaves one new pivot row
      for it, and that taxonomy counted once more than before (once, for a
      new taxonomy row). */
  lemma AddTermTwiceOneRow(db: Db, e: Entity, arg: TermArg, tax: string, parent: nat, order: nat,
                           locale: string, slugger: Slugger)
    requires Valid(db) && IsSingle(arg) && IsName(arg) && AllNames(Items(arg))
    requires !Tagged(db, e, TermNames(arg, locale), tax)
    requires AddTerm(db, e, arg, tax, parent, order, locale, slugger).Done?
    ensures var r1 := AddTerm(db, e, arg, tax, parent, order, locale, slugger).db;
            var r2 := AddTerm(r1, e, arg, tax, parent, order, locale, slugger);
            r2 == Done(r1) &&
            exists id: nat :: IsTaxonomyId(r1, id) && r1.taxables == db.taxables + [Taxable(id, e, order)] &&
              TaxonomyAt(r1, id).count == (if id <= |db.taxonomies| then db.taxonomies[id - 1].count else 0) + 1
  {
    AddTermIsItems(db, e, arg, tax, parent, order, locale, slugger);
    AddTermIdempotent(db, e, arg, tax, parent, order, locale, slugger);
    AddSingleTermAttaches(db, e, arg, tax, parent, order, locale, slugger);
  }

  /** addSignleTerm keeps every counter at or above the number of pivot rows
      naming its taxonomy. */
  lemma AddSingleTermCountsCover(db: Db, e: Entity, arg: TermArg, tax: string, parent: nat, order: nat,
                                 locale: string, slugger: Slugger)
    requires Valid(db) && CountsCover(db) && IsName(arg)
    ensures CountsCover(AddSingleTerm(db, e, arg, tax, parent, order, locale, slugger).db)
  {
    var (db1, termId) := CreateTerm(db, TermNames(arg, locale), slugger);
    AddPairCountsCover(db1, e, termId, tax, parent, order);
  }

  lemma {:induction false} AddItemsCountsCover(db: Db, e: Entity, items: seq<TermArg>, tax: string, parent: nat, order: nat,
                                               locale: string, slugger: Slugger)
    requires Valid(db) && CountsCover(db) && AllNames(items)
    ensures CountsCover(AddItems(db, e, items, tax, parent, order, locale, slugger).db)
    decreases |items|
  {
    if |items| > 0 {
      var init := items[..|items| - 1];
      assert AllNames(init);
      AddItemsCountsCover(db, e, init, tax, parent, order, locale, slugger);
      var o1 := AddItems(db, e, init, tax, parent, order, locale, slugger);
      if o1.Done? {
        var last := items[|items| - 1];
        AddSingleTermCountsCover(o1.db, e, last, tax, parent, order, locale, slugger);
        assert AddItems(db, e, items, tax, parent, order, locale, slugger) ==
               AddSingleTerm(o1.db, e, last, tax, parent, order, locale, slugger);
      }
    }
  }

  /** addTerm never leaves a counter below the number of pivot rows that
      use its taxonomy. */
  lemma AddTermCountsCover(db: Db, e: Entity, arg: TermArg, tax: string, parent: nat, order: nat,
                           locale: string, slugger: Slugger)
    requires Valid(db) && CountsCover(db) && AllNames(Items(arg))
    ensures CountsCover(AddTerm(db, e, arg, tax, parent, order, locale, slugger).db)
  {
    AddTermIsItems(db, e, arg, tax, parent, order, locale, slugger);
    AddItemsCountsCover(db, e, Items(arg), tax, parent, order, locale, slugger);
  }

  /** setCategory: attach the existing taxonomy id unless the entity already
      has a pivot row for it. */
  function SetCategory(db: Db, e: Entity, id: nat, order: nat): (r: Db)
    ensures Grows(db, r)
    ensures Valid(db) ==> Valid(r)
    ensures Linked(r, e, id) <==> Linked(db, e, id) || IsTaxonomyId(db, id)
  {
    if IsTaxonomyId(db, id) && !Linked(db, e, id) then
      AttachKeeps(db, e, id, order);
      Attach(db, e, id, order)
    else db
  }

  /** setCategory changes nothing when the taxonomy does not exist or is
      already attached; otherwise it adds the one pivot row (id, entity,
      order) and counts the taxonomy once more, leaving every other row as
      it was. */
  lemma SetCategoryEffect(db: Db, e: Entity, id: nat, order: nat)
    ensures !IsTaxonomyId(db, id) || Linked(db, e, id) ==> SetCategory(db, e, id, order) == db
    ensures IsTaxonomyId(db, id) && !Linked(db, e, id) ==>
              var r := SetCategory(db, e, id, order);
              && r.terms == db.terms
              && r.taxables == db.taxables + [Taxable(id, e, order)]
              && |r.taxonomies| == |db.taxonomies|
              && TaxonomyAt(r, id) == TaxonomyAt(db, id).(count := TaxonomyAt(db, id).count + 1)
              && forall i :: 0 <= i < |db.taxonomies| && i != id - 1 ==> r.taxonomies[i] == db.taxonomies[i]
  {
  }

  /** A second setCategory with the same id changes nothing. */
  lemma SetCategoryIdempotent(db: Db, e: Entity, id: nat, order: nat)
    ensures SetCategory(SetCategory(db, e, id, order), e, id, order) == SetCategory(db, e, id, order)
  {
  }

  lemma SetCategoryCountsCover(db: Db, e: Entity, id: nat, order: nat)
    requires CountsCover(db)
    ensures CountsCover(SetCategory(db, e, id, order))
  {
    if IsTaxonomyId(db, id) && !Linked(db, e, id) {
      AttachKeeps(db, e, id, order);
    }
  }

  /** The test removeTerm uses on the entity's taxonomies: the row of term
      termId, named tax when tax is truthy. */
  function OfTerm(db: Db, termId: nat, tax: string): nat -> bool
  {
    (id: nat) => IsTaxonomyId(db, id) && TaxonomyAt(db, id).termId == termId && InTaxonomy(TaxonomyAt(db, id), tax)
  }

  /** The taxonomy removeTerm detaches: the first of the entity's taxonomies,
      in attachment order, that belongs to the term (and is named tax when
      tax is truthy). */
  function ResolvedTaxonomy(db: Db, e: Entity, termId: nat, tax: string): (r: Option<nat>)
    ensures r.Some? ==> (IsTaxonomyId(db, r.value) && Linked(db, e, r.value) &&
                         TaxonomyAt(db, r.value).termId == termId && InTaxonomy(TaxonomyAt(db, r.value), tax))
    ensures r.None? <==> !UsesTerm(db, e, termId, tax)
  {
    var ids := AttachedIds(db, e);
    match First(ids, OfTerm(db, termId, tax))
    case None =>
      assert forall t :: t in ids ==> !OfTerm(db, termId, tax)(t);
      None
    case Some(k) =>
      assert OfTerm(db, termId, tax)(ids[k - 1]);
      Some(ids[k - 1])
  }

  /** Keeps every pivot row except the entity's rows for taxonomy id. */
  function Keeps(e: Entity, id: nat): Taxable -> bool
  {
    (row: Taxable) => !(row.entity == e && row.taxonomyId == id)
  }

  /** The tables after deleting the entity's pivot rows for taxonomy id. */
  function Unlink(db: Db, e: Entity, id: nat): (r: Db)
    ensures r.terms == db.terms && r.taxonomies == db.taxonomies
    ensures |r.taxables| <= |db.taxables|
    ensures forall row :: row in r.taxables <==> row in db.taxables && !(row.entity == e && row.taxonomyId == id)
    ensures !Linked(r, e, id)
  {
    db.(taxables := Filter(db.taxables, Keeps(e, id)))
  }

  /** The delete of removeTerm for a term the entity uses: the tables
      after unlinking the taxonomy the term resolves to, and the number of
      pivot rows that deleted. */
  function Detach(db: Db, e: Entity, termId: nat, tax: string): (r: (Db, nat))
    requires UsesTerm(db, e, termId, tax)
    ensures r.0.terms == db.terms && r.0.taxonomies == db.taxonomies
    ensures r.1 == |db.taxables| - |r.0.taxables|
  {
    var d := Unlink(db, e, ResolvedTaxonomy(db, e, termId, tax).value);
    (d, |db.taxables| - |d.taxables|)
  }

  /** removeTerm: when getTerm finds the term, delete the entity's pivot rows
      for the taxonomy it resolves to and return how many were deleted;
      otherwise change nothing and return null. Counters are left as they
      are. */
  function RemoveTerm(db: Db, e: Entity, termName: string, tax: string, locale: string, active: string): (r: (Db, Option<nat>))
    ensures r.0.terms == db.terms && r.0.taxonomies == db.taxonomies
    ensures r.1.None? <==> GetTerm(db, e, termName, tax, locale, active).None?
    ensures r.1.None? ==> r.0 == db
    ensures r.1.Some? ==> r.1.value == |db.taxables| - |r.0.taxables|
  {
    match GetTerm(db, e, termName, tax, locale, active)
    case None => (db, None)
    case Some(termId) =>
      var (d, n) := Detach(db, e, termId, tax);
      (d, Some(n))
  }

  /** The entity's pivot rows: every other entity's are kept, in order. */
  function NotOf(e: Entity): Taxable -> bool
  {
    (row: Taxable) => row.entity != e
  }

  /** removeAllTerms: delete every pivot row of the entity and return how
      many were deleted. Counters are left as they are. */
  function RemoveAllTerms(db: Db, e: Entity): (r: (Db, nat))
    ensures r.0.terms == db.terms && r.0.taxonomies == db.taxonomies
    ensures r.1 == |db.taxables| - |r.0.taxables|
  {
    var kept := Filter(db.taxables, NotOf(e));
    (db.(taxables := kept), |db.taxables| - |kept|)
  }

  /** A found term: removeTerm deletes exactly the entity's pivot rows for
      the resolved taxonomy. Every other entity's rows stay, in order. */
  lemma RemoveTermEffect(db: Db, e: Entity, termName: string, tax: string, locale: string, active: string)
    requires GetTerm(db, e, termName, tax, locale, active).Some?
    ensures var termId := GetTerm(db, e, termName, tax, locale, active).value;
            ResolvedTaxonomy(db, e, termId, tax).Some? &&
            var id := ResolvedTaxonomy(db, e, termId, tax).value;
            var r := RemoveTerm(db, e, termName, tax, locale, active).0;
            && (forall row :: row in r.taxables <==> row in db.taxables && !(row.entity == e && row.taxonomyId == id))
            && (forall other :: other != e ==> RowsOf(r, other) == RowsOf(db, other))
            && !Linked(r, e, id)
  {
    var termId := GetTerm(db, e, termName, tax, locale, active).value;
    var id := ResolvedTaxonomy(db, e, termId, tax).value;
    forall other | other != e ensures RowsOf(RemoveTerm(db, e, termName, tax, locale, active).0, other) == RowsOf(db, other) {
      FilterNarrow(db.taxables, Keeps(e, id), ByEntity(other));
    }
  }

  /** Unlinking the one row of a (term, name) pair removes the term from the
      entity's terms of that name. */
  lemma UnlinkUntags(db: Db, e: Entity, termId: nat, tax: string, id: nat)
    requires UniquePairs(db.taxonomies) && Truthy(tax)
    requires IsTaxonomyId(db, id) && TaxonomyAt(db, id).termId == termId && TaxonomyAt(db, id).taxonomy == tax
    ensures termId !in GetTerms(Unlink(db, e, id), e, tax)
  {
    var r := Unlink(db, e, id);
    assert forall t :: IsTaxonomyId(r, t) && TaxonomyAt(r, t).termId == termId && TaxonomyAt(r, t).taxonomy == tax ==> t == id;
  }

  /** With the pivot table's unique index, unlinking a linked taxonomy
      deletes exactly one row. */
  lemma UnlinkDeletesOne(db: Db, e: Entity, id: nat)
    requires UniqueLinks(db.taxables) && Linked(db, e, id)
    ensures |Unlink(db, e, id).taxables| == |db.taxables| - 1
  {
    var drop := (row: Taxable) => row.entity == e && row.taxonomyId == id;
    FilterSplit(db.taxables, Keeps(e, id), drop);
    var f := Filter(db.taxables, drop);
    FilterUniqueLinks(db.taxables, drop);
    var row :| row in db.taxables && row.entity == e && row.taxonomyId == id;
    assert row in f;
    assert forall i :: 0 <= i < |f| ==> f[i] in f && drop(f[i]);
    assert forall i :: 0 <= i < |f| ==> f[i].entity == e && f[i].taxonomyId == id;
    assert UniqueLinks(f);
    var second := if |f| >= 2 then 1 else 0;
    assert f[0].taxonomyId == f[second].taxonomyId && f[0].entity == f[second].entity;
    assert |f| <= 1;
  }

  /** Under a truthy taxonomy name, a removed term is no longer among the
      entity's terms of that taxonomy: the unique index leaves only one row
      for the term and the name. */
  lemma RemoveTermUntags(db: Db, e: Entity, termName: string, tax: string, locale: string, active: string)
    requires Valid(db) && Truthy(tax)
    requires GetTerm(db, e, termName, tax, locale, active).Some?
    ensures GetTerm(db, e, termName, tax, locale, active).value !in
              GetTerms(RemoveTerm(db, e, termName, tax, locale, active).0, e, tax)
  {
    var termId := GetTerm(db, e, termName, tax, locale, active).value;
    var id := ResolvedTaxonomy(db, e, termId, tax).value;
    assert RemoveTerm(db, e, termName, tax, locale, active).0 == Unlink(db, e, id);
    UnlinkUntags(db, e, termId, tax, id);
  }

  /** With the unique indexes, removing a found term deletes exactly one
      pivot row. */
  lemma RemoveTermDeletesOne(db: Db, e: Entity, termName: string, tax: string, locale: string, active: string)
    requires Valid(db)
    requires GetTerm(db, e, termName, tax, locale, active).Some?
    ensures RemoveTerm(db, e, termName, tax, locale, active).1 == Some(1)
  {
    var termId := GetTerm(db, e, termName, tax, locale, active).value;
    var id := ResolvedTaxonomy(db, e, termId, tax).value;
    assert RemoveTerm(db, e, termName, tax, locale, active).0 == Unlink(db, e, id);
    UnlinkDeletesOne(db, e, id);
  }

  /** removeAllTerms leaves the entity without pivot rows, keeps every other
      entity's rows in order, and reports how many rows the entity had. */
  lemma RemoveAllTermsEffect(db: Db, e: Entity)
    ensures RowsOf(RemoveAllTerms(db, e).0, e) == []
    ensures forall other :: other != e ==> RowsOf(RemoveAllTerms(db, e).0, other) == RowsOf(db, other)
    ensures RemoveAllTerms(db, e).1 == |RowsOf(db, e)|
  {
    FilterDisjoint(db.taxables, NotOf(e), ByEntity(e));
    FilterSplit(db.taxables, NotOf(e), ByEntity(e));
    forall other | other != e ensures RowsOf(RemoveAllTerms(db, e).0, other) == RowsOf(db, other) {
      FilterNarrow(db.taxables, NotOf(e), ByEntity(other));
    }
  }

  /** Deleting pivot rows keeps the tables valid and every counter covering
      the rows left, since no counter is lowered. */
  lemma DeleteKeeps(db: Db, p: Taxable -> bool)
    ensures Valid(db) ==> Valid(db.(taxables := Filter(db.taxables, p)))
    ensures CountsCover(db) ==> CountsCover(db.(taxables := Filter(db.taxables, p)))
  {
    var r := db.(taxables := Filter(db.taxables, p));
    if Valid(db) {
      FilterUniqueLinks(db.taxables, p);
      forall i | 0 <= i < |r.taxables| ensures IsTaxonomyId(r, r.taxables[i].taxonomyId) {
        assert r.taxables[i] in db.taxables;
      }
    }
    forall t: nat {
      RowCountFilter(db.taxables, p, t);
    }
  }

  lemma RemoveKeeps(db: Db, e: Entity, termName: string, tax: string, locale: string, active: string)
    ensures Valid(db) ==> Valid(RemoveTerm(db, e, termName, tax, locale, active).0) && Valid(RemoveAllTerms(db, e).0)
    ensures CountsCover(db) ==> CountsCover(RemoveTerm(db, e, termName, tax, locale, active).0) &&
                                CountsCover(RemoveAllTerms(db, e).0)
  {
    DeleteKeeps(db, NotOf(e));
    var t := GetTerm(db, e, termName, tax, locale, active);
    if t.Some? {
      DeleteKeeps(db, Keeps(e, ResolvedTaxonomy(db, e, t.value, tax).value));
    }
  }
}
