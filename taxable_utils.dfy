/** The find-or-create helpers of TaxableUtils: the shape of a term argument,
    the list-versus-map test on a PHP array, and the specification of
    creating a term and a taxonomy row. */
module TaxableUtils {
  import opened Tables

  /** A PHP value given as a term: a string, or an array of (key, value)
      entries in the array's order. */
  datatype TermArg = Scalar(s: string) | Array(entries: seq<(Key, TermArg)>)

  /** `array_keys($arr)`. */
  function Keys(entries: seq<(Key, TermArg)>): (r: seq<Key>)
    ensures |r| == |entries|
    ensures forall i :: 0 <= i < |r| ==> r[i] == entries[i].0
  {
    seq(|entries|, i requires 0 <= i < |entries| => entries[i].0)
  }

  /** `array_values($arr)`, the elements a `foreach` visits. */
  function Values(entries: seq<(Key, TermArg)>): (r: seq<TermArg>)
    ensures |r| == |entries|
    ensures forall i :: 0 <= i < |r| ==> r[i] == entries[i].1
  {
    seq(|entries|, i requires 0 <= i < |entries| => entries[i].1)
  }

  /** `range(0, n - 1)` for n > 0, as array keys. */
  function ListKeys(n: nat): seq<Key>
  {
    seq(n, i => IntKey(i))
  }

  /** An array is associative unless it is empty or its keys are exactly the
      integers 0, 1, ..., n-1 in that order (strict comparison, so a string
      key never matches). */
  function IsAssoc(keys: seq<Key>): (r: bool)
    ensures r <==> |keys| > 0 && exists i :: 0 <= i < |keys| && keys[i] != IntKey(i)
  {
    if keys == [] then false else keys != ListKeys(|keys|)
  }

  /** An array that can be stored as a term name: every value is a string,
      and no key repeats (as in any PHP array). */
  predicate IsNameArray(entries: seq<(Key, TermArg)>)
  {
    && (forall i :: 0 <= i < |entries| ==> entries[i].1.Scalar?)
    && (forall i, j :: 0 <= i < j < |entries| ==> entries[i].0 != entries[j].0)
  }

  /** A term argument that addSingleTerm can store: a string or a name array. */
  predicate IsName(t: TermArg)
  {
    t.Scalar? || IsNameArray(t.entries)
  }

  /** The JSON object a name array is stored as. */
  function NamesOf(entries: seq<(Key, TermArg)>): (r: Names)
    requires IsNameArray(entries)
    ensures forall k :: k in r <==> exists i :: 0 <= i < |entries| && entries[i].0 == k
    ensures forall i :: 0 <= i < |entries| ==> r[entries[i].0] == entries[i].1.s
  {
    map i | 0 <= i < |entries| :: entries[i].0 := entries[i].1.s
  }

  /** An array is returned unchanged; a string is wrapped as the one-entry
      array locale => string. */
  function MakeTermMultilingual(t: TermArg, locale: string): (r: TermArg)
    ensures r.Array?
    ensures t.Array? ==> r == t
    ensures t.Scalar? ==> IsName(r) && NamesOf(r.entries) == map[StrKey(locale) := t.s]
  {
    if t.Array? then t
    else
      var r := Array([(StrKey(locale), t)]);
      assert r.entries[0].0 == StrKey(locale);
      assert forall k :: k in NamesOf(r.entries) ==> k == StrKey(locale);
      r
  }

  /** The name map addSingleTerm looks up or stores for a term argument. */
  function TermNames(t: TermArg, locale: string): Names
    requires IsName(t)
  {
    NamesOf(MakeTermMultilingual(t, locale).entries)
  }

  /** The slug generator: the slugs a new term with this name gets, given the
      terms already stored (it avoids collisions with their slugs). */
  type Slugger = (seq<Term>, Names) -> Slugs

  function NamedAs(names: Names): Term -> bool
  {
    (t: Term) => t.name == names
  }

  /** No two stored terms share a name map: createTerm only inserts a name it
      did not find. */
  predicate UniqueNames(db: Db)
  {
    forall i, j :: 0 <= i < j < |db.terms| ==> db.terms[i].name != db.terms[j].name
  }

  /** createTerm: the first term whose name equals `names`, or a new term
      with that name appended. Returns the tables and the term's id. */
  function CreateTerm(db: Db, names: Names, slugger: Slugger): (r: (Db, nat))
    ensures IsTermId(r.0, r.1) && TermAt(r.0, r.1).name == names
    ensures First(r.0.terms, NamedAs(names)) == Some(r.1)
    ensures r.0.taxonomies == db.taxonomies && r.0.taxables == db.taxables
    ensures db.terms <= r.0.terms
    ensures Valid(db) ==> Valid(r.0)
  {
    match First(db.terms, NamedAs(names))
    case Some(id) => (db, id)
    case None =>
      var t := Term(names, slugger(db.terms, names));
      FirstAppend(db.terms, t, NamedAs(names));
      var terms := db.terms + [t];
      assert forall j :: 0 <= j < |db.terms| ==> terms[j] == db.terms[j];
      (db.(terms := terms), |terms|)
  }

  /** createTerm keeps names unique: it inserts only a name no stored term
      has. */
  lemma CreateTermUnique(db: Db, names: Names, slugger: Slugger)
    ensures UniqueNames(db) ==> UniqueNames(CreateTerm(db, names, slugger).0)
  {
    if First(db.terms, NamedAs(names)).None? {
      forall j | 0 <= j < |db.terms| ensures db.terms[j].name != names {
        assert !NamedAs(names)(db.terms[j]);
      }
    }
  }

  /** A stored name is found (the first term with it, and nothing is
      written); a new name is inserted as the last term, with the slugs the
      generator gives it. */
  lemma CreateTermCases(db: Db, names: Names, slugger: Slugger)
    ensures var (db', id) := CreateTerm(db, names, slugger);
            && ((exists j :: 0 <= j < |db.terms| && db.terms[j].name == names) ==>
                  db' == db && forall j :: 0 <= j < id - 1 ==> db.terms[j].name != names)
            && ((forall j :: 0 <= j < |db.terms| ==> db.terms[j].name != names) ==>
                  db'.terms == db.terms + [Term(names, slugger(db.terms, names))] && id == |db'.terms|)
  {
    if j :| 0 <= j < |db.terms| && db.terms[j].name == names {
      assert NamedAs(names)(db.terms[j]);
    }
  }

  /** Calling createTerm again with the same name returns the same id and
      leaves the tables as the first call left them. */
  lemma CreateTermIdempotent(db: Db, names: Names, slugger: Slugger)
    ensures CreateTerm(CreateTerm(db, names, slugger).0, names, slugger) == CreateTerm(db, names, slugger)
  {
    var (db1, id1) := CreateTerm(db, names, slugger);
    assert forall j :: 0 <= j < id1 - 1 ==> db1.terms[j].name != names;
    var again := First(db1.terms, NamedAs(names));
    assert again.Some?;
    assert again.value == id1;
  }

  datatype Error = UniqueViolation

  datatype Result<+T> = Ok(value: T) | Err(error: Error)

  /** The lookup key of createTaxonomies: taxonomy name, term id and parent. */
  function SameRow(termId: nat, name: string, parent: nat): Taxonomy -> bool
  {
    (t: Taxonomy) => t.termId == termId && t.taxonomy == name && t.parent == parent
  }

  /** The unique index of the taxonomies table: term id and taxonomy name. */
  function SamePair(termId: nat, name: string): Taxonomy -> bool
  {
    (t: Taxonomy) => t.termId == termId && t.taxonomy == name
  }

  /** createTaxonomies: the first row matching (name, term id, parent), or a
      new row with those fields and the column default count 0. The insert
      fails with a unique-index violation when a row with the same term id
      and name but another parent exists. */
  function CreateTaxonomies(db: Db, termId: nat, name: string, parent: nat): (r: Result<(Db, nat)>)
    requires IsTermId(db, termId)
    ensures r.Err? <==> (forall j :: 0 <= j < |db.taxonomies| ==> !SameRow(termId, name, parent)(db.taxonomies[j]))
                        && exists j :: 0 <= j < |db.taxonomies| && SamePair(termId, name)(db.taxonomies[j])
    ensures r.Ok? ==> var (db', id) := r.value;
              && db'.terms == db.terms && db'.taxables == db.taxables
              && IsTaxonomyId(db', id)
              && SameRow(termId, name, parent)(TaxonomyAt(db', id))
              && db.taxonomies <= db'.taxonomies
    ensures r.Ok? && Valid(db) ==> Valid(r.value.0)
  {
    match First(db.taxonomies, SameRow(termId, name, parent))
    case Some(id) => Ok((db, id))
    case None =>
      if First(db.taxonomies, SamePair(termId, name)).Some? then Err(UniqueViolation)
      else
        var taxonomies := db.taxonomies + [Taxonomy(termId, name, parent, 0)];
        Ok((db.(taxonomies := taxonomies), |taxonomies|))
  }

  /** A stored (name, term, parent) row is found (the first such row, and
      nothing is written); otherwise a successful call appends the one new
      row with count 0. */
  lemma CreateTaxonomiesCases(db: Db, termId: nat, name: string, parent: nat)
    requires IsTermId(db, termId)
    ensures var r := CreateTaxonomies(db, termId, name, parent);
            && ((exists j :: 0 <= j < |db.taxonomies| && SameRow(termId, name, parent)(db.taxonomies[j])) ==>
                  r.Ok? && r.value.0 == db &&
                  forall j :: 0 <= j < r.value.1 - 1 ==> !SameRow(termId, name, parent)(db.taxonomies[j]))
            && (r.Ok? && r.value.0 != db ==>
                  r.value.0.taxonomies == db.taxonomies + [Taxonomy(termId, name, parent, 0)] &&
                  r.value.1 == |r.value.0.taxonomies|)
  {
  }

  /** A second createTaxonomies with the same arguments finds the row the
      first one returned and changes nothing. */
  lemma CreateTaxonomiesIdempotent(db: Db, termId: nat, name: string, parent: nat)
    requires IsTermId(db, termId)
    requires CreateTaxonomies(db, termId, name, parent).Ok?
    ensures var (db1, id1) := CreateTaxonomies(db, termId, name, parent).value;
            CreateTaxonomies(db1, termId, name, parent) == Ok((db1, id1))
  {
    var (db1, id1) := CreateTaxonomies(db, termId, name, parent).value;
    var p := SameRow(termId, name, parent);
    assert forall j :: 0 <= j < id1 - 1 ==> !p(db1.taxonomies[j]);
    var again := First(db1.taxonomies, p);
    assert p(db1.taxonomies[id1 - 1]);
    assert again.Some?;
    assert again.value == id1;
  }
}
