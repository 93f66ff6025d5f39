/** The three tables of the taxonomy package (terms, taxonomies, taxables) as
    values, with the integrity facts the database schema and the package's own
    writes maintain. Row ids are auto-increment: the row at index i of a table
    has id i + 1, so id 0 (the "no parent" value) never names a row. */
module Tables {

  datatype Option<+T> = None | Some(value: T)

  /** A PHP array key: an integer or a string. */
  datatype Key = IntKey(n: int) | StrKey(s: string)

  /** A term's multilingual name, stored as a JSON object (locale -> text). */
  type Names = map<Key, string>

  /** A term's slugs, one per locale (produced by the slug generator). */
  type Slugs = map<string, string>

  datatype Term = Term(name: Names, slug: Slugs)

  /** A row of the taxonomies table; `parent` is 0 for a root. */
  datatype Taxonomy = Taxonomy(termId: nat, taxonomy: string, parent: nat, count: nat)

  /** The polymorphic reference to a tagged record: its type tag and id. */
  datatype Entity = Entity(kind: string, id: int)

  /** A row of the taxables (pivot) table. */
  datatype Taxable = Taxable(taxonomyId: nat, entity: Entity, order: nat)

  datatype Db = Db(terms: seq<Term>, taxonomies: seq<Taxonomy>, taxables: seq<Taxable>)

  predicate IsTermId(db: Db, id: nat) { 1 <= id <= |db.terms| }

  function TermAt(db: Db, id: nat): Term
    requires IsTermId(db, id)
  {
    db.terms[id - 1]
  }

  predicate IsTaxonomyId(db: Db, id: nat) { 1 <= id <= |db.taxonomies| }

  function TaxonomyAt(db: Db, id: nat): Taxonomy
    requires IsTaxonomyId(db, id)
  {
    db.taxonomies[id - 1]
  }

  /** PHP truthiness of a string: both "" (or null) and "0" are false. */
  predicate Truthy(s: string): (r: bool)
    ensures r ==> |s| > 0
    ensures s == "0" ==> !r
    ensures |s| > 1 ==> r
  {
    s != "" && s != "0"
  }

  /** `$locale ?: app()->getLocale()`: an unset locale falls back to the active
      one. */
  function ResolveLocale(locale: string, active: string): (r: string)
    ensures Truthy(locale) ==> r == locale
    ensures !Truthy(locale) ==> r == active
  {
    if Truthy(locale) then locale else active
  }

  /** A locale passed on already resolved resolves to itself. */
  lemma ResolveLocaleTwice(locale: string, active: string)
    ensures ResolveLocale(ResolveLocale(locale, active), active) == ResolveLocale(locale, active)
  {
  }

  /** The JSON path `name->locale`: the name at that locale, if the term has one. */
  function NameAt(t: Term, locale: string): (r: Option<string>)
    ensures r.Some? <==> StrKey(locale) in t.name
    ensures r.Some? ==> r.value == t.name[StrKey(locale)]
  {
    if StrKey(locale) in t.name then Some(t.name[StrKey(locale)]) else None
  }

  /** The translated slug accessor: the slug at the locale, or "" without one. */
  function SlugAt(t: Term, locale: string): string
  {
    if locale in t.slug then t.slug[locale] else ""
  }

  /** Every taxonomy row names an existing term. */
  predicate TermsExist(db: Db)
  {
    forall i :: 0 <= i < |db.taxonomies| ==> IsTermId(db, db.taxonomies[i].termId)
  }

  /** The unique index (term_id, taxonomy) of the taxonomies table. */
  predicate UniquePairs(taxonomies: seq<Taxonomy>)
  {
    forall i, j :: 0 <= i < j < |taxonomies| ==>
      !(taxonomies[i].termId == taxonomies[j].termId && taxonomies[i].taxonomy == taxonomies[j].taxonomy)
  }

  /** Two rows with the same term and taxonomy name are the same row. */
  lemma PairUnique(taxonomies: seq<Taxonomy>, i: nat, j: nat)
    requires UniquePairs(taxonomies) && 1 <= i <= |taxonomies| && 1 <= j <= |taxonomies|
    requires taxonomies[i - 1].termId == taxonomies[j - 1].termId
    requires taxonomies[i - 1].taxonomy == taxonomies[j - 1].taxonomy
    ensures i == j
  { }

  /** Every taxable row names an existing taxonomy. */
  predicate TaxonomiesExist(db: Db)
  {
    forall i :: 0 <= i < |db.taxables| ==> IsTaxonomyId(db, db.taxables[i].taxonomyId)
  }

  /** The unique index (taxonomy_id, taxable_type, taxable_id) of the taxables table. */
  predicate UniqueLinks(rows: seq<Taxable>)
  {
    forall i, j :: 0 <= i < j < |rows| ==>
      !(rows[i].taxonomyId == rows[j].taxonomyId && rows[i].entity == rows[j].entity)
  }

  /** Referential integrity (kept by the package's own writes, which only
      name rows they found or created, and never delete terms or taxonomies)
      and the two unique indexes of the schema. */
  predicate Valid(db: Db)
  {
    TermsExist(db) && UniquePairs(db.taxonomies) && TaxonomiesExist(db) && UniqueLinks(db.taxables)
  }

  /** The 1-based position of the first element satisfying p (a `->first()` query). */
  function First<T>(s: seq<T>, p: T -> bool): (r: Option<nat>)
    ensures r.Some? ==> 1 <= r.value <= |s| && p(s[r.value - 1])
    ensures r.Some? ==> forall j :: 0 <= j < r.value - 1 ==> !p(s[j])
    ensures r.None? <==> forall j :: 0 <= j < |s| ==> !p(s[j])
  {
    if |s| == 0 then None
    else match First(s[..|s| - 1], p)
      case Some(k) => Some(k)
      case None => if p(s[|s| - 1]) then Some(|s|) else None
  }

  /** Appending a match to a table without one makes the new row the first
      match. */
  lemma FirstAppend<T>(s: seq<T>, x: T, p: T -> bool)
    requires First(s, p).None? && p(x)
    ensures First(s + [x], p) == Some(|s| + 1)
  {
    assert (s + [x])[..|s|] == s;
  }

  /** A first-match query gives the same row on a table that kept the rows
      it had (as far as p can tell) and possibly gained more at the end. */
  lemma FirstStable<T>(s: seq<T>, s': seq<T>, p: T -> bool)
    requires |s| <= |s'|
    requires forall i :: 0 <= i < |s| ==> p(s[i]) == p(s'[i])
    requires First(s, p).Some?
    ensures First(s', p) == First(s, p)
  {
    var k := First(s, p).value;
    assert p(s'[k - 1]);
  }

  /** The elements satisfying p, in their order (a `->where(...)` on a table). */
  function Filter<T(!new)>(s: seq<T>, p: T -> bool): (r: seq<T>)
    ensures |r| <= |s|
    ensures forall x :: x in r <==> x in s && p(x)
  {
    if |s| == 0 then []
    else Filter(s[..|s| - 1], p) + (if p(s[|s| - 1]) then [s[|s| - 1]] else [])
  }

  /** Filtering by a weaker condition first does not change a filter by a
      stronger one: rows that a delete keeps are seen exactly as before. */
  lemma {:induction false} FilterNarrow<T(!new)>(s: seq<T>, p: T -> bool, q: T -> bool)
    requires forall x :: q(x) ==> p(x)
    ensures Filter(Filter(s, p), q) == Filter(s, q)
  {
    if |s| > 0 {
      var init, last := s[..|s| - 1], s[|s| - 1];
      FilterNarrow(init, p, q);
      assert Filter(s, p) == Filter(init, p) + (if p(last) then [last] else []);
      if p(last) {
        assert Filter(s, p)[..|Filter(s, p)| - 1] == Filter(init, p);
      } else {
        assert Filter(s, p) == Filter(init, p);
      }
    }
  }

  /** Filtering twice by conditions that exclude each other leaves nothing. */
  lemma {:induction false} FilterDisjoint<T(!new)>(s: seq<T>, p: T -> bool, q: T -> bool)
    requires forall x :: q(x) ==> !p(x)
    ensures Filter(Filter(s, p), q) == []
  {
    if |s| > 0 {
      var init, last := s[..|s| - 1], s[|s| - 1];
      FilterDisjoint(init, p, q);
      if p(last) {
        assert Filter(s, p)[..|Filter(s, p)| - 1] == Filter(init, p);
      } else {
        assert Filter(s, p) == Filter(init, p);
      }
    }
  }

  /** A filter and its complement split the sequence: a delete removes as
      many rows as match its condition. */
  lemma {:induction false} FilterSplit<T(!new)>(s: seq<T>, p: T -> bool, q: T -> bool)
    requires forall x :: q(x) <==> !p(x)
    ensures |Filter(s, p)| + |Filter(s, q)| == |s|
  {
    if |s| > 0 {
      FilterSplit(s[..|s| - 1], p, q);
    }
  }

  /** A delete keeps the taxables unique index. */
  lemma {:induction false} FilterUniqueLinks(rows: seq<Taxable>, p: Taxable -> bool)
    requires UniqueLinks(rows)
    ensures UniqueLinks(Filter(rows, p))
  {
    if |rows| > 0 {
      var init, last := rows[..|rows| - 1], rows[|rows| - 1];
      assert UniqueLinks(init);
      FilterUniqueLinks(init, p);
      if p(last) {
        var f := Filter(init, p);
        assert Filter(rows, p) == f + [last];
        forall i | 0 <= i < |f|
          ensures !(f[i].taxonomyId == last.taxonomyId && f[i].entity == last.entity)
        {
          assert f[i] in init;
        }
      } else {
        assert Filter(rows, p) == Filter(init, p);
      }
    }
  }

  /** A non-empty sequence is its prefix followed by its last element. */
  lemma LastSplit<T>(s: seq<T>)
    requires |s| > 0
    ensures s == s[..|s| - 1] + [s[|s| - 1]]
  {
  }

  /** The prefix of length i + 1 extends the prefix of length i by s[i]. */
  lemma PrefixStep<T>(s: seq<T>, i: nat)
    requires i < |s|
    ensures s[..i + 1][..i] == s[..i] && s[..i + 1][i] == s[i]
  {
  }

  /** A sequence is its prefix of length i followed by the rest. */
  lemma SplitAt<T>(s: seq<T>, i: nat)
    requires i <= |s|
    ensures s[..i] + s[i..] == s
  {
  }

  /** p holds of every element, checked one element at a time from the
      front (a chain of `where` constraints on one query). */
  predicate AllOf<T>(s: seq<T>, p: T -> bool)
  {
    |s| == 0 || (AllOf(s[..|s| - 1], p) && p(s[|s| - 1]))
  }

  lemma {:induction false} AllOfIsForall<T>(s: seq<T>, p: T -> bool)
    ensures AllOf(s, p) <==> forall i :: 0 <= i < |s| ==> p(s[i])
  {
    if |s| > 0 {
      var init := s[..|s| - 1];
      AllOfIsForall(init, p);
      assert forall i :: 0 <= i < |init| ==> init[i] == s[i];
    }
  }

  /** Number of taxable rows naming taxonomy t. */
  function RowCount(rows: seq<Taxable>, t: nat): nat
  {
    if |rows| == 0 then 0
    else RowCount(rows[..|rows| - 1], t) + (if rows[|rows| - 1].taxonomyId == t then 1 else 0)
  }

  lemma {:induction false} RowCountAppend(rows: seq<Taxable>, row: Taxable, t: nat)
    ensures RowCount(rows + [row], t) == RowCount(rows, t) + (if row.taxonomyId == t then 1 else 0)
  {
    assert (rows + [row])[..|rows|] == rows;
  }

  lemma {:induction false} RowCountAbsent(rows: seq<Taxable>, t: nat)
    requires forall i :: 0 <= i < |rows| ==> rows[i].taxonomyId != t
    ensures RowCount(rows, t) == 0
  {
    if |rows| > 0 {
      RowCountAbsent(rows[..|rows| - 1], t);
    }
  }

  /** A delete never adds rows for any taxonomy. */
  lemma {:induction false} RowCountFilter(rows: seq<Taxable>, p: Taxable -> bool, t: nat)
    ensures RowCount(Filter(rows, p), t) <= RowCount(rows, t)
  {
    if |rows| > 0 {
      var init, last := rows[..|rows| - 1], rows[|rows| - 1];
      RowCountFilter(init, p, t);
      assert rows == init + [last];
      RowCountAppend(init, last, t);
      if p(last) {
        assert Filter(rows, p) == Filter(init, p) + [last];
        RowCountAppend(Filter(init, p), last, t);
      } else {
        assert Filter(rows, p) == Filter(init, p);
      }
    }
  }

  /** The usage counter never falls below the number of rows that use the
      taxonomy: it rises with every link and is never lowered on unlink. */
  ghost predicate CountsCover(db: Db)
  {
    forall i :: 0 <= i < |db.taxonomies| ==> RowCount(db.taxables, i + 1) <= db.taxonomies[i].count
  }

  /** db2 keeps every row of db1 and possibly has more rows at the end; a
      taxonomy row may only have had its counter raised. */
  ghost predicate Grows(db1: Db, db2: Db)
  {
    && db1.terms <= db2.terms
    && db1.taxables <= db2.taxables
    && |db1.taxonomies| <= |db2.taxonomies|
    && (forall i :: 0 <= i < |db1.taxonomies| ==>
          db2.taxonomies[i] == db1.taxonomies[i].(count := db2.taxonomies[i].count) &&
          db1.taxonomies[i].count <= db2.taxonomies[i].count)
  }

  lemma GrowsTransitive(db1: Db, db2: Db, db3: Db)
    requires Grows(db1, db2) && Grows(db2, db3)
    ensures Grows(db1, db3)
  {
  }
}
