# Laravel-Taxonomies, modelled in Dafny

A model of the association core of the Laravel package Laravel-Taxonomies.
The package keeps three tables:

- `terms`: multilingual names (a locale-to-string map) and slugs;
- `taxonomies`: rows that give a term a taxonomy name (such as `genre` or
  `tag`), a parent row and a usage counter;
- `taxables`: the polymorphic pivot rows that tag a host record (an
  "entity": a model class and an id) with a taxonomy row, in some order.

The model covers:

- the write side of the `HasTaxonomies` trait: `addTerm`, `addSignleTerm`,
  `setCategory`, `removeTerm`, `removeAllTerms`;
- its read side: `getTaxonomies`, `getTerms`, `getTerm`, `hasTerm`,
  `getTermNames`, and the query scopes `withTerms`, `withTerm`, `withTax`,
  `hasCategory`, `hasCategories` as predicates on an entity;
- the helpers of `TaxableUtils`: `makeTermMultilingual`, `createTerm`
  (find-or-create by name), `createTaxonomies` (find-or-create by taxonomy
  name, term and parent), `isAssoc`;
- the parent-slug walk of `Term::getParentSlugs`, and the last step of
  `Term::getRouteParameters` that assembles the route from it.

Modules:

- `Tables` (`tables.dfy`): the rows, the database value `Db`, and the
  schema's invariants. These are: references resolve; the
  `(term_id, taxonomy)` and `(taxonomy_id, taxable_type, taxable_id)` unique
  indexes hold; each counter is at least the number of its pivot rows
  (`CountsCover`). Ids are positions: row `k` of a table has id `k + 1`, so
  id 0 (the parent "root" marker) never names a row.
- `TaxableUtils` (`taxable_utils.dfy`): the term argument (a string, or a
  PHP array of keyed entries), `isAssoc`, `makeTermMultilingual`, and the
  two find-or-create helpers as functions on `Db`.
- `HasTaxonomies` (`has_taxonomies.dfy`): the queries and scopes, as
  functions and predicates on `Db`.
- `Tagging` (`tagging.dfy`): the trait's writes, as functions from `Db` to
  the new `Db`. These are the specifications the store's methods meet, and
  the lemmas about the writes are stated on them.
- `TermRoutes` (`term_routes.dfy`): the parent chain, the slug walk and the
  route assembly.
- `Store` (`store.dfy`): the class `TaxonomyStore`. It holds the three
  tables as fields, and its methods perform the writes step by step: look up,
  insert, `attach`, `count++`, delete. Each method is proved to leave the
  tables as the matching `Tagging` or `TaxableUtils` function does. The
  methods for the trait's writes also keep `Consistent()`: the schema
  invariants, unique names and `CountsCover`.

Modelling choices:

- The current locale (`app()->getLocale()`) is a parameter (`locale`,
  `active`).
- Slug generation is a parameter: a `Slugger` gives the slug map of a new
  term.
- A JSON `name` comparison is equality of maps.
- PHP truthiness of a string is `Truthy`: neither `""` nor `"0"`.
- A plain table query without `ORDER BY` (`Term::whereIn(...)`,
  `Taxonomy::where(...)`) lists rows in id order. The `$this->taxonomies`
  relation lists the entity's taxonomies in the order of its pivot rows, that
  is, in attachment order; `getTaxonomies`, the `taxonomy`-filtered branch of
  `getTerms` and the row lookup of `removeTerm` read it in that order.
- The source's uniqueness keys disagree. `createTaxonomies` looks a row up
  by `(taxonomy, term_id, parent)`, but the schema's unique index is
  `(term_id, taxonomy)`. The model keeps both. The lookup is the code's
  three-field match. When no row matches and a row with the same term and
  taxonomy name but another parent exists, the insert violates the index.
  There `createTaxonomies` returns `Err(UniqueViolation)`, and `addTerm`
  stops with that error. Writes made before it stay, as they do without a
  transaction.
- `getRouteParameters` reverses `slugs ++ [name]`, so the route is the
  taxonomy name first, then the slugs from the root down to the row's own
  term slug.
- The scopes resolve `$locale ?: app()->getLocale()` as `ResolveLocale`;
  `scopeWithTerms` resolves it once and passes it on to each
  `scopeWithTerm`, where resolving again changes nothing.

## Model

| member | source | states |
|---|---|---|
| TaxableUtils.IsAssoc | src/TaxableUtils.php:67-73 | true iff the key list is non-empty and some key at position i is not the integer i; so the empty array is not associative |
| TaxableUtils.MakeTermMultilingual | src/TaxableUtils.php:16-25 | an array argument comes back unchanged; a string s becomes the one-entry name map {locale: s} |
| TaxableUtils.NamesOf | src/TaxableUtils.php:38-39 | the name map stored from a flat array with distinct keys holds exactly its keys, each mapped to its string value |
| TaxableUtils.CreateTerm | src/TaxableUtils.php:30-43 | returns the id of the first term whose name equals the map, with that name; only the terms table changes, and only by growing; the schema invariants are kept |
| TaxableUtils.CreateTermCases | src/TaxableUtils.php:30-43 | with a term of that name, nothing changes and the least such id is returned; without one, exactly one term with that name and the slugger's slug is appended, and its id is returned |
| TaxableUtils.CreateTermUnique | src/TaxableUtils.php:32-40 | if no name was stored twice before, none is after |
| TaxableUtils.CreateTermIdempotent | src/TaxableUtils.php:32-36 | a second call with the same name returns the same id and leaves the tables as the first call left them |
| TaxableUtils.CreateTaxonomies | src/TaxableUtils.php:51-65 | fails exactly when no row matches (taxonomy, term, parent) and a row with the same term and taxonomy exists (the unique index at database/migrations/2020_11_18_101010_create_taxonomies_table.php:68); otherwise returns a matching row's id, with only the taxonomies table grown and the invariants kept |
| TaxableUtils.CreateTaxonomiesCases | src/TaxableUtils.php:51-65 | an existing matching row: nothing changes and the first such id is returned; otherwise one row (term, taxonomy, parent, count 0) is appended, the count being the column default |
| TaxableUtils.CreateTaxonomiesIdempotent | src/TaxableUtils.php:53-56 | a second call with the same arguments returns the same id and changes nothing |
| HasTaxonomies.AttachedIds | src/Traits/HasTaxonomies.php:29-32 | an id is listed iff it names a taxonomy row and the entity has a pivot row for it |
| HasTaxonomies.GetTaxonomies | src/Traits/HasTaxonomies.php:98-101 | one value per attached taxonomy row, each the chosen column of that row |
| HasTaxonomies.GetTaxonomiesIds | src/Traits/HasTaxonomies.php:98-101 | plucking the id column gives exactly the attached ids |
| HasTaxonomies.IdsUpTo | src/Traits/HasTaxonomies.php:132 | the `whereIn` lookup lists, in increasing order, exactly the term ids that satisfy the condition |
| HasTaxonomies.GetTerms | src/Traits/HasTaxonomies.php:124-133 | strictly increasing ids, so each term at most once; an id is listed iff it names a term that the entity uses through an attached row, with that row's taxonomy name when the filter is truthy |
| HasTaxonomies.FirstNamed | src/Traits/HasTaxonomies.php:152 | the first term of the list whose name at the locale is the given string, or none iff no term of the list has it |
| HasTaxonomies.FirstNamedLeast | src/Traits/HasTaxonomies.php:152 | in an increasing id list, the one found is the least id with that name |
| HasTaxonomies.GetTerm | src/Traits/HasTaxonomies.php:142-153 | a found term is one of getTerms and has the name at the resolved locale; none is found iff no term of getTerms has it |
| HasTaxonomies.GetTermIsLeast | src/Traits/HasTaxonomies.php:142-153 | the term found is the one with the least id among the candidates with that name |
| HasTaxonomies.HasTerm | src/Traits/HasTaxonomies.php:162-167 | true iff some term of getTerms has the name, which is iff getTerm finds one |
| HasTaxonomies.GetTermNames | src/Traits/HasTaxonomies.php:109-116 | one name per term of getTerms, in that order, each the term's name at the active locale |
| HasTaxonomies.TermNamesAgreeWithHasTerm | src/Traits/HasTaxonomies.php:109-116 | a name is among getTermNames at the locale iff hasTerm holds for it |
| HasTaxonomies.ScopeTerm | src/Traits/HasTaxonomies.php:232-236 | the term the scope looks up is the term of some row with that taxonomy name and has the given name at the locale; none is found iff no such term has it |
| HasTaxonomies.ScopeWithTermsIsAll | src/Traits/HasTaxonomies.php:211-220 | withTerms keeps an entity iff withTerm, at the locale resolved once, keeps it for every listed name (the chained `whereHas` is a conjunction) |
| HasTaxonomies.ScopeHasCategoriesIsAny | src/Traits/HasTaxonomies.php:287-292 | hasCategories keeps an entity iff at least one listed taxonomy id has a pivot row of it (the `whereIn` is a disjunction over the ids); hasCategory is the one-id case; an empty list keeps nothing |
| HasTaxonomies.ScopeWithTaxIsTagged | src/Traits/HasTaxonomies.php:251-264 | under the (term, taxonomy) unique index, the corrected withTax keeps an entity iff it is attached to the row of that term with that taxonomy name |
| HasTaxonomies.PairRowLinked | database/migrations/2020_11_18_101010_create_taxonomies_table.php:68 | under the (term, taxonomy) unique index, an entity is linked to the first row with that term and taxonomy name iff it is linked to any row with them |
| HasTaxonomies.ScopeWithTaxPicksOtherTaxonomy | src/Traits/HasTaxonomies.php:259 | counterexample: the scope as written drops an entity tagged with the term under the asked taxonomy, which the corrected scope keeps |
| HasTaxonomies.RowsOf | src/Traits/HasTaxonomies.php:19-22 | `taxed()`: exactly the pivot rows of the entity |
| HasTaxonomies.JoinIds | src/Traits/HasTaxonomies.php:29-32 | the join of `taxonomies()`: an id is listed iff it names a taxonomy row and some given pivot row names it |
| HasTaxonomies.ScopeHasCategory | src/Traits/HasTaxonomies.php:273-278 | keeps an entity iff one of its `taxed` rows names the taxonomy id |
| HasTaxonomies.ScopeHasCategories | src/Traits/HasTaxonomies.php:287-292 | keeps an entity iff one of its `taxed` rows names one of the ids |
| HasTaxonomies.UsesTermIdAttached | src/Traits/HasTaxonomies.php:238-240 | the `whereHas('taxonomies', term_id)` test holds iff one of the entity's attached taxonomies belongs to the term |
| HasTaxonomies.ScopeWithTerm | src/Traits/HasTaxonomies.php:230-241 | at the given locale, or the active one when it is unset, keeps an entity iff one of its attached taxonomies belongs to the resolved term |
| HasTaxonomies.ScopeWithTerms | src/Traits/HasTaxonomies.php:211-220 | an empty list of names keeps every entity |
| HasTaxonomies.ScopeWithTaxAsWritten | src/Traits/HasTaxonomies.php:251-264 | the scope as written keeps only entities that withTerm keeps for the same name, taxonomy and locale |
| HasTaxonomies.ScopeWithTax | src/Traits/HasTaxonomies.php:251-264 | the corrected scope keeps only entities that withTerm keeps for the same name, taxonomy and locale |
| HasTaxonomies.ScopeTermRows | src/Traits/HasTaxonomies.php:257-259 | once the term is found, the row lookup by term alone and the one by term and taxonomy name both find a row of that term, so neither `$taxonomy->id` meets null |
| Tables.Truthy | src/Traits/HasTaxonomies.php:126 | PHP truthiness of a string: the empty string and `"0"` are false, and every other string (every one of two or more characters) is true |
| Tables.ResolveLocale | src/Traits/HasTaxonomies.php:144 | `$locale ?: app()->getLocale()`: a truthy locale is kept, any other gives the active locale |
| Tables.ResolveLocaleTwice | src/Traits/HasTaxonomies.php:213-216 | resolving an already resolved locale again gives it back |
| Tables.NameAt | src/Traits/HasTaxonomies.php:112 | the name at a locale is present iff the name map has that locale, and is then the stored string |
| TermRoutes.SlugOf | src/Models/Term.php:104 | `$taxonomy->term->slug`: the slug of the row's term at the active locale, or "" when it has none |
| TermRoutes.RouteParameters | src/Models/Term.php:88-92 | the route has the chain's depth plus two entries, the taxonomy name first |
| TermRoutes.CycleNeverEnds | src/Models/Term.php:106-107 | counterexample: a valid database with two rows naming each other as parent, on which the walk reaches no row without a parent row in any number of steps |
| TermRoutes.BoundedParentSlugs | src/Models/Term.php:102-111 | the walk with a step bound: it ends on every database, returns the accumulator then the row's own term slug, and adds at most bound plus one slugs |
| TermRoutes.BoundedParentSlugsAgree | src/Models/Term.php:102-111 | with a bound no smaller than the chain depth, the bounded walk equals the walk of getParentSlugs |
| Tagging.HasPairAttached | src/Traits/HasTaxonomies.php:61-63 | the guard holds iff one of the entity's attached taxonomies has that taxonomy name and term |
| Tagging.Attach | src/Traits/HasTaxonomies.php:65-70 | the tables only grow, and afterwards the entity is linked to the row |
| Tagging.AttachKeeps | src/Traits/HasTaxonomies.php:65-70 | attaching an entity to a row it is not linked to keeps the schema invariants, including the pivot unique index at database/migrations/2020_11_18_101010_create_taxonomies_table.php:80, and keeps every counter covering its pivot rows |
| Tagging.AddPair | src/Traits/HasTaxonomies.php:59-70 | find-or-create the taxonomy row, then attach unless already tagged; the tables only grow, the terms stay, and the invariants are kept |
| Tagging.AddPairLinked | src/Traits/HasTaxonomies.php:61-63 | on a valid database, when the entity is already linked to a row with that term and taxonomy name, nothing changes |
| Tagging.AddPairAttaches | src/Traits/HasTaxonomies.php:61-70 | otherwise, on success, exactly one pivot row is appended, for a row with that term, taxonomy name and parent; that row's counter rises by exactly one, at most one taxonomy row is new, and every other taxonomy row is unchanged |
| Tagging.AddPairSettles | src/Traits/HasTaxonomies.php:59-70 | after a success the entity is linked to a row matching (term, taxonomy, parent) |
| Tagging.AddPairNoop | src/Traits/HasTaxonomies.php:59-63 | when the entity is already linked to a matching row, the call is a no-op |
| Tagging.AddPairCountsCover | src/Traits/HasTaxonomies.php:65-70 | the counters still cover their pivot rows |
| Tagging.AddPairFails | src/TaxableUtils.php:53-62 | failure leaves the tables unchanged and happens exactly when no row matches (term, taxonomy, parent) and a row with that term and taxonomy name exists, so the insert breaks the unique index |
| Tagging.AddSingleTerm | src/Traits/HasTaxonomies.php:53-71 | createTerm, then the pair add; the tables only grow, and the invariants and unique names are kept |
| Tagging.AddSingleTermAlreadyTagged | src/Traits/HasTaxonomies.php:61-63 | when the entity already carries the term under that taxonomy name, the tables are unchanged |
| Tagging.AddSingleTermAttaches | src/Traits/HasTaxonomies.php:53-71 | otherwise, on success, exactly one pivot row is appended, for a row with that taxonomy name and parent whose term has the name; that row's counter rises by exactly one, at most one taxonomy row is new, and every other taxonomy row is unchanged |
| Tagging.NotTaggedNoPair | src/Traits/HasTaxonomies.php:61-63 | an entity not carrying a term still has no pair after createTerm |
| Tagging.AddSingleTermFails | src/Traits/HasTaxonomies.php:57-59 | failure happens exactly when a term with that name already exists, no row matches (term, taxonomy, parent) and a row with that term and taxonomy name does; it leaves the tables unchanged |
| Tagging.SettledNoop | src/Traits/HasTaxonomies.php:53-63 | adding an item whose term the entity already carries through a row with that taxonomy name and parent is a no-op |
| Tagging.AddSingleSettles | src/Traits/HasTaxonomies.php:53-71 | after a successful add the entity carries the item's term through a row with that taxonomy name and parent |
| Tagging.Items | src/Traits/HasTaxonomies.php:44-50 | a string or an associative array is one item; a list gives its values in order |
| Tagging.AddItems | src/Traits/HasTaxonomies.php:47-49 | the `foreach`: the tables only grow, and the invariants and unique names are kept |
| Tagging.AddTerm | src/Traits/HasTaxonomies.php:42-51 | addTerm: the tables only grow, and the invariants and unique names are kept |
| Tagging.AddItemsConcat | src/Traits/HasTaxonomies.php:47-49 | adding xs then ys is adding xs ++ ys, stopping at the first failure |
| Tagging.AddItemsStep | src/Traits/HasTaxonomies.php:47-49 | one more loop pass is one more single add |
| Tagging.AddItemsStops | src/Traits/HasTaxonomies.php:47-49 | after a failure, the remaining items change nothing |
| Tagging.AddTermIsItems | src/Traits/HasTaxonomies.php:42-51 | addTerm is the `foreach` over its items: exactly one add for a string or associative array, one per element in order for a list |
| Tagging.AddItemsSettles | src/Traits/HasTaxonomies.php:47-49 | after a success every item is settled |
| Tagging.AddItemsNoop | src/Traits/HasTaxonomies.php:47-49 | adding items that are all settled is a no-op |
| Tagging.AddTermIdempotent | src/Traits/HasTaxonomies.php:42-71 | on a valid database, a second addTerm with the same arguments after a success changes nothing |
| Tagging.AddTermTwiceOneRow | src/Traits/HasTaxonomies.php:42-71 | for a single term the entity does not carry: the first add appends one pivot row and raises its row's counter by one (to 1 for a new row), and the second add changes nothing |
| Tagging.AddSingleTermCountsCover | src/Traits/HasTaxonomies.php:53-71 | the counters still cover their pivot rows |
| Tagging.AddItemsCountsCover | src/Traits/HasTaxonomies.php:47-49 | the counters still cover their pivot rows |
| Tagging.AddTermCountsCover | src/Traits/HasTaxonomies.php:42-51 | the counters still cover their pivot rows |
| Tagging.SetCategory | src/Traits/HasTaxonomies.php:78-90 | the tables only grow and the invariants are kept; afterwards the entity is linked to `id` iff it was before or `id` names an existing row |
| Tagging.SetCategoryEffect | src/Traits/HasTaxonomies.php:80-89 | no change when the id names no row or the entity is already linked; otherwise exactly the attach of that row |
| Tagging.SetCategoryIdempotent | src/Traits/HasTaxonomies.php:80-82 | a second setCategory with the same id changes nothing |
| Tagging.SetCategoryCountsCover | src/Traits/HasTaxonomies.php:82-88 | the counters still cover their pivot rows |
| Tagging.ResolvedTaxonomy | src/Traits/HasTaxonomies.php:184-188 | a row it resolves is attached to the entity, holds the term and passes the taxonomy filter; there is none iff the entity does not use the term under that filter |
| Tagging.Unlink | src/Traits/HasTaxonomies.php:190 | only the pivot table changes and only shrinks: a row stays iff it was there and is not one of this entity's rows for the taxonomy id, so other entities and other ids keep theirs; afterwards the entity is not linked to the row |
| Tagging.Detach | src/Traits/HasTaxonomies.php:184-190 | terms and taxonomy rows, and so every counter, are unchanged; the number of deleted pivot rows is returned |
| Tagging.RemoveTerm | src/Traits/HasTaxonomies.php:176-191 | terms and taxonomy rows, and so every counter, are unchanged; the result is none iff getTerm finds nothing, and then nothing changes; otherwise it is the number of pivot rows deleted |
| Tagging.RemoveTermEffect | src/Traits/HasTaxonomies.php:176-191 | a pivot row stays iff it is not this entity's row for the resolved taxonomy row; other entities keep all their rows and the entity is no longer linked to that row |
| Tagging.UnlinkUntags | src/Traits/HasTaxonomies.php:190 | under the (term, taxonomy) unique index, after the delete of the row with that term and a truthy taxonomy name, getTerms for that name no longer lists the term |
| Tagging.UnlinkDeletesOne | src/Traits/HasTaxonomies.php:190 | under the pivot unique index exactly one row goes when the entity was linked |
| Tagging.RemoveTermUntags | src/Traits/HasTaxonomies.php:176-191 | on a valid database, with a truthy taxonomy name, getTerms for that name no longer lists the removed term |
| Tagging.RemoveTermDeletesOne | src/Traits/HasTaxonomies.php:176-191 | on a valid database, removing a found term deletes exactly one pivot row |
| Tagging.RemoveAllTerms | src/Traits/HasTaxonomies.php:198-201 | terms and taxonomy rows unchanged; the entity's pivot rows deleted, their number returned |
| Tagging.RemoveAllTermsEffect | src/Traits/HasTaxonomies.php:198-201 | the entity has no pivot row left, every other entity keeps exactly its rows, and the number returned is how many rows the entity had |
| Tagging.DeleteKeeps | src/Traits/HasTaxonomies.php:190 | deleting pivot rows keeps the invariants and the counter cover |
| Tagging.RemoveKeeps | src/Traits/HasTaxonomies.php:176-201 | removeTerm and removeAllTerms keep the schema invariants and the counter cover |
| TermRoutes.ParentOf | src/Models/Term.php:106 | Some of the row's `parent` column exactly when that id names a row, otherwise none; parent 0 never does |
| TermRoutes.Steps | src/Models/Term.php:106-108 | the number of parent steps is at most any bound within which the walk ends |
| TermRoutes.StepsAgree | src/Models/Term.php:106-108 | that number does not depend on the bound |
| TermRoutes.DepthStep | src/Models/Term.php:106-110 | a row with no parent row ends the walk; the parent is one step closer to the end |
| TermRoutes.Chain | src/Models/Term.php:102-111 | the rows the walk visits, leaf first: depth plus one of them, all existing, starting at the given row |
| TermRoutes.ChainLinks | src/Models/Term.php:106-110 | each row of the chain is followed by its parent row, and the last one has no parent row |
| TermRoutes.ParentSlugs | src/Models/Term.php:102-111 | the walk appends one slug per visited row to the accumulator |
| TermRoutes.ParentSlugsAcc | src/Models/Term.php:104-107 | from accumulator p the walk gives p followed by the walk from the empty accumulator |
| TermRoutes.ParentSlugsAreChain | src/Models/Term.php:102-111 | from the empty accumulator, slug i is the term slug of chain row i, leaf to root; the first is the row's own term slug |
| TermRoutes.Reverse | src/Models/Term.php:92 | `array_reverse`: same length, element i is element n-1-i |
| TermRoutes.ReverseSnoc | src/Models/Term.php:90-92 | reversing s ++ [x] gives x, then s from its last element |
| TermRoutes.RouteParametersShape | src/Models/Term.php:88-92 | the route is the taxonomy name followed by the walk's slugs, last first |
| TermRoutes.RouteParametersOrder | src/Models/Term.php:88-92 | the route has one entry more than the chain: the taxonomy name first, then the chain's term slugs from the root down, ending with the row's own term slug |
| Store.TaxonomyStore.constructor | database/migrations/2020_11_18_101010_create_taxonomies_table.php:38-82 | the three tables start empty and consistent |
| Store.TaxonomyStore.CreateTerm | src/TaxableUtils.php:30-43 | the lookup-then-insert leaves the tables and id as TaxableUtils.CreateTerm gives |
| Store.TaxonomyStore.CreateTaxonomies | src/TaxableUtils.php:51-65 | fails iff TaxableUtils.CreateTaxonomies fails, then with the same error and no change; otherwise leaves its tables and id |
| Store.TaxonomyStore.Attach | src/Traits/HasTaxonomies.php:65-70 | the pivot append and `count++` leave the tables as Tagging.Attach gives |
| Store.TaxonomyStore.AddPair | src/Traits/HasTaxonomies.php:59-70 | the tables as Tagging.AddPair gives; an error is returned iff it fails, and it is the same error |
| Store.TaxonomyStore.AddSingleTerm | src/Traits/HasTaxonomies.php:53-71 | the tables and error as Tagging.AddSingleTerm gives; consistency is kept |
| Store.TaxonomyStore.AddItems | src/Traits/HasTaxonomies.php:47-49 | the loop leaves the tables and error as Tagging.AddItems gives, stopping at the first error |
| Store.TaxonomyStore.AddTerm | src/Traits/HasTaxonomies.php:42-51 | the tables and error as Tagging.AddTerm gives; consistency is kept |
| Store.TaxonomyStore.SetCategory | src/Traits/HasTaxonomies.php:78-90 | the tables as Tagging.SetCategory gives; consistency is kept |
| Store.TaxonomyStore.Unlink | src/Traits/HasTaxonomies.php:190 | the tables as Tagging.Unlink gives; returns how many rows went |
| Store.TaxonomyStore.RemoveTerm | src/Traits/HasTaxonomies.php:176-191 | the tables and result as Tagging.RemoveTerm gives; consistency is kept |
| Store.TaxonomyStore.RemoveAllTerms | src/Traits/HasTaxonomies.php:198-201 | the tables and result as Tagging.RemoveAllTerms gives; consistency is kept |

## Left out

- The service provider (src/TaxonomiesServiceProvider.php): framework boot and publishing of config and migrations.
- The migration's DDL is not modelled as code. Its references, unique indexes and defaults (parent 0, count 0) are the invariants and defaults of `Tables`.
- The `count` column is an unsigned 16-bit integer; the model's counter is an unbounded `nat`, so overflow at 65535 is not modelled.
- Soft deletes, timestamps, `description` and the configurable table names: ORM behaviour with no effect on the logic modelled.
- Slug generation (Spatie Sluggable) and the translation accessors: the slug of a new term comes from a `Slugger` parameter. A slug at a missing locale reads as `""` (`SlugAt`). A name at a missing locale reads as `None` (`NameAt`), which `getTermNames` lists as a null.
- `app()->getLocale()` is a parameter of the members that read it.
- Eloquent's caching of the loaded `$this->taxonomies` relation: every query reads the current tables.
- Nested arrays inside a name array: `IsName` and `AllNames` require flat string values, since a nested array is stored as nested JSON that the name map does not represent.
- The collation of the JSON `name` comparison: names are compared as maps, exactly.
- The collation of the `taxonomy` string comparisons (src/TaxableUtils.php:53, src/Traits/HasTaxonomies.php:61, 127, 185, 234, 255, and the unique index at database/migrations/2020_11_18_101010_create_taxonomies_table.php:68): taxonomy names are compared exactly, as under a binary collation. Under a case-insensitive collation `genre` and `Genre` would be the same row; in the model they are two. The filters at src/Traits/HasTaxonomies.php:127, 147 and 185 are Collection `where` calls on loaded models, which compare with PHP's loose `==` (so `"1"` equals `"01"`); the model compares those names exactly too.
- The pivot `order` column is an unsigned 16-bit integer (database/migrations/2020_11_18_101010_create_taxonomies_table.php:78); the model's `order` is an unbounded `nat` and is stored as given.
- HasTaxonomies.GetTermNames: `$terms->pluck('name->'.$locale)` (src/Traits/HasTaxonomies.php:112) is a collection pluck, not a JSON path query; the model gives the intended projection, each term's name at the locale, and not what the framework's dot-notation lookup makes of the `->` key.
- TaxableUtils.IsAssoc: keys are assumed canonical, as PHP stores them. A string key holding a decimal integer (`"0"`) is an integer key in PHP, and `IsAssoc` treats `StrKey("0")` as a string key.
- The null branch of `getTermNames`: `getTerms` always returns a collection, which PHP treats as true, so the branch cannot be taken.
- The taxonomy lookup at the top of `getRouteParameters` (src/Models/Term.php:83-86) and the `Taxonomy` model's query scopes (src/Models/Taxonomy.php): `scopeTerm` passes a malformed `where`. `TermRoutes.RouteParameters` starts from a resolved taxonomy row.
- A cycle of parent links: the source recursion does not end on one (see Findings), so `TermRoutes.ParentSlugs` and `TermRoutes.RouteParameters` require `ChainEnds`, a walk that reaches a row without a parent row. The bounded walk `TermRoutes.BoundedParentSlugs` agrees with it on such chains.
- HasTaxonomies.ScopeWithTerm, HasTaxonomies.ScopeWithTax, HasTaxonomies.ScopeWithTaxAsWritten and HasTaxonomies.ScopeWithTerms require every named term to exist, because the source dereferences a null term there (src/Traits/HasTaxonomies.php:239, 259).
- Tagging.RemoveTerm relies on the found term being attached through some row. This holds because getTerm only finds terms of attached rows, so the source's `$taxonomy->id` on line 190 never meets null.
- Concurrency and transactions: the model is single-threaded, and a failed `addTerm` keeps the writes made before the failure.
- The Store methods' contracts use `old` and `modifies`. Their properties are proved on the `Tagging` and `TaxableUtils` functions they are tied to.

## Findings

| source | as written | input that shows it | evidently intended | confidence | as-written member | corrected member |
|---|---|---|---|---|---|---|
| src/Traits/HasTaxonomies.php:259 | `scopeWithTax` picks the first taxonomy row with the term's id, whatever its taxonomy name, and keeps entities linked to that row | term Drama (id 1) with rows genre (id 1) and tag (id 2); post 7 linked to row 2 only; scope withTax(Drama, tag) | the row of the term with the asked taxonomy name, so post 7 is kept | not executed | HasTaxonomies.ScopeWithTaxAsWritten (counterexample HasTaxonomies.ScopeWithTaxPicksOtherTaxonomy) | HasTaxonomies.ScopeWithTax (HasTaxonomies.ScopeWithTaxIsTagged) |
| src/Models/Term.php:106-107 | `getParentSlugs` recurses into the parent row with no visited set or depth bound | two terms with rows 1 (parent 2) and 2 (parent 1), a valid database since `parent` references nothing; the walk from row 1 | the walk ends on every database, and agrees with the unbounded walk on chains that end | not executed | TermRoutes.ParentSlugs (counterexample TermRoutes.CycleNeverEnds) | TermRoutes.BoundedParentSlugs (TermRoutes.BoundedParentSlugsAgree) |
