# Faceted shirt search, modelled in Dafny

This project models the in-memory faceted indexer of the ConstructionLine coding challenge and the shirt search engine built on top of it.

**Indexer.** The `Indexer` keeps two things:
- a document store, keyed by document id and written once per id;
- an inverted index that maps each field name to each field value, and that value to the list of ids of the documents holding it.

**Search.** `Search` answers a set of constraints, each a field name with a list of accepted values:
- It first takes, per constrained field, the duplicate-free union of the posting lists of the values.
- It then combines the fields in constraint order. A field with no values is skipped. Otherwise the running result is intersected with the field's union; when the running result is empty, it is first replaced by that union.
- For every indexed field and every value ever seen in it, it counts how many result ids hold that value.

**SearchEngine.** `SearchEngine` adapts shirts to this index:
- A shirt becomes a document with the fields `Color` and `Size`; each value is the id of the colour or size as a string, or null.
- A shirt query becomes the constraints `Color` then `Size`.
- The facets of those two fields become one count for every known colour and every known size, with 0 for an id that no facet names.

## How the model is built

**Modules.** One module per source concern:
- `IndexTypes`: the plain data classes.
- `SearchOptionsModel`: `IndexSearchOptions`.
- `Indexing`: `Indexer`.
- `Engine`: `SearchEngine`.
- Specification modules beside them:
  - `Sequences`: LINQ's `Distinct` and `Intersect`, keeping the first occurrence of each element.
  - `IndexModel`: the index invariant, and what indexing one document does to the inverted index.
  - `SearchModel`: the per-field union, the cross-field combination, and what a facet list must satisfy.

**The classes keep the source's mutable form.**
- `Indexer` holds `documents` and `invertedIndexes` as fields, updated by `Index` under `modifies`.
- `Index` and the facet computation loop over map keys with a shrinking set of keys not yet visited (`:|`).
- `IndexSearchOptions` holds its constraints as a sequence in insertion order. `SearchBy` appends to it.
- `SearchEngine` is a class with an indexer it fills in its constructor.

**Each loop is proved against a function.**
- After `Index`, the inverted index is `AddDocument(old index, document)`.
- The search result ids are `Combine(index, constraints, [])`.
- The facets satisfy `FacetsFor`.

The properties are then lemmas about those functions.

**Where the model follows the code rather than the intended behaviour.**
- **The combination is not a plain AND.** Whenever the running result is empty at a field that has values, that field's union replaces the running result, and every earlier field is forgotten (`SearchModel.EmptyStepRestarts`). So a leading field that matches nothing is ignored when a later field matches (`SearchModel.IgnoresLeadingMiss`, `Engine.UnmatchedColorsAreIgnored`). The same happens later in a query: when fields A and B share no document, a third field C restarts from its own union, so documents holding C are found even though A and B rule each other out. This departs from the intended fail-closed AND, and no test exercises it. With exactly two fields that have values and a first union that is not empty, the result is the intersection, possibly empty (`SearchModel.CombinePair`, `Engine.DisjointQueryFindsNothing`, the "Red with Large" case of the tests). The result is exactly the conjunction when the first field has values and the running result is non-empty before every later field with values (`SearchModel.NoRestartIsConjunction`), and when a document satisfying every constraint exists (`SearchModel.CombineIsConjunction`). The model follows the code.
- **An empty shirt list.** The constructor accepts it; no statement in it throws. A test expects `ArgumentException` here, and the model follows the code. Searching such an engine fails with `MissingFacetField("Color")`. This is the `KeyNotFoundException` of the facet lookup: with no documents, the inverted index has no fields.

**Types and files not in the model.**
- The shirt types are abstracted. Shirt.cs, Color.cs, Size.cs, SearchOptions.cs and SearchResults.cs are not part of this model. Their shape is taken from how SearchEngine.cs and its tests use them:
  - a shirt is an id with an optional colour id and an optional size id;
  - `Color.All` and `Size.All` are given sequences of ids;
  - a query holds two lists, either of which may be null.
- A Guid is a datatype `Guid(bits: nat)`. Colour and size ids are natural numbers, turned into strings by a decimal rendering that is proved injective (`Engine.IdToStringInjective`).

## Model

Paths are relative to the repository root. `Indexer.cs` and `IndexSearchOptions.cs` are under `ConstructionLine.CodingChallenge/Indexing/`; `SearchEngine.cs` is under `ConstructionLine.CodingChallenge/`.

| member | source | states |
|---|---|---|
| Sequences.Distinct | ConstructionLine.CodingChallenge/Indexing/Indexer.cs:136 | the result has no duplicates, holds exactly the elements of the input, and is no longer than it |
| Sequences.Filter | ConstructionLine.CodingChallenge/Indexing/Indexer.cs:91 | keeps exactly the elements of `a` that are in `b`; no duplicates when `a` has none; no longer than `a` |
| Sequences.Intersect | ConstructionLine.CodingChallenge/Indexing/Indexer.cs:91 | the result has no duplicates, holds exactly the common elements, and is no longer than the first list |
| Sequences.DistinctOfNoDups | ConstructionLine.CodingChallenge/Indexing/Indexer.cs:136 | `Distinct` leaves a duplicate-free list unchanged |
| Sequences.FilterSelf | ConstructionLine.CodingChallenge/Indexing/Indexer.cs:91 | filtering a list by a list containing all its elements leaves it unchanged |
| Sequences.IntersectSelf | ConstructionLine.CodingChallenge/Indexing/Indexer.cs:89-91 | intersecting a duplicate-free list with itself gives that list |
| Sequences.NoDupsCard | ConstructionLine.CodingChallenge/Indexing/Indexer.cs:111 | a duplicate-free list has as many elements as its set |
| Sequences.IntersectCard | ConstructionLine.CodingChallenge/Indexing/Indexer.cs:111 | the length of `Intersect(a, b)` is the size of the intersection of their sets, so it is what `Count()` reports |
| SearchOptionsModel.Lookup | ConstructionLine.CodingChallenge/Indexing/IndexSearchOptions.cs:7 | a field is absent exactly when no constraint names it; a found list belongs to a constraint naming the field |
| SearchOptionsModel.LookupAt | ConstructionLine.CodingChallenge/Indexing/IndexSearchOptions.cs:7 | with distinct field names, looking up the field of any constraint gives that constraint's values |
| SearchOptionsModel.LookupAfterAppend | ConstructionLine.CodingChallenge/Indexing/IndexSearchOptions.cs:14-17 | appending a new field makes it map to its values and leaves every other field's lookup unchanged |
| SearchOptionsModel.IndexSearchOptions.constructor | ConstructionLine.CodingChallenge/Indexing/IndexSearchOptions.cs:9-12 | a new options object holds no constraints |
| SearchOptionsModel.IndexSearchOptions.SearchBy | ConstructionLine.CodingChallenge/Indexing/IndexSearchOptions.cs:14-17 | fails with `DuplicateField`, changing nothing, exactly when the field is present; otherwise appends the constraint after the existing ones, so the field maps to the given list (empty lists included) and other fields keep theirs |
| IndexModel.AddPostings | ConstructionLine.CodingChallenge/Indexing/Indexer.cs:31-45 | the index after some fields of a document are added has exactly the old fields plus those fields as keys, and every other field keeps its value dictionary |
| IndexModel.AddDocument | ConstructionLine.CodingChallenge/Indexing/Indexer.cs:31-45 | the index after a whole document is added has exactly the old fields plus the document's field names as keys, null-valued fields included |
| IndexModel.AddField | ConstructionLine.CodingChallenge/Indexing/Indexer.cs:33-44 | one field: it becomes a key and other fields are unchanged; a null value leaves its value dictionary as it was; a non-null value becomes a key whose posting list is the old one (or none) with the id appended, every other value unchanged |
| IndexModel.AddPostingsStep | ConstructionLine.CodingChallenge/Indexing/Indexer.cs:31-45 | indexing the fields one more key at a time is one turn of the field loop |
| IndexModel.AddDocumentPosting | ConstructionLine.CodingChallenge/Indexing/Indexer.cs:31-45 | after adding a document every field name of it is indexed; each non-null value's posting list gains its id at the end; nothing else changes |
| IndexModel.IndexPreservesInvariant | ConstructionLine.CodingChallenge/Indexing/Indexer.cs:22-69 | adding a document under a new id keeps the index invariant: documents keyed by id, every field name indexed (null values included), postings sound, complete, non-empty and duplicate-free |
| IndexModel.AddKeepsFieldsIndexed | ConstructionLine.CodingChallenge/Indexing/Indexer.cs:31-45 | after adding, the indexed field names are exactly the field names of the stored documents |
| IndexModel.AddKeepsValuesIndexed | ConstructionLine.CodingChallenge/Indexing/Indexer.cs:37-44 | after adding, every non-null value of every stored document lists that document's id |
| IndexModel.AddKeepsPostingsWellFormed | ConstructionLine.CodingChallenge/Indexing/Indexer.cs:40-57 | after adding a new id, posting lists stay non-empty and duplicate-free |
| IndexModel.AddKeepsPostingsSound | ConstructionLine.CodingChallenge/Indexing/Indexer.cs:40-43 | after adding, every posting-list id is a stored document holding that value |
| IndexModel.PostingMembers | ConstructionLine.CodingChallenge/Indexing/Indexer.cs:138-146 | under the invariant, an id is in the posting list of (field, value) exactly when its stored document has that non-null value |
| Indexing.Indexer.constructor | ConstructionLine.CodingChallenge/Indexing/Indexer.cs:16-20 | a new indexer stores no documents and no inverted indexes, and satisfies the invariant |
| Indexing.Indexer.Index | ConstructionLine.CodingChallenge/Indexing/Indexer.cs:22-46 | fails with `AlreadyExists`, changing nothing, exactly when the id is stored; otherwise stores the document, indexes every field, keeps the invariant, makes `GetDocument` return the new document and leaves every earlier document retrievable unchanged |
| Indexing.Indexer.IndexField | ConstructionLine.CodingChallenge/Indexing/Indexer.cs:33-44 | one turn of the field loop: the field gets an index; a non-null value's list gains the id |
| Indexing.Indexer.GetOrCreateDocumentIdListForInvertedIndex | ConstructionLine.CodingChallenge/Indexing/Indexer.cs:48-57 | returns the existing list and map for a present value; otherwise adds an empty list for the value and returns it |
| Indexing.Indexer.GetOrCreateInvertedIndex | ConstructionLine.CodingChallenge/Indexing/Indexer.cs:59-69 | returns the field's index, first adding an empty one when the field is absent; nothing else changes |
| Indexing.Indexer.GetDocumentIdsForFieldAndValue | ConstructionLine.CodingChallenge/Indexing/Indexer.cs:138-146 | null exactly when the field or the value is unknown; otherwise the posting list of that value |
| Indexing.Indexer.GetDocumentIdsForFieldAndValues | ConstructionLine.CodingChallenge/Indexing/Indexer.cs:124-137 | the duplicate-free union of the requested values' posting lists; an id is in it exactly when its stored document has one of the values; unknown fields and values contribute nothing |
| Indexing.Indexer.SearchDocumentIds | ConstructionLine.CodingChallenge/Indexing/Indexer.cs:76-93 | the ids after the field loop are the combination of the constraints in order; they are duplicate-free stored ids |
| Indexing.Indexer.FacetsForField | ConstructionLine.CodingChallenge/Indexing/Indexer.cs:101-115 | one facet per observed value of the field, each counting the result ids holding it |
| Indexing.Indexer.CalculateFacets | ConstructionLine.CodingChallenge/Indexing/Indexer.cs:99-118 | one facet list per indexed field, queried or not, each as `FacetsForField` gives it |
| Indexing.Indexer.Search | ConstructionLine.CodingChallenge/Indexing/Indexer.cs:71-122 | the result documents are the stored documents of the combined ids, in order, with distinct stored ids; the facets are those of `CalculateFacets`; neither map changes |
| Indexing.Indexer.GetDocument | ConstructionLine.CodingChallenge/Indexing/Indexer.cs:148-155 | succeeds exactly when the id is stored, with the stored document (whose id is the one asked for); otherwise `NotFound` |
| SearchModel.Step | ConstructionLine.CodingChallenge/Indexing/Indexer.cs:81-91 | a constraint without values leaves the running result unchanged; one with values gives a duplicate-free list holding exactly the ids of its union that are also in the running result, or the whole union when the running result is empty |
| SearchModel.Combine | ConstructionLine.CodingChallenge/Indexing/Indexer.cs:77-93 | folding the constraints in order from a duplicate-free start gives a duplicate-free result |
| SearchModel.Gathered | ConstructionLine.CodingChallenge/Indexing/Indexer.cs:126-133 | an id is gathered exactly when it is in the posting list of one of the values |
| SearchModel.FieldUnion | ConstructionLine.CodingChallenge/Indexing/Indexer.cs:124-137 | the union is duplicate-free and holds exactly the ids in some value's posting list |
| SearchModel.MatchesPair | ConstructionLine.CodingChallenge/Indexing/Indexer.cs:77-93 | matching two constraints means being in the union of each one that has values |
| SearchModel.FieldUnionMeaning | ConstructionLine.CodingChallenge/Indexing/Indexer.cs:124-146 | under the invariant, an id is in a field's union exactly when its stored document has a non-null value for the field that is one of the requested values |
| SearchModel.CombineFromUnions | ConstructionLine.CodingChallenge/Indexing/Indexer.cs:86-91 | every id of the combination came from the start or from the union of some constraint with values |
| SearchModel.CombineStored | ConstructionLine.CodingChallenge/Indexing/Indexer.cs:77-96 | every result id is a stored document, so the lookup at line 96 never fails |
| SearchModel.CombineNoActive | ConstructionLine.CodingChallenge/Indexing/Indexer.cs:81 | constraints that all have empty value lists are skipped, so the result is empty |
| SearchModel.StepFromEmpty | ConstructionLine.CodingChallenge/Indexing/Indexer.cs:86-91 | from an empty running result, a field with values gives exactly its union |
| SearchModel.CombineSingle | ConstructionLine.CodingChallenge/Indexing/Indexer.cs:77-93 | a single constraint with values gives its plain union |
| SearchModel.CombineKeepsMatches | ConstructionLine.CodingChallenge/Indexing/Indexer.cs:86-91 | an id in every active union (and in a non-empty start) stays in the combination |
| SearchModel.MatchesCons | ConstructionLine.CodingChallenge/Indexing/Indexer.cs:77-93 | matching a list of constraints is matching its first and then the rest |
| SearchModel.CombineIntersectsFrom | ConstructionLine.CodingChallenge/Indexing/Indexer.cs:86-91 | from a start holding a matching id, the combination is the start's ids that match every active constraint |
| SearchModel.CombineIsConjunction | ConstructionLine.CodingChallenge/Indexing/Indexer.cs:77-93 | if some id matches every active constraint, the result is exactly the ids in all active unions |
| SearchModel.CombinePair | ConstructionLine.CodingChallenge/Indexing/Indexer.cs:86-91 | two constraints with values: the second union when the first union is empty, and otherwise the intersection of the two unions, which may be empty |
| SearchModel.UnknownFieldFindsNothing | ConstructionLine.CodingChallenge/Indexing/Indexer.cs:124-146 | a query on a field no stored document has, alone, finds nothing; in a query with other fields such a field is dropped instead (`IgnoresLeadingMiss`) |
| SearchModel.IgnoresLeadingMiss | ConstructionLine.CodingChallenge/Indexing/Indexer.cs:86-91 | a first constraint matching nothing is dropped: the result is that of the remaining constraints |
| SearchModel.CombineAppend | ConstructionLine.CodingChallenge/Indexing/Indexer.cs:77-93 | running the field loop over two lists of constraints is running it over the first and continuing from that result over the second |
| SearchModel.EmptyStepRestarts | ConstructionLine.CodingChallenge/Indexing/Indexer.cs:86-91 | when the running result becomes empty at a constraint with values, the result of the whole search is that of the constraints after it from an empty start: every earlier constraint is forgotten |
| SearchModel.NoRestartIsConjunction | ConstructionLine.CodingChallenge/Indexing/Indexer.cs:77-93 | when the first constraint has values and the running result is non-empty before every later constraint with values, the result holds exactly the ids in the union of every constraint with values |
| SearchModel.FacetCountMeaning | ConstructionLine.CodingChallenge/Indexing/Indexer.cs:108-112 | each facet count is the number of result ids whose stored document holds the value, and is at most the number of results |
| SearchModel.FacetNamed | ConstructionLine.CodingChallenge/Indexing/Indexer.cs:102-114 | every observed value of a field names exactly one facet |
| SearchModel.ObservedValueHasHolder | ConstructionLine.CodingChallenge/Indexing/Indexer.cs:40-43 | every value in the inverted index is held by a stored document |
| SearchModel.NullOnlyFieldHasNoFacets | ConstructionLine.CodingChallenge/Indexing/Indexer.cs:102-116 | a field seen only with null values has an empty facet list |
| SearchModel.FacetFieldsAreDocumentFields | ConstructionLine.CodingChallenge/Indexing/Indexer.cs:99-118 | a field has a facet list exactly when some stored document has that field |
| Engine.IdToString | ConstructionLine.CodingChallenge/SearchEngine.cs:87-88 | an id's string is non-empty, with at least two digits from 10 up |
| Engine.IdToStringInjective | ConstructionLine.CodingChallenge/SearchEngine.cs:56 | different ids have different strings, so matching facets by name matches ids |
| Engine.IdStrings | ConstructionLine.CodingChallenge/SearchEngine.cs:97-98 | the strings of a list of ids, one per id, in list order |
| Engine.AttrValue | ConstructionLine.CodingChallenge/SearchEngine.cs:87-88 | a missing colour or size gives a null field value; a present one gives the string of its id |
| Engine.MakePluralSingular | ConstructionLine.CodingChallenge/SearchEngine.cs:103-111 | removes exactly one trailing `s` when there is one, and is the identity otherwise |
| Engine.OptionNamesAreFieldNames | ConstructionLine.CodingChallenge/SearchEngine.cs:97-98 | the singular of `Colors` is `Color` and of `Sizes` is `Size`, the field names shirts are indexed under |
| Engine.ToIndexDocument | ConstructionLine.CodingChallenge/SearchEngine.cs:80-91 | the document has the shirt's id and exactly the fields `Color` and `Size`, holding the attribute id's string or null |
| Engine.DocumentHoldsAttr | ConstructionLine.CodingChallenge/SearchEngine.cs:80-91 | a shirt's document holds the string of colour (or size) `c` exactly when the shirt has `c` |
| Engine.ToIndexDocumentInjective | ConstructionLine.CodingChallenge/SearchEngine.cs:80-91 | different shirts give different documents |
| Engine.QueryConstraints | ConstructionLine.CodingChallenge/SearchEngine.cs:93-101 | two constraints, `Color` first and `Size` second, looking up to the strings of the asked colours and of the asked sizes, in order |
| Engine.ShirtsById | ConstructionLine.CodingChallenge/SearchEngine.cs:17 | succeeds exactly when the ids are distinct, keying every shirt by its id; otherwise fails with `DuplicateShirtId` naming a repeated id |
| Engine.FirstFacetNamed | ConstructionLine.CodingChallenge/SearchEngine.cs:56 | none exactly when no facet has the name; otherwise the first facet with it |
| Engine.ConvertFacetsToCounts | ConstructionLine.CodingChallenge/SearchEngine.cs:52-78 | one entry per known id, in order; the count of the first facet named by the id, or 0 when none is |
| Engine.IndexedFields | ConstructionLine.CodingChallenge/SearchEngine.cs:23-48 | the shirts' index has the fields `Color` and `Size` when there are shirts, and no field otherwise |
| Engine.HoldersAreShirts | ConstructionLine.CodingChallenge/SearchEngine.cs:80-91 | the result documents holding a colour's string are the result shirts having that colour |
| Engine.FirstFacetCount | ConstructionLine.CodingChallenge/SearchEngine.cs:56-61 | the first facet named by an indexed value carries the number of result documents holding it |
| Engine.UnindexedValueHasNoFacet | ConstructionLine.CodingChallenge/SearchEngine.cs:56-61 | a value never indexed names no facet and is held by no document |
| Engine.CountIsShirtCount | ConstructionLine.CodingChallenge/SearchEngine.cs:52-78 | the count given to a colour (or size) is the number of result shirts having it |
| Engine.ConvertedCounts | ConstructionLine.CodingChallenge/SearchEngine.cs:52-78 | every zero-filled count is the number of result shirts with that colour (or size) |
| Engine.ResultDocumentsAreShirts | ConstructionLine.CodingChallenge/SearchEngine.cs:46 | each result document's id is the result id at its position, a shirt id |
| Engine.ShirtFieldUnion | ConstructionLine.CodingChallenge/SearchEngine.cs:80-98 | a field's union for a list of ids holds exactly the shirts whose colour (or size) is in the list |
| Engine.QueryMatches | ConstructionLine.CodingChallenge/SearchEngine.cs:93-101 | with both lists non-empty, a shirt satisfies both constraints exactly when it has a colour and a size asked for |
| Engine.QueryFindsMatchingShirts | ConstructionLine.CodingChallenge/SearchEngine.cs:38-46 | when some shirt matches both non-empty lists, the search finds exactly the shirts having a colour and a size asked for |
| Engine.DisjointQueryFindsNothing | ConstructionLine.CodingChallenge/SearchEngine.cs:38-46 | with both lists non-empty, when some shirt has an asked colour but none has both an asked colour and an asked size, the search finds no shirt |
| Engine.EmptyQueryFindsNothing | ConstructionLine.CodingChallenge/SearchEngine.cs:93-101 | a query with no colours and no sizes finds no shirt |
| Engine.UnmatchedColorsAreIgnored | ConstructionLine.CodingChallenge/SearchEngine.cs:38-41 | when no shirt has an asked-for colour, the search finds exactly the shirts with an asked-for size |
| Engine.ToIndexSearchOptions | ConstructionLine.CodingChallenge/SearchEngine.cs:93-101 | a new options object with `Color` then `Size`, each with the ids as strings in list order |
| Engine.SearchEngine.constructor | ConstructionLine.CodingChallenge/SearchEngine.cs:20-26 | indexes every shirt's document once, so the indexer stores exactly the shirts' documents and keeps its invariant |
| Engine.SearchEngine.Create | ConstructionLine.CodingChallenge/SearchEngine.cs:14-28 | fails with the `ToDictionary` error on a repeated id; otherwise an engine holding the shirts keyed by id |
| Engine.SearchEngine.Search | ConstructionLine.CodingChallenge/SearchEngine.cs:31-50 | a null query or list fails with `ArgumentNull`; otherwise it fails exactly when there are no shirts, and succeeds with the shirts of the combined ids in order and the count of every known colour and size among them |
| Engine.SearchEngine.AnswerFrom | ConstructionLine.CodingChallenge/SearchEngine.cs:41-49 | searching the index and converting: the shirts of the result ids and the count of every known colour and size among them, or `MissingFacetField("Color")` when there are no shirts |

## Left out

- **Exceptions.** They become error values (`Outcome`/`Result`); their messages and class hierarchy are not modelled.
- **Null arguments** other than the query and its two lists: a null shirt list, null documents, field names or value lists. This includes the test expecting `ArgumentNullException` for `new SearchEngine(null)`. Null elements inside lists are left out too: a null shirt throws at `SearchEngine.cs:17` (`s.Id`), a null colour or size in the query throws at `SearchEngine.cs:97-98` (`c.Id`), and a null value string throws at `Indexing/Indexer.cs:140` (`ContainsKey(null)`).
- **Indexed documents are shared with the caller.** `Index` stores the caller's own `IndexDocument` object (`Indexing/Indexer.cs:25`), and `GetDocument` returns that same object (`Indexing/Indexer.cs:154`). Its `Id` has a public setter and its `Fields` dictionary is mutable, so a caller who changes an indexed document would break `KeyedById`, `PostingsSound` and the id returned by `GetDocument`. The model stores values, and its invariant assumes callers never change an indexed document; `SearchEngine` creates each document for indexing and never touches it afterwards.
- **Shared dictionaries.** The nested dictionaries are values written back into the outer map. The model does not show that `GetOrCreate*` hand out references into shared dictionaries; no other code holds those references.
- **Enumeration order.** .NET `Dictionary` enumeration order, where the code iterates keys of the document's fields, the inverted index, a field's values or the shirts, is modelled as an unspecified order (`:|`). As a result:
  - the order of facet lists and of the shirts' documents is not fixed;
  - the indexing order of the shirts is not fixed, so neither is the order inside posting lists.
- **IndexSearchOptions keys.** Iteration over the `IndexSearchOptions` keys is insertion order, as the model's sequence has it.
- **Lazy evaluation.** `Select` at `Indexer.cs:96` is lazy, but there it ranges over a list that is not changed afterwards, so it is modelled as evaluated at once.
- **Shirt identity.** Guid generation and shirt names are not modelled. `GetHashCode`/`Equals` of colours and sizes are not modelled; they are identified by their id.
- **The timing test.** A running-time bound is not expressible here.
- **Test helpers.** `SearchEngineTestsBase` and its `Assert*` helpers are not part of this model.
- **`SearchEngine` construction order.** `Engine.SearchEngine.Create` and the constructor do not fix the order in which shirts are indexed, since `Dictionary.Values` order is not specified.
