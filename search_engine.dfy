/**
 * `SearchEngine`: the shirt adapter over the indexer. Shirts become documents
 * with the fields `Color` and `Size`, a shirt query becomes a constraint set,
 * and the facets of the two fields become zero-filled counts over every
 * known colour and size.
 */
module Engine {
  import opened Wrappers
  import opened Sequences
  import opened IndexTypes
  import opened SearchOptionsModel
  import opened IndexModel
  import opened SearchModel
  import opened Indexing

  /** The id of a colour or a size (a Guid in the source; only its string form matters). */
  type AttrId = nat

  /** A shirt: its id and its colour and size, each of which may be null. */
  datatype Shirt = Shirt(id: DocId, color: Option<AttrId>, size: Option<AttrId>)

  /** A shirt query: the accepted colours and sizes; either list may be null. */
  datatype SearchOptions = SearchOptions(colors: Option<seq<AttrId>>, sizes: Option<seq<AttrId>>)

  /** A `ColorCount` or `SizeCount`: a colour or size and the number of result shirts having it. */
  datatype AttrCount = AttrCount(attr: AttrId, count: nat)

  /** The shirts found and the counts of every known colour and size among them. */
  datatype SearchResults = SearchResults(shirts: seq<Shirt>, colorCounts: seq<AttrCount>, sizeCounts: seq<AttrCount>)

  /**
   * `ArgumentNullException` for a null query or list, `ArgumentException` from
   * `ToDictionary` for two shirts with one id, and `KeyNotFoundException` for
   * a facet field the index does not have.
   */
  datatype EngineError = ArgumentNull | DuplicateShirtId(id: DocId) | MissingFacetField(field: string)

  /** `nameof(shirt.Color)` and `nameof(shirt.Size)`: the field names of the documents. */
  const ColorField: string := "Color"
  const SizeField: string := "Size"

  /** `nameof(options.Colors)` and `nameof(options.Sizes)`. */
  const ColorsOption: string := "Colors"
  const SizesOption: string := "Sizes"

  /** A decimal digit. */
  function Digit(d: nat): char
    requires d < 10
  {
    (48 + d) as char
  }

  /** `Id.ToString()`, rendered as the decimal digits of the id. */
  function IdToString(n: nat): (s: string)
    ensures |s| > 0
    ensures n >= 10 ==> |s| >= 2
    decreases n
  {
    if n < 10 then [Digit(n)] else IdToString(n / 10) + [Digit(n % 10)]
  }

  /** Different ids have different string forms. */
  lemma {:induction false} IdToStringInjective(a: nat, b: nat)
    requires IdToString(a) == IdToString(b)
    ensures a == b
    decreases a
  {
    var s := IdToString(a);
    if a >= 10 && b >= 10 {
      assert IdToString(a / 10) == s[..|s| - 1] == IdToString(b / 10);
      IdToStringInjective(a / 10, b / 10);
      assert Digit(a % 10) == s[|s| - 1] == Digit(b % 10);
    } else if a < 10 && b < 10 {
      assert Digit(a) == s[0] == Digit(b);
    }
  }

  /** The strings of a list of ids, in list order (`Select(c => c.Id.ToString())`). */
  function IdStrings(ids: seq<AttrId>): (r: seq<string>)
    ensures |r| == |ids| && forall k | 0 <= k < |ids| :: r[k] == IdToString(ids[k])
  {
    seq(|ids|, k requires 0 <= k < |ids| => IdToString(ids[k]))
  }

  /** Removes one trailing 's', if there is one. */
  function MakePluralSingular(word: string): (r: string)
    ensures |word| > 0 && word[|word| - 1] == 's' ==> r + "s" == word
    ensures !(|word| > 0 && word[|word| - 1] == 's') ==> r == word
  {
    if |word| > 0 && word[|word| - 1] == 's' then word[..|word| - 1] else word
  }

  /** The option names, made singular, are the field names the shirts are indexed under. */
  lemma OptionNamesAreFieldNames()
    ensures MakePluralSingular(ColorsOption) == ColorField
    ensures MakePluralSingular(SizesOption) == SizeField
  {
    assert ColorsOption[..|ColorsOption| - 1] == ColorField;
    assert SizesOption[..|SizesOption| - 1] == SizeField;
  }

  /** The field value of an optional attribute: its id as a string, or null. */
  function AttrValue(a: Option<AttrId>): (r: Option<string>)
    ensures r.None? <==> a.None?
    ensures a.Some? ==> r == Some(IdToString(a.value))
  {
    match a
    case None => None
    case Some(x) => Some(IdToString(x))
  }

  /** A shirt's attribute behind field `f`: its colour for `Color`, its size for `Size`. */
  function AttrOf(s: Shirt, f: string): Option<AttrId>
    requires f == ColorField || f == SizeField
  {
    if f == ColorField then s.color else s.size
  }

  /** The document of a shirt: its id, and exactly the fields `Color` and `Size`. */
  function ToIndexDocument(shirt: Shirt): (d: IndexDocument)
    ensures d.id == shirt.id
    ensures d.fields.Keys == {ColorField, SizeField}
    ensures forall f | f in d.fields :: d.fields[f] == AttrValue(AttrOf(shirt, f))
  {
    IndexDocument(shirt.id, map[ColorField := AttrValue(shirt.color), SizeField := AttrValue(shirt.size)])
  }

  /** A shirt's document holds colour (or size) `c` exactly when the shirt has it. */
  lemma DocumentHoldsAttr(shirt: Shirt, f: string, c: AttrId)
    requires f == ColorField || f == SizeField
    ensures ToIndexDocument(shirt).fields[f] == Some(IdToString(c)) <==> AttrOf(shirt, f) == Some(c)
  {
    if AttrOf(shirt, f).Some? && IdToString(AttrOf(shirt, f).value) == IdToString(c) {
      IdToStringInjective(AttrOf(shirt, f).value, c);
    }
  }

  /** Different shirts give different documents. */
  lemma ToIndexDocumentInjective(a: Shirt, b: Shirt)
    requires ToIndexDocument(a) == ToIndexDocument(b)
    ensures a == b
  {
    var d := ToIndexDocument(a);
    if a.color.Some? {
      assert d.fields[ColorField] == Some(IdToString(a.color.value));
      DocumentHoldsAttr(b, ColorField, a.color.value);
    } else {
      assert d.fields[ColorField] == None;
    }
    if a.size.Some? {
      assert d.fields[SizeField] == Some(IdToString(a.size.value));
      DocumentHoldsAttr(b, SizeField, a.size.value);
    } else {
      assert d.fields[SizeField] == None;
    }
  }

  /** The ids of a list of shirts are distinct. */
  ghost predicate DistinctIds(list: seq<Shirt>) {
    forall j, k | 0 <= j < k < |list| :: list[j].id != list[k].id
  }

  /** The ids of a list of shirts. */
  ghost function IdsOf(list: seq<Shirt>): set<DocId> {
    set k | 0 <= k < |list| :: list[k].id
  }

  /** A list has distinct ids when its prefix has and its last id is new; its ids are the prefix's and the last. */
  lemma IdsOfSnoc(list: seq<Shirt>)
    requires |list| > 0
    ensures var prefix, last := list[..|list| - 1], list[|list| - 1];
            && IdsOf(list) == IdsOf(prefix) + {last.id}
            && (DistinctIds(list) <==> DistinctIds(prefix) && last.id !in IdsOf(prefix))
  {
    var prefix, last := list[..|list| - 1], list[|list| - 1];
    assert forall k | 0 <= k < |prefix| :: prefix[k] == list[k];
    assert IdsOf(list) == IdsOf(prefix) + {last.id} by {
      forall k | 0 <= k < |list| ensures list[k].id in IdsOf(prefix) + {last.id} {
        if k < |prefix| { assert prefix[k].id in IdsOf(prefix); }
      }
    }
    if DistinctIds(prefix) && last.id !in IdsOf(prefix) {
      forall j, k | 0 <= j < k < |list| ensures list[j].id != list[k].id {
        if k < |prefix| {
          assert prefix[j].id != prefix[k].id;
        } else {
          assert prefix[j].id in IdsOf(prefix);
        }
      }
    }
  }

  /** `ToDictionary(s => s.Id)`: the shirts keyed by id; fails at the first id seen twice. */
  function ShirtsById(list: seq<Shirt>): (r: Result<map<DocId, Shirt>, EngineError>)
    ensures r.Success? <==> DistinctIds(list)
    ensures r.Success? ==> r.value.Keys == IdsOf(list)
    ensures r.Success? ==> forall k | 0 <= k < |list| :: r.value[list[k].id] == list[k]
    ensures r.Failure? ==> exists j, k | 0 <= j < k < |list| :: list[j].id == list[k].id && r.error == DuplicateShirtId(list[k].id)
    decreases |list|
  {
    if list == [] then Success(map[])
    else
      var last := list[|list| - 1];
      var prefix := list[..|list| - 1];
      assert forall k | 0 <= k < |prefix| :: prefix[k] == list[k];
      IdsOfSnoc(list);
      var r := ShirtsById(prefix);
      if r.Failure? then r
      else if last.id in r.value then
        var j :| 0 <= j < |prefix| && prefix[j].id == last.id;
        Failure(DuplicateShirtId(last.id))
      else
        Success(r.value[last.id := last])
  }

  /** `FirstOrDefault(x => x.FacetName == name)`. */
  function FirstFacetNamed(facets: seq<Facet>, name: string): (r: Option<Facet>)
    ensures r.None? <==> forall k | 0 <= k < |facets| :: facets[k].facetName != name
    ensures r.Some? ==> exists k | 0 <= k < |facets| :: facets[k] == r.value && facets[k].facetName == name
                          && forall j | 0 <= j < k :: facets[j].facetName != name
    decreases |facets|
  {
    if facets == [] then None
    else if facets[0].facetName == name then Some(facets[0])
    else
      var r := FirstFacetNamed(facets[1..], name);
      assert forall k | 1 <= k < |facets| :: facets[k] == facets[1..][k - 1];
      r
  }

  /**
   * `ConvertFacetsToColorCount` and `ConvertFacetsToSizeCount`: one count per
   * known colour (or size), in the order of `all`; the count of the first
   * facet named by its id, or 0 when no facet is.
   */
  function ConvertFacetsToCounts(all: seq<AttrId>, facets: seq<Facet>): (r: seq<AttrCount>)
    ensures |r| == |all|
    ensures forall k | 0 <= k < |all| :: r[k].attr == all[k]
    ensures forall k | 0 <= k < |all| ::
              (forall j | 0 <= j < |facets| :: facets[j].facetName != IdToString(all[k])) ==> r[k].count == 0
    ensures forall k, j | 0 <= k < |all| && 0 <= j < |facets| ::
              facets[j].facetName == IdToString(all[k]) && (forall i | 0 <= i < j :: facets[i].facetName != IdToString(all[k]))
              ==> r[k].count == facets[j].count
  {
    seq(|all|, k requires 0 <= k < |all| =>
      var facet := FirstFacetNamed(facets, IdToString(all[k]));
      AttrCount(all[k], if facet.Some? then facet.value.count else 0))
  }

  /** The documents of a set of shirts, keyed by id. */
  ghost function DocumentsOf(shirts: map<DocId, Shirt>): map<DocId, IndexDocument> {
    map id | id in shirts :: ToIndexDocument(shirts[id])
  }

  /** The documents of the shirts with the given ids. */
  ghost function DocumentsOfKeys(shirts: map<DocId, Shirt>, ids: set<DocId>): map<DocId, IndexDocument> {
    map id | id in ids && id in shirts :: ToIndexDocument(shirts[id])
  }

  /** Adding one shirt's id adds that shirt's document. */
  lemma DocumentsOfKeysAdd(shirts: map<DocId, Shirt>, ids: set<DocId>, id: DocId)
    requires id in shirts
    ensures DocumentsOfKeys(shirts, ids + {id}) == DocumentsOfKeys(shirts, ids)[id := ToIndexDocument(shirts[id])]
  {
  }

  /** Every shirt is keyed by its own id. */
  ghost predicate KeyedShirts(shirts: map<DocId, Shirt>) {
    forall id | id in shirts :: shirts[id].id == id
  }

  /** The result shirts having colour (or size) `c`. */
  ghost function ShirtsWith(shirts: map<DocId, Shirt>, ids: seq<DocId>, f: string, c: AttrId): set<DocId>
    requires f == ColorField || f == SizeField
  {
    set i | i in ids && i in shirts && AttrOf(shirts[i], f) == Some(c)
  }

  /** Under the invariant the indexed fields are `Color` and `Size` when there are shirts, and none otherwise. */
  lemma IndexedFields(shirts: map<DocId, Shirt>, inv: InvertedIndex, f: string)
    requires IndexInvariant(DocumentsOf(shirts), inv)
    ensures f in inv <==> shirts != map[] && (f == ColorField || f == SizeField)
  {
    var docs := DocumentsOf(shirts);
    if shirts != map[] && (f == ColorField || f == SizeField) {
      var id :| id in shirts;
      assert HasField(docs, id, f);
    }
  }

  /** A shirt's document holds the string of colour (or size) `c` exactly when the shirt has `c`. */
  lemma HoldersAreShirts(shirts: map<DocId, Shirt>, ids: seq<DocId>, f: string, c: AttrId)
    requires f == ColorField || f == SizeField
    ensures Holders(DocumentsOf(shirts), ids, f, IdToString(c)) == ShirtsWith(shirts, ids, f, c)
  {
    var docs := DocumentsOf(shirts);
    forall i | i in shirts
      ensures HasValue(docs, i, f, IdToString(c)) <==> AttrOf(shirts[i], f) == Some(c)
    {
      DocumentHoldsAttr(shirts[i], f, c);
    }
  }

  /** The first facet named by an indexed value carries the number of result documents holding it. */
  lemma FirstFacetCount(docs: map<DocId, IndexDocument>, inv: InvertedIndex, f: string, ids: seq<DocId>,
                        facets: seq<Facet>, name: string)
    requires IndexInvariant(docs, inv) && f in inv && FacetListFor(inv, f, ids, facets)
    requires name in inv[f]
    ensures FirstFacetNamed(facets, name).Some?
    ensures FirstFacetNamed(facets, name).value.count == |Holders(docs, ids, f, name)|
  {
    FacetNamed(inv, f, ids, facets, name);
    var k :| 0 <= k < |facets| && facets[k].facetName == name &&
             (forall j | 0 <= j < |facets| && j != k :: facets[j].facetName != name);
    FacetCountMeaning(docs, inv, f, ids, facets, k);
  }

  /** A value that was never indexed under `f` names no facet and is held by no document. */
  lemma UnindexedValueHasNoFacet(docs: map<DocId, IndexDocument>, inv: InvertedIndex, f: string, ids: seq<DocId>,
                                 facets: seq<Facet>, name: string)
    requires IndexInvariant(docs, inv) && f in inv && FacetListFor(inv, f, ids, facets)
    requires name !in inv[f]
    ensures FirstFacetNamed(facets, name).None?
    ensures Holders(docs, ids, f, name) == {}
  {
    assert ValuesIndexed(docs, inv);
  }

  /**
   * The count that the conversion gives a colour (or size) is the number of
   * result shirts having it, whether or not any shirt was indexed with it.
   */
  lemma CountIsShirtCount(shirts: map<DocId, Shirt>, inv: InvertedIndex, f: string, ids: seq<DocId>,
                          facets: seq<Facet>, c: AttrId)
    requires f == ColorField || f == SizeField
    requires IndexInvariant(DocumentsOf(shirts), inv) && f in inv && FacetListFor(inv, f, ids, facets)
    ensures var facet := FirstFacetNamed(facets, IdToString(c));
            (if facet.Some? then facet.value.count else 0) == |ShirtsWith(shirts, ids, f, c)|
  {
    HoldersAreShirts(shirts, ids, f, c);
    if IdToString(c) in inv[f] {
      FirstFacetCount(DocumentsOf(shirts), inv, f, ids, facets, IdToString(c));
    } else {
      UnindexedValueHasNoFacet(DocumentsOf(shirts), inv, f, ids, facets, IdToString(c));
    }
  }

  /** `counts` has one entry per known id in `all`, in order, holding the number of result shirts having it. */
  ghost predicate CountsOf(shirts: map<DocId, Shirt>, ids: seq<DocId>, f: string, all: seq<AttrId>, counts: seq<AttrCount>)
    requires f == ColorField || f == SizeField
  {
    && |counts| == |all|
    && forall k | 0 <= k < |all| :: counts[k] == AttrCount(all[k], |ShirtsWith(shirts, ids, f, all[k])|)
  }

  /** The zero-filled counts of one facet field: for each known id, the number of result shirts having it. */
  lemma ConvertedCounts(shirts: map<DocId, Shirt>, inv: InvertedIndex, f: string, ids: seq<DocId>,
                        facets: seq<Facet>, all: seq<AttrId>)
    requires f == ColorField || f == SizeField
    requires IndexInvariant(DocumentsOf(shirts), inv) && f in inv && FacetListFor(inv, f, ids, facets)
    ensures CountsOf(shirts, ids, f, all, ConvertFacetsToCounts(all, facets))
  {
    forall k | 0 <= k < |all| ensures ConvertFacetsToCounts(all, facets)[k].count == |ShirtsWith(shirts, ids, f, all[k])| {
      CountIsShirtCount(shirts, inv, f, ids, facets, all[k]);
    }
  }

  /** The answer to a shirt query whose matching ids, in order, are `ids`. */
  ghost predicate Answers(shirts: map<DocId, Shirt>, allColors: seq<AttrId>, allSizes: seq<AttrId>,
                          ids: seq<DocId>, res: SearchResults) {
    && |res.shirts| == |ids|
    && (forall k | 0 <= k < |ids| :: ids[k] in shirts && res.shirts[k] == shirts[ids[k]])
    && CountsOf(shirts, ids, ColorField, allColors, res.colorCounts)
    && CountsOf(shirts, ids, SizeField, allSizes, res.sizeCounts)
  }

  /** The result documents of the shirts' index are the documents of the shirts with the result ids. */
  lemma ResultDocumentsAreShirts(shirts: map<DocId, Shirt>, ids: seq<DocId>, docs: seq<IndexDocument>)
    requires KeyedShirts(shirts)
    requires |docs| == |ids|
    requires forall k | 0 <= k < |ids| :: ids[k] in DocumentsOf(shirts) && docs[k] == DocumentsOf(shirts)[ids[k]]
    ensures forall k | 0 <= k < |ids| :: docs[k].id == ids[k] && ids[k] in shirts
  {
  }

  /** The constraint set of a shirt query: `Color` then `Size`, each with its ids as strings. */
  function QueryConstraints(colors: seq<AttrId>, sizes: seq<AttrId>): (r: seq<Constraint>)
    ensures |r| == 2 && r[0].field == ColorField && r[1].field == SizeField
    ensures Lookup(r, ColorField) == Some(IdStrings(colors)) && Lookup(r, SizeField) == Some(IdStrings(sizes))
  {
    [Constraint(ColorField, IdStrings(colors)), Constraint(SizeField, IdStrings(sizes))]
  }

  /** A shirt has one of the colours and one of the sizes asked for. */
  predicate ShirtMatches(shirt: Shirt, colors: seq<AttrId>, sizes: seq<AttrId>) {
    && shirt.color.Some? && shirt.color.value in colors
    && shirt.size.Some? && shirt.size.value in sizes
  }

  /** A field's union for a list of ids holds exactly the shirts whose attribute behind `f` is in the list. */
  lemma ShirtFieldUnion(shirts: map<DocId, Shirt>, inv: InvertedIndex, f: string, attrs: seq<AttrId>, i: DocId)
    requires f == ColorField || f == SizeField
    requires IndexInvariant(DocumentsOf(shirts), inv)
    ensures i in FieldUnion(inv, f, IdStrings(attrs)) <==>
              i in shirts && AttrOf(shirts[i], f).Some? && AttrOf(shirts[i], f).value in attrs
  {
    var docs := DocumentsOf(shirts);
    FieldUnionMeaning(docs, inv, f, IdStrings(attrs), i);
    if i in shirts && AttrOf(shirts[i], f).Some? {
      var a := AttrOf(shirts[i], f).value;
      assert docs[i].fields[f] == Some(IdToString(a));
      if IdToString(a) in IdStrings(attrs) {
        var k :| 0 <= k < |attrs| && IdStrings(attrs)[k] == IdToString(a);
        IdToStringInjective(attrs[k], a);
      }
      if a in attrs {
        var k :| 0 <= k < |attrs| && attrs[k] == a;
        assert IdStrings(attrs)[k] == IdToString(a);
      }
    }
  }

  /** A shirt satisfies both constraints of a query exactly when it has a colour and a size asked for. */
  lemma QueryMatches(shirts: map<DocId, Shirt>, inv: InvertedIndex, colors: seq<AttrId>, sizes: seq<AttrId>, i: DocId)
    requires IndexInvariant(DocumentsOf(shirts), inv)
    requires |colors| > 0 && |sizes| > 0
    ensures Matches(inv, QueryConstraints(colors, sizes), i) <==> i in shirts && ShirtMatches(shirts[i], colors, sizes)
  {
    MatchesPair(inv, Constraint(ColorField, IdStrings(colors)), Constraint(SizeField, IdStrings(sizes)), i);
    ShirtFieldUnion(shirts, inv, ColorField, colors, i);
    ShirtFieldUnion(shirts, inv, SizeField, sizes, i);
  }

  /**
   * When some shirt has a colour and a size asked for, a query with both
   * lists non-empty finds exactly the shirts having a colour and a size asked for.
   */
  lemma QueryFindsMatchingShirts(shirts: map<DocId, Shirt>, inv: InvertedIndex, colors: seq<AttrId>, sizes: seq<AttrId>,
                                 w: DocId, i: DocId)
    requires IndexInvariant(DocumentsOf(shirts), inv)
    requires |colors| > 0 && |sizes| > 0
    requires w in shirts && ShirtMatches(shirts[w], colors, sizes)
    ensures i in Combine(inv, QueryConstraints(colors, sizes), []) <==> i in shirts && ShirtMatches(shirts[i], colors, sizes)
  {
    var cs := QueryConstraints(colors, sizes);
    QueryMatches(shirts, inv, colors, sizes, w);
    QueryMatches(shirts, inv, colors, sizes, i);
    assert |cs[0].values| > 0;
    CombineIsConjunction(inv, cs, w, i);
  }

  /**
   * When some shirt has a colour asked for but none has both a colour and a
   * size asked for, a query with both lists non-empty finds no shirt.
   */
  lemma DisjointQueryFindsNothing(shirts: map<DocId, Shirt>, inv: InvertedIndex, colors: seq<AttrId>, sizes: seq<AttrId>,
                                  w: DocId)
    requires IndexInvariant(DocumentsOf(shirts), inv)
    requires |colors| > 0 && |sizes| > 0
    requires w in shirts && shirts[w].color.Some? && shirts[w].color.value in colors
    requires forall j | j in shirts :: !ShirtMatches(shirts[j], colors, sizes)
    ensures Combine(inv, QueryConstraints(colors, sizes), []) == []
  {
    var c0, c1 := Constraint(ColorField, IdStrings(colors)), Constraint(SizeField, IdStrings(sizes));
    var u0, u1 := FieldUnion(inv, ColorField, IdStrings(colors)), FieldUnion(inv, SizeField, IdStrings(sizes));
    CombinePair(inv, c0, c1);
    ShirtFieldUnion(shirts, inv, ColorField, colors, w);
    var r := Intersect(u0, u1);
    if r != [] {
      ShirtFieldUnion(shirts, inv, ColorField, colors, r[0]);
      ShirtFieldUnion(shirts, inv, SizeField, sizes, r[0]);
      assert false;
    }
  }

  /** A query with no colours and no sizes finds no shirt. */
  lemma EmptyQueryFindsNothing(inv: InvertedIndex)
    ensures Combine(inv, QueryConstraints([], []), []) == []
  {
    CombineNoActive(inv, QueryConstraints([], []), []);
  }

  /**
   * When no shirt has any of the colours asked for, the colour constraint is
   * dropped: the query finds exactly the shirts having one of the sizes.
   */
  lemma UnmatchedColorsAreIgnored(shirts: map<DocId, Shirt>, inv: InvertedIndex, colors: seq<AttrId>, sizes: seq<AttrId>, i: DocId)
    requires IndexInvariant(DocumentsOf(shirts), inv)
    requires |sizes| > 0
    requires forall j | j in shirts :: !(shirts[j].color.Some? && shirts[j].color.value in colors)
    ensures i in Combine(inv, QueryConstraints(colors, sizes), []) <==>
              i in shirts && shirts[i].size.Some? && shirts[i].size.value in sizes
  {
    var colorUnion := FieldUnion(inv, ColorField, IdStrings(colors));
    if colorUnion != [] {
      ShirtFieldUnion(shirts, inv, ColorField, colors, colorUnion[0]);
      assert false;
    }
    var sizeConstraint := Constraint(SizeField, IdStrings(sizes));
    assert QueryConstraints(colors, sizes) == [Constraint(ColorField, IdStrings(colors))] + [sizeConstraint];
    IgnoresLeadingMiss(inv, Constraint(ColorField, IdStrings(colors)), [sizeConstraint]);
    CombineSingle(inv, sizeConstraint);
    ShirtFieldUnion(shirts, inv, SizeField, sizes, i);
  }

  /** The constraint set of a shirt query, built with `SearchBy` on a new options object. */
  method ToIndexSearchOptions(colors: seq<AttrId>, sizes: seq<AttrId>) returns (o: IndexSearchOptions)
    ensures fresh(o) && o.Valid()
    ensures o.entries == QueryConstraints(colors, sizes)
  {
    OptionNamesAreFieldNames();
    o := new IndexSearchOptions();
    var addedColors := o.SearchBy(MakePluralSingular(ColorsOption), IdStrings(colors));
    var addedSizes := o.SearchBy(MakePluralSingular(SizesOption), IdStrings(sizes));
    assert addedColors.Pass? && addedSizes.Pass?;
  }

  class SearchEngine {
    /** The shirts, keyed by id. */
    const shirts: map<DocId, Shirt>
    /** The indexer holding the shirts' documents. */
    const indexer: Indexer
    /** `Color.All` and `Size.All`: every known colour and size. */
    const allColors: seq<AttrId>
    const allSizes: seq<AttrId>

    ghost predicate Valid()
      reads this, indexer
    {
      && indexer.Valid()
      && KeyedShirts(shirts)
      && indexer.documents == DocumentsOf(shirts)
    }

    /** Indexes the document of every shirt once; no `Index` call can meet an id already stored. */
    constructor (shirtsById: map<DocId, Shirt>, colors: seq<AttrId>, sizes: seq<AttrId>)
      requires KeyedShirts(shirtsById)
      ensures Valid() && fresh(indexer)
      ensures shirts == shirtsById && allColors == colors && allSizes == sizes
    {
      shirts := shirtsById;
      allColors := colors;
      allSizes := sizes;
      indexer := new Indexer();
      new;
      var remaining := shirtsById.Values;
      ghost var doneIds: set<DocId> := {};
      while remaining != {}
        invariant remaining <= shirtsById.Values && doneIds <= shirtsById.Keys
        invariant forall id | id in shirtsById :: id in doneIds <==> shirtsById[id] !in remaining
        invariant indexer.Valid()
        invariant indexer.documents == DocumentsOfKeys(shirtsById, doneIds)
        decreases remaining
      {
        var shirt :| shirt in remaining;
        assert shirt.id in shirtsById && shirtsById[shirt.id] == shirt;
        assert shirt.id !in indexer.documents;
        DocumentsOfKeysAdd(shirtsById, doneIds, shirt.id);
        var indexed := indexer.Index(ToIndexDocument(shirt));
        assert indexed.Pass?;
        remaining := remaining - {shirt};
        doneIds := doneIds + {shirt.id};
      }
      assert doneIds == shirtsById.Keys;
      assert indexer.documents == DocumentsOf(shirts);
    }

    /** The source's constructor: keys the shirts by id (failing on a repeated id) and indexes them. */
    static method Create(shirtList: seq<Shirt>, colors: seq<AttrId>, sizes: seq<AttrId>) returns (r: Result<SearchEngine, EngineError>)
      ensures r.Failure? <==> ShirtsById(shirtList).Failure?
      ensures r.Failure? ==> r.error == ShirtsById(shirtList).error
      ensures r.Success? ==> fresh(r.value) && fresh(r.value.indexer) && r.value.Valid()
                             && r.value.shirts == ShirtsById(shirtList).value
                             && r.value.allColors == colors && r.value.allSizes == sizes
    {
      var byId := ShirtsById(shirtList);
      if byId.Failure? {
        return Failure(byId.error);
      }
      var engine := new SearchEngine(byId.value, colors, sizes);
      r := Success(engine);
    }

    /**
     * Answers a shirt query: a null query or list fails with `ArgumentNull`;
     * otherwise the query is searched as `Color` then `Size` and answered by
     * `AnswerFrom`.
     */
    method Search(options: Option<SearchOptions>) returns (r: Result<SearchResults, EngineError>)
      requires Valid()
      ensures options.None? || options.value.colors.None? || options.value.sizes.None? ==> r == Failure(ArgumentNull)
      ensures options.Some? && options.value.colors.Some? && options.value.sizes.Some? ==>
                && (r.Failure? <==> shirts == map[])
                && (r.Failure? ==> r.error == MissingFacetField(ColorField))
                && (r.Success? ==> Answers(shirts, allColors, allSizes,
                      Combine(indexer.invertedIndexes, QueryConstraints(options.value.colors.value, options.value.sizes.value), []),
                      r.value))
    {
      if options.None? || options.value.colors.None? || options.value.sizes.None? {
        return Failure(ArgumentNull);
      }
      var indexSearchOptions := ToIndexSearchOptions(options.value.colors.value, options.value.sizes.value);
      r := AnswerFrom(indexSearchOptions);
    }

    /**
     * Searches the index and converts its results: the result documents are
     * mapped back to shirts, and every known colour and size is counted among
     * them. An engine without shirts has no facet fields, so reading the
     * `Color` facets fails.
     */
    method AnswerFrom(indexSearchOptions: IndexSearchOptions) returns (r: Result<SearchResults, EngineError>)
      requires Valid() && indexSearchOptions.Valid()
      ensures r.Failure? <==> shirts == map[]
      ensures r.Failure? ==> r.error == MissingFacetField(ColorField)
      ensures r.Success? ==> Answers(shirts, allColors, allSizes, Combine(indexer.invertedIndexes, indexSearchOptions.entries, []), r.value)
    {
      var results := indexer.Search(indexSearchOptions);
      ghost var ids := Combine(indexer.invertedIndexes, indexSearchOptions.entries, []);
      OptionNamesAreFieldNames();
      IndexedFields(shirts, indexer.invertedIndexes, ColorField);
      IndexedFields(shirts, indexer.invertedIndexes, SizeField);
      if MakePluralSingular(ColorsOption) !in results.facetResults {
        return Failure(MissingFacetField(MakePluralSingular(ColorsOption)));
      }
      if MakePluralSingular(SizesOption) !in results.facetResults {
        return Failure(MissingFacetField(MakePluralSingular(SizesOption)));
      }
      var docs := results.documentResults;
      ResultDocumentsAreShirts(shirts, ids, docs);
      var found := seq(|docs|, k requires 0 <= k < |docs| => shirts[docs[k].id]);
      var colorFacets := results.facetResults[MakePluralSingular(ColorsOption)];
      var sizeFacets := results.facetResults[MakePluralSingular(SizesOption)];
      ConvertedCounts(shirts, indexer.invertedIndexes, ColorField, ids, colorFacets, allColors);
      ConvertedCounts(shirts, indexer.invertedIndexes, SizeField, ids, sizeFacets, allSizes);
      r := Success(SearchResults(found, ConvertFacetsToCounts(allColors, colorFacets), ConvertFacetsToCounts(allSizes, sizeFacets)));
    }
  }
}
