/**
 * `Indexer`: the document store and the inverted index, updated in place by
 * `Index` and read by `Search` and `GetDocument`.
 */
module Indexing {
  import opened Wrappers
  import opened Sequences
  import opened IndexTypes
  import opened SearchOptionsModel
  import opened IndexModel
  import opened SearchModel

  class Indexer {
    /** The stored documents, keyed by id; written once per id. */
    var documents: map<DocId, IndexDocument>
    /** Field name -> field value -> ids of the documents holding it. */
    var invertedIndexes: InvertedIndex

    ghost predicate Valid()
      reads this
    {
      IndexInvariant(documents, invertedIndexes)
    }

    /** A new indexer stores nothing. */
    constructor ()
      ensures Valid() && documents == map[] && invertedIndexes == map[]
    {
      documents := map[];
      invertedIndexes := map[];
    }

    /**
     * Stores `document` and adds its id to the posting list of each of its
     * non-null field values; every field name becomes a key of the inverted
     * index. An id that is already stored fails with `AlreadyExists` before
     * anything changes.
     */
    method Index(document: IndexDocument) returns (r: Outcome<IndexError>)
      requires Valid()
      modifies this
      ensures Valid()
      ensures r.Fail? <==> document.id in old(documents)
      ensures r.Fail? ==> r.error == AlreadyExists(document.id)
                          && documents == old(documents) && invertedIndexes == old(invertedIndexes)
      ensures r.Pass? ==> documents == old(documents)[document.id := document]
                          && invertedIndexes == AddDocument(old(invertedIndexes), document)
      ensures r.Pass? ==> GetDocument(document.id) == Success(document)
                          && forall i | i in old(documents) :: GetDocument(i) == Success(old(documents)[i])
    {
      if document.id in documents {
        return Fail(AlreadyExists(document.id));
      }
      documents := documents[document.id := document];

      var remaining := document.fields.Keys;
      ghost var done: set<string> := {};
      while remaining != {}
        invariant remaining + done == document.fields.Keys && remaining !! done
        invariant documents == old(documents)[document.id := document]
        invariant invertedIndexes == AddPostings(old(invertedIndexes), document.id, document.fields, done)
        decreases remaining
      {
        var fieldName :| fieldName in remaining;
        AddPostingsStep(old(invertedIndexes), document.id, document.fields, done, fieldName);
        IndexField(document.id, fieldName, document.fields[fieldName]);
        remaining := remaining - {fieldName};
        done := done + {fieldName};
      }
      IndexPreservesInvariant(old(documents), old(invertedIndexes), document);
      r := Pass;
    }

    /**
     * The body of the field loop of `Index`: makes `fieldName` a key of the
     * inverted index and, for a non-null value, appends the document id to
     * that value's posting list.
     */
    method IndexField(documentId: DocId, fieldName: string, fieldValue: Option<string>)
      modifies this`invertedIndexes
      ensures invertedIndexes == AddField(old(invertedIndexes), documentId, fieldName, fieldValue)
    {
      var invertedIndexForField := GetOrCreateInvertedIndex(fieldName);
      if fieldValue.Some? {
        var (withValue, documentIds) := GetOrCreateDocumentIdListForInvertedIndex(invertedIndexForField, fieldValue.value);
        assert withValue[fieldValue.value := documentIds + [documentId]]
            == invertedIndexForField[fieldValue.value := documentIds + [documentId]];
        invertedIndexes := invertedIndexes[fieldName := withValue[fieldValue.value := documentIds + [documentId]]];
      }
    }

    /**
     * The value dictionary of a field holding `fieldValue`, created empty when
     * absent, and the posting list found there. The source returns the list
     * by reference; here the caller writes the extended list back.
     */
    static function GetOrCreateDocumentIdListForInvertedIndex(invertedIndexForField: map<string, seq<DocId>>, fieldValue: string)
      : (r: (map<string, seq<DocId>>, seq<DocId>))
      ensures r.0.Keys == invertedIndexForField.Keys + {fieldValue}
      ensures r.0[fieldValue] == r.1
      ensures forall v | v in invertedIndexForField && v != fieldValue :: r.0[v] == invertedIndexForField[v]
      ensures fieldValue in invertedIndexForField ==> r.0 == invertedIndexForField
      ensures fieldValue !in invertedIndexForField ==> r.1 == []
    {
      if fieldValue in invertedIndexForField then (invertedIndexForField, invertedIndexForField[fieldValue])
      else (invertedIndexForField[fieldValue := []], [])
    }

    /** The value dictionary of `fieldName`, created empty when the field is new. */
    method GetOrCreateInvertedIndex(fieldName: string) returns (invertedIndex: map<string, seq<DocId>>)
      modifies this`invertedIndexes
      ensures fieldName in old(invertedIndexes) ==> invertedIndexes == old(invertedIndexes)
      ensures fieldName !in old(invertedIndexes) ==> invertedIndexes == old(invertedIndexes)[fieldName := map[]]
      ensures fieldName in invertedIndexes && invertedIndex == invertedIndexes[fieldName]
    {
      if fieldName !in invertedIndexes {
        invertedIndexes := invertedIndexes[fieldName := map[]];
      }
      invertedIndex := invertedIndexes[fieldName];
    }

    /** The posting list of (fieldName, fieldValue), or `None` (a null) when the pair was never indexed. */
    function GetDocumentIdsForFieldAndValue(fieldName: string, fieldValue: string): (r: Option<seq<DocId>>)
      reads this
      ensures r.Some? <==> fieldName in invertedIndexes && fieldValue in invertedIndexes[fieldName]
      ensures r.Some? ==> r.value == Posting(invertedIndexes, fieldName, fieldValue)
      ensures r.None? ==> Posting(invertedIndexes, fieldName, fieldValue) == []
    {
      if fieldName in invertedIndexes && fieldValue in invertedIndexes[fieldName] then
        Some(invertedIndexes[fieldName][fieldValue])
      else None
    }

    /**
     * The documents whose field `fieldName` holds one of `fieldValues`, once
     * each: the posting lists are concatenated, then de-duplicated. Unknown
     * fields and values contribute nothing.
     */
    method GetDocumentIdsForFieldAndValues(fieldName: string, fieldValues: seq<string>) returns (ids: seq<DocId>)
      requires Valid()
      ensures ids == FieldUnion(invertedIndexes, fieldName, fieldValues)
      ensures NoDups(ids)
      ensures forall i :: i in ids <==>
                HasField(documents, i, fieldName) && documents[i].fields[fieldName].Some?
                && documents[i].fields[fieldName].value in fieldValues
    {
      var found: seq<DocId> := [];
      for k := 0 to |fieldValues|
        invariant found == Gathered(invertedIndexes, fieldName, fieldValues[..k])
      {
        assert fieldValues[..k + 1][..k] == fieldValues[..k];
        var documentIdsFoundForFieldAndValue := GetDocumentIdsForFieldAndValue(fieldName, fieldValues[k]);
        if documentIdsFoundForFieldAndValue.Some? {
          found := found + documentIdsFoundForFieldAndValue.value;
        }
      }
      assert fieldValues[..|fieldValues|] == fieldValues;
      ids := Distinct(found);
      forall i ensures i in ids <==>
                HasField(documents, i, fieldName) && documents[i].fields[fieldName].Some?
                && documents[i].fields[fieldName].value in fieldValues {
        FieldUnionMeaning(documents, invertedIndexes, fieldName, fieldValues, i);
      }
    }

    /**
     * The result ids of a search: for each constraint with values, in order,
     * its union replaces an empty running result and is intersected with it.
     */
    method SearchDocumentIds(searchOptions: IndexSearchOptions) returns (resultDocumentIds: seq<DocId>)
      requires Valid() && searchOptions.Valid()
      ensures resultDocumentIds == Combine(invertedIndexes, searchOptions.entries, [])
      ensures NoDups(resultDocumentIds)
      ensures forall k | 0 <= k < |resultDocumentIds| :: resultDocumentIds[k] in documents
    {
      var entries := searchOptions.entries;
      resultDocumentIds := [];
      assert entries[0..] == entries;
      for k := 0 to |entries|
        invariant Combine(invertedIndexes, entries[k..], resultDocumentIds) == Combine(invertedIndexes, entries, [])
      {
        assert entries[k..][1..] == entries[k + 1..];
        var fieldValues := entries[k].values;
        if |fieldValues| > 0 {
          var documentIdsFoundForField := GetDocumentIdsForFieldAndValues(entries[k].field, fieldValues);
          if |resultDocumentIds| == 0 {
            resultDocumentIds := resultDocumentIds + documentIdsFoundForField;
          }
          resultDocumentIds := Intersect(resultDocumentIds, documentIdsFoundForField);
        }
      }
      forall k | 0 <= k < |resultDocumentIds| ensures resultDocumentIds[k] in documents {
        CombineStored(documents, invertedIndexes, entries, resultDocumentIds[k]);
      }
    }

    /** The facets of one field: each observed value with the number of result ids holding it. */
    method FacetsForField(facetFieldName: string, resultDocumentIds: seq<DocId>) returns (facets: seq<Facet>)
      requires facetFieldName in invertedIndexes
      ensures FacetListFor(invertedIndexes, facetFieldName, resultDocumentIds, facets)
    {
      facets := [];
      var remaining := invertedIndexes[facetFieldName].Keys;
      while remaining != {}
        invariant remaining <= invertedIndexes[facetFieldName].Keys
        invariant forall k | 0 <= k < |facets| ::
                    && facets[k].facetName in invertedIndexes[facetFieldName]
                    && facets[k].facetName !in remaining
                    && facets[k].count == |Intersect(resultDocumentIds, invertedIndexes[facetFieldName][facets[k].facetName])|
        invariant forall j, k | 0 <= j < k < |facets| :: facets[j].facetName != facets[k].facetName
        invariant forall v | v in invertedIndexes[facetFieldName] && v !in remaining ::
                    exists k | 0 <= k < |facets| :: facets[k].facetName == v
        decreases remaining
      {
        var facetFieldValue :| facetFieldValue in remaining;
        var documentIdsForFieldAndValue := GetDocumentIdsForFieldAndValue(facetFieldName, facetFieldValue);
        if documentIdsForFieldAndValue.Some? {
          var facetCount := |Intersect(resultDocumentIds, documentIdsForFieldAndValue.value)|;
          ghost var before := facets;
          facets := facets + [Facet(facetFieldValue, facetCount)];
          assert forall k | 0 <= k < |before| :: facets[k] == before[k];
          assert facets[|before|].facetName == facetFieldValue;
        }
        remaining := remaining - {facetFieldValue};
      }
    }

    /** One facet list for every field of the inverted index, queried or not. */
    method CalculateFacets(resultDocumentIds: seq<DocId>) returns (facetResults: map<string, seq<Facet>>)
      ensures FacetsFor(invertedIndexes, resultDocumentIds, facetResults)
    {
      facetResults := map[];
      var remaining := invertedIndexes.Keys;
      while remaining != {}
        invariant remaining <= invertedIndexes.Keys
        invariant facetResults.Keys == invertedIndexes.Keys - remaining
        invariant forall f | f in facetResults :: f in invertedIndexes && FacetListFor(invertedIndexes, f, resultDocumentIds, facetResults[f])
        decreases remaining
      {
        var facetFieldName :| facetFieldName in remaining;
        var facets := FacetsForField(facetFieldName, resultDocumentIds);
        facetResults := facetResults[facetFieldName := facets];
        remaining := remaining - {facetFieldName};
      }
    }

    /**
     * Searches the index: the documents of the combined result ids, one per
     * distinct id, and the facets of every indexed field for that result.
     * Neither dictionary changes.
     */
    method Search(searchOptions: IndexSearchOptions) returns (result: IndexSearchResult)
      requires Valid() && searchOptions.Valid()
      ensures var ids := Combine(invertedIndexes, searchOptions.entries, []);
              && |result.documentResults| == |ids|
              && (forall k | 0 <= k < |ids| :: ids[k] in documents && result.documentResults[k] == documents[ids[k]])
              && FacetsFor(invertedIndexes, ids, result.facetResults)
      ensures forall k | 0 <= k < |result.documentResults| :: result.documentResults[k].id in documents
      ensures forall j, k | 0 <= j < k < |result.documentResults| ::
                result.documentResults[j].id != result.documentResults[k].id
    {
      var resultDocumentIds := SearchDocumentIds(searchOptions);
      var docs := documents;
      forall k | 0 <= k < |resultDocumentIds|
        ensures resultDocumentIds[k] in docs && docs[resultDocumentIds[k]].id == resultDocumentIds[k] {
        assert KeyedById(docs);
      }
      var documentResults := seq(|resultDocumentIds|, k requires 0 <= k < |resultDocumentIds| => docs[resultDocumentIds[k]]);
      var facetResults := CalculateFacets(resultDocumentIds);
      result := IndexSearchResult(documentResults, facetResults);
    }

    /** The stored document with id `id`, or `NotFound`. */
    function GetDocument(id: DocId): (r: Result<IndexDocument, IndexError>)
      reads this
      requires Valid()
      ensures r.Success? <==> id in documents
      ensures r.Success? ==> r.value == documents[id] && r.value.id == id
      ensures r.Failure? ==> r.error == NotFound(id)
    {
      if id !in documents then Failure(NotFound(id)) else Success(documents[id])
    }
  }
}
