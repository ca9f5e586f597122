/** The plain data classes of the indexer: documents, facets, search results and its two exceptions. */
module IndexTypes {
  import opened Wrappers

  /** A Guid, as its 128 bits read as a number; only equality of ids matters. */
  datatype Guid = Guid(bits: nat)

  /** A document identifier. */
  type DocId = Guid

  /**
   * A document to index: its identifier and its fields, each mapping a field
   * name to a value that may be null.
   */
  datatype IndexDocument = IndexDocument(id: DocId, fields: map<string, Option<string>>)

  /** One observed value of a field and how many result documents hold it. */
  datatype Facet = Facet(facetName: string, count: nat)

  /** The matching documents, and for every indexed field the facets of its observed values. */
  datatype IndexSearchResult = IndexSearchResult(
    documentResults: seq<IndexDocument>,
    facetResults: map<string, seq<Facet>>)

  /** `IndexDocumentAlreadyExists` and `IndexDocumentNotFound`. */
  datatype IndexError = AlreadyExists(id: DocId) | NotFound(id: DocId)
}
