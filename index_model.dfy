/**
 * The state of the indexer as values: the inverted index, its invariant, and
 * what indexing one document does to it.
 */
module IndexModel {
  import opened Wrappers
  import opened Sequences
  import opened IndexTypes
  import opened SearchOptionsModel

  /** Field name -> field value -> posting list (the ids of the documents holding that value). */
  type InvertedIndex = map<string, map<string, seq<DocId>>>

  /** Stored document `i` has value `v` (not null) in field `f`. */
  ghost predicate HasValue(docs: map<DocId, IndexDocument>, i: DocId, f: string, v: string) {
    i in docs && f in docs[i].fields && docs[i].fields[f] == Some(v)
  }

  /** Stored document `i` has field `f`, whatever its value. */
  ghost predicate HasField(docs: map<DocId, IndexDocument>, i: DocId, f: string) {
    i in docs && f in docs[i].fields
  }

  /** Documents are keyed by their own id. */
  ghost predicate KeyedById(docs: map<DocId, IndexDocument>) {
    forall i | i in docs :: docs[i].id == i
  }

  /** The fields of the inverted index are exactly the field names of the stored documents, null values included. */
  ghost predicate FieldsIndexed(docs: map<DocId, IndexDocument>, inv: InvertedIndex) {
    && (forall i, f | HasField(docs, i, f) :: f in inv)
    && (forall f | f in inv :: exists i :: HasField(docs, i, f))
  }

  /** Every non-null stored value is indexed, and its document is in the posting list. */
  ghost predicate ValuesIndexed(docs: map<DocId, IndexDocument>, inv: InvertedIndex) {
    forall i, f, v | HasValue(docs, i, f, v) :: f in inv && v in inv[f] && i in inv[f][v]
  }

  /** Posting lists are never empty and hold no id twice. */
  ghost predicate PostingsWellFormed(inv: InvertedIndex) {
    forall f, v | f in inv && v in inv[f] :: |inv[f][v]| > 0 && NoDups(inv[f][v])
  }

  /** A posting list holds only stored documents with that value. */
  ghost predicate PostingsSound(docs: map<DocId, IndexDocument>, inv: InvertedIndex) {
    forall f, v, i | f in inv && v in inv[f] && i in inv[f][v] :: HasValue(docs, i, f, v)
  }

  /**
   * What the two dictionaries of the indexer satisfy after every `Index`:
   * documents are keyed by their own id; the fields of the inverted index are
   * exactly the field names of the stored documents (null values included);
   * the values of a field are exactly its non-null stored values; and the
   * posting list of (f, v) holds, once each, exactly the stored documents
   * whose field f is v.
   */
  ghost predicate IndexInvariant(docs: map<DocId, IndexDocument>, inv: InvertedIndex) {
    && KeyedById(docs)
    && FieldsIndexed(docs, inv)
    && ValuesIndexed(docs, inv)
    && PostingsWellFormed(inv)
    && PostingsSound(docs, inv)
  }

  /** The posting list of value `v` in one field's value dictionary, or nothing. */
  function PostingIn(perField: map<string, seq<DocId>>, v: string): seq<DocId> {
    if v in perField then perField[v] else []
  }

  /** The posting list of (f, v), or nothing when the pair was never indexed. */
  function Posting(inv: InvertedIndex, f: string, v: string): seq<DocId> {
    if f in inv then PostingIn(inv[f], v) else []
  }

  /**
   * The inverted index after the fields `keys` of document `id` have been
   * added: each field becomes a key, and a non-null value gets `id` appended
   * to its posting list.
   */
  function AddPostings(inv: InvertedIndex, id: DocId, fields: map<string, Option<string>>, keys: set<string>): (r: InvertedIndex)
    requires keys <= fields.Keys
    ensures r.Keys == inv.Keys + keys
    ensures forall g | g in inv && g !in keys :: r[g] == inv[g]
  {
    map f | f in inv.Keys + keys ::
      var perField := if f in inv then inv[f] else map[];
      if f in keys && fields[f].Some? then
        perField[fields[f].value := PostingIn(perField, fields[f].value) + [id]]
      else perField
  }

  /** The inverted index after all fields of `d` have been added. */
  function AddDocument(inv: InvertedIndex, d: IndexDocument): (r: InvertedIndex)
    ensures r.Keys == inv.Keys + d.fields.Keys
  {
    AddPostings(inv, d.id, d.fields, d.fields.Keys)
  }

  /**
   * One turn of the field loop of `Index`: field `f` becomes a key, and a
   * non-null value `fv` gets `id` appended to its posting list.
   */
  function AddField(inv: InvertedIndex, id: DocId, f: string, fv: Option<string>): (r: InvertedIndex)
    ensures r.Keys == inv.Keys + {f}
    ensures forall g | g in inv && g != f :: r[g] == inv[g]
    ensures var before := if f in inv then inv[f] else map[];
            && (fv.None? ==> r[f] == before)
            && (fv.Some? ==> r[f].Keys == before.Keys + {fv.value}
                             && r[f][fv.value] == PostingIn(before, fv.value) + [id]
                             && forall v | v in before && v != fv.value :: r[f][v] == before[v])
  {
    var withField := if f in inv then inv else inv[f := map[]];
    if fv.Some? then withField[f := withField[f][fv.value := PostingIn(withField[f], fv.value) + [id]]]
    else withField
  }

  /** Adding one more field to `AddPostings` is one turn of the field loop. */
  lemma AddPostingsStep(inv: InvertedIndex, id: DocId, fields: map<string, Option<string>>, done: set<string>, k: string)
    requires done <= fields.Keys && k in fields && k !in done
    ensures AddPostings(inv, id, fields, done + {k}) == AddField(AddPostings(inv, id, fields, done), id, k, fields[k])
  {
  }

  /** What `AddDocument` does to one posting list and to the key sets. */
  lemma AddDocumentPosting(inv: InvertedIndex, d: IndexDocument, f: string, v: string)
    ensures var n := AddDocument(inv, d);
            && (f in n <==> f in inv || f in d.fields)
            && (f in n ==> (v in n[f] <==> (f in inv && v in inv[f]) || (f in d.fields && d.fields[f] == Some(v))))
            && Posting(n, f, v) == Posting(inv, f, v) + (if f in d.fields && d.fields[f] == Some(v) then [d.id] else [])
  {
  }

  /** `Index` of a new document keeps the invariant. */
  lemma IndexPreservesInvariant(docs: map<DocId, IndexDocument>, inv: InvertedIndex, d: IndexDocument)
    requires IndexInvariant(docs, inv) && d.id !in docs
    ensures IndexInvariant(docs[d.id := d], AddDocument(inv, d))
  {
    AddKeepsFieldsIndexed(docs, inv, d);
    AddKeepsValuesIndexed(docs, inv, d);
    AddKeepsPostingsWellFormed(docs, inv, d);
    AddKeepsPostingsSound(docs, inv, d);
  }

  lemma AddKeepsFieldsIndexed(docs: map<DocId, IndexDocument>, inv: InvertedIndex, d: IndexDocument)
    requires FieldsIndexed(docs, inv) && d.id !in docs
    ensures FieldsIndexed(docs[d.id := d], AddDocument(inv, d))
  {
    var docs' := docs[d.id := d];
    var n := AddDocument(inv, d);
    forall i, f | HasField(docs', i, f) ensures f in n {
      AddDocumentPosting(inv, d, f, "");
      if i != d.id {
        assert HasField(docs, i, f);
      }
    }
    forall f | f in n ensures exists i :: HasField(docs', i, f) {
      AddDocumentPosting(inv, d, f, "");
      if f in d.fields {
        assert HasField(docs', d.id, f);
      } else {
        var i :| HasField(docs, i, f);
        assert HasField(docs', i, f);
      }
    }
  }

  lemma AddKeepsValuesIndexed(docs: map<DocId, IndexDocument>, inv: InvertedIndex, d: IndexDocument)
    requires ValuesIndexed(docs, inv)
    ensures ValuesIndexed(docs[d.id := d], AddDocument(inv, d))
  {
    var docs' := docs[d.id := d];
    var n := AddDocument(inv, d);
    forall i, f, v | HasValue(docs', i, f, v) ensures f in n && v in n[f] && i in n[f][v] {
      AddDocumentPosting(inv, d, f, v);
      if i != d.id {
        assert HasValue(docs, i, f, v);
        assert i in Posting(n, f, v);
      } else {
        assert i in Posting(n, f, v);
      }
    }
  }

  lemma AddKeepsPostingsWellFormed(docs: map<DocId, IndexDocument>, inv: InvertedIndex, d: IndexDocument)
    requires PostingsWellFormed(inv) && PostingsSound(docs, inv) && d.id !in docs
    ensures PostingsWellFormed(AddDocument(inv, d))
  {
    var n := AddDocument(inv, d);
    forall f, v | f in n && v in n[f] ensures |n[f][v]| > 0 && NoDups(n[f][v]) {
      AddDocumentPosting(inv, d, f, v);
      assert n[f][v] == Posting(n, f, v);
      if f in inv && v in inv[f] {
        assert !HasValue(docs, d.id, f, v);
      }
    }
  }

  lemma AddKeepsPostingsSound(docs: map<DocId, IndexDocument>, inv: InvertedIndex, d: IndexDocument)
    requires PostingsSound(docs, inv) && d.id !in docs
    ensures PostingsSound(docs[d.id := d], AddDocument(inv, d))
  {
    var docs' := docs[d.id := d];
    var n := AddDocument(inv, d);
    forall f, v, i | f in n && v in n[f] && i in n[f][v] ensures HasValue(docs', i, f, v) {
      AddDocumentPosting(inv, d, f, v);
      assert i in Posting(n, f, v);
      if i != d.id {
        assert HasValue(docs, i, f, v);
      }
    }
  }

  /** Under the invariant a posting list holds exactly the stored documents with that value. */
  lemma PostingMembers(docs: map<DocId, IndexDocument>, inv: InvertedIndex, f: string, v: string, i: DocId)
    requires IndexInvariant(docs, inv)
    ensures i in Posting(inv, f, v) <==> HasValue(docs, i, f, v)
  {
  }
}
