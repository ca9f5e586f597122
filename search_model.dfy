/**
 * What `Indexer.Search` computes, as functions of the inverted index: the
 * union of one field's posting lists, the combination across fields, and the
 * facets; with the properties the search promises.
 */
module SearchModel {
  import opened Wrappers
  import opened Sequences
  import opened IndexTypes
  import opened SearchOptionsModel
  import opened IndexModel

  /** The posting lists of `values` in field `f`, concatenated in order (an unknown pair adds nothing). */
  function Gathered(inv: InvertedIndex, f: string, values: seq<string>): (r: seq<DocId>)
    ensures forall i :: i in r <==> exists k | 0 <= k < |values| :: i in Posting(inv, f, values[k])
    decreases |values|
  {
    if values == [] then []
    else
      var prefix := values[..|values| - 1];
      var r := Gathered(inv, f, prefix) + Posting(inv, f, values[|values| - 1]);
      assert forall k | 0 <= k < |prefix| :: prefix[k] == values[k];
      r
  }

  /** The documents matching field `f` against any of `values`, once each. */
  function FieldUnion(inv: InvertedIndex, f: string, values: seq<string>): (r: seq<DocId>)
    ensures NoDups(r)
    ensures forall i :: i in r <==> exists k | 0 <= k < |values| :: i in Posting(inv, f, values[k])
  {
    Distinct(Gathered(inv, f, values))
  }

  /**
   * One turn of the field loop of the search: a field without values is
   * skipped; otherwise the running result, replaced by the field's union when
   * it is empty, is intersected with that union.
   */
  function Step(inv: InvertedIndex, acc: seq<DocId>, c: Constraint): (r: seq<DocId>)
    ensures |c.values| == 0 ==> r == acc
    ensures |c.values| > 0 ==> NoDups(r)
    ensures |c.values| > 0 ==> forall i :: i in r <==> i in FieldUnion(inv, c.field, c.values) && (|acc| == 0 || i in acc)
  {
    if |c.values| == 0 then acc
    else
      var found := FieldUnion(inv, c.field, c.values);
      Intersect(if |acc| == 0 then acc + found else acc, found)
  }

  /** The running result after the constraints `cs`, in order, starting from `acc`. */
  function Combine(inv: InvertedIndex, cs: seq<Constraint>, acc: seq<DocId>): (r: seq<DocId>)
    ensures NoDups(acc) ==> NoDups(r)
    decreases |cs|
  {
    if cs == [] then acc else Combine(inv, cs[1..], Step(inv, acc, cs[0]))
  }

  /** `i` is in the union of every constraint that has values. */
  ghost predicate Matches(inv: InvertedIndex, cs: seq<Constraint>, i: DocId) {
    forall k | 0 <= k < |cs| && |cs[k].values| > 0 :: i in FieldUnion(inv, cs[k].field, cs[k].values)
  }

  /** `Matches` on two constraints, spelled out. */
  lemma MatchesPair(inv: InvertedIndex, c0: Constraint, c1: Constraint, i: DocId)
    ensures Matches(inv, [c0, c1], i) <==>
              && (|c0.values| > 0 ==> i in FieldUnion(inv, c0.field, c0.values))
              && (|c1.values| > 0 ==> i in FieldUnion(inv, c1.field, c1.values))
  {
    var cs := [c0, c1];
    if Matches(inv, cs, i) {
      assert |cs[0].values| > 0 ==> i in FieldUnion(inv, cs[0].field, cs[0].values);
      assert |cs[1].values| > 0 ==> i in FieldUnion(inv, cs[1].field, cs[1].values);
    }
  }

  /** Some constraint has values. */
  ghost predicate HasActive(cs: seq<Constraint>) {
    exists k | 0 <= k < |cs| :: |cs[k].values| > 0
  }

  /** Under the invariant, the union of a field holds exactly the stored documents whose value there is requested. */
  lemma FieldUnionMeaning(docs: map<DocId, IndexDocument>, inv: InvertedIndex, f: string, values: seq<string>, i: DocId)
    requires IndexInvariant(docs, inv)
    ensures i in FieldUnion(inv, f, values) <==>
              HasField(docs, i, f) && docs[i].fields[f].Some? && docs[i].fields[f].value in values
  {
    if HasField(docs, i, f) && docs[i].fields[f].Some? && docs[i].fields[f].value in values {
      var k :| 0 <= k < |values| && values[k] == docs[i].fields[f].value;
      PostingMembers(docs, inv, f, values[k], i);
    }
    if i in FieldUnion(inv, f, values) {
      var k :| 0 <= k < |values| && i in Posting(inv, f, values[k]);
      PostingMembers(docs, inv, f, values[k], i);
    }
  }

  /** Every id of the combination comes from the start or from some field's union. */
  lemma {:induction false} CombineFromUnions(inv: InvertedIndex, cs: seq<Constraint>, acc: seq<DocId>, i: DocId)
    requires i in Combine(inv, cs, acc)
    ensures i in acc || exists k | 0 <= k < |cs| :: |cs[k].values| > 0 && i in FieldUnion(inv, cs[k].field, cs[k].values)
    decreases |cs|
  {
    if cs != [] {
      var next := Step(inv, acc, cs[0]);
      CombineFromUnions(inv, cs[1..], next, i);
      if i !in next {
        var k :| 0 <= k < |cs[1..]| && |cs[1..][k].values| > 0 && i in FieldUnion(inv, cs[1..][k].field, cs[1..][k].values);
        assert cs[1..][k] == cs[k + 1];
      }
    }
  }

  /** Under the invariant, every id the search yields is a stored document. */
  lemma CombineStored(docs: map<DocId, IndexDocument>, inv: InvertedIndex, cs: seq<Constraint>, i: DocId)
    requires IndexInvariant(docs, inv)
    requires i in Combine(inv, cs, [])
    ensures i in docs
  {
    CombineFromUnions(inv, cs, [], i);
    var k :| 0 <= k < |cs| && |cs[k].values| > 0 && i in FieldUnion(inv, cs[k].field, cs[k].values);
    FieldUnionMeaning(docs, inv, cs[k].field, cs[k].values, i);
  }

  /** Without any constraint that has values the combination leaves its start as it is (the search yields nothing). */
  lemma {:induction false} CombineNoActive(inv: InvertedIndex, cs: seq<Constraint>, acc: seq<DocId>)
    requires !HasActive(cs)
    ensures Combine(inv, cs, acc) == acc
    decreases |cs|
  {
    if cs != [] {
      assert |cs[0].values| == 0;
      assert forall k | 0 <= k < |cs[1..]| :: cs[1..][k] == cs[k + 1];
      CombineNoActive(inv, cs[1..], acc);
    }
  }

  /** From an empty running result, a constraint with values yields its union. */
  lemma StepFromEmpty(inv: InvertedIndex, c: Constraint)
    requires |c.values| > 0
    ensures Step(inv, [], c) == FieldUnion(inv, c.field, c.values)
  {
    var found := FieldUnion(inv, c.field, c.values);
    assert [] + found == found;
    IntersectSelf(found);
  }

  /** A single field with values gives its plain union. */
  lemma CombineSingle(inv: InvertedIndex, c: Constraint)
    requires |c.values| > 0
    ensures Combine(inv, [c], []) == FieldUnion(inv, c.field, c.values)
  {
    StepFromEmpty(inv, c);
  }

  /**
   * Two constraints with values: the second union when the first is empty,
   * and otherwise the intersection of the two unions, which may be empty.
   */
  lemma CombinePair(inv: InvertedIndex, c0: Constraint, c1: Constraint)
    requires |c0.values| > 0 && |c1.values| > 0
    ensures var u0, u1 := FieldUnion(inv, c0.field, c0.values), FieldUnion(inv, c1.field, c1.values);
            Combine(inv, [c0, c1], []) == if u0 == [] then u1 else Intersect(u0, u1)
  {
    var u0 := FieldUnion(inv, c0.field, c0.values);
    StepFromEmpty(inv, c0);
    assert [c0, c1][1..] == [c1];
    assert Combine(inv, [c0, c1], []) == Combine(inv, [c1], u0) == Step(inv, u0, c1);
    if u0 == [] {
      StepFromEmpty(inv, c1);
    }
  }

  /** An id in the union of every constraint with values is in the result: the search never loses a document that matches all of them. */
  lemma {:induction false} CombineKeepsMatches(inv: InvertedIndex, cs: seq<Constraint>, acc: seq<DocId>, i: DocId)
    requires Matches(inv, cs, i)
    requires acc == [] || i in acc
    requires acc == [] ==> HasActive(cs)
    ensures i in Combine(inv, cs, acc)
    decreases |cs|
  {
    if cs != [] {
      MatchesCons(inv, cs, i);
      var next := Step(inv, acc, cs[0]);
      if |cs[0].values| > 0 {
        assert i in next;
      } else if acc == [] {
        assert HasActive(cs[1..]) by {
          var k :| 0 <= k < |cs| && |cs[k].values| > 0;
          assert k > 0 && cs[1..][k - 1] == cs[k];
        }
      }
      CombineKeepsMatches(inv, cs[1..], next, i);
    }
  }

  /** Matching a non-empty constraint list is matching its first constraint and the rest. */
  lemma MatchesCons(inv: InvertedIndex, cs: seq<Constraint>, i: DocId)
    requires cs != []
    ensures Matches(inv, cs, i) <==>
              (|cs[0].values| > 0 ==> i in FieldUnion(inv, cs[0].field, cs[0].values)) && Matches(inv, cs[1..], i)
  {
    if (|cs[0].values| > 0 ==> i in FieldUnion(inv, cs[0].field, cs[0].values)) && Matches(inv, cs[1..], i) {
      forall k | 0 < k < |cs| && |cs[k].values| > 0 ensures i in FieldUnion(inv, cs[k].field, cs[k].values) {
        assert cs[1..][k - 1] == cs[k];
      }
    }
    if Matches(inv, cs, i) {
      forall k | 0 <= k < |cs[1..]| && |cs[1..][k].values| > 0
        ensures i in FieldUnion(inv, cs[1..][k].field, cs[1..][k].values) {
        assert cs[1..][k] == cs[k + 1];
      }
    }
  }

  /** From a non-empty start that matches, the combination is the plain intersection of the start with every union. */
  lemma {:induction false} CombineIntersectsFrom(inv: InvertedIndex, cs: seq<Constraint>, acc: seq<DocId>, w: DocId, i: DocId)
    requires w in acc && Matches(inv, cs, w)
    ensures i in Combine(inv, cs, acc) <==> i in acc && Matches(inv, cs, i)
    decreases |cs|
  {
    if cs != [] {
      var next := Step(inv, acc, cs[0]);
      MatchesCons(inv, cs, w);
      MatchesCons(inv, cs, i);
      assert w in next;
      CombineIntersectsFrom(inv, cs[1..], next, w, i);
    }
  }

  /**
   * When some document matches every constraint with values, the search is a
   * plain conjunction: its result holds exactly the ids in every such union.
   */
  lemma {:induction false} CombineIsConjunction(inv: InvertedIndex, cs: seq<Constraint>, w: DocId, i: DocId)
    requires HasActive(cs) && Matches(inv, cs, w)
    ensures i in Combine(inv, cs, []) <==> Matches(inv, cs, i)
    decreases |cs|
  {
    MatchesCons(inv, cs, w);
    MatchesCons(inv, cs, i);
    assert Combine(inv, cs, []) == Combine(inv, cs[1..], Step(inv, [], cs[0]));
    if |cs[0].values| == 0 {
      assert Step(inv, [], cs[0]) == [];
      assert HasActive(cs[1..]) by {
        var k :| 0 <= k < |cs| && |cs[k].values| > 0;
        assert k > 0 && cs[1..][k - 1] == cs[k];
      }
      CombineIsConjunction(inv, cs[1..], w, i);
    } else {
      StepFromEmpty(inv, cs[0]);
      CombineIntersectsFrom(inv, cs[1..], FieldUnion(inv, cs[0].field, cs[0].values), w, i);
    }
  }

  /** Searching by a field that no stored document has finds nothing. */
  lemma UnknownFieldFindsNothing(docs: map<DocId, IndexDocument>, inv: InvertedIndex, f: string, values: seq<string>)
    requires IndexInvariant(docs, inv)
    requires forall i :: !HasField(docs, i, f)
    ensures Combine(inv, [Constraint(f, values)], []) == []
  {
    var found := FieldUnion(inv, f, values);
    if found != [] {
      FieldUnionMeaning(docs, inv, f, values, found[0]);
      assert false;
    }
    if |values| > 0 {
      CombineSingle(inv, Constraint(f, values));
    }
  }

  /**
   * The combination is not a plain conjunction: a first constraint that
   * matches nothing leaves the running result empty, and the next constraint
   * with values then replaces it, as if the first had not been given.
   */
  lemma IgnoresLeadingMiss(inv: InvertedIndex, c: Constraint, rest: seq<Constraint>)
    requires FieldUnion(inv, c.field, c.values) == []
    ensures Combine(inv, [c] + rest, []) == Combine(inv, rest, [])
  {
    assert ([c] + rest)[1..] == rest;
    assert Step(inv, [], c) == [];
  }

  /** Folding two lists of constraints is folding the first, then the second from its result. */
  lemma {:induction false} CombineAppend(inv: InvertedIndex, pre: seq<Constraint>, post: seq<Constraint>, acc: seq<DocId>)
    ensures Combine(inv, pre + post, acc) == Combine(inv, post, Combine(inv, pre, acc))
    decreases |pre|
  {
    if pre == [] {
      assert pre + post == post;
    } else {
      assert (pre + post)[0] == pre[0] && (pre + post)[1..] == pre[1..] + post;
      CombineAppend(inv, pre[1..], post, Step(inv, acc, pre[0]));
    }
  }

  /** The last constraint is the last step of the fold. */
  lemma CombineSnoc(inv: InvertedIndex, cs: seq<Constraint>, acc: seq<DocId>)
    requires cs != []
    ensures Combine(inv, cs, acc) == Step(inv, Combine(inv, cs[..|cs| - 1], acc), cs[|cs| - 1])
  {
    var n := |cs| - 1;
    assert cs == cs[..n] + [cs[n]];
    CombineAppend(inv, cs[..n], [cs[n]], acc);
    var x := Combine(inv, cs[..n], acc);
    assert [cs[n]][1..] == [];
    assert Combine(inv, [cs[n]], x) == Combine(inv, [], Step(inv, x, cs[n]));
  }

  /**
   * The restart is general: whenever the running result becomes empty at a
   * constraint with values, every constraint before it is forgotten and the
   * search goes on as if it started after that constraint.
   */
  lemma EmptyStepRestarts(inv: InvertedIndex, pre: seq<Constraint>, c: Constraint, rest: seq<Constraint>)
    requires |c.values| > 0 && Step(inv, Combine(inv, pre, []), c) == []
    ensures Combine(inv, pre + [c] + rest, []) == Combine(inv, rest, [])
  {
    CombineAppend(inv, pre, [c] + rest, []);
    assert pre + [c] + rest == pre + ([c] + rest);
    assert ([c] + rest)[1..] == rest;
  }

  /** Matching a non-empty constraint list is matching all but its last constraint, and its last. */
  lemma MatchesSnoc(inv: InvertedIndex, cs: seq<Constraint>, i: DocId)
    requires cs != []
    ensures var n := |cs| - 1;
            Matches(inv, cs, i) <==>
              Matches(inv, cs[..n], i) && (|cs[n].values| > 0 ==> i in FieldUnion(inv, cs[n].field, cs[n].values))
  {
    var n := |cs| - 1;
    if Matches(inv, cs, i) {
      forall k | 0 <= k < n && |cs[..n][k].values| > 0
        ensures i in FieldUnion(inv, cs[..n][k].field, cs[..n][k].values) {
        assert cs[..n][k] == cs[k];
      }
    }
    if Matches(inv, cs[..n], i) && (|cs[n].values| > 0 ==> i in FieldUnion(inv, cs[n].field, cs[n].values)) {
      forall k | 0 <= k < |cs| && |cs[k].values| > 0 ensures i in FieldUnion(inv, cs[k].field, cs[k].values) {
        if k < n { assert cs[..n][k] == cs[k]; }
      }
    }
  }

  /**
   * When the first constraint has values and the running result is still
   * non-empty before every later constraint with values, no restart happens
   * and the search is a plain conjunction: its result holds exactly the ids in
   * every union.
   */
  lemma {:induction false} NoRestartIsConjunction(inv: InvertedIndex, cs: seq<Constraint>, i: DocId)
    requires |cs| > 0 && |cs[0].values| > 0
    requires forall k | 1 <= k < |cs| && |cs[k].values| > 0 :: Combine(inv, cs[..k], []) != []
    ensures i in Combine(inv, cs, []) <==> Matches(inv, cs, i)
    decreases |cs|
  {
    var n := |cs| - 1;
    var pre, c := cs[..n], cs[n];
    CombineSnoc(inv, cs, []);
    MatchesSnoc(inv, cs, i);
    if n == 0 {
      assert Combine(inv, pre, []) == [];
      StepFromEmpty(inv, c);
    } else {
      NoRestartPrefix(inv, cs);
      NoRestartIsConjunction(inv, pre, i);
      StepOfNonEmpty(inv, Combine(inv, pre, []), c, i);
    }
  }

  /** The premise of `NoRestartIsConjunction` passes to all but the last constraint. */
  lemma NoRestartPrefix(inv: InvertedIndex, cs: seq<Constraint>)
    requires |cs| > 1 && |cs[0].values| > 0
    requires forall k | 1 <= k < |cs| && |cs[k].values| > 0 :: Combine(inv, cs[..k], []) != []
    ensures var pre := cs[..|cs| - 1];
            && |pre[0].values| > 0
            && (forall k | 1 <= k < |pre| && |pre[k].values| > 0 :: Combine(inv, pre[..k], []) != [])
            && (|cs[|cs| - 1].values| > 0 ==> Combine(inv, pre, []) != [])
  {
    var pre := cs[..|cs| - 1];
    forall k | 1 <= k < |pre| && |pre[k].values| > 0 ensures Combine(inv, pre[..k], []) != [] {
      assert pre[..k] == cs[..k] && pre[k] == cs[k];
    }
  }

  /** From a non-empty running result, a step with values keeps exactly the ids also in its union. */
  lemma StepOfNonEmpty(inv: InvertedIndex, acc: seq<DocId>, c: Constraint, i: DocId)
    requires |c.values| > 0 ==> acc != []
    ensures i in Step(inv, acc, c) <==> i in acc && (|c.values| > 0 ==> i in FieldUnion(inv, c.field, c.values))
  {
  }

  /**
   * The facets of field `f` for the result `ids`: every observed value of `f`
   * exactly once, each with the number of result ids in its posting list.
   */
  ghost predicate FacetListFor(inv: InvertedIndex, f: string, ids: seq<DocId>, facets: seq<Facet>)
    requires f in inv
  {
    && (forall k | 0 <= k < |facets| ::
          facets[k].facetName in inv[f] && facets[k].count == |Intersect(ids, inv[f][facets[k].facetName])|)
    && (forall j, k | 0 <= j < k < |facets| :: facets[j].facetName != facets[k].facetName)
    && (forall v | v in inv[f] :: exists k | 0 <= k < |facets| :: facets[k].facetName == v)
  }

  /** One facet list per field of the inverted index, queried or not. */
  ghost predicate FacetsFor(inv: InvertedIndex, ids: seq<DocId>, results: map<string, seq<Facet>>) {
    && results.Keys == inv.Keys
    && forall f | f in results :: FacetListFor(inv, f, ids, results[f])
  }

  /** The documents of `ids` whose field `f` is `v`. */
  ghost function Holders(docs: map<DocId, IndexDocument>, ids: seq<DocId>, f: string, v: string): set<DocId> {
    set i | i in ids && HasValue(docs, i, f, v)
  }

  /**
   * Under the invariant a facet count is the number of result documents
   * holding that value, and so is at most the number of results.
   */
  lemma FacetCountMeaning(docs: map<DocId, IndexDocument>, inv: InvertedIndex, f: string, ids: seq<DocId>,
                          facets: seq<Facet>, k: nat)
    requires IndexInvariant(docs, inv) && f in inv && FacetListFor(inv, f, ids, facets) && k < |facets|
    ensures facets[k].count == |Holders(docs, ids, f, facets[k].facetName)|
    ensures facets[k].count <= |ids|
  {
    var v := facets[k].facetName;
    var p := inv[f][v];
    IntersectCard(ids, p);
    forall i ensures i in Elems(ids) * Elems(p) <==> i in Holders(docs, ids, f, v) {
      PostingMembers(docs, inv, f, v, i);
    }
    assert Elems(ids) * Elems(p) == Holders(docs, ids, f, v);
    assert |Intersect(ids, p)| <= |ids|;
  }

  /** A facet list names each observed value in exactly one entry. */
  lemma FacetNamed(inv: InvertedIndex, f: string, ids: seq<DocId>, facets: seq<Facet>, v: string)
    requires f in inv && FacetListFor(inv, f, ids, facets) && v in inv[f]
    ensures exists k | 0 <= k < |facets| :: facets[k].facetName == v &&
              (forall j | 0 <= j < |facets| && j != k :: facets[j].facetName != v)
  {
    var k :| 0 <= k < |facets| && facets[k].facetName == v;
    forall j | 0 <= j < |facets| && j != k ensures facets[j].facetName != v {
      if j < k { assert facets[j].facetName != facets[k].facetName; }
      else { assert facets[k].facetName != facets[j].facetName; }
    }
  }

  /** Under the invariant every observed value is held by the first document of its posting list. */
  lemma ObservedValueHasHolder(docs: map<DocId, IndexDocument>, inv: InvertedIndex, f: string, v: string)
    requires IndexInvariant(docs, inv) && f in inv && v in inv[f]
    ensures HasValue(docs, inv[f][v][0], f, v)
  {
    assert inv[f][v][0] in inv[f][v];
  }

  /** A field that every stored document leaves null has an empty facet list. */
  lemma NullOnlyFieldHasNoFacets(docs: map<DocId, IndexDocument>, inv: InvertedIndex, f: string,
                                 ids: seq<DocId>, facets: seq<Facet>)
    requires IndexInvariant(docs, inv) && f in inv && FacetListFor(inv, f, ids, facets)
    requires forall i | HasField(docs, i, f) :: docs[i].fields[f].None?
    ensures facets == []
  {
    if facets != [] {
      ObservedValueHasHolder(docs, inv, f, facets[0].facetName);
      assert false;
    }
  }

  /** Under the invariant the facet fields are exactly the field names of the stored documents. */
  lemma FacetFieldsAreDocumentFields(docs: map<DocId, IndexDocument>, inv: InvertedIndex, ids: seq<DocId>,
                                     results: map<string, seq<Facet>>, f: string)
    requires IndexInvariant(docs, inv) && FacetsFor(inv, ids, results)
    ensures f in results <==> exists i :: HasField(docs, i, f)
  {
  }
}
