/**
 * The constraint set of a search: a dictionary from field name to the list of
 * accepted values, enumerated in insertion order.
 */
module SearchOptionsModel {
  import opened Wrappers

  /** One entry of the dictionary: a field and the values accepted for it (OR). */
  datatype Constraint = Constraint(field: string, values: seq<string>)

  /** `Dictionary.Add` rejecting a key that is already present. */
  datatype OptionsError = DuplicateField(field: string)

  /** No field name occurs in two entries. */
  ghost predicate DistinctFields(cs: seq<Constraint>) {
    forall i, j | 0 <= i < j < |cs| :: cs[i].field != cs[j].field
  }

  /** The value list stored for field `f`, or `None` when `f` is not a key. */
  function Lookup(cs: seq<Constraint>, f: string): (r: Option<seq<string>>)
    ensures r.None? <==> forall k | 0 <= k < |cs| :: cs[k].field != f
    ensures r.Some? ==> exists k | 0 <= k < |cs| :: cs[k] == Constraint(f, r.value)
    decreases |cs|
  {
    if cs == [] then None
    else if cs[0].field == f then Some(cs[0].values)
    else
      var r := Lookup(cs[1..], f);
      assert forall k | 1 <= k < |cs| :: cs[k] == cs[1..][k - 1];
      r
  }

  /** In a dictionary with distinct keys every entry is found by its own key. */
  lemma {:induction false} LookupAt(cs: seq<Constraint>, k: nat)
    requires DistinctFields(cs) && k < |cs|
    ensures Lookup(cs, cs[k].field) == Some(cs[k].values)
    decreases k
  {
    if k > 0 {
      LookupAt(cs[1..], k - 1);
    }
  }

  /** Appending an entry for a new key adds that key and leaves every other key as it was. */
  lemma {:induction false} LookupAfterAppend(cs: seq<Constraint>, f: string, vs: seq<string>, g: string)
    requires Lookup(cs, f).None?
    ensures Lookup(cs + [Constraint(f, vs)], g) == if g == f then Some(vs) else Lookup(cs, g)
    decreases |cs|
  {
    if cs != [] {
      assert (cs + [Constraint(f, vs)])[1..] == cs[1..] + [Constraint(f, vs)];
      if cs[0].field != g {
        LookupAfterAppend(cs[1..], f, vs, g);
      }
    }
  }

  /** `IndexSearchOptions`: the constraint dictionary, filled by `SearchBy`. */
  class IndexSearchOptions {
    /** The dictionary's entries in insertion order. */
    var entries: seq<Constraint>

    ghost predicate Valid()
      reads this
    {
      DistinctFields(entries)
    }

    /** A new options object holds no constraint. */
    constructor ()
      ensures Valid() && entries == []
    {
      entries := [];
    }

    /**
     * Adds the constraint `fieldName` -> `fieldValues` after the existing ones,
     * or fails, leaving everything as it was, when `fieldName` is already a key.
     */
    method SearchBy(fieldName: string, fieldValues: seq<string>) returns (r: Outcome<OptionsError>)
      requires Valid()
      modifies this
      ensures Valid()
      ensures r.Fail? <==> old(Lookup(entries, fieldName)).Some?
      ensures r.Fail? ==> r.error == DuplicateField(fieldName) && entries == old(entries)
      ensures r.Pass? ==> entries == old(entries) + [Constraint(fieldName, fieldValues)]
      ensures r.Pass? ==> Lookup(entries, fieldName) == Some(fieldValues)
      ensures r.Pass? ==> forall g :: g != fieldName ==> Lookup(entries, g) == old(Lookup(entries, g))
    {
      if Lookup(entries, fieldName).Some? {
        r := Fail(DuplicateField(fieldName));
      } else {
        forall g ensures Lookup(entries + [Constraint(fieldName, fieldValues)], g)
                         == if g == fieldName then Some(fieldValues) else Lookup(entries, g) {
          LookupAfterAppend(entries, fieldName, fieldValues, g);
        }
        entries := entries + [Constraint(fieldName, fieldValues)];
        r := Pass;
      }
    }
  }
}
