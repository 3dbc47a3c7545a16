/**
 * Column-type annotation as `get_common_type` and `process_cta` in main.py
 * do it: the cell annotations are grouped by (table, column), the types of
 * every entity of a group are concatenated, and the group's type is the
 * majority label of that concatenation.
 */
module ColumnTypes {
  import opened Wrappers
  import opened Text
  import opened Majority
  import opened Batch
  import opened Annotations
  import opened Wikidata

  /** A (TableID, ColumnID) group. */
  datatype ColumnKey = ColumnKey(table: string, col: nat)

  function KeyOf(r: CeaRow): ColumnKey
  {
    ColumnKey(r.table, r.col)
  }

  function ColumnOf(r: CtaRow): ColumnKey
  {
    ColumnKey(r.table, r.col)
  }

  /** The groups `groupby(["TableID", "ColumnID"])` forms. */
  function ColumnKeys(cea: seq<CeaRow>): set<ColumnKey>
  {
    set r | r in cea :: KeyOf(r)
  }

  function IdIn(key: ColumnKey): CeaRow -> Option<string>
  {
    r => if KeyOf(r) == key then Some(LastSegment(r.entity)) else None
  }

  /** `[ent.split("/")[-1] for ent in group["Entity"]]`: the identifiers of
      the group's rows, in row order and with repetitions. */
  function GroupIds(cea: seq<CeaRow>, key: ColumnKey): seq<string>
  {
    Collect(cea, IdIn(key))
  }

  /** `get_wikidata_types(qid)`, the request left abstract. */
  function TypesOf(typesApi: string -> Reply, id: string): seq<string>
  {
    TypeLabels(typesApi(id))
  }

  function TypesOfEach(typesApi: string -> Reply): string -> seq<string>
  {
    id => TypesOf(typesApi, id)
  }

  /** The `types` list `get_common_type` builds: the types of every
      identifier, concatenated in order. */
  function AllTypes(typesApi: string -> Reply, ids: seq<string>): seq<string>
  {
    Flatten(ids, TypesOfEach(typesApi))
  }

  /** The value `get_common_type(ids)` returns. */
  function CommonType(typesApi: string -> Reply, ids: seq<string>): (r: Option<string>)
    ensures r.None? <==> AllTypes(typesApi, ids) == []
    ensures r.Some? ==> r.value in AllTypes(typesApi, ids)
  {
    MostCommon(AllTypes(typesApi, ids))
  }

  /** `get_common_type`: extend a list with the types of each identifier,
      then take the most common label, or None when the list is empty. */
  method GetCommonType(ids: seq<string>, typesApi: string -> Reply) returns (common: Option<string>)
    ensures common == CommonType(typesApi, ids)
  {
    var types: seq<string> := [];
    for i := 0 to |ids|
      invariant types == AllTypes(typesApi, ids[..i])
    {
      assert ids[..i + 1] == ids[..i] + [ids[i]];
      FlattenSnoc(ids[..i], ids[i], TypesOfEach(typesApi));
      types := types + TypesOf(typesApi, ids[i]);
    }
    assert ids[..|ids|] == ids;
    common := MostCommonOf(types);
  }

  /** Votes are per occurrence: an identifier listed once more anywhere in
      the group adds all of its types' votes once more. */
  lemma VotesPerOccurrence(typesApi: string -> Reply, before: seq<string>, id: string, after: seq<string>, t: string)
    ensures Votes(AllTypes(typesApi, before + [id] + after), t)
            == Votes(AllTypes(typesApi, before + after), t) + Votes(TypesOf(typesApi, id), t)
  {
    var f := TypesOfEach(typesApi);
    FlattenAppend(before + [id], after, f);
    FlattenSnoc(before, id, f);
    FlattenAppend(before, after, f);
  }

  /** No type at all exactly when no identifier has a type. */
  lemma {:induction false} CommonTypeNoneIff(typesApi: string -> Reply, ids: seq<string>)
    ensures CommonType(typesApi, ids) == None <==> forall i :: 0 <= i < |ids| ==> TypesOf(typesApi, ids[i]) == []
  {
    if ids != [] {
      var init := ids[..|ids| - 1];
      CommonTypeNoneIff(typesApi, init);
      assert forall i :: 0 <= i < |init| ==> init[i] == ids[i];
    }
  }

  /** Otherwise the type is the label of maximal count in the concatenated
      types, the first one among tied labels. */
  lemma CommonTypeIsFirstMostCommon(typesApi: string -> Reply, ids: seq<string>, t: string)
    ensures CommonType(typesApi, ids) == Some(t) <==> IsFirstMostCommon(AllTypes(typesApi, ids), t)
  {
    MostCommonCharacterised(AllTypes(typesApi, ids), t);
  }

  lemma {:induction false} AllTypesHaveNoSlash(typesApi: string -> Reply, ids: seq<string>)
    ensures forall i :: 0 <= i < |AllTypes(typesApi, ids)| ==> '/' !in AllTypes(typesApi, ids)[i]
  {
    if ids != [] {
      var init, last := ids[..|ids| - 1], ids[|ids| - 1];
      AllTypesHaveNoSlash(typesApi, init);
      assert AllTypes(typesApi, ids) == AllTypes(typesApi, init) + TypeLabels(typesApi(last));
    }
  }

  /** The CTA row of one group, if any: `if common_type:` rejects None and "". */
  function ColumnAnnotation(cea: seq<CeaRow>, typesApi: string -> Reply, key: ColumnKey): (r: Option<CtaRow>)
    ensures r.Some? <==> Truthy(CommonType(typesApi, GroupIds(cea, key)))
    ensures r.Some? ==> ColumnOf(r.value) == key
                        && r.value.typeUri == EntityPrefix + CommonType(typesApi, GroupIds(cea, key)).value
  {
    var common := CommonType(typesApi, GroupIds(cea, key));
    if Truthy(common) then Some(CtaRow(key.table, key.col, EntityPrefix + common.value)) else None
  }

  /** The emitted type URI gives back the group's common type. */
  lemma TypeUriRoundTrip(cea: seq<CeaRow>, typesApi: string -> Reply, key: ColumnKey)
    requires ColumnAnnotation(cea, typesApi, key).Some?
    ensures LastSegment(ColumnAnnotation(cea, typesApi, key).value.typeUri)
            == CommonType(typesApi, GroupIds(cea, key)).value
  {
    var all := AllTypes(typesApi, GroupIds(cea, key));
    AllTypesHaveNoSlash(typesApi, GroupIds(cea, key));
    var t := CommonType(typesApi, GroupIds(cea, key)).value;
    var k :| 0 <= k < |all| && all[k] == t;
    EntityUriRoundTrip(t);
  }

  /** A group whose entities all have the single type `t` is annotated
      with `t`. */
  lemma UnanimousColumn(cea: seq<CeaRow>, typesApi: string -> Reply, key: ColumnKey, t: string)
    requires key in ColumnKeys(cea) && t != ""
    requires forall i :: 0 <= i < |GroupIds(cea, key)| ==> TypesOf(typesApi, GroupIds(cea, key)[i]) == [t]
    ensures ColumnAnnotation(cea, typesApi, key) == Some(CtaRow(key.table, key.col, EntityPrefix + t))
  {
    var ids := GroupIds(cea, key);
    var r :| r in cea && KeyOf(r) == key;
    CollectMembers(cea, IdIn(key), LastSegment(r.entity));
    assert ids != [];
    AllTypesUniform(typesApi, ids, t);
    UnanimousVote(AllTypes(typesApi, ids), t);
  }

  lemma {:induction false} AllTypesUniform(typesApi: string -> Reply, ids: seq<string>, t: string)
    requires forall i :: 0 <= i < |ids| ==> TypesOf(typesApi, ids[i]) == [t]
    ensures |AllTypes(typesApi, ids)| == |ids|
    ensures forall k :: 0 <= k < |AllTypes(typesApi, ids)| ==> AllTypes(typesApi, ids)[k] == t
  {
    if ids != [] {
      AllTypesUniform(typesApi, ids[..|ids| - 1], t);
    }
  }

  function ColumnAnnotationOf(cea: seq<CeaRow>, typesApi: string -> Reply): ColumnKey -> Option<CtaRow>
  {
    key => ColumnAnnotation(cea, typesApi, key)
  }

  /** `process_cta`: one vote per (table, column) group, emitting a row when
      the vote yields a type. Groups are visited in an unspecified order. */
  method ProcessCta(cea: seq<CeaRow>, typesApi: string -> Reply) returns (results: seq<CtaRow>)
    ensures forall i :: 0 <= i < |results| ==>
              ColumnOf(results[i]) in ColumnKeys(cea)
              && ColumnAnnotation(cea, typesApi, ColumnOf(results[i])) == Some(results[i])
    ensures forall key :: key in ColumnKeys(cea) && ColumnAnnotation(cea, typesApi, key).Some? ==>
              ColumnAnnotation(cea, typesApi, key).value in results
    ensures forall i, j :: 0 <= i < j < |results| ==> ColumnOf(results[i]) != ColumnOf(results[j])
  {
    var ann := ColumnAnnotationOf(cea, typesApi);
    results := [];
    var groups := ColumnKeys(cea);
    while groups != {}
      invariant groups <= ColumnKeys(cea)
      invariant Covers(ColumnKeys(cea) - groups, ann, ColumnOf, results)
      decreases groups
    {
      var key :| key in groups;
      var ids := GroupIds(cea, key);
      var common := GetCommonType(ids, typesApi);
      var out := [];
      if Truthy(common) {
        out := [CtaRow(key.table, key.col, EntityPrefix + common.value)];
      }
      assert ann(key) == if Truthy(common) then Some(out[0]) else None;
      CoversOne(key, ann, ColumnOf);
      CoversUnion(ColumnKeys(cea) - groups, results, {key}, out, ann, ColumnOf);
      results := results + out;
      assert ColumnKeys(cea) - (groups - {key}) == (ColumnKeys(cea) - groups) + {key};
      groups := groups - {key};
    }
    forall key | key in ColumnKeys(cea) && ColumnAnnotation(cea, typesApi, key).Some?
      ensures ColumnAnnotation(cea, typesApi, key).value in results
    {
      assert ann(key) == ColumnAnnotation(cea, typesApi, key);
    }
  }
}
