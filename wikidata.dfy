/**
 * The pure selection steps of the Wikidata helpers: what each keeps of a
 * reply once the request itself (left abstract) has been answered.
 */
module Wikidata {
  import opened Wrappers
  import opened Text

  /** The outcome of one request. `Failed` stands for every exception raised
      before the result list is in hand (transport error, timeout, a body that
      is not JSON or lacks the list). An `Answer` carries the HTTP status and,
      for each element of the result list, the requested field (`None` when
      the element lacks it, which makes Python raise a KeyError). */
  datatype Reply = Failed | Answer(status: int, values: seq<Option<string>>)

  /** Every element of the result list carries the requested field. */
  predicate Complete(values: seq<Option<string>>)
  {
    forall i :: 0 <= i < |values| ==> values[i].Some?
  }

  /** Marker of a direct ("truthy") property in a predicate URI. */
  const DirectMarker: string := "/prop/direct/"

  /** `search_entity` of main.py: the id of the first search hit; None when
      there is no hit or an exception occurs. */
  function FirstSearchHit(reply: Reply): (r: Option<string>)
    ensures r.Some? <==> reply.Answer? && reply.values != [] && reply.values[0].Some?
    ensures r.Some? ==> r == reply.values[0]
  {
    if reply.Failed? || reply.values == [] then None else reply.values[0]
  }

  /** Only the top-ranked hit matters: hits after it never change the result. */
  lemma FirstSearchHitIgnoresRest(status: int, top: Option<string>, rest: seq<Option<string>>, rest': seq<Option<string>>)
    ensures FirstSearchHit(Answer(status, [top] + rest)) == FirstSearchHit(Answer(status, [top] + rest')) == top
  {
  }

  /** `search_entity` of cea.py: the item of the first binding, and None when
      the status is not 200, when there is no binding, or on an exception. */
  function FirstBindingItem(reply: Reply): (r: Option<string>)
    ensures r.Some? <==> reply.Answer? && reply.status == 200 && reply.values != [] && reply.values[0].Some?
    ensures r.Some? ==> r == reply.values[0]
  {
    match reply
    case Failed => None
    case Answer(status, values) =>
      if status != 200 then None
      else if values == [] then None
      else values[0]
  }

  /** `get_wikidata_types`: the last path segment of every type URI bound,
      or no types at all when an exception occurs. */
  function TypeLabels(reply: Reply): (r: seq<string>)
    ensures reply.Failed? || !Complete(reply.values) ==> r == []
    ensures reply.Answer? && Complete(reply.values) ==>
              |r| == |reply.values|
              && forall i :: 0 <= i < |r| ==> r[i] == LastSegment(reply.values[i].value)
    ensures forall i :: 0 <= i < |r| ==> '/' !in r[i]
  {
    if reply.Failed? || !Complete(reply.values) then []
    else seq(|reply.values|, i requires 0 <= i < |reply.values| => LastSegment(reply.values[i].value))
  }

  /** The last segment of the first value that names a direct property. */
  function FirstDirect(values: seq<Option<string>>): (r: Option<string>)
    requires Complete(values)
    ensures r.Some? ==> '/' !in r.value
  {
    if values == [] then None
    else if Contains(values[0].value, DirectMarker) then Some(LastSegment(values[0].value))
    else FirstDirect(values[1..])
  }

  /** A property found is the last segment of a value naming a direct
      property, and no earlier value names one. */
  lemma {:induction false} FirstDirectAt(values: seq<Option<string>>) returns (i: nat)
    requires Complete(values) && FirstDirect(values).Some?
    ensures i < |values| && Contains(values[i].value, DirectMarker)
    ensures forall j :: 0 <= j < i ==> !Contains(values[j].value, DirectMarker)
    ensures FirstDirect(values).value == LastSegment(values[i].value)
  {
    if Contains(values[0].value, DirectMarker) {
      return 0;
    }
    var rest := values[1..];
    assert forall k :: 0 <= k < |rest| ==> rest[k] == values[k + 1];
    var k := FirstDirectAt(rest);
    i := k + 1;
    forall j | 0 <= j < i
      ensures !Contains(values[j].value, DirectMarker)
    {
      if j > 0 { assert values[j] == rest[j - 1]; }
    }
  }

  /** No property is found only when no value names a direct property. */
  lemma {:induction false} FirstDirectNone(values: seq<Option<string>>)
    requires Complete(values) && FirstDirect(values).None?
    ensures forall i :: 0 <= i < |values| ==> !Contains(values[i].value, DirectMarker)
  {
    if values != [] {
      var rest := values[1..];
      assert forall k :: 0 <= k < |rest| ==> rest[k] == values[k + 1];
      FirstDirectNone(rest);
      forall i | 0 < i < |values|
        ensures !Contains(values[i].value, DirectMarker)
      {
        assert values[i] == rest[i - 1];
      }
    }
  }

  /** A property comes back exactly when some value names a direct
      property, and it is the last segment of the first such value. */
  lemma FirstDirectFound(values: seq<Option<string>>)
    requires Complete(values)
    ensures FirstDirect(values).Some? <==> exists i :: 0 <= i < |values| && Contains(values[i].value, DirectMarker)
    ensures FirstDirect(values).Some? ==>
              exists i :: 0 <= i < |values| && Contains(values[i].value, DirectMarker)
                          && (forall j :: 0 <= j < i ==> !Contains(values[j].value, DirectMarker))
                          && FirstDirect(values).value == LastSegment(values[i].value)
  {
    if FirstDirect(values).Some? {
      var i := FirstDirectAt(values);
    } else {
      FirstDirectNone(values);
    }
  }

  /** `get_wikidata_property`: the first bound predicate that is a direct
      property, reduced to its last segment; None when there is none or an
      exception occurs. */
  function DirectProperty(reply: Reply): (r: Option<string>)
    ensures r.Some? ==> reply.Answer? && Complete(reply.values)
    ensures r.Some? ==> '/' !in r.value
    ensures reply.Answer? && Complete(reply.values) ==> r == FirstDirect(reply.values)
  {
    if reply.Failed? || !Complete(reply.values) then None else FirstDirect(reply.values)
  }
}
