/**
 * Majority vote as Python's `Counter(labels).most_common(1)[0][0]` computes
 * it: the label with the highest count, and among labels tied on that count
 * the one that occurs first (a Counter keeps first-insertion order and
 * `most_common(1)` takes the first maximum).
 */
module Majority {
  import opened Wrappers

  /** Number of votes `x` receives in `labels`. */
  function Votes(labels: seq<string>, x: string): nat
  {
    multiset(labels)[x]
  }

  /** Position of the first occurrence of `x`. */
  function FirstIndex(s: seq<string>, x: string): (i: nat)
    requires x in s
    ensures i < |s| && s[i] == x
    ensures forall k :: 0 <= k < i ==> s[k] != x
  {
    if s[0] == x then 0 else 1 + FirstIndex(s[1..], x)
  }

  /** `v` has the most votes, and every label occurring before `v`'s first
      occurrence has strictly fewer: the tie-break is first occurrence. */
  ghost predicate IsFirstMostCommon(labels: seq<string>, v: string)
  {
    && v in labels
    && (forall k :: 0 <= k < |labels| ==> Votes(labels, labels[k]) <= Votes(labels, v))
    && (forall k :: 0 <= k < FirstIndex(labels, v) ==> Votes(labels, labels[k]) < Votes(labels, v))
  }

  /** Scan for the first label of maximal count, starting at position `i`
      with `b` the leader among `labels[..i]`. */
  function Leader(labels: seq<string>, i: nat, b: nat): (r: nat)
    requires b < i <= |labels|
    requires forall k :: 0 <= k < i ==> Votes(labels, labels[k]) <= Votes(labels, labels[b])
    requires forall k :: 0 <= k < b ==> Votes(labels, labels[k]) < Votes(labels, labels[b])
    ensures b <= r < |labels|
    ensures forall k :: 0 <= k < |labels| ==> Votes(labels, labels[k]) <= Votes(labels, labels[r])
    ensures forall k :: 0 <= k < r ==> Votes(labels, labels[k]) < Votes(labels, labels[r])
    decreases |labels| - i
  {
    if i == |labels| then b
    else if Votes(labels, labels[i]) > Votes(labels, labels[b]) then Leader(labels, i + 1, i)
    else Leader(labels, i + 1, b)
  }

  /** The majority label, or None when there are no votes at all. */
  function MostCommon(labels: seq<string>): (r: Option<string>)
    ensures r.None? <==> labels == []
    ensures r.Some? ==> r.value in labels
  {
    if labels == [] then None else Some(labels[Leader(labels, 1, 0)])
  }

  /** The label MostCommon picks is the first label of maximal count. */
  lemma MostCommonIsFirstMostCommon(labels: seq<string>)
    requires labels != []
    ensures IsFirstMostCommon(labels, MostCommon(labels).value)
  {
    var r := Leader(labels, 1, 0);
    assert FirstIndex(labels, labels[r]) == r;
  }

  /** At most one label is the first label of maximal count. */
  lemma FirstMostCommonUnique(labels: seq<string>, v: string, w: string)
    requires IsFirstMostCommon(labels, v) && IsFirstMostCommon(labels, w)
    ensures v == w
  {
    var iv, iw := FirstIndex(labels, v), FirstIndex(labels, w);
    assert Votes(labels, labels[iv]) <= Votes(labels, w);
    assert Votes(labels, labels[iw]) <= Votes(labels, v);
  }

  /** MostCommon is characterised completely by IsFirstMostCommon. */
  lemma MostCommonCharacterised(labels: seq<string>, v: string)
    ensures MostCommon(labels) == Some(v) <==> IsFirstMostCommon(labels, v)
  {
    if labels != [] {
      MostCommonIsFirstMostCommon(labels);
      if IsFirstMostCommon(labels, v) {
        FirstMostCommonUnique(labels, v, MostCommon(labels).value);
      }
    }
  }

  /** A label with strictly more votes than every other label wins,
      whatever the order of the votes. */
  lemma StrictMajorityWins(labels: seq<string>, v: string)
    requires v in labels
    requires forall x :: x != v && x in labels ==> Votes(labels, x) < Votes(labels, v)
    ensures MostCommon(labels) == Some(v)
  {
    MostCommonIsFirstMostCommon(labels);
  }

  /** The vote is order independent when one label has a strict majority:
      two orderings of the same votes elect the same label. */
  lemma StrictMajorityOrderIndependent(labels: seq<string>, shuffled: seq<string>, v: string)
    requires multiset(labels) == multiset(shuffled)
    requires v in labels
    requires forall x :: x != v && x in labels ==> Votes(labels, x) < Votes(labels, v)
    ensures MostCommon(labels) == MostCommon(shuffled) == Some(v)
  {
    StrictMajorityWins(labels, v);
    assert v in multiset(shuffled);
    forall x | x != v && x in shuffled
      ensures Votes(shuffled, x) < Votes(shuffled, v)
    {
      assert x in multiset(labels);
    }
    StrictMajorityWins(shuffled, v);
  }

  /** A unanimous vote elects its only label. */
  lemma UnanimousVote(labels: seq<string>, v: string)
    requires labels != []
    requires forall k :: 0 <= k < |labels| ==> labels[k] == v
    ensures MostCommon(labels) == Some(v)
  {
    assert labels[0] == v;
    StrictMajorityWins(labels, v);
  }

  /** The count of every label seen so far, as a Counter holds it, together
      with the labels in first-insertion order. */
  ghost predicate Tallied(labels: seq<string>, n: nat, counts: map<string, nat>, order: seq<string>)
    requires n <= |labels|
  {
    && (forall x :: x in counts <==> x in labels[..n])
    && (forall a :: 0 <= a < |order| ==> order[a] in counts)
    && (forall x :: x in counts ==> x in order)
    && (forall x :: x in counts ==> counts[x] == Votes(labels[..n], x))
    && (forall a, b :: 0 <= a < b < |order| ==> FirstIndex(labels, order[a]) < FirstIndex(labels, order[b]))
  }

  lemma FirstIndexBefore(labels: seq<string>, n: nat, x: string)
    requires n <= |labels| && x in labels[..n]
    ensures FirstIndex(labels, x) < n
  {
    var k :| 0 <= k < n && labels[..n][k] == x;
    assert labels[k] == x;
  }

  /** Building a Counter: one pass over the labels, adding each new label
      at the end of the insertion order and incrementing known ones. */
  method Tally(labels: seq<string>) returns (counts: map<string, nat>, order: seq<string>)
    ensures Tallied(labels, |labels|, counts, order)
  {
    counts, order := map[], [];
    var n := 0;
    while n < |labels|
      invariant n <= |labels|
      invariant Tallied(labels, n, counts, order)
    {
      var x := labels[n];
      if x in counts {
        TallyKnown(labels, n, counts, order);
        counts := counts[x := counts[x] + 1];
      } else {
        TallyNew(labels, n, counts, order);
        counts := counts[x := 1];
        order := order + [x];
      }
      n := n + 1;
    }
  }

  lemma TallyKnown(labels: seq<string>, n: nat, counts: map<string, nat>, order: seq<string>)
    requires n < |labels| && Tallied(labels, n, counts, order)
    requires labels[n] in counts
    ensures Tallied(labels, n + 1, counts[labels[n] := counts[labels[n]] + 1], order)
  {
    assert labels[..n + 1] == labels[..n] + [labels[n]];
  }

  lemma TallyNew(labels: seq<string>, n: nat, counts: map<string, nat>, order: seq<string>)
    requires n < |labels| && Tallied(labels, n, counts, order)
    requires labels[n] !in counts
    ensures Tallied(labels, n + 1, counts[labels[n] := 1], order + [labels[n]])
  {
    var x := labels[n];
    assert labels[..n + 1] == labels[..n] + [x];
    assert FirstIndex(labels, x) == n;
    forall a | 0 <= a < |order|
      ensures FirstIndex(labels, order[a]) < n
    {
      FirstIndexBefore(labels, n, order[a]);
    }
  }

  /** In a complete tally, every label has its entry, holding its votes. */
  lemma EntryOf(labels: seq<string>, counts: map<string, nat>, order: seq<string>, x: string) returns (a: nat)
    requires Tallied(labels, |labels|, counts, order)
    requires x in labels
    ensures a < |order| && order[a] == x && counts[x] == Votes(labels, x)
  {
    assert labels[..|labels|] == labels;
    assert x in counts;
    a :| 0 <= a < |order| && order[a] == x;
  }

  /** The first entry of maximal count in a complete tally is the first
      most common label. */
  lemma FirstMaximalEntry(labels: seq<string>, counts: map<string, nat>, order: seq<string>, best: nat)
    requires Tallied(labels, |labels|, counts, order)
    requires best < |order|
    requires forall a :: 0 <= a < |order| ==> counts[order[a]] <= counts[order[best]]
    requires forall a :: 0 <= a < best ==> counts[order[a]] < counts[order[best]]
    ensures IsFirstMostCommon(labels, order[best])
  {
    var v := order[best];
    assert labels[..|labels|] == labels;
    assert v in labels;
    var b := EntryOf(labels, counts, order, v);
    forall k | 0 <= k < |labels|
      ensures Votes(labels, labels[k]) <= Votes(labels, v)
    {
      var a := EntryOf(labels, counts, order, labels[k]);
      assert counts[order[a]] <= counts[order[best]];
    }
    forall k | 0 <= k < FirstIndex(labels, v)
      ensures Votes(labels, labels[k]) < Votes(labels, v)
    {
      var a := EntryOf(labels, counts, order, labels[k]);
      assert FirstIndex(labels, order[a]) <= k;
      assert a < best;
      assert counts[order[a]] < counts[order[best]];
    }
  }

  /** The first position of `order` whose count is maximal. */
  method FirstMaximal(counts: map<string, nat>, order: seq<string>) returns (best: nat)
    requires order != [] && forall a :: 0 <= a < |order| ==> order[a] in counts
    ensures best < |order|
    ensures forall a :: 0 <= a < |order| ==> counts[order[a]] <= counts[order[best]]
    ensures forall a :: 0 <= a < best ==> counts[order[a]] < counts[order[best]]
  {
    best := 0;
    var j := 1;
    while j < |order|
      invariant best < j <= |order|
      invariant forall a :: 0 <= a < j ==> counts[order[a]] <= counts[order[best]]
      invariant forall a :: 0 <= a < best ==> counts[order[a]] < counts[order[best]]
    {
      if counts[order[j]] > counts[order[best]] {
        best := j;
      }
      j := j + 1;
    }
  }

  /** `Counter(labels).most_common(1)`: count every label, then take the
      first entry, in insertion order, of maximal count. */
  method MostCommonOf(labels: seq<string>) returns (r: Option<string>)
    ensures r == MostCommon(labels)
  {
    var counts, order := Tally(labels);
    if order == [] {
      assert labels[..|labels|] == labels;
      return None;
    }
    var best := FirstMaximal(counts, order);
    FirstMaximalEntry(labels, counts, order, best);
    MostCommonCharacterised(labels, order[best]);
    r := Some(order[best]);
  }
}
