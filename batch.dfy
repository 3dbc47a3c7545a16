/**
 * The shape shared by both cell-annotation loops: walk a list of items in
 * order and append at most one output per item.
 */
module Batch {
  import opened Wrappers

  /** Outputs of `f` over `items`, in item order, skipping items it maps to None. */
  function Collect<T, R>(items: seq<T>, f: T -> Option<R>): (out: seq<R>)
    ensures |out| <= |items|
  {
    if items == [] then []
    else
      var init := Collect(items[..|items| - 1], f);
      match f(items[|items| - 1])
      case None => init
      case Some(y) => init + [y]
  }

  /** One more item extends the outputs by that item's output, if any. */
  lemma CollectSnoc<T, R>(items: seq<T>, i: nat, f: T -> Option<R>)
    requires i < |items|
    ensures Collect(items[..i + 1], f)
            == Collect(items[..i], f) + (if f(items[i]).Some? then [f(items[i]).value] else [])
  {
    assert items[..i + 1][..i] == items[..i];
  }

  lemma {:induction false} CollectAppend<T, R>(xs: seq<T>, ys: seq<T>, f: T -> Option<R>)
    ensures Collect(xs + ys, f) == Collect(xs, f) + Collect(ys, f)
    decreases |ys|
  {
    if ys != [] {
      var zs := xs + ys;
      assert zs[..|zs| - 1] == xs + ys[..|ys| - 1];
      assert zs[|zs| - 1] == ys[|ys| - 1];
      CollectAppend(xs, ys[..|ys| - 1], f);
    } else {
      assert xs + ys == xs;
    }
  }

  /** An item that produces nothing leaves the outputs of the others exactly
      as they would be without it. */
  lemma SkippedItemInvisible<T, R>(items: seq<T>, i: nat, f: T -> Option<R>)
    requires i < |items| && f(items[i]).None?
    ensures Collect(items, f) == Collect(items[..i], f) + Collect(items[i + 1..], f)
  {
    assert items == items[..i] + [items[i]] + items[i + 1..];
    CollectAppend(items[..i] + [items[i]], items[i + 1..], f);
    CollectAppend(items[..i], [items[i]], f);
    assert Collect([items[i]], f) == [] by {
      assert [items[i]][..0] == [];
    }
  }

  /** Nothing comes out exactly when every item maps to None. */
  lemma {:induction false} CollectEmpty<T, R>(items: seq<T>, f: T -> Option<R>)
    ensures Collect(items, f) == [] <==> forall i :: 0 <= i < |items| ==> f(items[i]).None?
  {
    if items != [] {
      var init := items[..|items| - 1];
      CollectEmpty(init, f);
      assert forall i :: 0 <= i < |init| ==> init[i] == items[i];
    }
  }

  /** When every item produces the same output, that output comes out once
      per item. */
  lemma {:induction false} CollectUniform<T, R>(items: seq<T>, f: T -> Option<R>, y: R)
    requires forall i :: 0 <= i < |items| ==> f(items[i]) == Some(y)
    ensures |Collect(items, f)| == |items|
    ensures forall k :: 0 <= k < |Collect(items, f)| ==> Collect(items, f)[k] == y
  {
    if items != [] {
      var init := items[..|items| - 1];
      assert forall i :: 0 <= i < |init| ==> init[i] == items[i];
      CollectUniform(init, f, y);
    }
  }

  /** `idx` lists, in increasing order, the items that produced the outputs
      `out`, and every item that produces something is listed. */
  ghost predicate Traces<T, R>(items: seq<T>, f: T -> Option<R>, out: seq<R>, idx: seq<nat>)
  {
    && |idx| == |out|
    && (forall k :: 0 <= k < |idx| ==> idx[k] < |items| && f(items[idx[k]]) == Some(out[k]))
    && (forall k, l :: 0 <= k < l < |idx| ==> idx[k] < idx[l])
    && (forall i :: 0 <= i < |items| && f(items[i]).Some? ==> i in idx)
  }

  /** A trace survives one more item: that item's output, if any, is
      traced to its position. */
  lemma TracesExtend<T, R>(items: seq<T>, f: T -> Option<R>, out: seq<R>, idx: seq<nat>, x: T)
    requires Traces(items, f, out, idx)
    ensures f(x).None? ==> Traces(items + [x], f, out, idx)
    ensures f(x).Some? ==> Traces(items + [x], f, out + [f(x).value], idx + [|items|])
  {
    var all := items + [x];
    assert forall i :: 0 <= i < |items| ==> all[i] == items[i];
    assert all[|items|] == x;
    if f(x).Some? {
      var out', idx' := out + [f(x).value], idx + [|items|];
      forall k | 0 <= k < |idx'|
        ensures idx'[k] < |all| && f(all[idx'[k]]) == Some(out'[k])
      {
        if k < |idx| { assert idx'[k] == idx[k] && out'[k] == out[k]; }
      }
      forall k, l | 0 <= k < l < |idx'|
        ensures idx'[k] < idx'[l]
      {
        if l == |idx| { assert idx'[k] == idx[k]; }
      }
      forall i | 0 <= i < |all| && f(all[i]).Some?
        ensures i in idx'
      {
        if i < |items| { assert i in idx; }
      }
    }
  }

  /** At most one output per item, outputs in item order, and none missing:
      `idx` gives the item each output comes from. */
  lemma {:induction false} CollectTraced<T, R>(items: seq<T>, f: T -> Option<R>) returns (idx: seq<nat>)
    ensures Traces(items, f, Collect(items, f), idx)
  {
    if items == [] {
      idx := [];
    } else {
      var n := |items| - 1;
      var init, x := items[..n], items[n];
      var prev := CollectTraced(init, f);
      assert items == init + [x];
      TracesExtend(init, f, Collect(init, f), prev, x);
      if f(x).Some? {
        assert Collect(items, f) == Collect(init, f) + [f(x).value];
        idx := prev + [n];
      } else {
        assert Collect(items, f) == Collect(init, f);
        idx := prev;
      }
    }
  }

  /** Every output comes from some item, and every item that produces
      something contributes its output. */
  lemma CollectMembers<T, R>(items: seq<T>, f: T -> Option<R>, y: R)
    ensures y in Collect(items, f) <==> exists i :: 0 <= i < |items| && f(items[i]) == Some(y)
  {
    var idx := CollectTraced(items, f);
    var out := Collect(items, f);
    if y in out {
      var k :| 0 <= k < |out| && out[k] == y;
      assert f(items[idx[k]]) == Some(y);
    }
    if i :| 0 <= i < |items| && f(items[i]) == Some(y) {
      assert i in idx;
      var k :| 0 <= k < |idx| && idx[k] == i;
      assert out[k] == y;
    }
  }

  /** The outputs of `f` over `items`, concatenated in order: what a loop
      that extends one list with each item's results builds. */
  function Flatten<T, R>(items: seq<T>, f: T -> seq<R>): seq<R>
  {
    if items == [] then [] else Flatten(items[..|items| - 1], f) + f(items[|items| - 1])
  }

  lemma FlattenSnoc<T, R>(items: seq<T>, x: T, f: T -> seq<R>)
    ensures Flatten(items + [x], f) == Flatten(items, f) + f(x)
  {
    assert (items + [x])[..|items|] == items;
  }

  /** Flattening distributes over concatenation. */
  lemma {:induction false} FlattenAppend<T, R>(a: seq<T>, b: seq<T>, f: T -> seq<R>)
    ensures Flatten(a + b, f) == Flatten(a, f) + Flatten(b, f)
    decreases |b|
  {
    if b == [] {
      assert a + b == a;
    } else {
      var init := b[..|b| - 1];
      var last := b[|b| - 1];
      assert b == init + [last];
      assert a + b == (a + init) + [last];
      FlattenSnoc(a + init, last, f);
      FlattenSnoc(init, last, f);
      FlattenAppend(a, init, f);
    }
  }

  /** `out` holds, for every key of `done` that `ann` annotates, that
      annotation, once; and nothing else. `keyOf` reads the key back from
      an annotation. This is what the per-group loops accumulate. */
  ghost predicate Covers<K, R>(done: set<K>, ann: K -> Option<R>, keyOf: R -> K, out: seq<R>)
  {
    && (forall i :: 0 <= i < |out| ==> keyOf(out[i]) in done && ann(keyOf(out[i])) == Some(out[i]))
    && (forall k :: k in done && ann(k).Some? ==> ann(k).value in out)
    && (forall i, j :: 0 <= i < j < |out| ==> keyOf(out[i]) != keyOf(out[j]))
  }

  /** Processing one key: emit its annotation if it has one. */
  lemma CoversOne<K, R>(k: K, ann: K -> Option<R>, keyOf: R -> K)
    requires ann(k).Some? ==> keyOf(ann(k).value) == k
    ensures Covers({k}, ann, keyOf, if ann(k).Some? then [ann(k).value] else [])
  {
  }

  /** Keys none of which is annotated need no output. */
  lemma CoversNothing<K, R>(done: set<K>, ann: K -> Option<R>, keyOf: R -> K)
    requires forall k :: k in done ==> ann(k).None?
    ensures Covers(done, ann, keyOf, [])
  {
  }

  /** Outputs for disjoint sets of keys can be concatenated. */
  lemma CoversUnion<K, R>(done: set<K>, out: seq<R>, done': set<K>, out': seq<R>, ann: K -> Option<R>, keyOf: R -> K)
    requires Covers(done, ann, keyOf, out) && Covers(done', ann, keyOf, out') && done !! done'
    ensures Covers(done + done', ann, keyOf, out + out')
  {
    var all := out + out';
    forall i | 0 <= i < |all|
      ensures keyOf(all[i]) in done + done' && ann(keyOf(all[i])) == Some(all[i])
    {
      if i >= |out| { assert all[i] == out'[i - |out|]; }
    }
    forall k | k in done + done' && ann(k).Some?
      ensures ann(k).value in all
    {
      if k in done {
        var i :| 0 <= i < |out| && out[i] == ann(k).value;
        assert all[i] == out[i];
      } else {
        var i :| 0 <= i < |out'| && out'[i] == ann(k).value;
        assert all[|out| + i] == out'[i];
      }
    }
    forall i, j | 0 <= i < j < |all|
      ensures keyOf(all[i]) != keyOf(all[j])
    {
      if i < |out| && j >= |out| {
        assert all[j] == out'[j - |out|];
        assert keyOf(all[i]) in done && keyOf(all[j]) in done';
      } else if i >= |out| {
        assert all[i] == out'[i - |out|] && all[j] == out'[j - |out|];
      }
    }
  }
}
