/**
 * The page table of organize_file: an insertion-ordered dictionary from the
 * printed page label to the index of a source page. Writing a label that is
 * already present replaces its page index but keeps the label where it was
 * first inserted. The output document lists the stored page indices in that
 * insertion order; nothing is sorted.
 */
module PageTable {

  /** No element occurs twice. */
  predicate Distinct<T(==)>(s: seq<T>) {
    forall i, j :: 0 <= i < j < |s| ==> s[i] != s[j]
  }

  /** The labels in the order in which each was first seen, each once. */
  function FirstSeen(labels: seq<string>): (keys: seq<string>)
    ensures Distinct(keys)
    ensures forall l :: l in keys <==> l in labels
    ensures |keys| <= |labels|
  {
    if labels == [] then []
    else
      var keys := FirstSeen(labels[..|labels| - 1]);
      var l := labels[|labels| - 1];
      assert forall x :: x in labels <==> x in labels[..|labels| - 1] || x == l by {
        assert labels == labels[..|labels| - 1] + [l];
      }
      if l in keys then keys else keys + [l]
  }

  /** The index of the last page that carries label `l`. */
  function LastIndex(labels: seq<string>, l: string): (i: nat)
    requires l in labels
    ensures i < |labels| && labels[i] == l
    ensures forall j :: i < j < |labels| ==> labels[j] != l
  {
    var n := |labels| - 1;
    if labels[n] == l then n
    else
      assert labels == labels[..n] + [labels[n]];
      LastIndex(labels[..n], l)
  }

  /** The index of the first page that carries label `l`. */
  function FirstIndex(labels: seq<string>, l: string): (i: nat)
    requires l in labels
    ensures i < |labels| && labels[i] == l
    ensures l !in labels[..i]
  {
    if labels[0] == l then 0
    else
      var i := 1 + FirstIndex(labels[1..], l);
      assert labels[..i] == [labels[0]] + labels[1..][..i - 1];
      i
  }

  /**
   * The page indices organize_file hands to the writer: for each label in
   * first-seen order, the last page that carries it.
   */
  function Reordered(labels: seq<string>): (out: seq<nat>)
  {
    var keys := FirstSeen(labels);
    seq(|keys|, k requires 0 <= k < |keys| => LastIndex(labels, keys[k]))
  }

  /** The pages of `doc` at the positions `idx`, in that order (the writer's addPage loop). */
  function Select<P>(doc: seq<P>, idx: seq<nat>): (r: seq<P>)
    requires forall k :: 0 <= k < |idx| ==> idx[k] < |doc|
    ensures |r| == |idx|
    ensures forall k :: 0 <= k < |idx| ==> r[k] == doc[idx[k]]
  {
    seq(|idx|, k requires 0 <= k < |idx| => doc[idx[k]])
  }

  /** The output document built from `doc` whose pages carry `labels`. */
  function Organized<P>(doc: seq<P>, labels: seq<string>): (r: seq<P>)
    requires |doc| == |labels|
    ensures |r| <= |doc|
  {
    var out := Reordered(labels);
    assert forall k :: 0 <= k < |out| ==> out[k] < |doc|;
    Select(doc, out)
  }

  /** 0, 1, ..., n - 1. */
  function Range(n: nat): (r: seq<nat>)
    ensures |r| == n && forall k :: 0 <= k < n ==> r[k] == k
  {
    seq(n, k requires 0 <= k < n => k)
  }

  /**
   * The OrderedDict `pages`: `order` is its key order, `index` its mapping.
   */
  class OrderedTable {
    var order: seq<string>
    var index: map<string, nat>

    ghost predicate Valid()
      reads this
    {
      Distinct(order) && forall l :: l in index <==> l in order
    }

    /** `OrderedDict()`: an empty table. */
    constructor ()
      ensures Valid() && order == [] && index == map[]
    {
      order := [];
      index := map[];
    }

    /** `pages[page_num] = i`: overwrite the page, keep the position of the first insertion. */
    method Put(pageLabel: string, i: nat)
      requires Valid()
      modifies this
      ensures Valid()
      ensures index == old(index)[pageLabel := i]
      ensures order == if pageLabel in old(index) then old(order) else old(order) + [pageLabel]
    {
      if pageLabel !in index {
        order := order + [pageLabel];
      }
      index := index[pageLabel := i];
    }
  }

  /** `order` and `index` are the table's state after the pages carrying `p`. */
  ghost predicate Holds(order: seq<string>, index: map<string, nat>, p: seq<string>) {
    order == FirstSeen(p) && forall l :: l in index ==> l in p && index[l] == LastIndex(p, l)
  }

  /** Writing page i into the table for pages 0..i-1 gives the table for pages 0..i. */
  lemma HoldsStep(order: seq<string>, index: map<string, nat>, labels: seq<string>, i: nat)
    requires i < |labels| && Holds(order, index, labels[..i])
    requires forall l :: l in index <==> l in order
    ensures var l := labels[i];
      Holds(if l in index then order else order + [l], index[l := i], labels[..i + 1])
  {
    var p, q, l := labels[..i], labels[..i + 1], labels[i];
    assert q == p + [l] && q[..i] == p;
    forall x | x in p && x != l
      ensures LastIndex(q, x) == LastIndex(p, x)
    {
      assert q[LastIndex(p, x)] == x;
    }
  }

  /**
   * Lines 79-85 of organize_file: fill the table with one write per page in
   * original order, then list the stored page indices in the table's order.
   */
  method Reorder(labels: seq<string>) returns (out: seq<nat>)
    ensures out == Reordered(labels)
  {
    var pages := new OrderedTable();
    var i := 0;
    while i < |labels|
      invariant 0 <= i <= |labels|
      invariant pages.Valid()
      invariant Holds(pages.order, pages.index, labels[..i])
    {
      HoldsStep(pages.order, pages.index, labels, i);
      pages.Put(labels[i], i);
      i := i + 1;
    }
    assert labels[..i] == labels;
    out := [];
    var k := 0;
    while k < |pages.order|
      invariant 0 <= k <= |pages.order|
      invariant |out| == k
      invariant forall j :: 0 <= j < k ==> out[j] == pages.index[pages.order[j]]
    {
      out := out + [pages.index[pages.order[k]]];
      k := k + 1;
    }
  }

  /**
   * One more page: a new label appends the page at the end; a known label
   * puts the page in the place of that label's earlier survivor.
   */
  lemma ReorderedStep(labels: seq<string>, l: string)
    ensures var before, after := Reordered(labels), Reordered(labels + [l]);
      if l in labels then
        exists p :: 0 <= p < |before| && before[p] < |labels| && labels[before[p]] == l && after == before[p := |labels|]
      else after == before + [|labels|]
  {
    var all := labels + [l];
    assert all[..|labels|] == labels;
    var keys := FirstSeen(labels);
    var before, after := Reordered(labels), Reordered(all);
    forall x | x in labels && x != l
      ensures LastIndex(all, x) == LastIndex(labels, x)
    {
      assert all[LastIndex(labels, x)] == x;
    }
    if l in labels {
      var p :| 0 <= p < |keys| && keys[p] == l;
      assert before[p] == LastIndex(labels, l) && labels[before[p]] == l;
      assert after == before[p := |labels|];
    } else {
      assert after == before + [|labels|];
    }
  }

  /** A sequence without repetitions has as many distinct elements as it is long. */
  lemma {:induction false} DistinctCardinality(s: seq<string>)
    requires Distinct(s)
    ensures |set x | x in s| == |s|
  {
    if s != [] {
      var t := s[..|s| - 1];
      DistinctCardinality(t);
      assert s == t + [s[|s| - 1]];
      assert (set x | x in s) == (set x | x in t) + {s[|s| - 1]};
    }
  }

  /**
   * The output document has one page per distinct label, so it is never
   * longer than the source; no pages gives no pages.
   */
  lemma ReorderedCount(labels: seq<string>)
    ensures |Reordered(labels)| == |set l | l in labels| <= |labels|
    ensures labels == [] ==> Reordered(labels) == []
  {
    var keys := FirstSeen(labels);
    DistinctCardinality(keys);
    assert (set l | l in labels) == (set l | l in keys);
  }

  /**
   * Every label survives exactly once, as its last page; no source page is
   * written twice.
   */
  lemma ReorderedLastWins(labels: seq<string>)
    ensures var out := Reordered(labels);
      && (forall k :: 0 <= k < |out| ==> out[k] < |labels| && forall j :: out[k] < j < |labels| ==> labels[j] != labels[out[k]])
      && (forall l :: l in labels ==> exists k :: 0 <= k < |out| && out[k] == LastIndex(labels, l))
      && (forall k1, k2 :: 0 <= k1 < k2 < |out| ==> labels[out[k1]] != labels[out[k2]])
  {
    var keys := FirstSeen(labels);
    var out := Reordered(labels);
    forall l | l in labels
      ensures exists k :: 0 <= k < |out| && out[k] == LastIndex(labels, l)
    {
      var k :| 0 <= k < |keys| && keys[k] == l;
      assert out[k] == LastIndex(labels, l);
    }
  }

  /** Labels are kept in first-seen order. */
  lemma {:induction false} FirstSeenOrder(labels: seq<string>)
    ensures forall a, b :: 0 <= a < b < |FirstSeen(labels)| ==>
      FirstIndex(labels, FirstSeen(labels)[a]) < FirstIndex(labels, FirstSeen(labels)[b])
  {
    if labels != [] {
      var n := |labels| - 1;
      var p, l := labels[..n], labels[n];
      FirstSeenOrder(p);
      assert labels == p + [l];
      var keysP, keys := FirstSeen(p), FirstSeen(labels);
      forall a, b | 0 <= a < b < |keys|
        ensures FirstIndex(labels, keys[a]) < FirstIndex(labels, keys[b])
      {
        assert keys[a] == keysP[a] && keys[a] in p;
        FirstIndexPrefix(p, l, keys[a]);
        if b < |keysP| {
          assert keys[b] == keysP[b];
          assert FirstIndex(p, keysP[a]) < FirstIndex(p, keysP[b]);
          FirstIndexPrefix(p, l, keys[b]);
        } else {
          assert keys[b] == l && l !in p;
          FirstIndexUnique(labels, l, n);
        }
      }
    }
  }

  /** Appending a page does not move the first occurrence of a label already present. */
  lemma FirstIndexPrefix(p: seq<string>, l: string, x: string)
    requires x in p
    ensures FirstIndex(p + [l], x) == FirstIndex(p, x)
  {
    var i := FirstIndex(p, x);
    assert (p + [l])[..i] == p[..i];
    FirstIndexUnique(p + [l], x, i);
  }

  /** The first occurrence is the one position holding `x` with no `x` before it. */
  lemma FirstIndexUnique(s: seq<string>, x: string, i: nat)
    requires i < |s| && s[i] == x && x !in s[..i]
    ensures FirstIndex(s, x) == i
  {
    var f := FirstIndex(s, x);
    assert forall k :: 0 <= k < i ==> s[..i][k] == s[k];
    assert forall k :: 0 <= k < f ==> s[..f][k] == s[k];
  }

  /**
   * Output order is first-seen order: the survivor of one label precedes the
   * survivor of another exactly when the first label appears first in the
   * source, whatever the labels' numeric values.
   */
  lemma ReorderedOrder(labels: seq<string>)
    ensures var out := Reordered(labels);
      forall k1, k2 :: 0 <= k1 < |out| && 0 <= k2 < |out| ==>
        (k1 < k2 <==> FirstIndex(labels, labels[out[k1]]) < FirstIndex(labels, labels[out[k2]]))
  {
    FirstSeenOrder(labels);
    var keys, out := FirstSeen(labels), Reordered(labels);
    forall k1, k2 | 0 <= k1 < |out| && 0 <= k2 < |out|
      ensures k1 < k2 <==> FirstIndex(labels, labels[out[k1]]) < FirstIndex(labels, labels[out[k2]])
    {
      assert labels[out[k1]] == keys[k1] && labels[out[k2]] == keys[k2];
      if k2 < k1 {
        assert FirstIndex(labels, keys[k2]) < FirstIndex(labels, keys[k1]);
      }
    }
  }

  /** Without repeated labels the first-seen order is the source order. */
  lemma {:induction false} FirstSeenDistinct(labels: seq<string>)
    requires Distinct(labels)
    ensures FirstSeen(labels) == labels
  {
    if labels != [] {
      var n := |labels| - 1;
      FirstSeenDistinct(labels[..n]);
      assert labels[n] !in labels[..n];
      assert labels == labels[..n] + [labels[n]];
    }
  }

  /** Distinct labels leave every page where it is. */
  lemma ReorderedDistinct(labels: seq<string>)
    requires Distinct(labels)
    ensures Reordered(labels) == Range(|labels|)
  {
    FirstSeenDistinct(labels);
  }

  /** All pages carrying one label leave only the last page. */
  lemma ReorderedAllSame(labels: seq<string>)
    requires |labels| > 0
    requires forall i :: 0 <= i < |labels| ==> labels[i] == labels[0]
    ensures Reordered(labels) == [|labels| - 1]
  {
    var keys := FirstSeen(labels);
    assert labels[0] in keys;
    forall x | x in labels
      ensures x == labels[0]
    {
      var i :| 0 <= i < |labels| && labels[i] == x;
    }
    assert (set l | l in labels) == {labels[0]};
    ReorderedCount(labels);
    assert labels[|labels| - 1] == labels[0];
    assert |keys| == 1;
    assert keys == [labels[0]];
  }

  /** The labels of the output pages, in output order, are the first-seen labels. */
  lemma SurvivorLabels(labels: seq<string>)
    ensures var out := Reordered(labels);
      (forall k :: 0 <= k < |out| ==> out[k] < |labels|) && Select(labels, out) == FirstSeen(labels)
  {
  }

  /**
   * Organizing an organized document again, with its pages' own labels,
   * changes nothing.
   */
  lemma OrganizeIdempotent<P>(doc: seq<P>, labels: seq<string>)
    requires |doc| == |labels|
    ensures var out := Reordered(labels);
      (forall k :: 0 <= k < |out| ==> out[k] < |labels|) &&
      var again := Select(labels, out);
      Reordered(again) == Range(|out|) &&
      Organized(Organized(doc, labels), again) == Organized(doc, labels)
  {
    var out := Reordered(labels);
    SurvivorLabels(labels);
    var again := Select(labels, out);
    ReorderedDistinct(again);
  }

  /** Labels "2", "1": kept in source order, not sorted. */
  lemma ExampleNoSort()
    ensures Reordered(["2", "1"]) == [0, 1]
  {
    ReorderedDistinct(["2", "1"]);
  }

  /** Labels "1", "2", "1", "3": the third page replaces the first, in the first's place. */
  lemma ExampleDuplicate()
    ensures Reordered(["1", "2", "1", "3"]) == [2, 1, 3]
  {
    var labels := ["1", "2", "1", "3"];
    assert labels[..3][..2] == ["1", "2"];
    assert labels[..3][..2][..1] == ["1"];
    assert FirstSeen(labels) == ["1", "2", "3"];
  }
}
