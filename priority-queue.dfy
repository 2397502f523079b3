/** The solver's frontier (src/logic/priority-queue.ts): a list of (value, cost)
    entries kept in non-decreasing cost order by a stable sort after every insertion. */
module PriorityQueues {
  import opened Utils

  datatype Entry<T> = Entry(value: T, cost: int)

  ghost predicate Sorted<T>(s: seq<Entry<T>>) {
    forall i, j :: 0 <= i < j < |s| ==> s[i].cost <= s[j].cost
  }

  /** Inserts `e` in front of the first entry that costs strictly more than it,
      so `e` lands behind every entry of equal cost: what a stable sort does with
      an entry pushed at the back of a sorted list. */
  function InsertStable<T>(s: seq<Entry<T>>, e: Entry<T>): seq<Entry<T>> {
    if s == [] then [e]
    else if e.cost < s[0].cost then [e] + s
    else [s[0]] + InsertStable(s[1..], e)
  }

  /** A stable sort by cost (JavaScript's `Array.prototype.sort` is stable), written
      as insertion sort: each entry is inserted behind the equal-cost entries before it. */
  function SortStable<T>(s: seq<Entry<T>>): seq<Entry<T>> {
    if s == [] then [] else InsertStable(SortStable(s[..|s| - 1]), s[|s| - 1])
  }

  /** The position at which `InsertStable` puts an entry of cost `c`. */
  function InsertionPoint<T>(s: seq<Entry<T>>, c: int): (p: nat)
    ensures p <= |s|
    ensures forall i :: 0 <= i < p ==> s[i].cost <= c
    ensures p < |s| ==> s[p].cost > c
  {
    if s == [] || c < s[0].cost then 0 else 1 + InsertionPoint(s[1..], c)
  }

  /** Where the new entry lands: behind every entry that costs at most as much,
      in front of every entry that costs more, with all other entries in their old order. */
  lemma {:induction false} InsertStableSplits<T>(s: seq<Entry<T>>, e: Entry<T>)
    ensures InsertStable(s, e) == s[..InsertionPoint(s, e.cost)] + [e] + s[InsertionPoint(s, e.cost)..]
  {
    if s != [] && e.cost >= s[0].cost {
      InsertStableSplits(s[1..], e);
      var p := InsertionPoint(s[1..], e.cost);
      assert s[1..][..p] == s[1..p + 1];
      assert s[1..][p..] == s[p + 1..];
      assert s[..p + 1] == [s[0]] + s[1..p + 1];
    }
  }

  /** Inserting adds exactly `e`: the entries before the insertion point stay where
      they are and the ones from it on move one place back. */
  lemma InsertStableShape<T>(s: seq<Entry<T>>, e: Entry<T>)
    ensures |InsertStable(s, e)| == |s| + 1
    ensures multiset(InsertStable(s, e)) == multiset(s) + multiset{e}
    ensures InsertStable(s, e)[InsertionPoint(s, e.cost)] == e
    ensures forall k :: 0 <= k < InsertionPoint(s, e.cost) ==> InsertStable(s, e)[k] == s[k]
    ensures forall k :: InsertionPoint(s, e.cost) < k <= |s| ==> InsertStable(s, e)[k] == s[k - 1]
  {
    var p := InsertionPoint(s, e.cost);
    InsertStableSplits(s, e);
    assert s == s[..p] + s[p..];
  }

  /** Inserting into a sorted list keeps it sorted, adds exactly one entry, and
      every entry after the new one costs strictly more than it. */
  lemma InsertStableKeepsOrder<T>(s: seq<Entry<T>>, e: Entry<T>)
    requires Sorted(s)
    ensures Sorted(InsertStable(s, e))
    ensures |InsertStable(s, e)| == |s| + 1
    ensures multiset(InsertStable(s, e)) == multiset(s) + multiset{e}
    ensures forall i :: InsertionPoint(s, e.cost) <= i < |s| ==> s[i].cost > e.cost
  {
    var p := InsertionPoint(s, e.cost);
    InsertStableShape(s, e);
    var r := InsertStable(s, e);
    forall i | p <= i < |s|
      ensures s[i].cost > e.cost
    {
      assert s[p].cost <= s[i].cost;
    }
    forall i, j | 0 <= i < j < |r|
      ensures r[i].cost <= r[j].cost
    {
      if j < p {
      } else if j == p {
      } else if i < p {
        assert s[i].cost <= s[j - 1].cost;
      } else if i == p {
      } else {
        assert s[i - 1].cost <= s[j - 1].cost;
      }
    }
  }

  /** The stable sort yields a sorted permutation of its input. */
  lemma {:induction false} SortStableSorts<T>(s: seq<Entry<T>>)
    ensures Sorted(SortStable(s))
    ensures multiset(SortStable(s)) == multiset(s)
  {
    if s != [] {
      var init := s[..|s| - 1];
      SortStableSorts(init);
      InsertStableKeepsOrder(SortStable(init), s[|s| - 1]);
      assert s == init + [s[|s| - 1]];
    }
  }

  /** Sorting an already sorted list changes nothing. */
  lemma {:induction false} SortStableOfSorted<T>(s: seq<Entry<T>>)
    requires Sorted(s)
    ensures SortStable(s) == s
  {
    if s != [] {
      var init := s[..|s| - 1];
      var last := s[|s| - 1];
      SortStableOfSorted(init);
      InsertStableSplits(init, last);
      assert InsertionPoint(init, last.cost) == |init|;
      assert init[..|init|] == init;
      assert s == init + [last];
    }
  }

  /** Pushing at the back of a sorted list and sorting stably is stable insertion. */
  lemma PushThenSort<T>(s: seq<Entry<T>>, e: Entry<T>)
    requires Sorted(s)
    ensures SortStable(s + [e]) == InsertStable(s, e)
  {
    assert (s + [e])[..|s + [e]| - 1] == s;
    SortStableOfSorted(s);
  }

  /** The queue after enqueueing the entries of `es` one after the other. */
  function InsertAllStable<T>(s: seq<Entry<T>>, es: seq<Entry<T>>): seq<Entry<T>>
    decreases |es|
  {
    if es == [] then s else InsertStable(InsertAllStable(s, es[..|es| - 1]), es[|es| - 1])
  }

  /** Enqueueing several entries keeps the queue sorted and adds exactly those entries. */
  lemma {:induction false} InsertAllKeepsOrder<T>(s: seq<Entry<T>>, es: seq<Entry<T>>)
    requires Sorted(s)
    ensures Sorted(InsertAllStable(s, es))
    ensures |InsertAllStable(s, es)| == |s| + |es|
    ensures multiset(InsertAllStable(s, es)) == multiset(s) + multiset(es)
    decreases |es|
  {
    if es != [] {
      var init := es[..|es| - 1];
      InsertAllKeepsOrder(s, init);
      InsertStableKeepsOrder(InsertAllStable(s, init), es[|es| - 1]);
      assert es == init + [es[|es| - 1]];
    }
  }

  class PriorityQueue<T> {
    /** The entries, cheapest first. */
    var queue: seq<Entry<T>>

    ghost predicate Valid()
      reads this
    {
      Sorted(queue)
    }

    /** `new PriorityQueue(initialValues)`: adopts the entries and sorts them by cost. */
    constructor (initialValues: seq<Entry<T>>)
      ensures Valid()
      ensures queue == SortStable(initialValues)
      ensures multiset(queue) == multiset(initialValues)
    {
      queue := SortStable(initialValues);
      SortStableSorts(initialValues);
    }

    /** `enqueue`: push at the back, then sort stably by cost. */
    method Enqueue(value: T, cost: int)
      requires Valid()
      modifies this
      ensures Valid()
      ensures queue == InsertStable(old(queue), Entry(value, cost))
      ensures |queue| == |old(queue)| + 1
      ensures multiset(queue) == multiset(old(queue)) + multiset{Entry(value, cost)}
    {
      PushThenSort(queue, Entry(value, cost));
      InsertStableKeepsOrder(queue, Entry(value, cost));
      queue := SortStable(queue + [Entry(value, cost)]);
    }

    /** `dequeue`: `shift()`, None on an empty queue, otherwise the head, which
        costs no more than any entry left behind. */
    method Dequeue() returns (r: Option<Entry<T>>)
      requires Valid()
      modifies this
      ensures Valid()
      ensures old(queue) == [] ==> r.None? && queue == []
      ensures old(queue) != [] ==> r == Some(old(queue)[0]) && queue == old(queue)[1..]
      ensures r.Some? ==> forall i :: 0 <= i < |queue| ==> r.value.cost <= queue[i].cost
    {
      if queue == [] {
        r := None;
      } else {
        r := Some(queue[0]);
        queue := queue[1..];
      }
    }

    predicate IsEmpty()
      reads this
      ensures IsEmpty() <==> Length() == 0
    {
      |queue| == 0
    }

    /** `clear`: the queue becomes empty. */
    method Clear()
      modifies this
      ensures Valid() && queue == []
    {
      queue := [];
    }

    /** `toArray`: the entries themselves, in order. */
    function ToArray(): (r: seq<Entry<T>>)
      reads this
      ensures Valid() ==> Sorted(r)
      ensures multiset(r) == multiset(queue)
    {
      queue
    }

    /** `length`: the number of entries waiting. */
    function Length(): (n: nat)
      reads this
      ensures n == |Values()|
      ensures n == 0 <==> queue == []
    {
      |queue|
    }

    /** `values`: the entries' values, in queue order. */
    function Values(): (vs: seq<T>)
      reads this
      ensures |vs| == |queue|
      ensures forall i :: 0 <= i < |vs| ==> vs[i] == queue[i].value
    {
      seq(|queue|, i requires 0 <= i < |queue| reads this => queue[i].value)
    }
  }
}
