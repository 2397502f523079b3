/** Array helpers shared by the generators and the solver (src/logic/utils.ts),
    plus the injected random source that stands for `Math.random`. */
module Utils {

  datatype Option<T> = None | Some(value: T)

  /** A row-major grid: `g[y][x]`, `height` rows of `width` cells. */
  type Grid<T> = seq<seq<T>>

  ghost predicate IsGrid<T>(g: Grid<T>, width: int, height: int) {
    |g| == height && forall y :: 0 <= y < height ==> |g[y]| == width
  }

  predicate InGrid(width: int, height: int, x: int, y: int) {
    0 <= x < width && 0 <= y < height
  }

  /** `initArray2D(width, height, value)`: `height` rows of `width` copies of `value`. */
  function InitArray2D<T>(width: nat, height: nat, value: T): (g: Grid<T>)
    ensures IsGrid(g, width, height)
    ensures forall y, x :: 0 <= y < height && 0 <= x < width ==> g[y][x] == value
  {
    seq(height, _ => seq(width, _ => value))
  }

  /** The in-place cell write `g[y][x] = v` on a grid value. */
  function SetCell<T>(g: Grid<T>, x: int, y: int, v: T): (r: Grid<T>)
    requires 0 <= y < |g| && 0 <= x < |g[y]|
    ensures |r| == |g| && forall j :: 0 <= j < |g| ==> |r[j]| == |g[j]|
    ensures r[y][x] == v
    ensures forall j, i :: 0 <= j < |g| && 0 <= i < |g[j]| && (i != x || j != y) ==> r[j][i] == g[j][i]
  {
    g[y := g[y][x := v]]
  }

  /** The random source: `Math.floor(Math.random() * n)`, an arbitrary index below `n`.
      Every property of a caller is proved for all the values it may return. */
  method Choose(n: nat) returns (r: nat)
    requires n > 0
    ensures r < n
  {
    r :| r < n;
  }

  /** `shuffleArray`: Fisher–Yates, in place, from the last index down to 1. */
  method ShuffleArray<T>(a: array<T>)
    modifies a
    ensures multiset(a[..]) == old(multiset(a[..]))
  {
    if a.Length == 0 { return; }
    var i := a.Length - 1;
    while i > 0
      invariant 0 <= i < a.Length
      invariant multiset(a[..]) == old(multiset(a[..]))
    {
      var j := Choose(i + 1);
      a[i], a[j] := a[j], a[i];
      i := i - 1;
    }
  }

  /** Two sequences holding the same multiset hold the same elements. */
  lemma SameMembers<T>(a: seq<T>, b: seq<T>)
    requires multiset(a) == multiset(b)
    ensures forall c :: c in a <==> c in b
  {
    forall c ensures c in a <==> c in b {
      assert c in a <==> c in multiset(a);
      assert c in b <==> c in multiset(b);
    }
  }

  /** `minBy`: the first element of `s` whose key is smallest, or None for an empty `s`. */
  method MinBy<T>(s: seq<T>, f: T -> int) returns (r: Option<T>)
    ensures r.None? <==> |s| == 0
    ensures r.Some? ==> exists i :: 0 <= i < |s| && s[i] == r.value && IsFirstMin(s, f, i)
  {
    if |s| == 0 { return None; }
    var minItem := s[0];
    var minValue := f(minItem);
    ghost var minIndex := 0;
    var k := 1;
    while k < |s|
      invariant 1 <= k <= |s|
      invariant 0 <= minIndex < k && s[minIndex] == minItem && minValue == f(minItem)
      invariant forall j :: 0 <= j < minIndex ==> f(s[j]) > minValue
      invariant forall j :: 0 <= j < k ==> minValue <= f(s[j])
    {
      var value := f(s[k]);
      if value < minValue {
        minValue := value;
        minItem := s[k];
        minIndex := k;
      }
      k := k + 1;
    }
    r := Some(minItem);
  }

  /** `s[i]` has the least key of `s`, and every earlier element has a larger key. */
  ghost predicate IsFirstMin<T>(s: seq<T>, f: T -> int, i: int)
    requires 0 <= i < |s|
  {
    (forall j :: 0 <= j < |s| ==> f(s[i]) <= f(s[j])) &&
    (forall j :: 0 <= j < i ==> f(s[j]) > f(s[i]))
  }

  /** `s.indexOf(x)` for an `x` known to occur: the first position holding `x`. */
  function IndexOf<T(==)>(s: seq<T>, x: T): (i: nat)
    requires x in s
    ensures i < |s| && s[i] == x && x !in s[..i]
  {
    if s[0] == x then 0 else 1 + IndexOf(s[1..], x)
  }

  /** `s.splice(i, 1)`: `s` without its `i`-th element. */
  function RemoveAt<T>(s: seq<T>, i: nat): (r: seq<T>)
    requires i < |s|
    ensures |r| == |s| - 1
    ensures forall j :: 0 <= j < i ==> r[j] == s[j]
    ensures forall j :: i <= j < |r| ==> r[j] == s[j + 1]
    ensures multiset(r) + multiset{s[i]} == multiset(s)
  {
    assert s == s[..i] + [s[i]] + s[i + 1..];
    s[..i] + s[i + 1..]
  }

  /** What `RemoveAt` keeps: every element but the removed one, and nothing new. */
  lemma RemoveAtMembers<T>(s: seq<T>, i: nat)
    requires i < |s|
    ensures forall x :: x in RemoveAt(s, i) ==> x in s
    ensures forall x :: x in s && x != s[i] ==> x in RemoveAt(s, i)
  {
    var r := RemoveAt(s, i);
    forall x ensures (x in r ==> x in s) && (x in s && x != s[i] ==> x in r) {
      assert x in r <==> x in multiset(r);
      assert x in s <==> x in multiset(s);
    }
  }

  /** `s.filter(p)`: the elements of `s` that satisfy `p`, in order. */
  function Filter<T(!new)>(s: seq<T>, p: T -> bool): (r: seq<T>)
    ensures |r| <= |s|
    ensures forall x :: x in r <==> x in s && p(x)
  {
    if s == [] then [] else (if p(s[0]) then [s[0]] else []) + Filter(s[1..], p)
  }

  /** Filtering a sequence extended by one element. */
  lemma {:induction false} FilterSnoc<T(!new)>(s: seq<T>, x: T, p: T -> bool)
    ensures Filter(s + [x], p) == Filter(s, p) + (if p(x) then [x] else [])
  {
    var tail := if p(x) then [x] else [];
    if s == [] {
      assert s + [x] == [x];
      assert [x][1..] == [];
    } else {
      var head := if p(s[0]) then [s[0]] else [];
      assert (s + [x])[0] == s[0] && (s + [x])[1..] == s[1..] + [x];
      assert Filter(s + [x], p) == head + Filter(s[1..] + [x], p);
      FilterSnoc(s[1..], x, p);
      assert Filter(s + [x], p) == head + (Filter(s[1..], p) + tail);
      assert head + (Filter(s[1..], p) + tail) == (head + Filter(s[1..], p)) + tail;
    }
  }

  /** Filtering keeps every element that satisfies `p` as often as it occurs in `s`,
      and no other. */
  lemma {:induction false} FilterCounts<T(!new)>(s: seq<T>, p: T -> bool)
    ensures forall x :: multiset(Filter(s, p))[x] == if p(x) then multiset(s)[x] else 0
  {
    if s != [] {
      FilterCounts(s[1..], p);
      assert s == [s[0]] + s[1..];
    }
  }

  /** No value occurs twice in `s`. */
  predicate Distinct<T(==)>(s: seq<T>) {
    forall i, j :: 0 <= i < j < |s| ==> s[i] != s[j]
  }
}
