/** The two Array.prototype operations the rewriter relies on, over Dafny
    sequences: `indexOf` with strict (identity) equality, and a one-item
    `splice(start, 0, item)` with the clamping of `start` that JavaScript
    applies. */
module JsArray {

  /** No element occurs twice in `s`. */
  predicate Distinct<T(==)>(s: seq<T>) {
    forall i, j :: 0 <= i < j < |s| ==> s[i] != s[j]
  }

  /** `a.indexOf(x)`: the first index holding `x`, or -1 when there is none. */
  function IndexOf<T(==)>(a: seq<T>, x: T): (i: int)
    ensures -1 <= i < |a|
    ensures i == -1 <==> x !in a
    ensures 0 <= i ==> a[i] == x && x !in a[..i]
  {
    if a == [] then -1
    else if a[0] == x then 0
    else
      var j := IndexOf(a[1..], x);
      assert a == [a[0]] + a[1..];
      if j == -1 then -1
      else
        assert a[..j + 1] == [a[0]] + a[1..][..j];
        j + 1
  }

  /** The first occurrence of `x` is where `x` sits with no earlier copy of it. */
  lemma IndexOfFirst<T>(a: seq<T>, x: T, j: nat)
    requires j < |a| && a[j] == x && x !in a[..j]
    ensures IndexOf(a, x) == j
  {
  }

  /** Where `a.splice(start, 0, ...)` inserts: a negative start counts from
      the end, and both ends are clamped to the array. */
  function SpliceStart(len: nat, start: int): (k: nat)
    ensures k <= len
  {
    if start < 0 then (if len + start < 0 then 0 else len + start)
    else if start > len then len
    else start
  }

  /** The array after `a.splice(start, 0, x)`: `x` is inserted at the clamped
      start, nothing is removed, and the other elements keep their order. */
  function Splice<T>(a: seq<T>, start: int, x: T): (r: seq<T>)
    ensures |r| == |a| + 1
    ensures r[SpliceStart(|a|, start)] == x
    ensures forall k :: 0 <= k < SpliceStart(|a|, start) ==> r[k] == a[k]
    ensures forall k :: SpliceStart(|a|, start) <= k < |a| ==> r[k + 1] == a[k]
    ensures start == 0 ==> r == [x] + a
  {
    var k := SpliceStart(|a|, start);
    a[..k] + [x] + a[k..]
  }

  /** The start `indexOf(x) + 1` is never clamped: it is 0 on a miss and just
      past the found element otherwise. */
  lemma NoClamp<T>(a: seq<T>, x: T)
    ensures SpliceStart(|a|, IndexOf(a, x) + 1) == IndexOf(a, x) + 1
  {
    var i := IndexOf(a, x);
    assert 0 <= i + 1 <= |a|;
  }

  /** In `a + [x] + b` with no `x` in `a`, `x` is found at `|a|`. */
  lemma IndexOfJoin<T>(a: seq<T>, x: T, b: seq<T>)
    requires x !in a
    ensures IndexOf(a + [x] + b, x) == |a|
  {
    var s := a + [x] + b;
    assert s[..|a|] == a;
    IndexOfFirst(s, x, |a|);
  }

  /** Splicing `y` in right after the `x` of `a + [x] + b`. */
  lemma SpliceAfter<T>(a: seq<T>, x: T, b: seq<T>, y: T)
    ensures Splice(a + [x] + b, |a| + 1, y) == a + [x, y] + b
  {
  }

  lemma DistinctAppend<T>(a: seq<T>, b: seq<T>)
    requires Distinct(a) && Distinct(b)
    requires forall x :: x in a ==> x !in b
    ensures Distinct(a + b)
  {
    forall i, j | 0 <= i < j < |a + b|
      ensures (a + b)[i] != (a + b)[j]
    {
      if i < |a| && |a| <= j {
        assert (a + b)[i] in a && (a + b)[j] in b;
      }
    }
  }

  lemma DistinctSplit<T>(s: seq<T>, k: nat)
    requires Distinct(s) && k < |s|
    ensures s[k] !in s[..k] && s[k] !in s[k + 1..]
  {
  }

  lemma DistinctPop<T>(s: seq<T>)
    requires Distinct(s) && s != []
    ensures Distinct(s[..|s| - 1])
    ensures s[|s| - 1] !in s[..|s| - 1]
  {
  }
}
