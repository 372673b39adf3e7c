/** `Array.prototype.sort(compare)` run in place: every call site sorts with a
    comparator returning a negative, zero or positive number. The model is an
    insertion sort by adjacent swaps that only swaps when the comparator is
    strictly positive, so equal elements are never exchanged. */
module ArraySort {

  /** The comparator never reports both `x > y` and `y > x`. */
  ghost predicate Antisymmetric<T(!new)>(cmp: (T, T) -> int) {
    forall x, y :: cmp(x, y) > 0 ==> cmp(y, x) <= 0
  }

  /** `cmp(x, y) <= 0` is transitive. */
  ghost predicate Transitive<T(!new)>(cmp: (T, T) -> int) {
    forall x, y, z :: cmp(x, y) <= 0 && cmp(y, z) <= 0 ==> cmp(x, z) <= 0
  }

  /** Every element is in order with its successor. */
  ghost predicate AdjacentSorted<T>(s: seq<T>, cmp: (T, T) -> int) {
    forall i :: 0 < i < |s| ==> cmp(s[i - 1], s[i]) <= 0
  }

  /** Every element is in order with every later one. */
  ghost predicate Sorted<T>(s: seq<T>, cmp: (T, T) -> int) {
    forall i, j :: 0 <= i < j < |s| ==> cmp(s[i], s[j]) <= 0
  }

  /** For a transitive comparator, order between neighbours is order
      between any two elements. */
  lemma {:induction false} AdjacentSortedIsSorted<T(!new)>(s: seq<T>, cmp: (T, T) -> int)
    requires Transitive(cmp)
    requires AdjacentSorted(s, cmp)
    ensures Sorted(s, cmp)
  {
    if |s| > 1 {
      var t := s[..|s| - 1];
      assert AdjacentSorted(t, cmp);
      AdjacentSortedIsSorted(t, cmp);
      forall i, j | 0 <= i < j < |s| ensures cmp(s[i], s[j]) <= 0 {
        if j < |s| - 1 {
          assert s[i] == t[i] && s[j] == t[j];
        } else if i < j - 1 {
          assert s[i] == t[i] && s[j - 1] == t[j - 1];
          assert cmp(s[i], s[j - 1]) <= 0;
        }
      }
    }
  }

  method Swap<T>(a: array<T>, i: int, j: int)
    requires 0 <= i < a.Length && 0 <= j < a.Length
    modifies a
    ensures a[i] == old(a[j]) && a[j] == old(a[i])
    ensures forall k :: 0 <= k < a.Length && k != i && k != j ==> a[k] == old(a[k])
  {
    a[i], a[j] := a[j], a[i];
  }

  // ---------------------------------------------------------------------
  // The sort as a function on sequences

  /** Where inserting `x` into `t` from the back stops: after the last
      element not above `x`, every element from there on being strictly
      above it. */
  function InsertPos<T>(t: seq<T>, x: T, cmp: (T, T) -> int): (p: nat)
    ensures p <= |t|
    ensures p == 0 || cmp(t[p - 1], x) <= 0
    ensures forall k :: p <= k < |t| ==> cmp(t[k], x) > 0
  {
    if t == [] || cmp(t[|t| - 1], x) <= 0 then |t|
    else
      var p := InsertPos(t[..|t| - 1], x, cmp);
      assert forall k :: p <= k < |t| - 1 ==> t[..|t| - 1][k] == t[k];
      p
  }

  /** Those two facts pin the position down. */
  lemma InsertPosUnique<T>(t: seq<T>, x: T, j: int, cmp: (T, T) -> int)
    requires 0 <= j <= |t|
    requires j == 0 || cmp(t[j - 1], x) <= 0
    requires forall k :: j <= k < |t| ==> cmp(t[k], x) > 0
    ensures InsertPos(t, x, cmp) == j
  {
  }

  /** Inserts `x` into `t` from the back, passing exactly the trailing
      elements the comparator puts strictly after `x`. */
  function InsertBack<T>(t: seq<T>, x: T, cmp: (T, T) -> int): (r: seq<T>)
    ensures |r| == |t| + 1
    ensures multiset(r) == multiset(t) + multiset{x}
  {
    var p := InsertPos(t, x, cmp);
    assert t == t[..p] + t[p..];
    t[..p] + [x] + t[p..]
  }

  /** Insertion sort: each element in turn inserted from the back. */
  function InsertionSort<T>(s: seq<T>, cmp: (T, T) -> int): (r: seq<T>)
    ensures |r| == |s|
    ensures multiset(r) == multiset(s)
  {
    if s == [] then []
    else
      var n := |s| - 1;
      assert s == s[..n] + [s[n]];
      InsertBack(InsertionSort(s[..n], cmp), s[n], cmp)
  }

  /** Inserting into an ordered sequence keeps it ordered. */
  lemma InsertBackSorted<T(!new)>(t: seq<T>, x: T, cmp: (T, T) -> int)
    requires Antisymmetric(cmp)
    requires AdjacentSorted(t, cmp)
    ensures AdjacentSorted(InsertBack(t, x, cmp), cmp)
  {
    var p := InsertPos(t, x, cmp);
    var r := InsertBack(t, x, cmp);
    forall k | 0 < k < |r| ensures cmp(r[k - 1], r[k]) <= 0 {
      if k < p {
        assert r[k - 1] == t[k - 1] && r[k] == t[k];
      } else if k == p {
        assert r[k - 1] == t[p - 1] && r[k] == x;
      } else if k == p + 1 {
        assert r[k - 1] == x && r[k] == t[p];
      } else {
        assert r[k - 1] == t[k - 2] && r[k] == t[k - 1];
      }
    }
  }

  /** Insertion sort orders its result. */
  lemma {:induction false} InsertionSortSorted<T(!new)>(s: seq<T>, cmp: (T, T) -> int)
    requires Antisymmetric(cmp)
    ensures AdjacentSorted(InsertionSort(s, cmp), cmp)
  {
    if s != [] {
      var n := |s| - 1;
      InsertionSortSorted(s[..n], cmp);
      InsertBackSorted(InsertionSort(s[..n], cmp), s[n], cmp);
    }
  }

  // ---------------------------------------------------------------------
  // Stability

  /** The comparator's ties form classes: "compares as 0" is symmetric and
      transitive. */
  ghost predicate TiesAreClasses<T(!new)>(cmp: (T, T) -> int) {
    && (forall x, y :: cmp(x, y) == 0 ==> cmp(y, x) == 0)
    && (forall x, y, z :: cmp(x, y) == 0 && cmp(y, z) == 0 ==> cmp(x, z) == 0)
  }

  /** The elements of `s` that tie with `k`, in their order in `s`. */
  function Ties<T>(s: seq<T>, cmp: (T, T) -> int, k: T): seq<T> {
    if s == [] then []
    else Ties(s[..|s| - 1], cmp, k) + if cmp(s[|s| - 1], k) == 0 then [s[|s| - 1]] else []
  }

  /** `r` keeps every class of tied elements of `s` in its order in `s`. */
  ghost predicate Stable<T(!new)>(s: seq<T>, r: seq<T>, cmp: (T, T) -> int) {
    forall k :: Ties(r, cmp, k) == Ties(s, cmp, k)
  }

  lemma {:induction false} TiesAppend<T>(s: seq<T>, u: seq<T>, cmp: (T, T) -> int, k: T)
    ensures Ties(s + u, cmp, k) == Ties(s, cmp, k) + Ties(u, cmp, k)
  {
    if u == [] {
      assert s + u == s;
    } else {
      var n := |u| - 1;
      TiesAppend(s, u[..n], cmp, k);
      assert (s + u)[..|s + u| - 1] == s + u[..n];
    }
  }

  lemma {:induction false} TiesNone<T>(s: seq<T>, cmp: (T, T) -> int, k: T)
    requires forall i :: 0 <= i < |s| ==> cmp(s[i], k) != 0
    ensures Ties(s, cmp, k) == []
  {
    if s != [] {
      TiesNone(s[..|s| - 1], cmp, k);
    }
  }

  lemma TiesOne<T>(x: T, cmp: (T, T) -> int, k: T)
    ensures Ties([x], cmp, k) == if cmp(x, k) == 0 then [x] else []
  {
    assert [x][..0] == [];
  }

  /** Splitting a sequence at the insertion point splits its ties. */
  lemma TiesAtInsertPos<T>(t: seq<T>, x: T, cmp: (T, T) -> int, k: T)
    ensures var p := InsertPos(t, x, cmp);
      && Ties(InsertBack(t, x, cmp), cmp, k) == Ties(t[..p], cmp, k) + Ties([x], cmp, k) + Ties(t[p..], cmp, k)
      && Ties(t, cmp, k) == Ties(t[..p], cmp, k) + Ties(t[p..], cmp, k)
  {
    var p := InsertPos(t, x, cmp);
    TiesAppend(t[..p] + [x], t[p..], cmp, k);
    TiesAppend(t[..p], [x], cmp, k);
    TiesAppend(t[..p], t[p..], cmp, k);
    assert t[..p] + t[p..] == t;
  }

  /** The elements `x` passes are above it, so none ties with `k` when `x`
      does. */
  lemma PassedUntied<T(!new)>(t: seq<T>, x: T, cmp: (T, T) -> int, k: T)
    requires TiesAreClasses(cmp)
    requires cmp(x, k) == 0
    ensures Ties(t[InsertPos(t, x, cmp)..], cmp, k) == []
  {
    var back := t[InsertPos(t, x, cmp)..];
    forall i | 0 <= i < |back| ensures cmp(back[i], k) != 0 {
      assert cmp(back[i], x) > 0;
    }
    TiesNone(back, cmp, k);
  }

  /** Inserting from the back passes only elements that do not tie with `x`,
      so `x` lands after every element of its class. */
  lemma InsertBackTies<T(!new)>(t: seq<T>, x: T, cmp: (T, T) -> int, k: T)
    requires TiesAreClasses(cmp)
    ensures Ties(InsertBack(t, x, cmp), cmp, k) == Ties(t, cmp, k) + if cmp(x, k) == 0 then [x] else []
  {
    TiesAtInsertPos(t, x, cmp, k);
    TiesOne(x, cmp, k);
    if cmp(x, k) == 0 {
      PassedUntied(t, x, cmp, k);
    }
  }

  /** Insertion sort is stable: tied elements keep their input order. */
  lemma {:induction false} InsertionSortStable<T(!new)>(s: seq<T>, cmp: (T, T) -> int)
    requires TiesAreClasses(cmp)
    ensures Stable(s, InsertionSort(s, cmp), cmp)
  {
    forall k ensures Ties(InsertionSort(s, cmp), cmp, k) == Ties(s, cmp, k) {
      InsertionSortTies(s, cmp, k);
    }
  }

  lemma {:induction false} InsertionSortTies<T(!new)>(s: seq<T>, cmp: (T, T) -> int, k: T)
    requires TiesAreClasses(cmp)
    ensures Ties(InsertionSort(s, cmp), cmp, k) == Ties(s, cmp, k)
  {
    if s != [] {
      var n := |s| - 1;
      InsertionSortTies(s[..n], cmp, k);
      InsertBackTies(InsertionSort(s[..n], cmp), s[n], cmp, k);
    }
  }

  // ---------------------------------------------------------------------
  // The sort in place

  /** Sorts `a` in place by insertion with adjacent swaps, swapping only
      when the comparator is strictly positive: the result is the insertion
      sort of the old contents, so it is in order, a permutation, and, when
      ties form classes, stable. */
  method Sort<T(!new)>(a: array<T>, cmp: (T, T) -> int)
    requires Antisymmetric(cmp)
    modifies a
    ensures a[..] == InsertionSort(old(a[..]), cmp)
    ensures AdjacentSorted(a[..], cmp)
    ensures multiset(a[..]) == multiset(old(a[..]))
    ensures TiesAreClasses(cmp) ==> Stable(old(a[..]), a[..], cmp)
  {
    ghost var s := a[..];
    InsertAll(a, cmp);
    InsertionSortSorted(s, cmp);
    if TiesAreClasses(cmp) {
      InsertionSortStable(s, cmp);
    }
  }

  lemma InsertionSortSnoc<T>(s: seq<T>, i: int, cmp: (T, T) -> int)
    requires 0 <= i < |s|
    ensures InsertionSort(s[..i + 1], cmp) == InsertBack(InsertionSort(s[..i], cmp), s[i], cmp)
  {
    assert s[..i + 1][..i] == s[..i];
  }

  /** Inserts each element in turn into the sorted prefix before it. */
  method InsertAll<T>(a: array<T>, cmp: (T, T) -> int)
    modifies a
    ensures a[..] == InsertionSort(old(a[..]), cmp)
  {
    ghost var s := a[..];
    var i := 0;
    while i < a.Length
      invariant 0 <= i <= a.Length
      invariant a[..i] == InsertionSort(s[..i], cmp)
      invariant forall k :: i <= k < a.Length ==> a[k] == s[k]
    {
      Insert(a, i, cmp);
      InsertionSortSnoc(s, i, cmp);
      i := i + 1;
    }
    assert a[..a.Length] == a[..];
    assert s[..a.Length] == s;
  }

  /** Moves `a[i]` left past the elements of `a[..i]` that compare strictly
      above it. */
  method Insert<T>(a: array<T>, i: int, cmp: (T, T) -> int)
    requires 0 <= i < a.Length
    modifies a
    ensures a[..i + 1] == InsertBack(old(a[..i]), old(a[i]), cmp)
    ensures forall k :: i < k < a.Length ==> a[k] == old(a[k])
  {
    ghost var t, x := a[..i], a[i];
    var j := i;
    while j > 0 && cmp(a[j - 1], a[j]) > 0
      invariant 0 <= j <= i
      invariant forall k :: 0 <= k < j ==> a[k] == t[k]
      invariant a[j] == x
      invariant forall k :: j < k <= i ==> a[k] == t[k - 1]
      invariant forall k :: i < k < a.Length ==> a[k] == old(a[k])
      invariant forall k :: j <= k < i ==> cmp(t[k], x) > 0
    {
      Swap(a, j - 1, j);
      j := j - 1;
    }
    InsertPosUnique(t, x, j, cmp);
    Placed(a[..i + 1], t, x, j);
  }

  /** A sequence that holds `t` with `x` placed at index `j`. */
  lemma Placed<T>(u: seq<T>, t: seq<T>, x: T, j: int)
    requires |u| == |t| + 1 && 0 <= j <= |t|
    requires forall k :: 0 <= k < j ==> u[k] == t[k]
    requires u[j] == x
    requires forall k :: j < k < |u| ==> u[k] == t[k - 1]
    ensures u == t[..j] + [x] + t[j..]
  {
  }
}
