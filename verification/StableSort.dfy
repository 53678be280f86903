/**
 `Array.prototype.sort` with a comparator, as the language defines it: a stable sort.
 */
module StableSort {

  type Comparator<!T> = (T, T) -> int

  /** Insert from the right, after everything that does not compare greater. */
  function Insert<T>(sorted: seq<T>, x: T, cmp: Comparator<T>): seq<T> {
    if sorted == [] then [x]
    else if cmp(sorted[|sorted|-1], x) <= 0 then sorted + [x]
    else Insert(sorted[..|sorted|-1], x, cmp) + [sorted[|sorted|-1]]
  }

  function Sort<T>(xs: seq<T>, cmp: Comparator<T>): seq<T> {
    if xs == [] then [] else Insert(Sort(xs[..|xs|-1], cmp), xs[|xs|-1], cmp)
  }

  /** What `sort` asks of a comparator: antisymmetric in sign and transitive. */
  ghost predicate Ordering<T(!new)>(cmp: Comparator<T>) {
    && (forall x, y :: cmp(x, y) > 0 <==> cmp(y, x) < 0)
    && (forall x, y, z :: cmp(x, y) <= 0 && cmp(y, z) <= 0 ==> cmp(x, z) <= 0)
  }

  ghost predicate AllBelow<T>(xs: seq<T>, y: T, cmp: Comparator<T>) {
    forall i | 0 <= i < |xs| :: cmp(xs[i], y) <= 0
  }

  ghost predicate Sorted<T>(xs: seq<T>, cmp: Comparator<T>) {
    xs == [] || (Sorted(xs[..|xs|-1], cmp) && AllBelow(xs[..|xs|-1], xs[|xs|-1], cmp))
  }

  lemma {:induction false} SortedAt<T>(xs: seq<T>, cmp: Comparator<T>, i: nat, j: nat)
    requires Sorted(xs, cmp) && i < j < |xs|
    ensures cmp(xs[i], xs[j]) <= 0
  {
    if j < |xs| - 1 {
      SortedAt(xs[..|xs|-1], cmp, i, j);
    }
  }

  lemma {:induction false} InsertBelow<T>(sorted: seq<T>, x: T, y: T, cmp: Comparator<T>)
    requires AllBelow(sorted, y, cmp) && cmp(x, y) <= 0
    ensures AllBelow(Insert(sorted, x, cmp), y, cmp)
  {
    if sorted != [] && cmp(sorted[|sorted|-1], x) > 0 {
      InsertBelow(sorted[..|sorted|-1], x, y, cmp);
    }
  }

  lemma AllBelowUp<T(!new)>(xs: seq<T>, y: T, z: T, cmp: Comparator<T>)
    requires Ordering(cmp) && AllBelow(xs, y, cmp) && cmp(y, z) <= 0
    ensures AllBelow(xs, z, cmp)
  {
    forall i | 0 <= i < |xs| ensures cmp(xs[i], z) <= 0 {
      assert cmp(xs[i], y) <= 0;
    }
  }

  lemma {:induction false} InsertSorted<T(!new)>(sorted: seq<T>, x: T, cmp: Comparator<T>)
    requires Ordering(cmp) && Sorted(sorted, cmp)
    ensures Sorted(Insert(sorted, x, cmp), cmp)
  {
    if sorted == [] {
    } else {
      var init, last := sorted[..|sorted|-1], sorted[|sorted|-1];
      if cmp(last, x) <= 0 {
        AllBelowUp(init, last, x, cmp);
        assert (sorted + [x])[..|sorted|] == sorted;
      } else {
        InsertSorted(init, x, cmp);
        InsertBelow(init, x, last, cmp);
        assert (Insert(init, x, cmp) + [last])[..|Insert(init, x, cmp)|] == Insert(init, x, cmp);
      }
    }
  }

  lemma {:induction false} InsertAdds<T>(sorted: seq<T>, x: T, cmp: Comparator<T>)
    ensures multiset(Insert(sorted, x, cmp)) == multiset(sorted) + multiset{x}
    ensures |Insert(sorted, x, cmp)| == |sorted| + 1
  {
    if sorted != [] && cmp(sorted[|sorted|-1], x) > 0 {
      InsertAdds(sorted[..|sorted|-1], x, cmp);
      assert sorted == sorted[..|sorted|-1] + [sorted[|sorted|-1]];
    }
  }

  lemma {:induction false} SortSorted<T(!new)>(xs: seq<T>, cmp: Comparator<T>)
    requires Ordering(cmp)
    ensures Sorted(Sort(xs, cmp), cmp)
  {
    if xs != [] {
      SortSorted(xs[..|xs|-1], cmp);
      InsertSorted(Sort(xs[..|xs|-1], cmp), xs[|xs|-1], cmp);
    }
  }

  lemma {:induction false} SortPermutes<T>(xs: seq<T>, cmp: Comparator<T>)
    ensures multiset(Sort(xs, cmp)) == multiset(xs)
    ensures |Sort(xs, cmp)| == |xs|
  {
    if xs != [] {
      SortPermutes(xs[..|xs|-1], cmp);
      InsertAdds(Sort(xs[..|xs|-1], cmp), xs[|xs|-1], cmp);
      assert xs == xs[..|xs|-1] + [xs[|xs|-1]];
    }
  }

  /** A sorted sequence is left as it is. */
  lemma {:induction false} SortOfSorted<T>(xs: seq<T>, cmp: Comparator<T>)
    requires Sorted(xs, cmp)
    ensures Sort(xs, cmp) == xs
  {
    if xs != [] {
      var init, last := xs[..|xs|-1], xs[|xs|-1];
      SortOfSorted(init, cmp);
      assert xs == init + [last];
      if init != [] {
        assert cmp(init[|init|-1], last) <= 0;
      }
    }
  }

  lemma {:induction false} SortedPrefix<T>(xs: seq<T>, cmp: Comparator<T>, k: nat)
    requires Sorted(xs, cmp) && k <= |xs|
    ensures Sorted(xs[..k], cmp)
  {
    if k < |xs| {
      SortedPrefix(xs[..|xs|-1], cmp, k);
      assert xs[..|xs|-1][..k] == xs[..k];
    } else {
      assert xs[..k] == xs;
    }
  }

  // --------------------------------------------------------------- stability

  /** The elements that compare equal to `k`, in order. */
  function Class<T>(xs: seq<T>, k: T, cmp: Comparator<T>): seq<T> {
    if xs == [] then []
    else Class(xs[..|xs|-1], k, cmp) + if cmp(k, xs[|xs|-1]) == 0 then [xs[|xs|-1]] else []
  }

  lemma ClassAppend<T>(xs: seq<T>, x: T, k: T, cmp: Comparator<T>)
    ensures Class(xs + [x], k, cmp) == Class(xs, k, cmp) + if cmp(k, x) == 0 then [x] else []
  {
    assert (xs + [x])[..|xs|] == xs;
  }

  /** Elements that are out of order are not both equal to `k`. */
  ghost predicate Separates<T(!new)>(cmp: Comparator<T>, k: T) {
    forall x, y :: cmp(x, y) > 0 ==> cmp(k, x) != 0 || cmp(k, y) != 0
  }

  lemma OrderingSeparates<T(!new)>(cmp: Comparator<T>, k: T)
    requires Ordering(cmp)
    ensures Separates(cmp, k)
  {
    forall x, y | cmp(k, x) == 0 && cmp(k, y) == 0 ensures cmp(x, y) <= 0 {
      assert cmp(x, k) <= 0 && cmp(k, y) <= 0;
    }
  }

  lemma {:induction false} InsertStable<T(!new)>(sorted: seq<T>, x: T, k: T, cmp: Comparator<T>)
    requires Separates(cmp, k)
    ensures Class(Insert(sorted, x, cmp), k, cmp) == Class(sorted, k, cmp) + if cmp(k, x) == 0 then [x] else []
  {
    if sorted == [] {
      ClassAppend([], x, k, cmp);
    } else {
      var init, last := sorted[..|sorted|-1], sorted[|sorted|-1];
      if cmp(last, x) <= 0 {
        ClassAppend(sorted, x, k, cmp);
      } else {
        InsertStable(init, x, k, cmp);
        ClassAppend(Insert(init, x, cmp), last, k, cmp);
      }
    }
  }

  /** Elements that compare equal keep their order. */
  lemma {:induction false} SortStable<T(!new)>(xs: seq<T>, k: T, cmp: Comparator<T>)
    requires Ordering(cmp)
    ensures Class(Sort(xs, cmp), k, cmp) == Class(xs, k, cmp)
  {
    if xs != [] {
      OrderingSeparates(cmp, k);
      SortStable(xs[..|xs|-1], k, cmp);
      InsertStable(Sort(xs[..|xs|-1], cmp), xs[|xs|-1], k, cmp);
    }
  }

  ghost predicate SameClasses<T(!new)>(xs: seq<T>, ys: seq<T>, cmp: Comparator<T>) {
    forall k :: Class(xs, k, cmp) == Class(ys, k, cmp)
  }

  lemma {:induction false} ClassMember<T>(xs: seq<T>, k: T, cmp: Comparator<T>, x: T)
    ensures x in Class(xs, k, cmp) ==> x in xs
  {
    if xs != [] {
      ClassMember(xs[..|xs|-1], k, cmp, x);
    }
  }

  /** The last of a sorted list is in the other list too, hence no greater than its last. */
  lemma LastBelow<T(!new)>(xs: seq<T>, ys: seq<T>, cmp: Comparator<T>)
    requires Ordering(cmp) && Sorted(ys, cmp) && SameClasses(xs, ys, cmp) && xs != []
    ensures ys != [] && cmp(xs[|xs|-1], ys[|ys|-1]) <= 0
  {
    var x := xs[|xs|-1];
    assert cmp(x, x) == 0;
    assert x in Class(xs, x, cmp);
    assert Class(xs, x, cmp) == Class(ys, x, cmp);
    ClassMember(ys, x, cmp, x);
    var i :| 0 <= i < |ys| && ys[i] == x;
    if i < |ys| - 1 { SortedAt(ys, cmp, i, |ys| - 1); }
  }

  lemma ClassDropLast<T>(xs: seq<T>, ys: seq<T>, x: T, k: T, cmp: Comparator<T>)
    requires Class(xs + [x], k, cmp) == Class(ys + [x], k, cmp)
    ensures Class(xs, k, cmp) == Class(ys, k, cmp)
  {
    ClassAppend(xs, x, k, cmp);
    ClassAppend(ys, x, k, cmp);
    var cx, cy := Class(xs, k, cmp), Class(ys, k, cmp);
    if cmp(k, x) == 0 {
      assert (cx + [x])[..|cx|] == cx && (cy + [x])[..|cy|] == cy;
    }
  }

  /** There is only one stable sort: a sorted list with the same classes in the same order is the result. */
  lemma {:induction false} OnlyOneStableSort<T(!new)>(xs: seq<T>, ys: seq<T>, cmp: Comparator<T>)
    requires Ordering(cmp) && Sorted(xs, cmp) && Sorted(ys, cmp) && SameClasses(xs, ys, cmp)
    ensures xs == ys
    decreases |xs|
  {
    if xs == [] {
      if ys != [] { LastBelow(ys, xs, cmp); }
    } else {
      LastBelow(xs, ys, cmp);
      LastBelow(ys, xs, cmp);
      var x, y := xs[|xs|-1], ys[|ys|-1];
      assert cmp(x, y) == 0 && cmp(x, x) == 0;
      assert Class(xs, x, cmp)[|Class(xs, x, cmp)|-1] == x;
      assert Class(ys, x, cmp)[|Class(ys, x, cmp)|-1] == y;
      var xi, yi := xs[..|xs|-1], ys[..|ys|-1];
      assert xs == xi + [x] && ys == yi + [x];
      forall k ensures Class(xi, k, cmp) == Class(yi, k, cmp) {
        ClassDropLast(xi, yi, x, k, cmp);
      }
      OnlyOneStableSort(xi, yi, cmp);
    }
  }

  /** So `Sort` is what any stable sorting algorithm returns. */
  lemma SortIsTheStableSort<T(!new)>(xs: seq<T>, ys: seq<T>, cmp: Comparator<T>)
    requires Ordering(cmp)
    ensures ys == Sort(xs, cmp) <==> Sorted(ys, cmp) && SameClasses(ys, xs, cmp)
  {
    SortSorted(xs, cmp);
    forall k ensures Class(Sort(xs, cmp), k, cmp) == Class(xs, k, cmp) { SortStable(xs, k, cmp); }
    if Sorted(ys, cmp) && SameClasses(ys, xs, cmp) {
      forall k ensures Class(ys, k, cmp) == Class(Sort(xs, cmp), k, cmp) {
        assert Class(ys, k, cmp) == Class(xs, k, cmp);
      }
      OnlyOneStableSort(ys, Sort(xs, cmp), cmp);
    }
  }

  // ----------------------------------------------- sorting through a projection

  function Map<S, T>(f: S -> T, xs: seq<S>): seq<T> {
    seq(|xs|, i requires 0 <= i < |xs| => f(xs[i]))
  }

  ghost predicate Compatible<S(!new), T>(f: S -> T, cs: Comparator<S>, ct: Comparator<T>) {
    forall x, y :: cs(x, y) == ct(f(x), f(y))
  }

  lemma {:induction false} InsertMap<S(!new), T>(f: S -> T, cs: Comparator<S>, ct: Comparator<T>, sorted: seq<S>, x: S)
    requires Compatible(f, cs, ct)
    ensures Map(f, Insert(sorted, x, cs)) == Insert(Map(f, sorted), f(x), ct)
  {
    if sorted != [] {
      var init, last := sorted[..|sorted|-1], sorted[|sorted|-1];
      assert Map(f, sorted)[..|sorted|-1] == Map(f, init);
      if cs(last, x) > 0 {
        InsertMap(f, cs, ct, init, x);
        assert Map(f, Insert(init, x, cs) + [last]) == Map(f, Insert(init, x, cs)) + [f(last)];
      }
    }
  }

  /** Sorting records by a comparator that only looks at `f` sorts the images. */
  lemma {:induction false} SortMap<S(!new), T>(f: S -> T, cs: Comparator<S>, ct: Comparator<T>, xs: seq<S>)
    requires Compatible(f, cs, ct)
    ensures Map(f, Sort(xs, cs)) == Sort(Map(f, xs), ct)
  {
    if xs != [] {
      var init, last := xs[..|xs|-1], xs[|xs|-1];
      SortMap(f, cs, ct, init);
      InsertMap(f, cs, ct, Sort(init, cs), last);
      assert Map(f, xs)[..|xs|-1] == Map(f, init);
    }
  }

  // ------------------------------------------------- what sorting leaves alone

  /** The sum of a measure over a sequence. */
  function Sum<T>(f: T -> int, xs: seq<T>): int {
    if xs == [] then 0 else Sum(f, xs[..|xs|-1]) + f(xs[|xs|-1])
  }

  lemma SumAppend<T>(f: T -> int, xs: seq<T>, x: T)
    ensures Sum(f, xs + [x]) == Sum(f, xs) + f(x)
  {
    assert (xs + [x])[..|xs|] == xs;
  }

  lemma {:induction false} SumInsert<T>(f: T -> int, sorted: seq<T>, x: T, cmp: Comparator<T>)
    ensures Sum(f, Insert(sorted, x, cmp)) == Sum(f, sorted) + f(x)
  {
    if sorted == [] {
      SumAppend(f, [], x);
    } else if cmp(sorted[|sorted|-1], x) <= 0 {
      SumAppend(f, sorted, x);
    } else {
      SumInsert(f, sorted[..|sorted|-1], x, cmp);
      SumAppend(f, Insert(sorted[..|sorted|-1], x, cmp), sorted[|sorted|-1]);
    }
  }

  lemma {:induction false} SumSort<T>(f: T -> int, xs: seq<T>, cmp: Comparator<T>)
    ensures Sum(f, Sort(xs, cmp)) == Sum(f, xs)
  {
    if xs != [] {
      SumSort(f, xs[..|xs|-1], cmp);
      SumInsert(f, Sort(xs[..|xs|-1], cmp), xs[|xs|-1], cmp);
    }
  }

  // ---------------------------------------------------------- repetitions

  lemma CountOfTwo<T>(xs: seq<T>, i: nat, j: nat)
    requires i < j < |xs| && xs[i] == xs[j]
    ensures multiset(xs)[xs[i]] >= 2
  {
    assert xs == xs[..j] + [xs[j]] + xs[j+1..];
    assert xs[..j][i] == xs[i];
    assert multiset(xs) == multiset(xs[..j]) + multiset{xs[j]} + multiset(xs[j+1..]);
  }

  lemma {:induction false} CountOfDistinct<T>(xs: seq<T>, x: T)
    requires forall i, j | 0 <= i < j < |xs| :: xs[i] != xs[j]
    ensures multiset(xs)[x] <= 1
  {
    if xs != [] {
      var init := xs[..|xs|-1];
      assert xs == init + [xs[|xs|-1]];
      CountOfDistinct(init, x);
      if x == xs[|xs|-1] { assert x !in init; }
    }
  }

  lemma PermutedDistinct<T>(xs: seq<T>, ys: seq<T>, i: nat, j: nat)
    requires multiset(xs) == multiset(ys)
    requires forall k, l | 0 <= k < l < |xs| :: xs[k] != xs[l]
    requires i < j < |ys|
    ensures ys[i] != ys[j]
  {
    if ys[i] == ys[j] {
      CountOfTwo(ys, i, j);
      CountOfDistinct(xs, ys[i]);
    }
  }
}
