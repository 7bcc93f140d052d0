/** The bottom-up merge sort of utlist and uthash, on sequences: what the macros make of a list. */
module MergeSort {
  import opened Arithmetic

  /** `le` stands for `cmp(a, b) <= 0`; it is a total preorder on the elements of `s`. */
  ghost predicate Preorder<T>(le: (T, T) -> bool, s: seq<T>) {
    (forall x, y :: x in s && y in s ==> le(x, y) || le(y, x)) &&
    (forall x, y, z :: x in s && y in s && z in s && le(x, y) && le(y, z) ==> le(x, z))
  }

  ghost predicate Sorted<T>(le: (T, T) -> bool, s: seq<T>) {
    forall i, j :: 0 <= i < j < |s| ==> le(s[i], s[j])
  }

  predicate Equivalent<T>(le: (T, T) -> bool, x: T, y: T) {
    le(x, y) && le(y, x)
  }

  /** The elements of `s` that compare equal to `x`, in order. */
  ghost function Class<T>(le: (T, T) -> bool, s: seq<T>, x: T): seq<T> {
    if s == [] then []
    else (if Equivalent(le, x, s[0]) then [s[0]] else []) + Class(le, s[1..], x)
  }

  /** `t` is a stable sort of `s`: the same elements, in order, equal ones in their old order. */
  ghost predicate StableSort<T>(le: (T, T) -> bool, s: seq<T>, t: seq<T>) {
    multiset(t) == multiset(s) && Sorted(le, t) && forall x :: x in s ==> Class(le, t, x) == Class(le, s, x)
  }

  // ----- the algorithm -----

  /** One merge: the left element goes first unless the right one is smaller. */
  ghost function Merge<T>(le: (T, T) -> bool, p: seq<T>, q: seq<T>): (r: seq<T>)
    ensures |r| == |p| + |q|
    decreases |p| + |q|
  {
    if p == [] then q
    else if q == [] then p
    else if le(p[0], q[0]) then [p[0]] + Merge(le, p[1..], q)
    else [q[0]] + Merge(le, p, q[1..])
  }

  /** The two runs that the next merge takes, and what they leave. */
  function Left<T>(s: seq<T>, k: nat): seq<T> { s[..Min(k, |s|)] }
  function Right<T>(s: seq<T>, k: nat): seq<T> { s[Min(k, |s|)..Min(2 * k, |s|)] }
  function Rest<T>(s: seq<T>, k: nat): (r: seq<T>)
    ensures s != [] && k > 0 ==> |r| < |s|
  {
    s[Min(2 * k, |s|)..]
  }

  /** One pass: merges neighbouring runs of length `k`. */
  ghost function Pass<T>(le: (T, T) -> bool, s: seq<T>, k: nat): (r: seq<T>)
    requires k > 0
    ensures |r| == |s|
    decreases |s|
  {
    if s == [] then [] else Merge(le, Left(s, k), Right(s, k)) + Pass(le, Rest(s, k), k)
  }

  /** The merges of one pass over `n` elements. */
  function Merges(n: nat, k: nat): nat
    requires k > 0
  {
    if n == 0 then 0 else if n <= 2 * k then 1 else 1 + Merges(n - 2 * k, k)
  }

  /** Passes with doubled run length, until one of them needs a single merge. */
  ghost function Sort<T>(le: (T, T) -> bool, s: seq<T>, k: nat): (r: seq<T>)
    requires k > 0
    decreases if k < |s| then |s| - k else 0
  {
    var t := Pass(le, s, k);
    if Merges(|s|, k) <= 1 then t else Sort(le, t, 2 * k)
  }

  // ----- one merge -----

  lemma {:induction false} ClassConcat<T>(le: (T, T) -> bool, a: seq<T>, b: seq<T>, x: T)
    ensures Class(le, a + b, x) == Class(le, a, x) + Class(le, b, x)
  {
    hide Class, Own;
    if a == [] {
      ClassEmpty(le, x);
      assert a + b == b;
    } else {
      ClassConcat(le, a[1..], b, x);
      ClassUnfold(le, a, x);
      ClassUnfold(le, a + b, x);
      assert (a + b)[1..] == a[1..] + b;
    }
  }

  lemma ClassEmpty<T>(le: (T, T) -> bool, x: T)
    ensures Class(le, [], x) == []
  {
  }

  function Own<T>(le: (T, T) -> bool, y: T, x: T): seq<T> {
    if Equivalent(le, x, y) then [y] else []
  }

  lemma ClassUnfold<T>(le: (T, T) -> bool, s: seq<T>, x: T)
    requires s != []
    ensures Class(le, s, x) == Own(le, s[0], x) + Class(le, s[1..], x)
  {
  }

  lemma {:induction false} ClassNone<T>(le: (T, T) -> bool, s: seq<T>, x: T)
    requires forall y :: y in s ==> !Equivalent(le, x, y)
    ensures Class(le, s, x) == []
  {
    if s != [] { ClassNone(le, s[1..], x); }
  }

  lemma ConcatMembers<T>(a: seq<T>, b: seq<T>)
    ensures forall x :: x in a + b <==> x in a || x in b
  {
  }

  lemma PreorderPart<T>(le: (T, T) -> bool, s: seq<T>, t: seq<T>)
    requires Preorder(le, s) && forall x :: x in t ==> x in s
    ensures Preorder(le, t)
  {
  }

  lemma MergeUnfold<T>(le: (T, T) -> bool, p: seq<T>, q: seq<T>)
    ensures p == [] ==> Merge(le, p, q) == q
    ensures q == [] ==> Merge(le, p, q) == p
    ensures p != [] && q != [] ==>
              Merge(le, p, q) == if le(p[0], q[0]) then [p[0]] + Merge(le, p[1..], q) else [q[0]] + Merge(le, p, q[1..])
  {
  }

  lemma HeadMultiset<T>(s: seq<T>)
    requires s != []
    ensures multiset(s) == multiset{s[0]} + multiset(s[1..])
  {
    assert s == [s[0]] + s[1..];
  }

  lemma {:induction false} MergeMultiset<T>(le: (T, T) -> bool, p: seq<T>, q: seq<T>)
    ensures multiset(Merge(le, p, q)) == multiset(p) + multiset(q)
    decreases |p| + |q|
  {
    hide Merge;
    MergeUnfold(le, p, q);
    if p != [] && q != [] {
      if le(p[0], q[0]) {
        MergeMultiset(le, p[1..], q);
        HeadMultiset(p);
      } else {
        MergeMultiset(le, p, q[1..]);
        HeadMultiset(q);
      }
    }
  }

  lemma MergeMember<T>(le: (T, T) -> bool, p: seq<T>, q: seq<T>, y: T)
    ensures y in Merge(le, p, q) <==> y in p || y in q
  {
    MergeMultiset(le, p, q);
    assert y in Merge(le, p, q) <==> y in multiset(Merge(le, p, q));
    assert y in p <==> y in multiset(p);
    assert y in q <==> y in multiset(q);
  }

  lemma SortedCons<T>(le: (T, T) -> bool, x: T, s: seq<T>)
    requires Sorted(le, s) && forall y :: y in s ==> le(x, y)
    ensures Sorted(le, [x] + s)
  {
  }

  lemma {:induction false} MergeSorted<T>(le: (T, T) -> bool, p: seq<T>, q: seq<T>)
    requires Preorder(le, p + q) && Sorted(le, p) && Sorted(le, q)
    ensures Sorted(le, Merge(le, p, q))
    decreases |p| + |q|
  {
    ConcatMembers(p, q);
    if p != [] && q != [] {
      if le(p[0], q[0]) {
        PreorderPart(le, p + q, p[1..] + q);
        MergeSorted(le, p[1..], q);
        HeadBelow(le, p, p[0], p + q);
        HeadBelow(le, q, p[0], p + q);
        forall y | y in Merge(le, p[1..], q)
          ensures le(p[0], y)
        {
          MergeMember(le, p[1..], q, y);
          if y in p[1..] { assert y in p; }
        }
        SortedCons(le, p[0], Merge(le, p[1..], q));
      } else {
        PreorderPart(le, p + q, p + q[1..]);
        MergeSorted(le, p, q[1..]);
        HeadBelow(le, p, q[0], p + q);
        HeadBelow(le, q, q[0], p + q);
        forall y | y in Merge(le, p, q[1..])
          ensures le(q[0], y)
        {
          MergeMember(le, p, q[1..], y);
          if y in q[1..] { assert y in q; }
        }
        SortedCons(le, q[0], Merge(le, p, q[1..]));
      }
    }
  }

  lemma HeadBelow<T>(le: (T, T) -> bool, s: seq<T>, x: T, all: seq<T>)
    requires Preorder(le, all) && s != [] && Sorted(le, s) && x in all && (forall y :: y in s ==> y in all)
    requires x == s[0] || le(x, s[0])
    ensures forall y :: y in s ==> le(x, y)
  {
    forall y | y in s
      ensures le(x, y)
    {
      var i :| 0 <= i < |s| && s[i] == y;
      assert le(s[0], y) by {
        if i > 0 { assert le(s[0], s[i]); } else { assert s[0] in all; }
      }
    }
  }

  /** Nothing in the left run equals a right element that overtakes it. */
  lemma OvertakenClass<T>(le: (T, T) -> bool, p: seq<T>, y: T, x: T, all: seq<T>)
    requires Preorder(le, all) && p != [] && Sorted(le, p) && y in all && x in all && (forall z :: z in p ==> z in all)
    requires !le(p[0], y) && Equivalent(le, x, y)
    ensures Class(le, p, x) == []
  {
    HeadBelow(le, p, p[0], all);
    forall z | z in p
      ensures !Equivalent(le, x, z)
    {
      assert p[0] in all;
    }
    ClassNone(le, p, x);
  }

  /** A right element goes in front of the left run without changing the order of a class. */
  lemma ClassOvertakes<T>(le: (T, T) -> bool, p: seq<T>, y: T, x: T, rest: seq<T>, all: seq<T>)
    requires Preorder(le, all) && p != [] && Sorted(le, p) && y in all && x in all && (forall z :: z in p ==> z in all)
    requires !le(p[0], y)
    ensures Own(le, y, x) + (Class(le, p, x) + rest) == Class(le, p, x) + (Own(le, y, x) + rest)
  {
    hide Class, Preorder, Sorted;
    if Equivalent(le, x, y) {
      OvertakenClass(le, p, y, x, all);
    }
  }

  lemma {:induction false} MergeClass<T>(le: (T, T) -> bool, p: seq<T>, q: seq<T>, x: T, all: seq<T>)
    requires Preorder(le, all) && x in all && Sorted(le, p)
    requires (forall y :: y in p ==> y in all) && (forall y :: y in q ==> y in all)
    ensures Class(le, Merge(le, p, q), x) == Class(le, p, x) + Class(le, q, x)
    decreases |p| + |q|
  {
    if p == [] || q == [] {
      return;
    }
    MergeUnfold(le, p, q);
    ClassUnfold(le, Merge(le, p, q), x);
    hide Merge, Class, Preorder, Own;
    if le(p[0], q[0]) {
      MergeClass(le, p[1..], q, x, all);
      ClassUnfold(le, p, x);
    } else {
      MergeClass(le, p, q[1..], x, all);
      ClassUnfold(le, q, x);
      ClassOvertakes(le, p, q[0], x, Class(le, q[1..], x), all);
    }
  }

  // ----- passes -----

  /** Every run of length `k`, counted from the front, is sorted. */
  ghost predicate RunsSorted<T>(le: (T, T) -> bool, s: seq<T>, k: nat)
    requires k > 0
    decreases |s|
  {
    s == [] || (Sorted(le, s[..Min(k, |s|)]) && RunsSorted(le, s[Min(k, |s|)..], k))
  }

  lemma {:induction false} SingletonRuns<T>(le: (T, T) -> bool, s: seq<T>)
    ensures RunsSorted(le, s, 1)
  {
    if s != [] { SingletonRuns(le, s[1..]); }
  }

  lemma Runs<T>(le: (T, T) -> bool, s: seq<T>, k: nat)
    requires k > 0 && s != [] && RunsSorted(le, s, k)
    ensures Sorted(le, Left(s, k)) && Sorted(le, Right(s, k)) && RunsSorted(le, Rest(s, k), k)
    ensures s == Left(s, k) + (Right(s, k) + Rest(s, k))
    ensures forall y :: y in Left(s, k) || y in Right(s, k) || y in Rest(s, k) ==> y in s
  {
    var t := s[Min(k, |s|)..];
    if t != [] {
      assert t[..Min(k, |t|)] == Right(s, k);
      assert t[Min(k, |t|)..] == Rest(s, k);
    }
  }

  lemma {:induction false} PassRuns<T>(le: (T, T) -> bool, s: seq<T>, k: nat)
    requires k > 0 && Preorder(le, s) && RunsSorted(le, s, k)
    ensures RunsSorted(le, Pass(le, s, k), 2 * k)
    decreases |s|
  {
    if s != [] {
      Runs(le, s, k);
      hide RunsSorted, Sorted, Preorder, Merge;
      PreorderPart(le, s, Left(s, k) + Right(s, k));
      MergeSorted(le, Left(s, k), Right(s, k));
      PreorderPart(le, s, Rest(s, k));
      PassRuns(le, Rest(s, k), k);
      FrontRun(le, Merge(le, Left(s, k), Right(s, k)), Pass(le, Rest(s, k), k), 2 * k);
    }
  }

  lemma FrontRun<T>(le: (T, T) -> bool, m: seq<T>, t: seq<T>, k: nat)
    requires k > 0 && |m| <= k && (|m| == k || t == []) && Sorted(le, m) && RunsSorted(le, t, k)
    ensures RunsSorted(le, m + t, k)
  {
    if m + t != [] {
      var n := Min(k, |m + t|);
      assert (m + t)[..n] == m && (m + t)[n..] == t;
    }
  }

  lemma {:induction false} PassMultiset<T>(le: (T, T) -> bool, s: seq<T>, k: nat)
    requires k > 0
    ensures multiset(Pass(le, s, k)) == multiset(s)
    decreases |s|
  {
    if s != [] {
      assert s == Left(s, k) + (Right(s, k) + Rest(s, k));
      assert Pass(le, s, k) == Merge(le, Left(s, k), Right(s, k)) + Pass(le, Rest(s, k), k);
      PassMultiset(le, Rest(s, k), k);
      hide Left, Right, Rest, Pass, Merge;
      MergeMultiset(le, Left(s, k), Right(s, k));
    }
  }

  lemma {:induction false} PassClass<T>(le: (T, T) -> bool, s: seq<T>, k: nat, x: T, all: seq<T>)
    requires k > 0 && RunsSorted(le, s, k) && Preorder(le, all) && x in all && (forall y :: y in s ==> y in all)
    ensures Class(le, Pass(le, s, k), x) == Class(le, s, x)
    decreases |s|
  {
    if s != [] {
      Runs(le, s, k);
      hide Class, RunsSorted, Preorder, Merge, Left, Right, Sorted;
      PassClass(le, Rest(s, k), k, x, all);
      MergeClass(le, Left(s, k), Right(s, k), x, all);
      ClassParts(le, Left(s, k), Right(s, k), Merge(le, Left(s, k), Right(s, k)), Rest(s, k), Pass(le, Rest(s, k), k),
                 x);
    }
  }

  lemma ClassParts<T>(le: (T, T) -> bool, p: seq<T>, q: seq<T>, m: seq<T>, t: seq<T>, u: seq<T>, x: T)
    requires Class(le, m, x) == Class(le, p, x) + Class(le, q, x) && Class(le, u, x) == Class(le, t, x)
    ensures Class(le, m + u, x) == Class(le, p + (q + t), x)
  {
    hide Class;
    ClassConcat(le, m, u, x);
    ClassConcat(le, p, q + t, x);
    ClassConcat(le, q, t, x);
  }

  lemma SameMembers<T>(s: seq<T>, t: seq<T>)
    requires multiset(s) == multiset(t)
    ensures forall x :: x in s <==> x in t
  {
    forall x
      ensures x in s <==> x in t
    {
      assert x in s <==> x in multiset(s);
      assert x in t <==> x in multiset(t);
    }
  }

  /** The loop of the macros ends with a stable sort of the list it started from. */
  lemma {:induction false} SortIsStable<T>(le: (T, T) -> bool, s: seq<T>, k: nat)
    requires k > 0 && Preorder(le, s) && RunsSorted(le, s, k)
    ensures StableSort(le, s, Sort(le, s, k))
    decreases if k < |s| then |s| - k else 0
  {
    var t := Pass(le, s, k);
    if Merges(|s|, k) > 1 { assert Sort(le, s, k) == Sort(le, t, 2 * k); }
    PassRuns(le, s, k);
    MergesOne(|s|, k);
    if |t| <= 2 * k { OneRun(le, t, 2 * k); }
    hide Pass, Sort, Class, Preorder, RunsSorted, Sorted, StableSort;
    PassStable(le, s, k);
    if Merges(|s|, k) <= 1 {
      StableIntro(le, s, t);
    } else {
      PreorderPart(le, s, t);
      SortIsStable(le, t, 2 * k);
      StableAfter(le, s, t, Sort(le, t, 2 * k));
    }
  }

  lemma MergesOne(n: nat, k: nat)
    requires k > 0
    ensures Merges(n, k) <= 1 <==> n <= 2 * k
  {
  }

  lemma OneRun<T>(le: (T, T) -> bool, t: seq<T>, k: nat)
    requires k > 0 && RunsSorted(le, t, k) && |t| <= k
    ensures Sorted(le, t)
  {
    assert t[..|t|] == t;
  }

  lemma PassStable<T>(le: (T, T) -> bool, s: seq<T>, k: nat)
    requires k > 0 && Preorder(le, s) && RunsSorted(le, s, k)
    ensures SameClasses(le, s, Pass(le, s, k))
    ensures forall x :: x in s <==> x in Pass(le, s, k)
  {
    hide Pass, Class, RunsSorted, Preorder;
    PassMultiset(le, s, k);
    SameMembers(s, Pass(le, s, k));
    forall x | x in s
      ensures Class(le, Pass(le, s, k), x) == Class(le, s, x)
    {
      PassClass(le, s, k, x, s);
    }
  }

  ghost predicate SameClasses<T>(le: (T, T) -> bool, s: seq<T>, t: seq<T>) {
    multiset(t) == multiset(s) && forall x :: x in s ==> Class(le, t, x) == Class(le, s, x)
  }

  lemma StableIntro<T>(le: (T, T) -> bool, s: seq<T>, t: seq<T>)
    requires SameClasses(le, s, t) && Sorted(le, t)
    ensures StableSort(le, s, t)
  {
    hide Sorted, Class;
  }

  lemma StableAfter<T>(le: (T, T) -> bool, s: seq<T>, t: seq<T>, r: seq<T>)
    requires SameClasses(le, s, t) && StableSort(le, t, r)
    ensures StableSort(le, s, r)
  {
    hide Sorted, Class;
    SameMembers(s, t);
  }

  /** What `LL_SORT`, `DL_SORT` and `HASH_SRT` do to the sequence of nodes of a list. */
  lemma SortCorrect<T>(le: (T, T) -> bool, s: seq<T>)
    requires Preorder(le, s)
    ensures StableSort(le, s, Sort(le, s, 1))
  {
    SingletonRuns(le, s);
    SortIsStable(le, s, 1);
  }
}
