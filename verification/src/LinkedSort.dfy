/** `DL_SORT` and `HASH_SRT` on linked nodes. `LL_SORT` is the same loop without the `prev` links. */
module LinkedSort {
  import opened Arithmetic
  import opened Elements
  import opened MergeSort

  /** From index `from` on, the nodes of `s` are linked by `next`, and the last one ends the list. */
  ghost predicate Chained<K>(s: seq<Elem<K>>, from: nat)
    reads s
  {
    forall i {:trigger s[i].next} :: from <= i < |s| ==> s[i].next == At(s, i + 1)
  }

  /** The output list of a pass: linked both ways, except that its last `next` is not set yet. */
  ghost predicate Built<K>(out: seq<Elem<K>>, list: Elem?<K>, tail: Elem?<K>)
    reads out
  {
    Distinct(out) && list == At(out, 0) && (tail == if out == [] then null else out[|out| - 1]) &&
    (forall i :: 0 <= i < |out| - 1 ==> out[i].next == out[i + 1]) &&
    (out != [] ==> out[0].prev == null) &&
    (forall i {:trigger out[i].prev} :: 0 < i < |out| ==> out[i].prev == out[i - 1])
  }

  /** Appends node `e` to the output list. */
  method Emit<K>(list: Elem?<K>, tail: Elem?<K>, e: Elem<K>, ghost out: seq<Elem<K>>) returns (list': Elem<K>)
    requires Built(out, list, tail) && e !in out
    modifies (set n | n in out && n == tail)`next, e`prev
    ensures Built(out + [e], list', e)
  {
    if tail != null {
      tail.next := e;
      list' := list;
    } else {
      list' := e;
    }
    e.prev := tail;
    forall i | 0 <= i < |out|
      ensures out[i].prev == old(out[i].prev)
    {
      assert out[i] in out;
    }
  }

  /** The nodes still to be merged: what is left of the two runs, and everything behind them. */
  ghost predicate Todo<K>(s: seq<Elem<K>>, out: seq<Elem<K>>, i: nat, m: nat, j: nat)
    reads s
  {
    i <= m <= j <= |s| &&
    (forall k :: 0 <= k < |s| && (i <= k < m || j <= k) ==> s[k] !in out && s[k].next == At(s, k + 1))
  }

  /** Moves node `e`, the next of one of the two runs, to the output list. */
  method Take<K>(list: Elem?<K>, tail: Elem?<K>, e: Elem<K>, ghost s: seq<Elem<K>>, ghost out: seq<Elem<K>>,
                 ghost i: nat, ghost m: nat, ghost j: nat, ghost left: bool) returns (list': Elem<K>)
    requires Distinct(s) && Built(out, list, tail) && Todo(s, out, i, m, j) && From(out, s)
    requires if left then i < m && e == s[i] else j < |s| && e == s[j]
    modifies (set n | n in s)`next, (set n | n in s)`prev
    ensures Built(out + [e], list', e) && From(out + [e], s)
    ensures Todo(s, out + [e], if left then i + 1 else i, m, if left then j else j + 1)
  {
    list' := Emit(list, tail, e, out);
  }

  lemma TodoAt<K>(s: seq<Elem<K>>, out: seq<Elem<K>>, i: nat, m: nat, j: nat, k: nat)
    requires Todo(s, out, i, m, j) && k < |s| && (i <= k < m || j <= k)
    ensures s[k].next == At(s, k + 1)
  {
  }

  /** Where one step of the merge takes its node from, and what it leaves to merge. */
  lemma MergeStep<K>(le: (Elem<K>, Elem<K>) -> bool, out: seq<Elem<K>>, s: seq<Elem<K>>, i: nat, m: nat, j: nat,
                     end: nat)
    requires i <= m <= j <= end <= |s|
    ensures i < m && (j == end || le(s[i], s[j])) ==>
              out + Merge(le, s[i..m], s[j..end]) == out + [s[i]] + Merge(le, s[i + 1..m], s[j..end])
    ensures j < end && (i == m || !le(s[i], s[j])) ==>
              out + Merge(le, s[i..m], s[j..end]) == out + [s[j]] + Merge(le, s[i..m], s[j + 1..end])
    ensures i == m && j == end ==> out + Merge(le, s[i..m], s[j..end]) == out
  {
    if i < m { assert s[i..m][1..] == s[i + 1..m]; assert [s[i]] + s[i + 1..m] == s[i..m]; }
    if j < end { assert s[j..end][1..] == s[j + 1..end]; assert [s[j]] + s[j + 1..end] == s[j..end]; }
  }

  /** The variables of the merge loop: `p` has `psize` nodes left, from `s[i]` to `s[m]`, and `q` those
      from `s[j]` to `s[end]`, at most `qsize`. */
  ghost predicate Merging<K>(s: seq<Elem<K>>, p: Elem?<K>, q: Elem?<K>, psize: nat, qsize: nat,
                             i: nat, m: nat, j: nat, end: nat) {
    i <= m <= j <= end == Min(j + qsize, |s|) && psize == m - i && (psize > 0 ==> p == s[i]) && q == At(s, j)
  }

  /** The choice in the merge loop: from which run the next node is taken. */
  method PickElem<K>(p0: Elem?<K>, q0: Elem?<K>, psize0: nat, qsize0: nat, le: (Elem<K>, Elem<K>) -> bool,
                     ghost s: seq<Elem<K>>, ghost out: seq<Elem<K>>, ghost i: nat, ghost m: nat, ghost j: nat,
                     ghost end: nat)
      returns (e: Elem<K>, p: Elem?<K>, q: Elem?<K>, psize: nat, qsize: nat, ghost left: bool)
    requires Merging(s, p0, q0, psize0, qsize0, i, m, j, end) && (psize0 > 0 || (qsize0 > 0 && q0 != null))
    requires Todo(s, out, i, m, j)
    ensures if left then i < m && e == s[i] && (j == end || le(s[i], s[j]))
            else j < end && e == s[j] && (i == m || !le(s[i], s[j]))
    ensures Merging(s, p, q, psize, qsize, if left then i + 1 else i, m, if left then j else j + 1, end)
  {
    hide Todo;
    p, q, psize, qsize := p0, q0, psize0, qsize0;
    left := psize > 0 && (qsize == 0 || q == null || le(p, q));
    TodoAt(s, out, i, m, j, if left then i else j);
    if psize == 0 {
      e := q; q := q.next; qsize := qsize - 1;
    } else if qsize == 0 || q == null {
      e := p; p := p.next; psize := psize - 1;
    } else if le(p, q) {
      e := p; p := p.next; psize := psize - 1;
    } else {
      e := q; q := q.next; qsize := qsize - 1;
    }
  }

  lemma MergingStarts<K>(s: seq<Elem<K>>, p: Elem?<K>, q: Elem?<K>, psize: nat, qsize: nat, i: nat, m: nat, end: nat)
    requires psize > 0 && m == i + psize <= |s| && p == s[i] && q == At(s, m) && end == Min(m + qsize, |s|)
    ensures Merging(s, p, q, psize, qsize, i, m, m, end) && m <= end <= |s|
  {
  }

  lemma MergingEnds<K>(s: seq<Elem<K>>, p: Elem?<K>, q: Elem?<K>, psize: nat, qsize: nat, i: nat, m: nat, j: nat,
                       end: nat)
    requires Merging(s, p, q, psize, qsize, i, m, j, end)
    ensures i <= m <= j <= end <= |s|
    ensures !(psize > 0 || (qsize > 0 && q != null)) ==> i == m && j == end && q == At(s, end)
  {
  }

  /** What is still to come when the next nodes of the runs are `s[i]` and `s[j]`. */
  ghost function MergeRest<K>(le: (Elem<K>, Elem<K>) -> bool, s: seq<Elem<K>>, i: nat, m: nat, j: nat,
                              end: nat): seq<Elem<K>> {
    if i <= m <= j <= end <= |s| then Merge(le, s[i..m], s[j..end]) else []
  }

  /** One turn of the merge loop. */
  method MergeOne<K>(p0: Elem?<K>, q0: Elem?<K>, psize0: nat, qsize0: nat, list0: Elem?<K>, tail: Elem?<K>,
                     le: (Elem<K>, Elem<K>) -> bool, ghost s: seq<Elem<K>>, ghost out: seq<Elem<K>>,
                     ghost i: nat, ghost m: nat, ghost j: nat, ghost end: nat)
      returns (list: Elem<K>, e: Elem<K>, p: Elem?<K>, q: Elem?<K>, psize: nat, qsize: nat, ghost i': nat,
               ghost j': nat)
    requires Merging(s, p0, q0, psize0, qsize0, i, m, j, end) && (psize0 > 0 || (qsize0 > 0 && q0 != null))
    requires Distinct(s) && Built(out, list0, tail) && Todo(s, out, i, m, j) && From(out, s)
    modifies (set n | n in s)`next, (set n | n in s)`prev
    ensures Merging(s, p, q, psize, qsize, i', m, j', end) && i' + j' == i + j + 1
    ensures Built(out + [e], list, e) && Todo(s, out + [e], i', m, j') && From(out + [e], s)
    ensures out + [e] + MergeRest(le, s, i', m, j', end) == out + MergeRest(le, s, i, m, j, end)
  {
    hide Built, Todo, Distinct, Merge;
    ghost var left;
    MergeStep(le, out, s, i, m, j, end);
    e, p, q, psize, qsize, left := PickElem(p0, q0, psize0, qsize0, le, s, out, i, m, j, end);
    i', j' := if left then i + 1 else i, if left then j else j + 1;
    list := Take(list0, tail, e, s, out, i, m, j, left);
  }

  lemma MergeRestEnds<K>(le: (Elem<K>, Elem<K>) -> bool, s: seq<Elem<K>>, out: seq<Elem<K>>, i: nat, m: nat, j: nat,
                         end: nat)
    requires i <= m <= j <= end <= |s|
    ensures i == m && j == end ==> out + MergeRest(le, s, i, m, j, end) == out
    ensures MergeRest(le, s, i, m, j, end) == Merge(le, s[i..m], s[j..end])
  {
    hide Merge;
    MergeStep(le, out, s, i, m, j, end);
  }

  /** The nodes in `out` are nodes of `s`. */
  ghost predicate From<K>(out: seq<Elem<K>>, s: seq<Elem<K>>) {
    forall n :: n in out ==> n in s
  }

  /** The merge loop of the macros, on the variables that `Merging` describes. */
  method MergeLoop<K>(p0: Elem<K>, q0: Elem?<K>, psize0: nat, qsize0: nat, list0: Elem?<K>, tail0: Elem?<K>,
                      le: (Elem<K>, Elem<K>) -> bool, ghost s: seq<Elem<K>>, ghost out0: seq<Elem<K>>,
                      ghost i0: nat, ghost m: nat, ghost end: nat)
      returns (list: Elem?<K>, tail: Elem?<K>, q: Elem?<K>, ghost out: seq<Elem<K>>)
    requires Merging(s, p0, q0, psize0, qsize0, i0, m, m, end)
    requires Distinct(s) && Built(out0, list0, tail0) && Todo(s, out0, i0, m, m) && From(out0, s)
    modifies (set n | n in s)`next, (set n | n in s)`prev
    ensures m <= end <= |s| && q == At(s, end) && out == out0 + MergeRest(le, s, i0, m, m, end)
    ensures Built(out, list, tail) && Todo(s, out, m, m, end) && From(out, s)
  {
    hide *;
    var p: Elem?<K> := p0;
    q, list, tail, out := q0, list0, tail0, out0;
    var psize: nat, qsize: nat := psize0, qsize0;
    ghost var i: nat, j: nat := i0, m;
    MergingEnds(s, p, q, psize, qsize, i, m, j, end);
    while psize > 0 || (qsize > 0 && q != null)
      invariant i <= m <= j <= end <= |s|
      invariant Merging(s, p, q, psize, qsize, i, m, j, end)
      invariant Built(out, list, tail) && Todo(s, out, i, m, j) && From(out, s)
      invariant out + MergeRest(le, s, i, m, j, end) == out0 + MergeRest(le, s, i0, m, m, end)
      decreases m + end - i - j
    {
      var e;
      list, e, p, q, psize, qsize, i, j := MergeOne(p, q, psize, qsize, list, tail, le, s, out, i, m, j, end);
      tail, out := e, out + [e];
      MergingEnds(s, p, q, psize, qsize, i, m, j, end);
    }
    MergingEnds(s, p, q, psize, qsize, i, m, j, end);
    MergeRestEnds(le, s, out, i, m, j, end);
  }

  /** The merge of two runs: `p` holds `psize` nodes from `s[i0]` on, `q` at most `qsize` behind them. */
  method MergeRuns<K>(p0: Elem<K>, q0: Elem?<K>, psize0: nat, qsize0: nat, list0: Elem?<K>, tail0: Elem?<K>,
                      le: (Elem<K>, Elem<K>) -> bool, ghost s: seq<Elem<K>>, ghost out0: seq<Elem<K>>, ghost i0: nat)
      returns (list: Elem?<K>, tail: Elem?<K>, q: Elem?<K>, ghost out: seq<Elem<K>>)
    requires psize0 > 0 && i0 + psize0 <= |s| && p0 == s[i0] && q0 == At(s, i0 + psize0)
    requires Distinct(s) && Built(out0, list0, tail0) && Todo(s, out0, i0, i0 + psize0, i0 + psize0) && From(out0, s)
    modifies (set n | n in s)`next, (set n | n in s)`prev
    ensures var m := i0 + psize0;
            var e := Min(m + qsize0, |s|);
            q == At(s, e) && out == out0 + Merge(le, s[i0..m], s[m..e]) && Todo(s, out, m, m, e)
    ensures Built(out, list, tail) && From(out, s)
  {
    hide *;
    ghost var m := i0 + psize0;
    ghost var end := Min(m + qsize0, |s|);
    MergingStarts(s, p0, q0, psize0, qsize0, i0, m, end);
    MergeRestEnds(le, s, out0, i0, m, m, end);
    list, tail, q, out := MergeLoop(p0, q0, psize0, qsize0, list0, tail0, le, s, out0, i0, m, end);
  }

  lemma PassStep<K>(le: (Elem<K>, Elem<K>) -> bool, s: seq<Elem<K>>, i: nat, k: nat, out: seq<Elem<K>>)
    requires k > 0 && i < |s|
    ensures var m := i + Min(k, |s| - i);
            var e := Min(m + k, |s|);
            out + Pass(le, s[i..], k) == out + Merge(le, s[i..m], s[m..e]) + Pass(le, s[e..], k) &&
            Merges(|s| - i, k) == 1 + Merges(|s| - e, k)
  {
    hide *;
    RunSlices(s, i, k);
    PassUnfold(le, s[i..], k);
    MergesUnfold(|s| - i, k);
    var m := i + Min(k, |s| - i);
    var e := Min(m + k, |s|);
    ConcatAssoc(out, Merge(le, s[i..m], s[m..e]), Pass(le, s[e..], k));
  }

  lemma RunSlices<T>(s: seq<T>, i: nat, k: nat)
    requires k > 0 && i < |s|
    ensures var m := i + Min(k, |s| - i);
            var e := Min(m + k, |s|);
            m <= e <= |s| && |s| - e == (if |s| - i <= 2 * k then 0 else |s| - i - 2 * k) &&
            Left(s[i..], k) == s[i..m] && Right(s[i..], k) == s[m..e] && Rest(s[i..], k) == s[e..]
  {
  }

  lemma MergesUnfold(n: nat, k: nat)
    requires k > 0 && n > 0
    ensures Merges(n, k) == 1 + Merges(if n <= 2 * k then 0 else n - 2 * k, k)
  {
  }

  lemma PassUnfold<T>(le: (T, T) -> bool, t: seq<T>, k: nat)
    requires k > 0 && t != []
    ensures Pass(le, t, k) == Merge(le, Left(t, k), Right(t, k)) + Pass(le, Rest(t, k), k)
  {
  }

  lemma ConcatAssoc<T>(a: seq<T>, b: seq<T>, c: seq<T>)
    ensures a + (b + c) == a + b + c
  {
  }

  lemma PassDone<K>(le: (Elem<K>, Elem<K>) -> bool, s: seq<Elem<K>>, k: nat, out: seq<Elem<K>>)
    requires k > 0 && out + Pass(le, s[|s|..], k) == Pass(le, s, k)
    ensures out == Pass(le, s, k)
  {
  }

  lemma PassBegins<K>(le: (Elem<K>, Elem<K>) -> bool, s: seq<Elem<K>>, k: nat)
    requires k > 0 && Chained(s, 0) && Distinct(s)
    ensures [] + Pass(le, s[0..], k) == Pass(le, s, k) && Todo(s, [], 0, 0, 0) && Built<K>([], null, null)
  {
    assert s[0..] == s;
  }

  lemma TodoAdvance<K>(s: seq<Elem<K>>, out: seq<Elem<K>>, m: nat, e: nat)
    requires Todo(s, out, m, m, e)
    ensures Todo(s, out, e, e, e)
  {
  }

  lemma TodoRun<K>(s: seq<Elem<K>>, out: seq<Elem<K>>, i: nat, m: nat)
    requires Todo(s, out, i, i, i) && i <= m <= |s|
    ensures Todo(s, out, i, m, m)
  {
  }

  /** The length of the next run and the node behind it. */
  method FindRun<K>(p: Elem<K>, insize: nat, ghost s: seq<Elem<K>>, ghost i: nat) returns (psize: nat, q: Elem?<K>)
    requires insize > 0 && i < |s| && p == s[i] && Todo(s, [], i, i, i)
    ensures psize == Min(insize, |s| - i) && q == At(s, i + psize)
  {
    q, psize := p, 0;
    var n := 0;
    while n < insize
      invariant n == psize <= insize && i + psize < |s| && q == s[i + psize]
    {
      psize := psize + 1;
      q := q.next;
      if q == null { break; }
      n := n + 1;
    }
  }

  /** One turn of the loop of a pass: merges the next two runs. */
  method OneMerge<K>(p: Elem<K>, insize: nat, list0: Elem?<K>, tail0: Elem?<K>, le: (Elem<K>, Elem<K>) -> bool,
                     ghost s: seq<Elem<K>>, ghost out0: seq<Elem<K>>, ghost i: nat)
      returns (list: Elem?<K>, tail: Elem?<K>, q: Elem?<K>, ghost out: seq<Elem<K>>, ghost e: nat)
    requires insize > 0 && i < |s| && p == s[i] && Distinct(s)
    requires Built(out0, list0, tail0) && Todo(s, out0, i, i, i) && From(out0, s)
    modifies (set n | n in s)`next, (set n | n in s)`prev
    ensures i < e <= |s| && q == At(s, e) && Built(out, list, tail) && Todo(s, out, e, e, e)
    ensures From(out, s)
    ensures out + Pass(le, s[e..], insize) == out0 + Pass(le, s[i..], insize)
    ensures Merges(|s| - i, insize) == 1 + Merges(|s| - e, insize)
  {
    hide Built, Todo, Distinct, Pass, Merge, Merges;
    PassStep(le, s, i, insize, out0);
    TodoFewer(s, out0, i);
    var psize;
    psize, q := FindRun(p, insize, s, i);
    TodoRun(s, out0, i, i + psize);
    e := Min(i + psize + insize, |s|);
    list, tail, q, out := MergeRuns(p, q, psize, insize, list0, tail0, le, s, out0, i);
    TodoAdvance(s, out, i + psize, e);
  }

  /** One pass of the sort over the list `s`. */
  method SortPass<K>(head: Elem<K>, le: (Elem<K>, Elem<K>) -> bool, insize: nat, ghost s: seq<Elem<K>>,
                     ghost nodes: set<Elem<K>>)
      returns (list: Elem<K>, tail: Elem<K>, nmerges: nat, ghost r: seq<Elem<K>>)
    requires insize > 0 && s != [] && head == s[0] && Chained(s, 0) && Distinct(s)
    requires forall n :: n in s ==> n in nodes
    modifies nodes`next, nodes`prev
    ensures r == Pass(le, s, insize) && nmerges == Merges(|s|, insize)
    ensures Chained(r, 0) && Built(r, list, tail) && From(r, s)
  {
    hide Built, Todo, Chained, Distinct, Pass, Merge, Merges;
    PassBegins(le, s, insize);
    var p: Elem?<K> := head;
    ghost var i := 0;
    var l, t: Elem?<K> := null, null;
    nmerges, r := 0, [];
    while p != null
      invariant i <= |s| && p == At(s, i) && Built(r, l, t) && Todo(s, r, i, i, i)
      invariant From(r, s)
      invariant r + Pass(le, s[i..], insize) == Pass(le, s, insize)
      invariant nmerges + Merges(|s| - i, insize) == Merges(|s|, insize)
      decreases |s| - i
    {
      nmerges := nmerges + 1;
      l, t, p, r, i := OneMerge(p, insize, l, t, le, s, r, i);
    }
    NoMerges(insize);
    PassDone(le, s, insize, r);
    BuiltNonempty(r, l, t);
    tail, list := t, l;
    CloseList(list, tail, r);
  }

  /** Ends the output list. */
  method CloseList<K>(list: Elem<K>, tail: Elem<K>, ghost r: seq<Elem<K>>)
    requires Built(r, list, tail) && r != []
    modifies tail`next
    ensures Built(r, list, tail) && Chained(r, 0)
  {
    tail.next := null;
  }

  lemma NoMerges(k: nat)
    requires k > 0
    ensures Merges(0, k) == 0
  {
  }

  lemma TodoFewer<K>(s: seq<Elem<K>>, out: seq<Elem<K>>, i: nat)
    requires Todo(s, out, i, i, i)
    ensures Todo(s, [], i, i, i)
  {
  }

  lemma BuiltNonempty<K>(r: seq<Elem<K>>, list: Elem?<K>, tail: Elem?<K>)
    requires Built(r, list, tail) && r != []
    ensures list != null && tail != null && list == r[0] && tail == r[|r| - 1]
  {
  }

  lemma SortStep<K>(le: (Elem<K>, Elem<K>) -> bool, s: seq<Elem<K>>, k: nat)
    requires k > 0
    ensures Merges(|s|, k) <= 1 ==> Sort(le, s, k) == Pass(le, s, k)
    ensures Merges(|s|, k) > 1 ==> Sort(le, s, k) == Sort(le, Pass(le, s, k), 2 * k) && k < |s|
  {
    MergesOne(|s|, k);
  }

  /** A doubly linked list as utlist keeps it: the first `prev` is the tail. */
  ghost predicate DoublyLinked<K>(s: seq<Elem<K>>, head: Elem?<K>)
    reads s
  {
    Distinct(s) && Chained(s, 0) && head == At(s, 0) && (s != [] ==> s[0].prev == s[|s| - 1]) &&
    (forall i {:trigger s[i].prev} :: 0 < i < |s| ==> s[i].prev == s[i - 1])
  }

  lemma SortedIfPreorder<K>(le: (Elem<K>, Elem<K>) -> bool, s: seq<Elem<K>>)
    ensures Preorder(le, s) ==> StableSort(le, s, Sort(le, s, 1))
  {
    hide *;
    if Preorder(le, s) { SortCorrect(le, s); }
  }

  /** The state of the outer loop: the list `r`, sorted in runs of `insize` so far. */
  ghost predicate Sorting<K>(le: (Elem<K>, Elem<K>) -> bool, s: seq<Elem<K>>, r: seq<Elem<K>>, insize: nat,
                             looping: bool) {
    insize > 0 && r != [] && Distinct(r) && |r| == |s| && multiset(r) == multiset(s) &&
    if looping then Sort(le, r, insize) == Sort(le, s, 1) else r == Sort(le, s, 1)
  }

  lemma SameLength<T>(r: seq<T>, s: seq<T>)
    requires multiset(r) == multiset(s)
    ensures |r| == |s|
  {
    assert |r| == |multiset(r)| == |multiset(s)| == |s|;
  }

  lemma SortingStarts<K>(le: (Elem<K>, Elem<K>) -> bool, s: seq<Elem<K>>)
    requires s != [] && Distinct(s)
    ensures Sorting(le, s, s, 1, true)
  {
  }

  lemma SortingNext<K>(le: (Elem<K>, Elem<K>) -> bool, s: seq<Elem<K>>, r: seq<Elem<K>>, insize: nat, r': seq<Elem<K>>)
    requires Sorting(le, s, r, insize, true) && r' == Pass(le, r, insize) && Distinct(r')
    ensures Sorting(le, s, r', insize * 2, Merges(|r|, insize) > 1)
    ensures Merges(|r|, insize) > 1 ==> insize < |s|
  {
    hide Pass, Sort, Merges, Distinct;
    SortStep(le, r, insize);
    PassMultiset(le, r, insize);
    SameLength(r, r');
  }

  lemma SortingSays<K>(le: (Elem<K>, Elem<K>) -> bool, s: seq<Elem<K>>, r: seq<Elem<K>>, insize: nat, looping: bool)
    requires Sorting(le, s, r, insize, looping)
    ensures insize > 0 && r != [] && Distinct(r) && |r| == |s| && (forall n :: n in r ==> n in s)
    ensures multiset(r) == multiset(s) && (!looping ==> r == Sort(le, s, 1))
  {
    hide Sort, Distinct;
    forall n | n in r
      ensures n in s
    {
      assert n in multiset(r);
    }
  }

  /** `HASH_SRT` on the app-order list; the table's tail is updated as well. */
  method HashSort<K>(head: Elem?<K>, tail: Elem?<K>, le: (Elem<K>, Elem<K>) -> bool, ghost s: seq<Elem<K>>)
      returns (head': Elem?<K>, tail': Elem?<K>, ghost r: seq<Elem<K>>)
    requires AppList(s, head, tail)
    modifies (set n | n in s)`next, (set n | n in s)`prev
    ensures r == Sort(le, s, 1) && multiset(r) == multiset(s) && AppList(r, head', tail')
    ensures Preorder(le, s) ==> StableSort(le, s, r)
  {
    r := s;
    SortedIfPreorder(le, s);
    head', tail' := head, tail;
    if head == null { return; }
    var insize: nat, looping := 1, true;
    var list: Elem<K> := head;
    AppListParts(s, head, tail);
    SortingStarts(le, s);
    ghost var nodes := set n | n in s;
    hide *;
    while looping
      invariant Sorting(le, s, r, insize, looping) && Chained(r, 0)
      invariant looping ==> list == At(r, 0)
      invariant !looping ==> AppList(r, head', tail')
      decreases looping, if insize < |s| then |s| - insize else 0
    {
      SortingSays(le, s, r, insize, looping);
      AtFirst(r, list);
      ghost var was := r;
      var t, nmerges;
      list, t, nmerges, r := SortPass(list, le, insize, r, nodes);
      BuiltParts(r, list, t);
      SortingNext(le, s, was, insize, r);
      if nmerges <= 1 {
        looping := false;
        tail' := t;
        head' := list;
        AppListIs(r, list, t);
      }
      insize := insize * 2;
    }
    SortingSays(le, s, r, insize, looping);
  }

  lemma AtFirst<K>(r: seq<Elem<K>>, list: Elem<K>)
    requires r != []
    ensures list == At(r, 0) <==> list == r[0]
  {
  }

  lemma AppListParts<K>(s: seq<Elem<K>>, head: Elem?<K>, tail: Elem?<K>)
    requires AppList(s, head, tail)
    ensures Chained(s, 0) && Distinct(s) && head == At(s, 0)
  {
  }

  lemma AppListIs<K>(r: seq<Elem<K>>, list: Elem?<K>, tail: Elem?<K>)
    requires Built(r, list, tail) && Chained(r, 0)
    ensures AppList(r, list, tail)
  {
  }

  lemma BuiltParts<K>(r: seq<Elem<K>>, list: Elem?<K>, tail: Elem?<K>)
    requires Built(r, list, tail)
    ensures Distinct(r) && list == At(r, 0)
  {
  }

  /** `DL_SORT`: after every pass the first `prev` is set to the tail. */
  method DLSort<K>(head: Elem?<K>, le: (Elem<K>, Elem<K>) -> bool, ghost s: seq<Elem<K>>)
      returns (list: Elem?<K>, ghost r: seq<Elem<K>>)
    requires DoublyLinked(s, head)
    modifies (set n | n in s)`next, (set n | n in s)`prev
    ensures r == Sort(le, s, 1) && DoublyLinked(r, list)
    ensures Preorder(le, s) ==> StableSort(le, s, r)
  {
    r, list := s, head;
    SortedIfPreorder(le, s);
    if list == null { return; }
    var insize: nat, looping := 1, true;
    DoublyLinkedParts(s, head);
    SortingStarts(le, s);
    ghost var nodes := set n | n in s;
    hide *;
    while looping
      invariant Sorting(le, s, r, insize, looping) && DoublyLinked(r, list) && list != null
      decreases looping, if insize < |s| then |s| - insize else 0
    {
      SortingSays(le, s, r, insize, looping);
      DoublyLinkedParts(r, list);
      AtFirst(r, list);
      ghost var was := r;
      var first, tail, nmerges;
      first, tail, nmerges, r := SortPass(list, le, insize, r, nodes);
      list := first;
      BuiltParts(r, first, tail);
      AtFirst(r, first);
      SortingNext(le, s, was, insize, r);
      CloseRing(first, tail, r);
      if nmerges <= 1 {
        looping := false;
      }
      insize := insize * 2;
    }
    SortingSays(le, s, r, insize, looping);
  }

  /** `list->prev = tail` */
  method CloseRing<K>(list: Elem<K>, tail: Elem<K>, ghost r: seq<Elem<K>>)
    requires Built(r, list, tail) && Chained(r, 0) && r != []
    modifies list`prev
    ensures DoublyLinked(r, list)
  {
    list.prev := tail;
    forall i | 0 <= i < |r|
      ensures r[i].next == At(r, i + 1) && (i > 0 ==> r[i].prev == r[i - 1])
    {
      assert r[i].next == old(r[i].next);
      if i > 0 {
        assert r[i] != r[0];
        assert r[i].prev == old(r[i].prev);
      }
    }
  }

  lemma DoublyLinkedParts<K>(r: seq<Elem<K>>, list: Elem?<K>)
    requires DoublyLinked(r, list)
    ensures Chained(r, 0) && Distinct(r) && list == At(r, 0)
  {
  }
}
