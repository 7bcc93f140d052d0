/** uthash: a bucketed hash table whose elements are also threaded on a doubly linked list in
    insertion order. Element and hash handle are one object; the hash function is arbitrary. */
module HashTable {
  import opened Arithmetic
  import opened Elements
  import opened MergeSort
  import LinkedSort

  const HASH_INITIAL_NUM_BUCKETS: nat := 32
  const HASH_INITIAL_NUM_BUCKETS_LOG2: nat := 5
  const HASH_BKT_CAPACITY_THRESH: nat := 10

  datatype Bucket<K(==)> = Bucket(head: Elem?<K>, count: nat, expandMult: nat)

  /** A bucket chain: linked both ways by `hhNext` and `hhPrev`. */
  ghost predicate Chain<K>(c: seq<Elem<K>>, head: Elem?<K>)
    reads c
  {
    Distinct(c) && head == At(c, 0) &&
    (forall i {:trigger c[i].hhNext} :: 0 <= i < |c| ==> c[i].hhNext == At(c, i + 1)) &&
    (c != [] ==> c[0].hhPrev == null) &&
    (forall i {:trigger c[i].hhPrev} :: 0 < i < |c| ==> c[i].hhPrev == c[i - 1])
  }

  /** All chains, each holding elements of its own bucket only, with right counts. */
  ghost predicate Chains<K>(bs: seq<Bucket<K>>, chains: seq<seq<Elem<K>>>, nodes: set<Elem<K>>)
    reads nodes
  {
    |bs| == |chains| > 0 &&
    (forall j :: 0 <= j < |chains| ==> (forall x :: x in chains[j] ==> x in nodes)) &&
    (forall j :: 0 <= j < |chains| ==> InBucket(chains[j], j, |chains|)) &&
    (forall j :: 0 <= j < |chains| ==> (assert forall x :: x in chains[j] ==> x in nodes; Chain(chains[j], bs[j].head)))
  }

  ghost predicate Counts<K>(bs: seq<Bucket<K>>, chains: seq<seq<Elem<K>>>) {
    |bs| == |chains| && forall j :: 0 <= j < |bs| ==> bs[j].count == |chains[j]|
  }

  ghost predicate InBucket<K>(c: seq<Elem<K>>, j: nat, n: nat)
    requires n > 0
  {
    forall x :: x in c ==> x.hashv % n == j
  }

  // ----- one bucket -----

  /** `HASH_FIND_IN_BKT` */
  method FindInBucket<K>(head: Elem?<K>, key: K, ghost c: seq<Elem<K>>) returns (out: Elem?<K>)
    requires Chain(c, head)
    ensures out != null ==> out in c && out.key == key
    ensures out == null ==> forall x :: x in c ==> x.key != key
  {
    out := head;
    ghost var i := 0;
    while out != null
      invariant i <= |c| && out == At(c, i)
      invariant forall k :: 0 <= k < i ==> c[k].key != key
      decreases |c| - i
    {
      if out.key == key { return; }
      out := out.hhNext;
      i := i + 1;
    }
  }

  /** The links of `HASH_ADD_TO_BKT`: the element becomes the first of its chain. */
  method PushFront<K>(head: Elem?<K>, e: Elem<K>, ghost c: seq<Elem<K>>)
    requires Chain(c, head) && e !in c
    modifies (set x | x in c && x == head)`hhPrev, e`hhNext, e`hhPrev
    ensures Chain([e] + c, e)
  {
    e.hhNext := head;
    e.hhPrev := null;
    if head != null { head.hhPrev := e; }
    ghost var r := [e] + c;
    forall i | 0 <= i < |r|
      ensures r[i].hhNext == At(r, i + 1) && (i > 0 ==> r[i].hhPrev == r[i - 1])
    {
      if i > 0 {
        assert r[i] == c[i - 1] && c[i - 1] in c;
        assert At(r, i + 1) == At(c, i);
        if i > 1 { assert r[i - 1] == c[i - 2] && c[i - 1] != c[0]; }
      }
    }
  }

  /** The links of `HASH_DEL_IN_BKT`. */
  method Unlink<K>(head: Elem?<K>, e: Elem<K>, ghost c: seq<Elem<K>>, ghost k: nat) returns (head': Elem?<K>)
    requires Chain(c, head) && k < |c| && c[k] == e
    modifies (set x | x in c && x != e)`hhNext, (set x | x in c && x != e)`hhPrev
    ensures Chain(c[..k] + c[k + 1..], head')
  {
    head' := head;
    if head == e { head' := e.hhNext; }
    if e.hhPrev != null { assert k > 0; e.hhPrev.hhNext := e.hhNext; }
    if e.hhNext != null { assert e.hhNext == c[k + 1]; e.hhNext.hhPrev := e.hhPrev; }
    ghost var r := c[..k] + c[k + 1..];
    forall i | 0 <= i < |r|
      ensures r[i].hhNext == At(r, i + 1) && (i > 0 ==> r[i].hhPrev == r[i - 1])
    {
      if i < k { assert r[i] == c[i]; } else { assert r[i] == c[i + 1]; }
      if i + 1 < |r| { assert r[i + 1] == if i + 1 < k then c[i + 1] else c[i + 2]; }
      if i > 0 { assert r[i - 1] == if i - 1 < k then c[i - 1] else c[i]; }
    }
  }

  // ----- expansion, on sequences -----

  /** Element `e` becomes the first of its chain. */
  ghost function Place<K>(n: seq<seq<Elem<K>>>, e: Elem<K>): (r: seq<seq<Elem<K>>>)
    requires n != []
    ensures |r| == |n|
  {
    var j := e.hashv % |n|;
    n[j := [e] + n[j]]
  }

  ghost function PlaceAll<K>(n: seq<seq<Elem<K>>>, c: seq<Elem<K>>): (r: seq<seq<Elem<K>>>)
    requires n != []
    ensures |r| == |n|
    decreases |c|
  {
    if c == [] then n else PlaceAll(Place(n, c[0]), c[1..])
  }

  ghost function PlaceChains<K>(n: seq<seq<Elem<K>>>, chains: seq<seq<Elem<K>>>): (r: seq<seq<Elem<K>>>)
    requires n != []
    ensures |r| == |n|
    decreases |chains|
  {
    if chains == [] then n else PlaceChains(PlaceAll(n, chains[0]), chains[1..])
  }

  /** Empty chains for `n` buckets. */
  ghost function NoChains<K>(n: nat): (r: seq<seq<Elem<K>>>)
    ensures |r| == n && forall j :: 0 <= j < n ==> r[j] == []
  {
    seq(n, _ => [])
  }

  /** The chains after `HASH_EXPAND_BUCKETS`. */
  ghost function Expanded<K>(chains: seq<seq<Elem<K>>>): (r: seq<seq<Elem<K>>>)
    requires chains != []
    ensures |r| == 2 * |chains|
  {
    PlaceChains(NoChains(2 * |chains|), chains)
  }

  /** The elements of `c` that belong to bucket `j` of `n`, last one first. */
  ghost function Reversed<K>(c: seq<Elem<K>>, j: nat, n: nat): seq<Elem<K>>
    requires n > 0
    decreases |c|
  {
    if c == [] then [] else Reversed(c[1..], j, n) + if c[0].hashv % n == j then [c[0]] else []
  }

  lemma {:induction false} PlaceAllAt<K>(n: seq<seq<Elem<K>>>, c: seq<Elem<K>>, j: nat)
    requires j < |n|
    ensures PlaceAll(n, c)[j] == Reversed(c, j, |n|) + n[j]
    decreases |c|
  {
    if c != [] {
      PlaceAllAt(Place(n, c[0]), c[1..], j);
    }
  }

  lemma {:induction false} OtherBucket<K>(c: seq<Elem<K>>, b: nat, j: nat, n: nat)
    requires n > 0 && InBucket(c, b, n) && j % n != b
    ensures Reversed(c, j, 2 * n) == []
    decreases |c|
  {
    if c != [] {
      assert c[0] in c;
      HalfBucket(c[0].hashv, n);
      OtherBucket(c[1..], b, j, n);
    }
  }

  /** Doubling the number of buckets splits bucket `i` into `i` and `i + n`. */
  lemma HalfBucket(h: nat, n: nat)
    requires n > 0
    ensures h % (2 * n) % n == h % n && (h % (2 * n) == h % n || h % (2 * n) == h % n + n)
  {
    HalfOf(h, n, 2 * n);
  }

  lemma HalfOf(h: nat, n: nat, m: nat)
    requires n > 0 && m == n + n
    ensures h % m % n == h % n && (h % m == h % n || h % m == h % n + n)
  {
    var q, r := h / m, h % m;
    DivModOf(h, m);
    Doubled(n, m, q);
    if r < n {
      DivModIs(h, n, 2 * q, r);
      DivModIs(r, n, 0, r);
    } else {
      DivModIs(h, n, 2 * q + 1, r - n);
      DivModIs(r, n, 1, r - n);
    }
  }

  lemma Doubled(n: nat, m: nat, q: nat)
    requires m == n + n
    ensures m * q == n * (2 * q) && n * (2 * q + 1) == n * (2 * q) + n
  {
  }

  lemma {:induction false} PlaceChainsAt<K>(n: seq<seq<Elem<K>>>, chains: seq<seq<Elem<K>>>, first: nat, total: nat,
                                            j: nat)
    requires total > 0 && |n| == 2 * total && j < |n| && first + |chains| == total
    requires forall b :: 0 <= b < |chains| ==> InBucket(chains[b], first + b, total)
    ensures PlaceChains(n, chains)[j] ==
            (if first <= j % total then Reversed(chains[j % total - first], j, 2 * total) else []) + n[j]
    decreases |chains|
  {
    hide PlaceAll, Reversed;
    if chains == [] {
      assert j % total < total;
    } else {
      PlaceAllAt(n, chains[0], j);
      assert forall b :: 0 <= b < |chains[1..]| ==> chains[1..][b] == chains[b + 1];
      PlaceChainsAt(PlaceAll(n, chains[0]), chains[1..], first + 1, total, j);
      if j % total != first {
        OtherBucket(chains[0], first, j, total);
      }
    }
  }

  /** Where every element goes: new bucket `j` holds the elements of old bucket `j mod n` that
      hash to `j` under the new size, in reverse order, and nothing else. */
  lemma ExpandedAt<K>(chains: seq<seq<Elem<K>>>, j: nat)
    requires chains != [] && j < 2 * |chains|
    requires forall b :: 0 <= b < |chains| ==> InBucket(chains[b], b, |chains|)
    ensures Expanded(chains)[j] == Reversed(chains[j % |chains|], j, 2 * |chains|)
  {
    PlaceChainsAt(NoChains(2 * |chains|), chains, 0, |chains|, j);
  }

  lemma {:induction false} ReversedMembers<K>(c: seq<Elem<K>>, j: nat, n: nat, x: Elem<K>)
    requires n > 0
    ensures x in Reversed(c, j, n) <==> x in c && x.hashv % n == j
    decreases |c|
  {
    if c != [] {
      ReversedMembers(c[1..], j, n, x);
      assert x in c <==> x == c[0] || x in c[1..];
    }
  }

  /** An element is found in its new bucket if and only if it was in its old one. */
  lemma ExpandedMembers<K>(chains: seq<seq<Elem<K>>>, x: Elem<K>)
    requires chains != []
    requires forall b :: 0 <= b < |chains| ==> InBucket(chains[b], b, |chains|)
    ensures x in Expanded(chains)[x.hashv % (2 * |chains|)] <==> x in chains[x.hashv % |chains|]
  {
    var n := |chains|;
    HalfBucket(x.hashv, n);
    ExpandedAt(chains, x.hashv % (2 * n));
    ReversedMembers(chains[x.hashv % n], x.hashv % (2 * n), 2 * n, x);
  }

  lemma {:induction false} ReversedDistinct<K>(c: seq<Elem<K>>, j: nat, n: nat)
    requires n > 0 && Distinct(c)
    ensures Distinct(Reversed(c, j, n))
    decreases |c|
  {
    if c != [] {
      ReversedDistinct(c[1..], j, n);
      var r := Reversed(c[1..], j, n);
      forall i | 0 <= i < |r|
        ensures r[i] != c[0]
      {
        ReversedMembers(c[1..], j, n, r[i]);
      }
    }
  }

  /** No element comes twice: not in one new bucket, and not in two of them. */
  lemma ExpandedDistinct<K>(chains: seq<seq<Elem<K>>>, j: nat)
    requires chains != [] && j < 2 * |chains| && Distinct(chains[j % |chains|])
    requires forall b :: 0 <= b < |chains| ==> InBucket(chains[b], b, |chains|)
    ensures Distinct(Expanded(chains)[j]) && InBucket(Expanded(chains)[j], j, 2 * |chains|)
  {
    var c, n := chains[j % |chains|], 2 * |chains|;
    ExpandedAt(chains, j);
    ReversedDistinct(c, j, n);
    forall x | x in Reversed(c, j, n)
      ensures x.hashv % n == j
    {
      ReversedMembers(c, j, n, x);
    }
  }

  // ----- the figures kept by an expansion -----

  /** `ideal_chain_maxlen`, with the shift and the mask written as division and remainder. */
  function IdealChainMaxlen(items: nat, log2: nat, buckets: nat): nat
    requires buckets > 0
  {
    items / Pow2(log2 + 1) + if items % (2 * buckets) != 0 then 1 else 0
  }

  /** It is the ceiling of items by new buckets, and positive when there are items. */
  lemma IdealIsCeiling(items: nat, log2: nat, buckets: nat)
    requires buckets == Pow2(log2)
    ensures var c := IdealChainMaxlen(items, log2, buckets);
            items <= c * (2 * buckets) < items + 2 * buckets && (items > 0 ==> c > 0)
  {
    assert Pow2(log2 + 1) == 2 * buckets;
    Ceiling(items, 2 * buckets);
  }

  lemma Ceiling(items: nat, n: nat)
    requires n > 0
    ensures var c := items / n + if items % n != 0 then 1 else 0;
            items <= c * n < items + n && (items > 0 ==> c > 0)
  {
    var q, r := items / n, items % n;
    DivModOf(items, n);
    TimesPlusOne(q, n);
    if q == 0 { assert n * q == 0; }
  }

  lemma TimesPlusOne(q: nat, n: nat)
    ensures q * n == n * q && (q + 1) * n == q * n + n
  {
  }

  /** The number of elements beyond the ideal length of their chain. */
  ghost function Excess<K>(chains: seq<seq<Elem<K>>>, ideal: nat): nat {
    if chains == [] then 0
    else (if |chains[0]| > ideal then |chains[0]| - ideal else 0) + Excess(chains[1..], ideal)
  }

  lemma {:induction false} ExcessPlace<K>(chains: seq<seq<Elem<K>>>, j: nat, c: seq<Elem<K>>, ideal: nat)
    requires j < |chains| && |c| == |chains[j]| + 1
    ensures Excess(chains[j := c], ideal) == Excess(chains, ideal) + if |c| > ideal then 1 else 0
    decreases |chains|
  {
    if j > 0 {
      assert chains[j := c][1..] == chains[1..][j - 1 := c];
      ExcessPlace(chains[1..], j - 1, c, ideal);
    } else {
      assert chains[j := c][1..] == chains[1..];
    }
  }

  lemma {:induction false} ExcessNone<K>(n: nat, ideal: nat)
    ensures Excess(NoChains<K>(n), ideal) == 0
  {
    if n > 0 {
      assert NoChains<K>(n)[1..] == NoChains(n - 1);
      ExcessNone<K>(n - 1, ideal);
    }
  }

  /** The multiplier delays the next expansion of an overused bucket. */
  ghost predicate Multipliers<K>(bs: seq<Bucket<K>>, ideal: nat) {
    ideal > 0 &&
    forall j :: 0 <= j < |bs| ==> bs[j].expandMult == if bs[j].count > ideal then bs[j].count / ideal else 0
  }

  lemma MultipliersSay<K>(a: array<Bucket<K>>, ideal: nat)
    requires Multipliers(a[..], ideal)
    ensures ideal > 0
    ensures forall j :: 0 <= j < a.Length ==> a[j].expandMult == if a[j].count > ideal then a[j].count / ideal else 0
  {
    assert forall j :: 0 <= j < a.Length ==> a[..][j] == a[j];
  }

  /** The elements within the ideal length of their chain. */
  ghost function Within<K>(chains: seq<seq<Elem<K>>>, ideal: nat): nat {
    if chains == [] then 0 else Min(|chains[0]|, ideal) + Within(chains[1..], ideal)
  }

  /** The others are those beyond it, and there are none iff no chain is longer. */
  lemma {:induction false} ExcessAndWithin<K>(chains: seq<seq<Elem<K>>>, ideal: nat)
    ensures Excess(chains, ideal) + Within(chains, ideal) == Total(chains)
    ensures Excess(chains, ideal) == 0 <==> forall c <- chains :: |c| <= ideal
  {
    if chains != [] {
      ExcessAndWithin(chains[1..], ideal);
      assert forall c :: c in chains <==> c == chains[0] || c in chains[1..];
    }
  }

  /** The elements of `n` have been placed before element `k` of old chain `i`. */
  ghost predicate PlacedBefore<K>(n: seq<seq<Elem<K>>>, chains: seq<seq<Elem<K>>>, i: nat, k: nat)
    requires i < |chains| && k <= |chains[i]|
  {
    forall j :: 0 <= j < |n| ==>
      forall x :: x in n[j] ==> x.hashv % |chains| < i || (x.hashv % |chains| == i && x in chains[i][..k])
  }

  lemma NotYetPlaced<K>(n: seq<seq<Elem<K>>>, chains: seq<seq<Elem<K>>>, i: nat, k: nat)
    requires i < |chains| && k < |chains[i]| && PlacedBefore(n, chains, i, k)
    requires InBucket(chains[i], i, |chains|) && Distinct(chains[i])
    ensures forall j :: 0 <= j < |n| ==> chains[i][k] !in n[j]
  {
    var e := chains[i][k];
    assert e in chains[i];
    forall j | 0 <= j < |n|
      ensures e !in n[j]
    {
      assert e !in chains[i][..k];
    }
  }

  lemma PlacedNext<K>(n: seq<seq<Elem<K>>>, chains: seq<seq<Elem<K>>>, i: nat, k: nat)
    requires n != [] && i < |chains| && k < |chains[i]| && PlacedBefore(n, chains, i, k)
    requires InBucket(chains[i], i, |chains|)
    ensures PlacedBefore(Place(n, chains[i][k]), chains, i, k + 1)
  {
    var e := chains[i][k];
    var m := Place(n, e);
    assert e in chains[i] && chains[i][..k + 1] == chains[i][..k] + [e];
    forall j: nat, x: Elem<K> | j < |m| && x in m[j]
      ensures x.hashv % |chains| < i || (x.hashv % |chains| == i && x in chains[i][..k + 1])
    {
      if x != e { assert x in n[j]; }
    }
  }

  /** Moves one element to its new bucket. */
  method MoveItem<K>(newBuckets: array<Bucket<K>>, thh: Elem<K>, ideal: nat,
                     ghost n: seq<seq<Elem<K>>>, ghost nodes: set<Elem<K>>) returns (nonideal: bool)
    requires Chains(newBuckets[..], n, nodes) && Counts(newBuckets[..], n) && Multipliers(newBuckets[..], ideal)
    requires thh in nodes && forall j :: 0 <= j < |n| ==> thh !in n[j]
    modifies newBuckets, thh`hhNext, nodes`hhPrev
    ensures Chains(newBuckets[..], Place(n, thh), nodes) && Counts(newBuckets[..], Place(n, thh))
    ensures Multipliers(newBuckets[..], ideal)
    ensures Excess(Place(n, thh), ideal) == Excess(n, ideal) + if nonideal then 1 else 0
  {
    assert ideal > 0;
    hide Counts, Multipliers, Excess;
    var bkt := thh.hashv % newBuckets.Length;
    var b := newBuckets[bkt];
    var count := b.count + 1;
    nonideal := count > ideal;
    var moved := Bucket(thh, count, if nonideal then count / ideal else b.expandMult);
    PlaceFigures(newBuckets[..], n, thh, ideal, moved);
    PushFront(b.head, thh, n[bkt]);
    newBuckets[bkt] := moved;
  }

  /** The figures of the bucket that receives an element. */
  lemma PlaceFigures<K>(bs: seq<Bucket<K>>, n: seq<seq<Elem<K>>>, e: Elem<K>, ideal: nat, moved: Bucket<K>)
    requires n != [] && Counts(bs, n) && Multipliers(bs, ideal)
    requires var b := bs[e.hashv % |n|];
             moved.count == b.count + 1 &&
             moved.expandMult == if moved.count > ideal then moved.count / ideal else b.expandMult
    ensures var bkt := e.hashv % |n|;
            Counts(bs[bkt := moved], Place(n, e)) && Multipliers(bs[bkt := moved], ideal) &&
            Excess(Place(n, e), ideal) == Excess(n, ideal) + if moved.count > ideal then 1 else 0
  {
    var bkt := e.hashv % |n|;
    ExcessPlace(n, bkt, [e] + n[bkt], ideal);
    hide Excess;
  }

  /** From index `from` on, the old chain still has its links. */
  ghost predicate NextLinks<K>(c: seq<Elem<K>>, from: nat, nodes: set<Elem<K>>)
    requires forall x :: x in c ==> x in nodes
    reads nodes
  {
    forall i {:trigger c[i].hhNext} :: from <= i < |c| ==> c[i] in nodes && c[i].hhNext == At(c, i + 1)
  }

  /** The inner loop of `HASH_EXPAND_BUCKETS`: empties old chain `i` into the new buckets. */
  method MoveChain<K>(newBuckets: array<Bucket<K>>, head: Elem?<K>, ideal: nat, nonideal0: nat,
                      ghost n0: seq<seq<Elem<K>>>, ghost chains: seq<seq<Elem<K>>>, ghost i: nat,
                      ghost nodes: set<Elem<K>>) returns (nonideal: nat)
    requires Chains(newBuckets[..], n0, nodes) && Counts(newBuckets[..], n0) && Multipliers(newBuckets[..], ideal)
    requires i < |chains| && Old(chains, i, nodes) && Distinct(chains[i]) && head == At(chains[i], 0)
    requires PlacedBefore(n0, chains, i, 0) && Excess(n0, ideal) == nonideal0
    modifies newBuckets, chains[i]`hhNext, nodes`hhPrev
    ensures var n := PlaceAll(n0, chains[i]);
            Chains(newBuckets[..], n, nodes) && Counts(newBuckets[..], n) && Multipliers(newBuckets[..], ideal) &&
            PlacedBefore(n, chains, i, |chains[i]|) && Excess(n, ideal) == nonideal
  {
    var thh := head;
    nonideal := nonideal0;
    ghost var c, k, n := chains[i], 0, n0;
    assert c[0..] == c;
    hide Chains, Counts, Multipliers, PlacedBefore, Excess, Place, Distinct, NextLinks;
    while thh != null
      invariant k <= |c| && thh == At(c, k)
      invariant Chains(newBuckets[..], n, nodes) && Counts(newBuckets[..], n) && Multipliers(newBuckets[..], ideal)
      invariant n != [] && PlacedBefore(n, chains, i, k) && Excess(n, ideal) == nonideal
      invariant NextLinks(c, k, nodes)
      invariant PlaceAll(n, c[k..]) == PlaceAll(n0, c)
      decreases |c| - k
    {
      NotYetPlaced(n, chains, i, k);
      PlacedNext(n, chains, i, k);
      PlaceAllStep(n, c, k);
      NextLinkAt(c, k, nodes);
      var next := thh.hhNext;
      var more := MoveNext(newBuckets, thh, ideal, n, c, k, nodes);
      if more { nonideal := nonideal + 1; }
      n := Place(n, thh);
      k := k + 1;
      thh := next;
    }
  }

  /** What is known of an old chain before it is emptied. */
  ghost predicate Old<K>(chains: seq<seq<Elem<K>>>, i: nat, nodes: set<Elem<K>>)
    requires i < |chains|
    reads nodes
  {
    InBucket(chains[i], i, |chains|) && (forall x :: x in chains[i] ==> x in nodes) && NextLinks(chains[i], 0, nodes)
  }

  lemma NextLinkAt<K>(c: seq<Elem<K>>, k: nat, nodes: set<Elem<K>>)
    requires (forall x :: x in c ==> x in nodes) && NextLinks(c, k, nodes) && k < |c|
    ensures c[k].hhNext == At(c, k + 1) && c[k] in nodes
  {
  }

  lemma PlaceAllStep<K>(n: seq<seq<Elem<K>>>, c: seq<Elem<K>>, k: nat)
    requires n != [] && k < |c|
    ensures PlaceAll(n, c[k..]) == PlaceAll(Place(n, c[k]), c[k + 1..])
  {
    assert c[k..][1..] == c[k + 1..];
  }

  /** `MoveItem` for element `k` of chain `c`; the links behind it stay. */
  method MoveNext<K>(newBuckets: array<Bucket<K>>, thh: Elem<K>, ideal: nat, ghost n: seq<seq<Elem<K>>>,
                     ghost c: seq<Elem<K>>, ghost k: nat, ghost nodes: set<Elem<K>>) returns (nonideal: bool)
    requires Chains(newBuckets[..], n, nodes) && Counts(newBuckets[..], n) && Multipliers(newBuckets[..], ideal)
    requires (forall x :: x in c ==> x in nodes) && Distinct(c) && k < |c| && c[k] == thh && NextLinks(c, k, nodes)
    requires forall j :: 0 <= j < |n| ==> thh !in n[j]
    modifies newBuckets, thh`hhNext, nodes`hhPrev
    ensures Chains(newBuckets[..], Place(n, thh), nodes) && Counts(newBuckets[..], Place(n, thh))
    ensures Multipliers(newBuckets[..], ideal) && NextLinks(c, k + 1, nodes)
    ensures Excess(Place(n, thh), ideal) == Excess(n, ideal) + if nonideal then 1 else 0
  {
    hide Chains, Counts, Multipliers, Excess, Place;
    nonideal := MoveItem(newBuckets, thh, ideal, n, nodes);
  }

  // ----- the app-order list -----

  /** Appends `e`: the tail part of `HASH_ADD_KEYPTR`. */
  method AppendApp<K>(head: Elem?<K>, tail: Elem?<K>, e: Elem<K>, ghost s: seq<Elem<K>>) returns (head': Elem<K>)
    requires AppList(s, head, tail) && e !in s
    modifies (set x | x in s && x == tail)`next, e`next, e`prev
    ensures AppList(s + [e], head', e)
  {
    e.next := null;
    if head == null {
      head' := e;
      e.prev := null;
    } else {
      head' := head;
      tail.next := e;
      e.prev := tail;
    }
    ghost var r := s + [e];
    forall i | 0 <= i < |r|
      ensures r[i].next == At(r, i + 1) && (i > 0 ==> r[i].prev == r[i - 1])
    {
      if i < |s| { assert r[i] == s[i] && s[i] in s; }
    }
  }

  /** The neighbours of `s[j]` once `s[k]` is out of the list. */
  ghost predicate Bypassed<K>(s: seq<Elem<K>>, k: nat, j: nat)
    requires j < |s|
    reads s[j]
  {
    s[j].next == At(s, if j + 1 == k then k + 1 else j + 1) &&
    s[j].prev == if j == 0 then null else if j == k + 1 then (if k == 0 then null else At(s, k - 1)) else At(s, j - 1)
  }

  lemma BypassedList<K>(s: seq<Elem<K>>, k: nat)
    requires Distinct(s) && k < |s| && forall j :: 0 <= j < |s| && j != k ==> Bypassed(s, k, j)
    ensures var r := s[..k] + s[k + 1..];
            AppList(r, At(r, 0), Last(r))
  {
    var r := s[..k] + s[k + 1..];
    forall i | 0 <= i < |r|
      ensures r[i].next == At(r, i + 1) && (i == 0 ==> r[i].prev == null) && (i > 0 ==> r[i].prev == r[i - 1])
    {
      var j := if i < k then i else i + 1;
      assert r[i] == s[j] && Bypassed(s, k, j);
      if i + 1 < |r| { assert r[i + 1] == if i + 1 < k then s[i + 1] else s[i + 2]; }
      if i > 0 { assert r[i - 1] == if i - 1 < k then s[i - 1] else s[i]; }
    }
  }

  /** Takes `e` out of the list: the first part of `HASH_DELETE`. */
  method DetachApp<K>(head: Elem<K>, tail: Elem<K>, e: Elem<K>, ghost s: seq<Elem<K>>, ghost k: nat)
      returns (head': Elem?<K>, tail': Elem?<K>)
    requires AppList(s, head, tail) && k < |s| && s[k] == e && |s| > 1
    modifies (set x | x in s && x != e)`next, (set x | x in s && x != e)`prev
    ensures AppList(s[..k] + s[k + 1..], head', tail')
  {
    head', tail' := head, tail;
    assert e.next == At(s, k + 1) && e.prev == if k == 0 then null else At(s, k - 1);
    if e == tail { assert k == |s| - 1; tail' := e.prev; }
    if e.prev != null { e.prev.next := e.next; } else { head' := e.next; }
    if e.next != null { e.next.prev := e.prev; }
    forall j | 0 <= j < |s| && j != k
      ensures Bypassed(s, k, j)
    {
      assert k > 0 && j != k - 1 ==> s[j] != s[k - 1];
      assert k + 1 < |s| && j != k + 1 ==> s[j] != s[k + 1];
    }
    BypassedList(s, k);
  }

  // ----- the table -----

  /** Every element of the list is in the chain of its bucket. */
  ghost predicate Indexed<K>(app: seq<Elem<K>>, chains: seq<seq<Elem<K>>>) {
    chains != [] && forall x :: x in app ==> x in chains[x.hashv % |chains|]
  }

  ghost predicate Keyed<K>(app: seq<Elem<K>>, hash: K -> nat) {
    (forall x :: x in app ==> x.hashv == hash(x.key)) &&
    (forall i, j :: 0 <= i < j < |app| ==> app[i].key != app[j].key)
  }

  lemma Permuted<T>(r: seq<T>, s: seq<T>)
    requires multiset(r) == multiset(s)
    ensures |r| == |s| && forall x :: x in r <==> x in s
  {
    assert |r| == |multiset(r)| == |multiset(s)| == |s|;
    forall x
      ensures x in r <==> x in s
    {
      assert x in r <==> x in multiset(r);
    }
  }

  /** The keys of a list stay unique in another order. */
  lemma KeyedPermuted<K>(r: seq<Elem<K>>, s: seq<Elem<K>>, hash: K -> nat)
    requires Distinct(r) && Keyed(s, hash) && forall x :: x in r <==> x in s
    ensures Keyed(r, hash)
  {
    forall i, j | 0 <= i < j < |r|
      ensures r[i].key != r[j].key
    {
      assert r[i] in s && r[j] in s;
      var a :| 0 <= a < |s| && s[a] == r[i];
      var b :| 0 <= b < |s| && s[b] == r[j];
      assert a < b || b < a;
    }
  }

  /** One more element makes the chain of this bucket too long. */
  predicate Overfull<K>(b: Bucket<K>) {
    b.count + 1 >= (b.expandMult + 1) * HASH_BKT_CAPACITY_THRESH
  }

  class Table<K(==)> {
    const hash: K -> nat
    var head: Elem?<K>
    var tail: Elem?<K>
    var buckets: array<Bucket<K>>
    var log2NumBuckets: nat
    var numItems: nat
    var idealChainMaxlen: nat
    var nonidealItems: nat
    var ineffExpands: nat
    var noexpand: bool

    /** The live elements in insertion order, and the chains of the buckets. */
    ghost var App: seq<Elem<K>>
    ghost var BucketChains: seq<seq<Elem<K>>>

    constructor (h: K -> nat)
      ensures Valid() && App == [] && hash == h
    {
      hash, head, tail, numItems := h, null, null, 0;
      buckets := new Bucket<K>[HASH_INITIAL_NUM_BUCKETS](_ => Bucket(null, 0, 0));
      log2NumBuckets := HASH_INITIAL_NUM_BUCKETS_LOG2;
      idealChainMaxlen, nonidealItems, ineffExpands, noexpand := 0, 0, 0, false;
      App, BucketChains := [], [];
    }

    ghost function Nodes(): set<Elem<K>>
      reads this
    {
      set x | x in App
    }

    /** The part of the invariant about the buckets. */
    ghost predicate Bucketed()
      reads this, buckets, Nodes()
    {
      buckets.Length == Pow2(log2NumBuckets) && |BucketChains| == buckets.Length &&
      Chains(buckets[..], BucketChains, Nodes()) && Counts(buckets[..], BucketChains) &&
      Indexed(App, BucketChains) && numItems == |App|
    }

    /** What `HASH_FSCK` checks, and that chains and list hold the same elements. An empty
        table has no buckets at all. */
    ghost predicate Valid()
      reads this, buckets, Nodes()
    {
      AppList(App, head, tail) && Keyed(App, hash) && (App != [] ==> Bucketed())
    }

    /** The end of `HASH_SRT`, after `LinkedSort.HashSort` has relinked the elements by `next` and
        `prev`: the table is valid again, since its buckets do not depend on the order of the list. */
    method AdoptOrder(list: Elem?<K>, last: Elem?<K>, ghost r: seq<Elem<K>>)
      requires AppList(r, list, last) && multiset(r) == multiset(App)
      requires Keyed(App, hash) && (App != [] ==> Bucketed())
      modifies this`head, this`tail, this`App
      ensures Valid() && App == r
    {
      Permuted(r, App);
      KeyedPermuted(r, App, hash);
      ghost var nodes := Nodes();
      head, tail, App := list, last, r;
      assert Nodes() == nodes;
    }

    /** `HASH_SRT`: the list is sorted, and the buckets stay as they are. */
    method Sort(le: (Elem<K>, Elem<K>) -> bool)
      requires Valid()
      modifies this`head, this`tail, this`App, Nodes()`next, Nodes()`prev
      ensures Valid() && App == MergeSort.Sort(le, old(App), 1)
      ensures Preorder(le, old(App)) ==> StableSort(le, old(App), App)
    {
      hide Keyed, Counts, Indexed, Pow2, Preorder, StableSort, MergeSort.Sort;
      var list, last;
      ghost var r;
      list, last, r := LinkedSort.HashSort(head, tail, le, App);
      AdoptOrder(list, last, r);
    }

    /** `HASH_FIND`: the live element with that key, or null. */
    method Find(key: K) returns (out: Elem?<K>)
      requires Valid()
      ensures out != null ==> out in App && out.key == key
      ensures out == null ==> forall x :: x in App ==> x.key != key
    {
      out := null;
      if head != null {
        assert head in App;
        var bkt := hash(key) % buckets.Length;
        ghost var c := BucketChains[bkt];
        assert Chain(c, buckets[..][bkt].head);
        out := FindInBucket(buckets[bkt].head, key, c);
        if out == null {
          forall x | x in App
            ensures x.key != key
          {
            assert x in BucketChains[x.hashv % |BucketChains|];
          }
        }
      }
    }

    /** The outer loop of `HASH_EXPAND_BUCKETS`: all old chains, one after the other. */
    method Redistribute(newBuckets: array<Bucket<K>>, ideal: nat, ghost nodes: set<Elem<K>>) returns (nonideal: nat)
      requires Bucketed() && nodes == Nodes() && buckets != newBuckets
      requires Chains(newBuckets[..], NoChains(2 * buckets.Length), nodes)
      requires Counts(newBuckets[..], NoChains<K>(2 * buckets.Length)) && Multipliers(newBuckets[..], ideal)
      modifies newBuckets, nodes`hhNext, nodes`hhPrev
      ensures BucketChains != []
      ensures Chains(newBuckets[..], Expanded(BucketChains), nodes) && Counts(newBuckets[..], Expanded(BucketChains))
      ensures Multipliers(newBuckets[..], ideal) && nonideal == Excess(Expanded(BucketChains), ideal)
    {
      nonideal := 0;
      ghost var chains := BucketChains;
      ghost var n := NoChains<K>(2 * buckets.Length);
      ExcessNone<K>(2 * buckets.Length, ideal);
      OldChains(buckets[..], chains, nodes);
      NothingPlaced(chains);
      assert chains[0..] == chains;
      ghost var bs := buckets[..];
      hide Chains, Counts, Multipliers, PlacedBefore, Excess, NoChains, Distinct, OldFrom, PlaceAll, PlaceChains,
           Expanded, Bucketed;
      var i := 0;
      while i < buckets.Length
        invariant i <= buckets.Length == |chains| && buckets[..] == bs
        invariant Chains(newBuckets[..], n, nodes) && Counts(newBuckets[..], n) && Multipliers(newBuckets[..], ideal)
        invariant n != [] && PlacedUpTo(n, chains, i) && Excess(n, ideal) == nonideal
        invariant OldFrom(bs, chains, i, nodes)
        invariant PlaceChains(n, chains[i..]) == Expanded(chains)
      {
        OldAt(bs, chains, i, nodes);
        PlacedStart(n, chains, i);
        PlaceChainsStep(n, chains, i);
        ghost var n0 := n;
        n := PlaceAll(n0, chains[i]);
        nonideal := NextChain(newBuckets, buckets[i].head, ideal, nonideal, n0, bs, chains, i, nodes);
        PlacedEnd(n, chains, i);
        i := i + 1;
      }
      PlaceChainsDone(n, chains);
    }

    /** Allocates the new buckets of `HASH_EXPAND_BUCKETS` and moves the elements there. */
    method FillNewBuckets() returns (newBuckets: array<Bucket<K>>)
      requires Bucketed() && App != []
      modifies this`idealChainMaxlen, this`nonidealItems, Nodes()`hhNext, Nodes()`hhPrev
      ensures fresh(newBuckets) && newBuckets.Length == 2 * buckets.Length && BucketChains != []
      ensures Chains(newBuckets[..], Expanded(BucketChains), Nodes()) && Counts(newBuckets[..], Expanded(BucketChains))
      ensures Indexed(App, Expanded(BucketChains))
      ensures idealChainMaxlen == IdealChainMaxlen(numItems, log2NumBuckets, buckets.Length)
      ensures nonidealItems == Excess(Expanded(BucketChains), idealChainMaxlen)
      ensures Multipliers(newBuckets[..], idealChainMaxlen)
    {
      hide Expanded, Chains, Counts, Multipliers, Excess, NoChains, Indexed, IdealChainMaxlen;
      var n := buckets.Length;
      newBuckets := new Bucket<K>[2 * n](_ => Bucket(null, 0, 0));
      IdealIsCeiling(numItems, log2NumBuckets, n);
      idealChainMaxlen := IdealChainMaxlen(numItems, log2NumBuckets, n);
      NewBuckets(newBuckets[..], Nodes(), idealChainMaxlen);
      ExpandKeepsIndex(App, BucketChains, buckets[..], Nodes());
      nonidealItems := Redistribute(newBuckets, idealChainMaxlen, Nodes());
    }

    /** `HASH_EXPAND_BUCKETS` */
    method ExpandBuckets()
      requires Bucketed() && App != []
      modifies this`buckets, this`log2NumBuckets, this`idealChainMaxlen, this`nonidealItems, this`ineffExpands,
               this`noexpand, this`BucketChains, Nodes()`hhNext, Nodes()`hhPrev
      ensures Bucketed() && fresh(buckets) && buckets.Length == 2 * old(buckets.Length)
      ensures old(BucketChains) != [] && BucketChains == Expanded(old(BucketChains))
      ensures idealChainMaxlen == IdealChainMaxlen(numItems, old(log2NumBuckets), old(buckets.Length))
      ensures nonidealItems == Excess(BucketChains, idealChainMaxlen)
      ensures idealChainMaxlen > 0 && forall j :: 0 <= j < buckets.Length ==>
                buckets[j].expandMult ==
                  if buckets[j].count > idealChainMaxlen then buckets[j].count / idealChainMaxlen else 0
      ensures ineffExpands == if nonidealItems > numItems / 2 then old(ineffExpands) + 1 else 0
      ensures noexpand == (old(noexpand) || ineffExpands > 1)
    {
      hide Expanded, Chains, Counts, Multipliers, Excess, NoChains, Indexed, IdealChainMaxlen, Pow2;
      var newBuckets := FillNewBuckets();
      ReplaceBuckets(newBuckets, Nodes());
      MultipliersSay(newBuckets, idealChainMaxlen);
      ineffExpands := if nonidealItems > numItems / 2 then ineffExpands + 1 else 0;
      if ineffExpands > 1 {
        noexpand := true;
      }
    }

    /** The new buckets take the place of the old ones. */
    method ReplaceBuckets(newBuckets: array<Bucket<K>>, ghost nodes: set<Elem<K>>)
      requires BucketChains != [] && |BucketChains| == Pow2(log2NumBuckets) && numItems == |App| && nodes == Nodes()
      requires Chains(newBuckets[..], Expanded(BucketChains), nodes) && Counts(newBuckets[..], Expanded(BucketChains))
      requires Indexed(App, Expanded(BucketChains))
      modifies this`buckets, this`log2NumBuckets, this`BucketChains
      ensures buckets == newBuckets && BucketChains == Expanded(old(BucketChains)) && Bucketed()
    {
      hide Expanded, Indexed;
      log2NumBuckets := log2NumBuckets + 1;
      buckets := newBuckets;
      BucketChains := Expanded(BucketChains);
      assert Pow2(log2NumBuckets) == 2 * Pow2(log2NumBuckets - 1);
    }

    lemma ValidLength()
      requires Valid()
      ensures App != [] ==> buckets.Length > 0
    {
      hide Chains, Counts, Keyed, Indexed;
    }

    /** `HASH_MAKE_TABLE`, for the first element. */
    method MakeTable()
      modifies this`buckets, this`log2NumBuckets, this`numItems, this`idealChainMaxlen, this`nonidealItems,
               this`ineffExpands, this`noexpand, this`BucketChains
      ensures fresh(buckets) && buckets.Length == Pow2(log2NumBuckets) == HASH_INITIAL_NUM_BUCKETS && numItems == 0
      ensures BucketChains == NoChains(buckets.Length)
      ensures Chains(buckets[..], BucketChains, {}) && Counts(buckets[..], BucketChains)
      ensures buckets.Length == 32 && !noexpand
      ensures forall j :: 0 <= j < buckets.Length ==> buckets[j] == Bucket(null, 0, 0)
    {
      InitialPow2();
      buckets := new Bucket<K>[HASH_INITIAL_NUM_BUCKETS](_ => Bucket(null, 0, 0));
      log2NumBuckets := HASH_INITIAL_NUM_BUCKETS_LOG2;
      numItems, idealChainMaxlen, nonidealItems, ineffExpands, noexpand := 0, 0, 0, 0, false;
      BucketChains := NoChains(HASH_INITIAL_NUM_BUCKETS);
      NewBuckets(buckets[..], {}, 1);
    }

    /** `HASH_ADD_TO_BKT` without the expansion: the element joins its chain. */
    method AddToBucket(e: Elem<K>, ghost nodes: set<Elem<K>>) returns (full: bool)
      requires Chains(buckets[..], BucketChains, nodes) && Counts(buckets[..], BucketChains) && e !in nodes
      modifies buckets, this`BucketChains, nodes`hhPrev, e`hhNext, e`hhPrev
      ensures old(BucketChains) != [] && BucketChains == Place(old(BucketChains), e)
      ensures Chains(buckets[..], BucketChains, nodes + {e}) && Counts(buckets[..], BucketChains)
      ensures buckets.Length > 0 && (full <==> Overfull(old(buckets[e.hashv % buckets.Length])))
    {
      var bkt := e.hashv % buckets.Length;
      var b := buckets[bkt];
      PushFront(b.head, e, BucketChains[bkt]);
      buckets[bkt] := Bucket(e, b.count + 1, b.expandMult);
      BucketChains := Place(BucketChains, e);
      full := b.count + 1 >= (b.expandMult + 1) * HASH_BKT_CAPACITY_THRESH;
    }

    /** The first half of `HASH_ADD_KEYPTR`: `e` joins the list, and the table if there is none. */
    method LinkApp(e: Elem<K>)
      requires Valid() && e !in App
      modifies this`head, this`tail, this`numItems, this`buckets, this`log2NumBuckets, this`idealChainMaxlen,
               this`nonidealItems, this`ineffExpands, this`noexpand, this`BucketChains, Nodes()`next, e`next, e`prev
      ensures AppList(App + [e], head, tail) && (buckets == old(buckets) || fresh(buckets))
      ensures buckets.Length == Pow2(log2NumBuckets) == |BucketChains| && numItems == |App| + 1
      ensures Chains(buckets[..], BucketChains, Nodes()) && Counts(buckets[..], BucketChains)
      ensures Indexed(App, BucketChains)
      ensures App != [] ==> buckets == old(buckets) && noexpand == old(noexpand)
      ensures App == [] ==> fresh(buckets) && buckets.Length == 32 && !noexpand &&
                            forall j :: 0 <= j < buckets.Length ==> buckets[j] == Bucket(null, 0, 0)
    {
      hide Pow2, Keyed, Chains, Counts, Indexed;
      if head == null {
        head := e;
        e.next, e.prev := null, null;
        assert App == [] && Nodes() == {};
        MakeTable();
        EmptyIndexed(BucketChains);
      } else {
        AppendKeepingBuckets(e);
      }
      tail := e;
      numItems := numItems + 1;
    }

    method AppendKeepingBuckets(e: Elem<K>)
      requires AppList(App, head, tail) && head != null && Bucketed() && e !in App
      modifies this`head, Nodes()`next, e`next, e`prev
      ensures AppList(App + [e], head, e) && Bucketed()
    {
      hide Pow2, Counts, Indexed;
      assert App[0] in App;
      head := AppendApp(head, tail, e, App);
    }

    /** The second half: `e` joins its chain. */
    method IndexElem(e: Elem<K>) returns (full: bool)
      requires AppList(App + [e], head, tail) && e !in App
      requires buckets.Length == Pow2(log2NumBuckets) == |BucketChains| && numItems == |App| + 1
      requires Chains(buckets[..], BucketChains, Nodes()) && Counts(buckets[..], BucketChains)
      requires Indexed(App, BucketChains)
      modifies buckets, this`BucketChains, this`App, Nodes()`hhPrev, e`hhNext, e`hhPrev
      ensures App == old(App) + [e] && AppList(App, head, tail) && Bucketed()
      ensures buckets.Length > 0 && (full <==> Overfull(old(buckets[e.hashv % buckets.Length])))
    {
      hide Pow2, Chains, Counts, AppList, Overfull;
      ghost var nodes := Nodes();
      ghost var chains := BucketChains;
      full := AddKeepingList(e, App + [e], nodes);
      IndexedPlace(App, chains, e);
      hide Indexed;
      assert nodes + {e} == set x | x in App + [e];
      App := App + [e];
    }

    method AddKeepingList(e: Elem<K>, ghost s: seq<Elem<K>>, ghost nodes: set<Elem<K>>) returns (full: bool)
      requires Chains(buckets[..], BucketChains, nodes) && Counts(buckets[..], BucketChains) && e !in nodes
      requires AppList(s, head, tail)
      modifies buckets, this`BucketChains, nodes`hhPrev, e`hhNext, e`hhPrev
      ensures old(BucketChains) != [] && BucketChains == Place(old(BucketChains), e)
      ensures Chains(buckets[..], BucketChains, nodes + {e}) && Counts(buckets[..], BucketChains)
      ensures AppList(s, head, tail)
      ensures buckets.Length > 0 && (full <==> Overfull(old(buckets[e.hashv % buckets.Length])))
    {
      hide Chains, Counts, Distinct, Overfull;
      full := AddToBucket(e, nodes);
    }

    /** `HASH_ADD`: a new key's element becomes the last of the list and is found from then on.  The first
        element gets a table of 32 buckets; later on the buckets double exactly if the chain that the element
        joins reaches ten times its multiplier plus one, and expansion has not been given up. */
    method Add(e: Elem<K>)
      requires Valid() && e.hashv == hash(e.key) && forall x :: x in App ==> x.key != e.key
      modifies this, buckets, Nodes(), e
      ensures Valid() && App == old(App) + [e] && (buckets == old(buckets) || fresh(buckets))
      ensures old(App) == [] ==> fresh(buckets) && buckets.Length == 32
      ensures old(App) != [] ==> old(buckets.Length) > 0
      ensures old(App) != [] ==>
                var b := old(buckets[e.hashv % buckets.Length]);
                if b.count + 1 >= 10 * (b.expandMult + 1) && !old(noexpand)
                then fresh(buckets) && buckets.Length == 2 * old(buckets.Length)
                else buckets == old(buckets)
    {
      ValidLength();
      hide Pow2, Chains, Counts, Indexed;
      KeyedAppend(App, e, hash);
      LinkApp(e);
      var full := IndexElem(e);
      hide AppList, Keyed;
      if full && !noexpand {
        Expand();
      }
    }

    /** An expansion leaves the list alone. */
    method Expand()
      requires Bucketed() && App != [] && AppList(App, head, tail)
      modifies this`buckets, this`log2NumBuckets, this`idealChainMaxlen, this`nonidealItems, this`ineffExpands,
               this`noexpand, this`BucketChains, Nodes()`hhNext, Nodes()`hhPrev
      ensures Bucketed() && AppList(App, head, tail) && fresh(buckets) && buckets.Length == 2 * old(buckets.Length)
    {
      hide Bucketed, Pow2, Chains, Counts, Indexed, Expanded, Multipliers, Excess, IdealChainMaxlen;
      ExpandBuckets();
    }

    /** `HASH_DEL_IN_BKT` */
    method RemoveFromBucket(e: Elem<K>, ghost nodes: set<Elem<K>>)
      requires Chains(buckets[..], BucketChains, nodes) && Counts(buckets[..], BucketChains)
      requires e in nodes && buckets.Length == |BucketChains| && e in BucketChains[e.hashv % buckets.Length]
      modifies buckets, this`BucketChains, nodes`hhNext, nodes`hhPrev
      ensures Chains(buckets[..], BucketChains, nodes - {e}) && Counts(buckets[..], BucketChains)
      ensures |BucketChains| == buckets.Length
      ensures forall j :: 0 <= j < |BucketChains| ==>
                forall x :: x in BucketChains[j] <==> x in old(BucketChains)[j] && x != e
    {
      var bkt := e.hashv % buckets.Length;
      ghost var c := BucketChains[bkt];
      ghost var k :| 0 <= k < |c| && c[k] == e;
      var b := buckets[bkt];
      assert Chain(c, buckets[..][bkt].head);
      var h := Unlink(b.head, e, c, k);
      buckets[bkt] := Bucket(h, b.count - 1, b.expandMult);
      BucketChains := BucketChains[bkt := c[..k] + c[k + 1..]];
      RemovedMembers(c, k);
    }

    /** `HASH_DELETE` */
    method Delete(e: Elem<K>) returns (ghost k: nat)
      requires Valid() && e in App
      modifies this, buckets, Nodes()
      ensures Valid() && buckets == old(buckets)
      ensures k < |old(App)| && old(App)[k] == e && App == old(App)[..k] + old(App)[k + 1..]
    {
      k :| 0 <= k < |App| && App[k] == e;
      ghost var r := App[..k] + App[k + 1..];
      KeyedRemove(App, k, hash);
      if e.prev == null && e.next == null {
        assert |App| == 1;
        head, tail, App := null, null, [];
      } else {
        UnlinkApp(e, k);
        UnindexElem(e, k);
      }
    }

    method UnlinkApp(e: Elem<K>, ghost k: nat)
      requires Valid() && k < |App| && App[k] == e && (e.prev != null || e.next != null)
      modifies this`head, this`tail, Nodes()`next, Nodes()`prev
      ensures AppList(App[..k] + App[k + 1..], head, tail) && Bucketed()
    {
      hide Keyed, Counts, Indexed, Pow2;
      assert App[0] in App;
      head, tail := DetachApp(head, tail, e, App, k);
    }

    method UnindexElem(e: Elem<K>, ghost k: nat)
      requires Bucketed() && k < |App| && App[k] == e && Distinct(App)
      requires AppList(App[..k] + App[k + 1..], head, tail)
      modifies this`numItems, this`App, this`BucketChains, buckets, Nodes()`hhNext, Nodes()`hhPrev
      ensures App == old(App[..k] + App[k + 1..]) && AppList(App, head, tail) && Bucketed()
    {
      hide Pow2, Chains, Counts, AppList;
      ghost var r := App[..k] + App[k + 1..];
      assert e in App;
      ghost var nodes, chains := Nodes(), BucketChains;
      RemovedMembers(App, k);
      RemoveKeepingList(e, r, nodes);
      IndexedRemove(App, r, e, chains, BucketChains);
      hide Indexed, Distinct;
      assert nodes - {e} == set x | x in r;
      numItems := numItems - 1;
      App := r;
    }

    method RemoveKeepingList(e: Elem<K>, ghost r: seq<Elem<K>>, ghost nodes: set<Elem<K>>)
      requires Chains(buckets[..], BucketChains, nodes) && Counts(buckets[..], BucketChains)
      requires e in nodes && buckets.Length == |BucketChains| && e in BucketChains[e.hashv % buckets.Length]
      requires AppList(r, head, tail)
      modifies buckets, this`BucketChains, nodes`hhNext, nodes`hhPrev
      ensures Chains(buckets[..], BucketChains, nodes - {e}) && Counts(buckets[..], BucketChains)
      ensures |BucketChains| == buckets.Length && AppList(r, head, tail)
      ensures forall j :: 0 <= j < |BucketChains| ==>
                forall x :: x in BucketChains[j] <==> x in old(BucketChains)[j] && x != e
    {
      hide Chains, Counts, Distinct;
      RemoveFromBucket(e, nodes);
    }
  }

  lemma EmptyIndexed<K>(chains: seq<seq<Elem<K>>>)
    ensures chains != [] ==> Indexed([], chains)
  {
  }

  lemma IndexedPlace<K>(s: seq<Elem<K>>, chains: seq<seq<Elem<K>>>, e: Elem<K>)
    requires Indexed(s, chains)
    ensures Indexed(s + [e], Place(chains, e))
  {
  }

  lemma IndexedRemove<K>(s: seq<Elem<K>>, r: seq<Elem<K>>, e: Elem<K>, chains: seq<seq<Elem<K>>>,
                         left: seq<seq<Elem<K>>>)
    requires Indexed(s, chains) && (forall x :: x in r ==> x in s && x != e) && |left| == |chains|
    requires forall j :: 0 <= j < |left| ==> forall x :: x in left[j] <==> x in chains[j] && x != e
    ensures Indexed(r, left)
  {
  }

  lemma RemovedMembers<K>(s: seq<Elem<K>>, k: nat)
    requires k < |s| && Distinct(s)
    ensures forall x :: x in s[..k] + s[k + 1..] <==> x in s && x != s[k]
  {
    var r := s[..k] + s[k + 1..];
    forall x
      ensures x in r <==> x in s && x != s[k]
    {
      if x in s && x != s[k] {
        var i :| 0 <= i < |s| && s[i] == x;
        assert x == r[if i < k then i else i - 1];
      }
      if x in r {
        var i :| 0 <= i < |r| && r[i] == x;
        assert x == s[if i < k then i else i + 1];
      }
    }
  }

  lemma KeyedRemove<K>(s: seq<Elem<K>>, k: nat, hash: K -> nat)
    requires Keyed(s, hash) && k < |s|
    ensures Keyed(s[..k] + s[k + 1..], hash)
  {
    var r := s[..k] + s[k + 1..];
    forall i, j | 0 <= i < j < |r|
      ensures r[i].key != r[j].key
    {
      assert r[i] == s[if i < k then i else i + 1] && r[j] == s[if j < k then j else j + 1];
    }
  }

  lemma KeyedAppend<K>(s: seq<Elem<K>>, e: Elem<K>, hash: K -> nat)
    requires Keyed(s, hash) && e.hashv == hash(e.key) && forall x :: x in s ==> x.key != e.key
    ensures Keyed(s + [e], hash) && e !in s
  {
  }

  lemma InitialPow2()
    ensures Pow2(HASH_INITIAL_NUM_BUCKETS_LOG2) == HASH_INITIAL_NUM_BUCKETS
  {
    assert Pow2(3) == 8;
  }

  lemma NewBuckets<K>(bs: seq<Bucket<K>>, nodes: set<Elem<K>>, ideal: nat)
    requires |bs| > 0 && ideal > 0 && forall j :: 0 <= j < |bs| ==> bs[j] == Bucket(null, 0, 0)
    ensures Chains(bs, NoChains(|bs|), nodes) && Counts(bs, NoChains<K>(|bs|)) && Multipliers(bs, ideal)
  {
  }

  lemma ExpandKeepsIndex<K>(app: seq<Elem<K>>, chains: seq<seq<Elem<K>>>, bs: seq<Bucket<K>>, nodes: set<Elem<K>>)
    requires Chains(bs, chains, nodes) && Indexed(app, chains)
    ensures Indexed(app, Expanded(chains))
  {
    forall x | x in app
      ensures x in Expanded(chains)[x.hashv % |Expanded(chains)|]
    {
      ExpandedMembers(chains, x);
    }
  }

  /** Bucket `i` and all behind it still hold their old chains. */
  ghost predicate OldFrom<K>(bs: seq<Bucket<K>>, chains: seq<seq<Elem<K>>>, i: nat, nodes: set<Elem<K>>)
    reads nodes
  {
    |bs| == |chains| &&
    forall b :: i <= b < |chains| ==> Old(chains, b, nodes) && Distinct(chains[b]) && bs[b].head == At(chains[b], 0)
  }

  ghost predicate PlacedUpTo<K>(n: seq<seq<Elem<K>>>, chains: seq<seq<Elem<K>>>, i: nat)
    requires chains != []
  {
    forall j :: 0 <= j < |n| ==> forall x :: x in n[j] ==> x.hashv % |chains| < i
  }

  lemma OldChains<K>(bs: seq<Bucket<K>>, chains: seq<seq<Elem<K>>>, nodes: set<Elem<K>>)
    requires Chains(bs, chains, nodes)
    ensures OldFrom(bs, chains, 0, nodes)
  {
    forall b | 0 <= b < |chains|
      ensures Old(chains, b, nodes) && Distinct(chains[b]) && bs[b].head == At(chains[b], 0)
    {
      var c := chains[b];
      assert forall x :: x in c ==> x in nodes;
      assert Chain(c, bs[b].head);
      forall i | 0 <= i < |c|
        ensures c[i] in nodes && c[i].hhNext == At(c, i + 1)
      {
        assert c[i] in c;
      }
    }
  }

  lemma NothingPlaced<K>(chains: seq<seq<Elem<K>>>)
    requires chains != []
    ensures PlacedUpTo(NoChains(2 * |chains|), chains, 0) &&
            PlaceChains(NoChains(2 * |chains|), chains) == Expanded(chains)
  {
  }

  lemma OldAt<K>(bs: seq<Bucket<K>>, chains: seq<seq<Elem<K>>>, i: nat, nodes: set<Elem<K>>)
    requires OldFrom(bs, chains, i, nodes) && i < |chains|
    ensures |bs| == |chains| && Old(chains, i, nodes) && Distinct(chains[i]) && bs[i].head == At(chains[i], 0)
  {
  }

  lemma PlacedStart<K>(n: seq<seq<Elem<K>>>, chains: seq<seq<Elem<K>>>, i: nat)
    requires i < |chains| && PlacedUpTo(n, chains, i)
    ensures PlacedBefore(n, chains, i, 0)
  {
  }

  lemma PlacedEnd<K>(n: seq<seq<Elem<K>>>, chains: seq<seq<Elem<K>>>, i: nat)
    requires i < |chains| && PlacedBefore(n, chains, i, |chains[i]|)
    ensures PlacedUpTo(n, chains, i + 1)
  {
  }

  lemma PlaceChainsStep<K>(n: seq<seq<Elem<K>>>, chains: seq<seq<Elem<K>>>, i: nat)
    requires n != [] && i < |chains|
    ensures PlaceChains(n, chains[i..]) == PlaceChains(PlaceAll(n, chains[i]), chains[i + 1..])
  {
    assert chains[i..][1..] == chains[i + 1..];
  }

  lemma PlaceChainsDone<K>(n: seq<seq<Elem<K>>>, chains: seq<seq<Elem<K>>>)
    requires n != []
    ensures PlaceChains(n, chains[|chains|..]) == n
  {
  }

  /** `MoveChain` for chain `i`; the chains behind it stay. */
  method NextChain<K>(newBuckets: array<Bucket<K>>, head: Elem?<K>, ideal: nat, nonideal0: nat,
                      ghost n0: seq<seq<Elem<K>>>, ghost bs: seq<Bucket<K>>, ghost chains: seq<seq<Elem<K>>>,
                      ghost i: nat, ghost nodes: set<Elem<K>>) returns (nonideal: nat)
    requires Chains(newBuckets[..], n0, nodes) && Counts(newBuckets[..], n0) && Multipliers(newBuckets[..], ideal)
    requires i < |chains| && OldFrom(bs, chains, i, nodes) && head == At(chains[i], 0)
    requires PlacedBefore(n0, chains, i, 0) && Excess(n0, ideal) == nonideal0 && n0 != []
    modifies newBuckets, nodes`hhNext, nodes`hhPrev
    ensures var n := PlaceAll(n0, chains[i]);
            Chains(newBuckets[..], n, nodes) && Counts(newBuckets[..], n) && Multipliers(newBuckets[..], ideal) &&
            PlacedBefore(n, chains, i, |chains[i]|) && Excess(n, ideal) == nonideal
    ensures OldFrom(bs, chains, i + 1, nodes)
  {
    hide Chains, Counts, Multipliers, PlacedBefore, Excess, PlaceAll, Distinct;
    OldAt(bs, chains, i, nodes);
    OtherChains(bs, chains, i, nodes);
    forall b | i < b < |chains|
      ensures Old(chains, b, nodes)
    {
      OldAt(bs, chains, b, nodes);
    }
    nonideal := MoveChain(newBuckets, head, ideal, nonideal0, n0, chains, i, nodes);
    forall b | i < b < |chains|
      ensures Old(chains, b, nodes)
    {
      assert NoneIn(chains[b], chains[i]);
      assert old(Old(chains, b, nodes));
      assert forall k :: 0 <= k < |chains[b]| ==>
               chains[b][k] in chains[b] && chains[b][k].hhNext == old(chains[b][k].hhNext);
    }
  }

  /** The chains behind chain `i` share no element with it. */
  ghost predicate Apart<K>(chains: seq<seq<Elem<K>>>, i: nat)
    requires i < |chains|
  {
    forall b :: i < b < |chains| ==> NoneIn(chains[b], chains[i])
  }

  ghost predicate NoneIn<K>(c: seq<Elem<K>>, d: seq<Elem<K>>) {
    forall x :: x in c ==> x !in d
  }

  lemma OtherChains<K>(bs: seq<Bucket<K>>, chains: seq<seq<Elem<K>>>, i: nat, nodes: set<Elem<K>>)
    requires OldFrom(bs, chains, i, nodes) && i < |chains|
    ensures OldFrom(bs, chains, i + 1, nodes) && Apart(chains, i)
  {
    hide NextLinks, Distinct;
    forall b | i < b < |chains|
      ensures NoneIn(chains[b], chains[i])
    {
      assert Old(chains, b, nodes) && Old(chains, i, nodes);
    }
  }

  // ----- the totals that HASH_FSCK compares -----

  /** The sum of the lengths of all chains, as `HASH_FSCK` adds them up. */
  ghost function Total<K>(chains: seq<seq<Elem<K>>>): nat {
    if chains == [] then 0 else |chains[0]| + Total(chains[1..])
  }

  ghost function Members<K>(s: seq<Elem<K>>): set<Elem<K>> {
    set x | x in s
  }

  lemma {:induction false} DistinctSize<K>(s: seq<Elem<K>>)
    requires Distinct(s)
    ensures |Members(s)| == |s|
    decreases |s|
  {
    if s != [] {
      DistinctSize(s[1..]);
      assert Members(s) == Members(s[1..]) + {s[0]};
    }
  }

  /** The elements of `s` in buckets `first` and above. */
  ghost function From<K>(s: seq<Elem<K>>, first: nat, n: nat): set<Elem<K>>
    requires n > 0
  {
    set x | x in s && x.hashv % n >= first
  }

  lemma FromSplit<K>(app: seq<Elem<K>>, c: seq<Elem<K>>, first: nat, n: nat)
    requires n > 0 && forall x :: x in c <==> x in app && x.hashv % n == first
    ensures |From(app, first, n)| == |From(app, first + 1, n)| + |Members(c)|
  {
    var a, b, m := From(app, first, n), From(app, first + 1, n), Members(c);
    forall x
      ensures x in a <==> x in b + m
    {
      assert x in c <==> x in app && x.hashv % n == first;
    }
    assert a == b + m && b !! m;
  }

  lemma {:induction false} TotalIs<K>(app: seq<Elem<K>>, chains: seq<seq<Elem<K>>>, first: nat, n: nat)
    requires n > 0 && first + |chains| == n
    requires forall j :: 0 <= j < |chains| ==> Distinct(chains[j]) && InBucket(chains[j], first + j, n)
    requires forall j :: 0 <= j < |chains| ==> forall x :: x in chains[j] <==> x in app && x.hashv % n == first + j
    ensures Total(chains) == |From(app, first, n)|
    decreases |chains|
  {
    if chains == [] {
      assert From(app, first, n) == {};
    } else {
      assert forall j :: 0 <= j < |chains[1..]| ==> chains[1..][j] == chains[j + 1];
      TotalIs(app, chains[1..], first + 1, n);
      DistinctSize(chains[0]);
      FromSplit(app, chains[0], first, n);
    }
  }

  /** In a valid table the bucket counts add up to the number of items. */
  lemma FsckTotals<K>(t: Table<K>)
    requires t.Valid() && t.App != []
    ensures Total(t.BucketChains) == t.numItems
  {
    var app, chains, n := t.App, t.BucketChains, t.buckets.Length;
    forall j | 0 <= j < |chains|
      ensures Distinct(chains[j]) && forall x :: x in chains[j] <==> x in app && x.hashv % n == j
    {
      assert forall x :: x in chains[j] ==> x in t.Nodes();
      assert Chain(chains[j], t.buckets[..][j].head);
    }
    TotalIs(app, chains, 0, n);
    assert From(app, 0, n) == Members(app);
    DistinctSize(app);
  }
}
