/** libcoap's send queue: a linked list whose nodes store, as `t`, the ticks since the node
    before them; the first one counts from the base time of the queue. */
module TimerQueue {

  // ----- the arithmetic of relative times -----

  /** The absolute due times of relative times counted from `base`. */
  function Dues(base: int, ts: seq<nat>): (r: seq<int>)
    ensures |r| == |ts|
    decreases ts
  {
    if ts == [] then [] else [base + ts[0]] + Dues(base + ts[0], ts[1..])
  }

  /** Where `coap_insert_node` puts a node that is due `t` after the base. */
  function InsertPosition(ts: seq<nat>, t: nat): (k: nat)
    ensures k <= |ts|
  {
    if ts == [] || t < ts[0] then 0 else 1 + InsertPosition(ts[1..], t - ts[0])
  }

  /** The relative times after the insertion. */
  function InsertTime(ts: seq<nat>, t: nat): (r: seq<nat>)
    ensures |r| == |ts| + 1
  {
    if ts == [] then [t]
    else if t < ts[0] then [t, ts[0] - t] + ts[1..]
    else [ts[0]] + InsertTime(ts[1..], t - ts[0])
  }

  /** The relative times after removing node `k`: the node behind it inherits its time. */
  function RemoveTime(ts: seq<nat>, k: nat): (r: seq<nat>)
    requires k < |ts|
    ensures |r| == |ts| - 1
  {
    if k > 0 then [ts[0]] + RemoveTime(ts[1..], k - 1)
    else if |ts| == 1 then []
    else [ts[1] + ts[0]] + ts[2..]
  }

  ghost predicate InOrder(s: seq<int>) {
    forall i, j :: 0 <= i < j < |s| ==> s[i] <= s[j]
  }

  lemma {:induction false} DuesInOrder(base: int, ts: seq<nat>)
    ensures InOrder(Dues(base, ts)) && forall i :: 0 <= i < |ts| ==> Dues(base, ts)[i] >= base
    decreases ts
  {
    if ts != [] {
      DuesInOrder(base + ts[0], ts[1..]);
      var d := Dues(base + ts[0], ts[1..]);
      assert forall i :: 0 < i < |ts| ==> Dues(base, ts)[i] == d[i - 1];
    }
  }

  lemma DuesUnfold(base: int, ts: seq<nat>)
    requires ts != []
    ensures Dues(base, ts) == [base + ts[0]] + Dues(base + ts[0], ts[1..])
  {
  }

  lemma InsertUnfold(ts: seq<nat>, t: nat)
    ensures ts == [] || t < ts[0] ==>
              InsertPosition(ts, t) == 0 && InsertTime(ts, t) == if ts == [] then [t] else [t, ts[0] - t] + ts[1..]
    ensures ts != [] && t >= ts[0] ==>
              InsertPosition(ts, t) == 1 + InsertPosition(ts[1..], t - ts[0]) &&
              InsertTime(ts, t) == [ts[0]] + InsertTime(ts[1..], t - ts[0])
  {
  }

  lemma {:induction false} InsertPositionDues(base: int, ts: seq<nat>, t: nat)
    ensures var k := InsertPosition(ts, t);
            var d := Dues(base, ts);
            (forall i :: 0 <= i < k ==> d[i] <= base + t) && (forall i :: k <= i < |d| ==> base + t < d[i])
    decreases ts
  {
    hide Dues, InsertPosition, InsertTime;
    var d := Dues(base, ts);
    InsertUnfold(ts, t);
    if ts != [] {
      DuesUnfold(base, ts);
      if t >= ts[0] {
        var e := Dues(base + ts[0], ts[1..]);
        InsertPositionDues(base + ts[0], ts[1..], t - ts[0]);
        assert forall i :: 0 < i < |d| ==> d[i] == e[i - 1];
      } else {
        DuesInOrder(base, ts);
        assert d[0] > base + t && forall i :: 0 < i < |d| ==> d[0] <= d[i];
      }
    }
  }

  /** Insertion adds one due time, behind all that are not later, and moves no other. */
  lemma {:induction false} InsertTimeDues(base: int, ts: seq<nat>, t: nat)
    ensures var k := InsertPosition(ts, t);
            var d := Dues(base, ts);
            Dues(base, InsertTime(ts, t)) == d[..k] + [base + t] + d[k..] &&
            (forall i :: 0 <= i < k ==> d[i] <= base + t) && (forall i :: k <= i < |d| ==> base + t < d[i])
    decreases ts
  {
    hide Dues, InsertPosition, InsertTime;
    InsertPositionDues(base, ts, t);
    InsertUnfold(ts, t);
    var k, d := InsertPosition(ts, t), Dues(base, ts);
    if ts == [] || t < ts[0] {
      DuesInFront(base, ts, t);
      assert d[..0] + [base + t] + d[0..] == [base + t] + d;
    } else {
      InsertTimeDues(base + ts[0], ts[1..], t - ts[0]);
      DuesUnfold(base, ts);
      var u, e := InsertTime(ts[1..], t - ts[0]), Dues(base + ts[0], ts[1..]);
      DuesUnfold(base, [ts[0]] + u);
      assert ([ts[0]] + u)[1..] == u;
      assert d[..k] == [d[0]] + e[..k - 1] && d[k..] == e[k - 1..];
    }
  }

  lemma DuesInFront(base: int, ts: seq<nat>, t: nat)
    requires ts != [] ==> t < ts[0]
    ensures Dues(base, if ts == [] then [t] else [t, ts[0] - t] + ts[1..]) == [base + t] + Dues(base, ts)
  {
    hide Dues;
    if ts == [] {
      DuesUnfold(base, [t]);
      DuesNone(base);
      DuesNone(base + t);
      assert [t][1..] == [];
    } else {
      var r := [t, ts[0] - t] + ts[1..];
      var tail := r[1..];
      DuesUnfold(base, r);
      DuesUnfold(base + t, tail);
      DuesUnfold(base, ts);
      assert tail[0] == ts[0] - t && tail[1..] == ts[1..];
    }
  }

  lemma DuesNone(base: int)
    ensures Dues(base, []) == []
  {
  }

  /** Removal takes one due time away and moves no other. */
  lemma {:induction false} RemoveTimeDues(base: int, ts: seq<nat>, k: nat)
    requires k < |ts|
    ensures var d := Dues(base, ts);
            Dues(base, RemoveTime(ts, k)) == d[..k] + d[k + 1..]
    decreases ts
  {
    var d := Dues(base, ts);
    if k > 0 {
      RemoveTimeDues(base + ts[0], ts[1..], k - 1);
      var e := Dues(base + ts[0], ts[1..]);
      assert RemoveTime(ts, k)[1..] == RemoveTime(ts[1..], k - 1);
      assert d[..k] == [d[0]] + e[..k - 1] && d[k + 1..] == e[k..];
    } else if |ts| > 1 {
      var r := RemoveTime(ts, k);
      assert r[1..] == ts[2..] && ts[1..][1..] == ts[2..];
      assert d[1..] == Dues(base + ts[0], ts[1..]);
    }
  }

  // ----- the linked queue -----

  class Node {
    var next: Node?
    var t: nat
    var retransmitCnt: nat
    var id: int
    const timeout: nat
    const pdu: nat

    constructor (pdu: nat, id: int, timeout: nat, t: nat)
      ensures next == null && this.t == t && Content(this) == Message(pdu, id, timeout, 0)
    {
      next, retransmitCnt, this.pdu, this.id, this.timeout, this.t := null, 0, pdu, id, timeout, t;
    }
  }

  /** What a node says of its message; `pdu` stands for the identity of the message. */
  datatype Message = Message(pdu: nat, id: int, timeout: nat, count: nat)

  ghost function Content(n: Node): Message
    reads n`id, n`retransmitCnt
  {
    Message(n.pdu, n.id, n.timeout, n.retransmitCnt)
  }

  ghost function Contents(q: seq<Node>): (r: seq<Message>)
    reads (set x | x in q)`id, (set x | x in q)`retransmitCnt
    ensures |r| == |q| && forall i :: 0 <= i < |q| ==> r[i] == Content(q[i])
  {
    if q == [] then [] else [Content(q[0])] + Contents(q[1..])
  }

  function At(q: seq<Node>, i: nat): Node? {
    if i < |q| then q[i] else null
  }

  ghost predicate Distinct(q: seq<Node>) {
    forall i, j :: 0 <= i < j < |q| ==> q[i] != q[j]
  }

  ghost predicate Linked(q: seq<Node>, head: Node?)
    reads q
  {
    Distinct(q) && head == At(q, 0) &&
    forall i {:trigger q[i].next} :: 0 <= i < |q| ==> q[i].next == At(q, i + 1)
  }

  ghost function Times(q: seq<Node>): (ts: seq<nat>)
    reads q
    ensures |ts| == |q|
  {
    seq(|q|, i requires 0 <= i < |q| reads q => q[i].t)
  }

  /** The queue with `node` put in at position `k`. */
  function Inserted(q: seq<Node>, k: nat, node: Node): seq<Node>
    requires k <= |q|
  {
    q[..k] + [node] + q[k..]
  }

  lemma InsertPositionTail(ts: seq<nat>, t: nat, i: nat, left: nat)
    requires i < |ts| && ts[i] <= left && Reached(ts, t, i, left)
    ensures Reached(ts, t, i + 1, left - ts[i])
  {
    assert ts[i..][1..] == ts[i + 1..] && ts[i..][0] == ts[i];
    assert ts[..i + 1] == ts[..i] + [ts[i]];
    assert InsertTime(ts[i..], left) == [ts[i]] + InsertTime(ts[i + 1..], left - ts[i]);
  }

  /** The search has passed `i` nodes and has `left` ticks left. */
  ghost predicate Reached(ts: seq<nat>, t: nat, i: nat, left: nat) {
    i <= |ts| && InsertPosition(ts, t) == i + InsertPosition(ts[i..], left) &&
    InsertTime(ts, t) == ts[..i] + InsertTime(ts[i..], left)
  }

  lemma ReachedEnd(ts: seq<nat>, t: nat, i: nat, left: nat)
    requires Reached(ts, t, i, left) && (i == |ts| || left < ts[i])
    ensures InsertPosition(ts, t) == i
    ensures InsertTime(ts, t) == ts[..i] + [left] + if i < |ts| then [ts[i] - left] + ts[i + 1..] else []
  {
    hide InsertPosition, InsertTime;
    InsertUnfold(ts[i..], left);
    if i < |ts| {
      assert ts[i..][0] == ts[i] && ts[i..][1..] == ts[i + 1..];
      assert ts[..i] + ([left, ts[i] - left] + ts[i + 1..]) == ts[..i] + [left] + ([ts[i] - left] + ts[i + 1..]);
    }
  }

  /** The new times, once node `i` has been made relative to the inserted one. */
  lemma InsertedAt(q: seq<Node>, ts: seq<nat>, t: nat, i: nat, left: nat, node: Node)
    requires Reached(ts, t, i, left) && (i == |ts| || left < ts[i]) && |ts| == |q| && node.t == left
    requires forall j :: 0 <= j < |q| ==> q[j].t == if j == i then ts[j] - left else ts[j]
    ensures InsertPosition(ts, t) == i && Times(Inserted(q, i, node)) == InsertTime(ts, t)
  {
    ReachedEnd(ts, t, i, left);
    var r, n := Inserted(q, i, node), InsertTime(ts, t);
    forall j | 0 <= j < |r|
      ensures r[j].t == n[j]
    {
      if j > i { assert r[j] == q[j - 1]; } else if j < i { assert r[j] == q[j]; }
    }
  }

  lemma LinkAt(q: seq<Node>, head: Node?, i: nat)
    requires Linked(q, head) && i < |q|
    ensures q[i].next == At(q, i + 1) && Times(q)[i] == q[i].t
  {
  }

  lemma ReachedStart(ts: seq<nat>, t: nat)
    ensures Reached(ts, t, 0, t)
  {
    assert ts[0..] == ts;
  }

  /** The search loop of `coap_insert_node`: `node.t` becomes relative to node `p`. */
  method FindSlot(head: Node, node: Node, ghost q: seq<Node>) returns (p: Node, n: Node?, ghost i: nat)
    requires Linked(q, head) && node !in q && q != [] && head == q[0] && head.t <= node.t
    modifies node`t
    ensures 1 <= i <= |q| && p == q[i - 1] && n == At(q, i) && (n != null ==> n.t > node.t)
    ensures Reached(Times(q), old(node.t), i, node.t)
  {
    hide Reached, Linked, InsertPosition, InsertTime, Times;
    ghost var ts, t := Times(q), node.t;
    ReachedStart(ts, t);
    LinkAt(q, head, 0);
    InsertPositionTail(ts, t, 0, t);
    node.t := node.t - head.t;
    p, n, i := head, head.next, 1;
    while n != null && n.t <= node.t
      invariant 1 <= i <= |q| && p == q[i - 1] && n == At(q, i)
      invariant Reached(ts, t, i, node.t) && ts == Times(q) && Linked(q, head)
      decreases |q| - i
    {
      LinkAt(q, head, i);
      InsertPositionTail(ts, t, i, node.t);
      node.t := node.t - n.t;
      p, n, i := n, n.next, i + 1;
    }
  }

  /** Puts `node` between the nodes `i - 1` and `i`, the latter made relative to it. */
  method LinkBetween(head: Node, p: Node, n: Node?, node: Node, ghost q: seq<Node>, ghost i: nat)
    requires Linked(q, head) && node !in q && 1 <= i <= |q| && p == q[i - 1] && n == At(q, i)
    requires n != null ==> n.t >= node.t
    modifies (set x | x in q && x == p)`next, (set x | x in q && x == n)`t, node`next
    ensures Linked(Inserted(q, i, node), head)
    ensures forall j :: 0 <= j < |q| ==> q[j].t == if j == i then old(q[j].t) - node.t else old(q[j].t)
  {
    if n != null { n.t := n.t - node.t; }
    node.next := n;
    p.next := node;
    LinkedInserted(q, i, node, head);
  }

  lemma LinkedInserted(q: seq<Node>, i: nat, node: Node, head: Node)
    requires Distinct(q) && node !in q && i <= |q| && node.next == At(q, i)
    requires forall j {:trigger q[j].next} :: 0 <= j < |q| ==> q[j].next == if j + 1 == i then node else At(q, j + 1)
    requires head == if i == 0 then node else q[0]
    ensures Linked(Inserted(q, i, node), head)
  {
    var r := Inserted(q, i, node);
    forall j | 0 <= j < |r|
      ensures r[j].next == At(r, j + 1)
    {
      if j < i { assert r[j] == q[j]; } else if j > i { assert r[j] == q[j - 1]; }
    }
  }

  /** `coap_insert_node` on a queue whose head is `head`. */
  method InsertNode(head: Node?, node: Node, ghost q: seq<Node>) returns (head': Node)
    requires Linked(q, head) && node !in q && node.next == null
    modifies (set x | x in q)`next, (set x | x in q)`t, node`next, node`t
    ensures var k := InsertPosition(old(Times(q)), old(node.t));
            Linked(Inserted(q, k, node), head') &&
            Times(Inserted(q, k, node)) == InsertTime(old(Times(q)), old(node.t))
  {
    ghost var ts, t := Times(q), node.t;
    assert ts[0..] == ts;
    if head == null {
      return node;
    }
    if node.t < head.t {
      node.next := head;
      head.t := head.t - node.t;
      LinkedInserted(q, 0, node, node);
      InsertedAt(q, ts, t, 0, t, node);
      return node;
    }
    hide Reached, Linked, InsertPosition, InsertTime;
    var p, n;
    ghost var i;
    p, n, i := FindSlot(head, node, q);
    assert Times(q) == ts;
    LinkBetween(head, p, n, node, q, i);
    InsertedAt(q, ts, t, i, node.t, node);
    return head;
  }

  // ----- the queue as a list of messages with absolute due times -----

  datatype Entry = Entry(message: Message, due: int)

  function Entries(ms: seq<Message>, dues: seq<int>): (es: seq<Entry>)
    requires |ms| == |dues|
    ensures |es| == |ms|
  {
    seq(|ms|, i requires 0 <= i < |ms| => Entry(ms[i], dues[i]))
  }

  /** Behind every entry that is not due later: first in, first out among equals. */
  function Place(es: seq<Entry>, due: int): (k: nat)
    ensures k <= |es|
  {
    if es == [] || due < es[0].due then 0 else 1 + Place(es[1..], due)
  }

  function Enter(es: seq<Entry>, e: Entry): seq<Entry> {
    var k := Place(es, e.due);
    es[..k] + [e] + es[k..]
  }

  /** The first entry whose message has this id, or the length of the list. */
  function Find(es: seq<Entry>, id: int): (k: nat)
    ensures k <= |es| && (k < |es| ==> es[k].message.id == id)
    ensures forall i :: 0 <= i < k ==> es[i].message.id != id
  {
    if es == [] || es[0].message.id == id then 0 else 1 + Find(es[1..], id)
  }

  ghost predicate ByDue(es: seq<Entry>) {
    forall i, j :: 0 <= i < j < |es| ==> es[i].due <= es[j].due
  }

  lemma PlaceIs(es: seq<Entry>, due: int, k: nat)
    requires k <= |es| && (forall i :: 0 <= i < k ==> es[i].due <= due) && (k < |es| ==> due < es[k].due)
    ensures Place(es, due) == k
  {
    if k > 0 {
      PlaceIs(es[1..], due, k - 1);
    }
  }

  lemma EntriesWithout(ms: seq<Message>, dues: seq<int>, k: nat)
    requires k < |ms| == |dues|
    ensures Entries(ms[..k] + ms[k + 1..], dues[..k] + dues[k + 1..])
         == Entries(ms, dues)[..k] + Entries(ms, dues)[k + 1..]
  {
  }

  /** Relative insertion is insertion by absolute due time. */
  lemma InsertionByDue(base: int, ts: seq<nat>, t: nat, ms: seq<Message>, m: Message)
    requires |ms| == |ts|
    ensures var k := InsertPosition(ts, t);
            Enter(Entries(ms, Dues(base, ts)), Entry(m, base + t)) ==
            Entries(ms[..k] + [m] + ms[k..], Dues(base, InsertTime(ts, t)))
  {
    InsertTimeDues(base, ts, t);
    hide Dues, InsertTime, InsertPosition, Place;
    var k, d := InsertPosition(ts, t), Dues(base, ts);
    var es := Entries(ms, d);
    PlaceIs(es, base + t, k);
  }
}
