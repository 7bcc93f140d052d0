/** The send queue of a libcoap context, with the operations of net.c that change it. */
module SendQueue {
  import opened TimerQueue

  const RESPONSE_TIMEOUT: nat := 2
  const TICKS_PER_SECOND: nat := 1024
  const MAX_RETRANSMIT: nat := 4
  const INVALID_TID := -1

  /** The randomised timeout of a confirmable message, from the random number `r`. */
  function Timeout(r: int): (t: nat)
    ensures t == 2048 + 4 * (r % 256)
    ensures 2048 <= t <= 3068
  {
    RESPONSE_TIMEOUT * TICKS_PER_SECOND + RESPONSE_TIMEOUT / 2 * (TICKS_PER_SECOND * (r % 256) / 256)
  }

  /** `timeout << count` */
  function Shifted(timeout: nat, count: nat): nat {
    if count == 0 then timeout else 2 * Shifted(timeout, count - 1)
  }

  lemma ShiftedIs(t: nat)
    ensures Shifted(t, 0) == t && Shifted(t, 1) == 2 * t && Shifted(t, 2) == 4 * t
    ensures Shifted(t, 3) == 8 * t && Shifted(t, 4) == 16 * t
  {
    assert Shifted(t, 2) == 2 * Shifted(t, 1);
    assert Shifted(t, 4) == 2 * Shifted(t, 3) && Shifted(t, 3) == 2 * Shifted(t, 2);
  }

  lemma ContentsConcat(a: seq<Node>, b: seq<Node>)
    ensures Contents(a + b) == Contents(a) + Contents(b)
  {
    hide Contents, Content;
    forall i | 0 <= i < |a + b|
      ensures Contents(a + b)[i] == (Contents(a) + Contents(b))[i]
    {
      if i < |a| { assert (a + b)[i] == a[i]; } else { assert (a + b)[i] == b[i - |a|]; }
    }
  }

  lemma ContentsCut(q: seq<Node>, k: nat)
    requires k <= |q|
    ensures Contents(q[..k]) == Contents(q)[..k] && Contents(q[k..]) == Contents(q)[k..]
  {
    ContentsConcat(q[..k], q[k..]);
    assert q[..k] + q[k..] == q;
    hide Contents, Content;
  }

  lemma ContentsInserted(q: seq<Node>, k: nat, node: Node)
    requires k <= |q|
    ensures Contents(Inserted(q, k, node)) == Contents(q)[..k] + [Content(node)] + Contents(q)[k..]
  {
    hide Contents, Content;
    ContentsConcat(q[..k] + [node], q[k..]);
    ContentsConcat(q[..k], [node]);
    ContentsCut(q, k);
    assert Contents([node]) == [Content(node)];
  }

  /** The queue without node `k`. */
  function Removed(q: seq<Node>, k: nat): seq<Node>
    requires k < |q|
  {
    q[..k] + q[k + 1..]
  }

  lemma ContentsRemoved(q: seq<Node>, k: nat)
    requires k < |q|
    ensures Contents(Removed(q, k)) == Contents(q)[..k] + Contents(q)[k + 1..]
  {
    hide Contents, Content;
    ContentsConcat(q[..k], q[k + 1..]);
    ContentsCut(q, k);
    ContentsCut(q, k + 1);
  }

  lemma {:induction false} RemoveTimeAt(ts: seq<nat>, k: nat, i: nat)
    requires k < |ts| && i < |ts| - 1
    ensures RemoveTime(ts, k)[i] == if i < k then ts[i] else if i == k then ts[k] + ts[k + 1] else ts[i + 1]
    decreases k
  {
    if k > 0 && i > 0 {
      RemoveTimeAt(ts[1..], k - 1, i - 1);
    }
  }

  /** Once node `k + 1` has inherited the time of node `k`. */
  lemma TimesRemoved(q: seq<Node>, ts: seq<nat>, k: nat)
    requires k < |q| == |ts|
    requires forall i :: 0 <= i < |q| && i != k ==> q[i].t == if i == k + 1 then ts[k] + ts[i] else ts[i]
    ensures Times(Removed(q, k)) == RemoveTime(ts, k)
  {
    var r := Removed(q, k);
    forall i | 0 <= i < |r|
      ensures Times(r)[i] == RemoveTime(ts, k)[i]
    {
      RemoveTimeAt(ts, k, i);
      if i < k { assert r[i] == q[i]; } else { assert r[i] == q[i + 1]; }
    }
  }

  lemma LinkedRemoved(q: seq<Node>, k: nat, head: Node?)
    requires Distinct(q) && k < |q|
    requires forall j {:trigger q[j].next} :: 0 <= j < |q| && j != k ==>
               q[j].next == if j + 1 == k then At(q, k + 1) else At(q, j + 1)
    requires head == if k == 0 then At(q, 1) else q[0]
    ensures Linked(Removed(q, k), head)
  {
    var r := Removed(q, k);
    forall j | 0 <= j < |r|
      ensures r[j].next == At(r, j + 1)
    {
      if j < k { assert r[j] == q[j]; } else { assert r[j] == q[j + 1]; }
    }
  }

  /** Takes node `k` out behind its predecessor, and gives its time to its successor. */
  method Unlink(prev: Node?, node: Node, head: Node, ghost q: seq<Node>, ghost k: nat) returns (head': Node?)
    requires Linked(q, head) && k < |q| && node == q[k] && (prev == if k == 0 then null else q[k - 1])
    modifies (set x | x in q && x == prev)`next, (set x | x in q && x == node.next)`t, node`next
    ensures Linked(Removed(q, k), head') && node.next == null && node.t == old(node.t)
    ensures Times(Removed(q, k)) == RemoveTime(old(Times(q)), k)
  {
    ghost var ts := Times(q);
    var next := node.next;
    assert next == At(q, k + 1);
    head' := head;
    if prev == null { head' := next; } else { prev.next := next; }
    if next != null { next.t := next.t + node.t; }
    node.next := null;
    LinkedRemoved(q, k, head');
    TimesRemoved(q, ts, k);
  }

  class Context {
    var sendqueue: Node?
    var basetime: nat
    ghost var queue: seq<Node>

    ghost predicate Valid()
      reads this, queue
    {
      Linked(queue, sendqueue)
    }

    ghost function Nodes(): set<Node>
      reads this`queue
    {
      set n | n in queue
    }

    /** The queued messages in order, each with the time at which it is due. */
    ghost function Pending(): seq<Entry>
      reads this, queue
    {
      Entries(Contents(queue), Dues(basetime, Times(queue)))
    }

    constructor ()
      ensures Valid() && queue == [] && Pending() == []
    {
      sendqueue, basetime, queue := null, 0, [];
    }

    /** `coap_insert_node` */
    method Insert(node: Node)
      requires Valid() && node !in queue && node.next == null
      modifies this`sendqueue, this`queue, Nodes()`next, Nodes()`t, node`next, node`t
      ensures Valid() && Nodes() == old(Nodes()) + {node}
      ensures Pending() == Enter(old(Pending()), Entry(old(Content(node)), basetime + old(node.t)))
    {
      hide Dues, Times, Entries, Enter, InsertPosition, InsertTime, Contents, Content;
      ghost var q, ts, t, ms, m := queue, Times(queue), node.t, Contents(queue), Content(node);
      sendqueue := InsertNode(sendqueue, node, queue);
      ghost var k := InsertPosition(ts, t);
      queue := Inserted(q, k, node);
      ContentsInserted(q, k, node);
      InsertionByDue(basetime, ts, t, ms, m);
    }

    /** `coap_pop_next` */
    method PopNext() returns (node: Node?)
      requires Valid()
      modifies this`sendqueue, this`queue, Nodes()`next, Nodes()`t
      ensures Valid() && node == old(sendqueue)
      ensures node == null <==> old(Pending()) == []
      ensures node == null ==> Pending() == []
      ensures node != null ==>
                node.next == null && Nodes() == old(Nodes()) - {node} && node in old(Nodes()) &&
                old(Pending())[0].message == Content(node) && Pending() == old(Pending())[1..]
    {
      node := sendqueue;
      if node == null { return; }
      TakeOut(null, node, 0);
    }

    ghost predicate Taken(node: Node, k: nat, q: seq<Node>, was: seq<Entry>)
      reads this, queue, node
    {
      k < |q| == |was| && node == q[k] && node.next == null && queue == Removed(q, k) &&
      was[k].message == Content(node) && Pending() == was[..k] + was[k + 1..]
    }

    method TakeOut(prev: Node?, node: Node, ghost k: nat)
      requires Valid() && k < |queue| && node == queue[k] && (prev == if k == 0 then null else queue[k - 1])
      modifies this`sendqueue, this`queue, Nodes()`next, Nodes()`t
      ensures Valid() && Taken(node, k, old(queue), old(Pending()))
    {
      hide Dues, Times, RemoveTime, Contents;
      ghost var q, ts, ms := queue, Times(queue), Contents(queue);
      ghost var was := Pending();
      sendqueue := Unlink(prev, node, sendqueue, queue, k);
      queue := Removed(q, k);
      ContentsRemoved(q, k);
      RemoveTimeDues(basetime, ts, k);
      EntriesWithout(ms, Dues(basetime, ts), k);
    }

    ghost predicate Searched(id: int, k: nat)
      reads this, queue
    {
      k <= |queue| && forall i :: 0 <= i < k ==> queue[i].id != id
    }

    lemma Found(id: int, k: nat)
      requires Searched(id, k) && (k < |queue| ==> queue[k].id == id)
      ensures Find(Pending(), id) == k
    {
      var es := Pending();
      assert forall i :: 0 <= i < |es| ==> es[i].message.id == queue[i].id;
    }

    /** `coap_remove_from_queue`: takes out the first message with this id. */
    method RemoveFromQueue(id: int) returns (node: Node?)
      requires Valid()
      modifies this`sendqueue, this`queue, Nodes()`next, Nodes()`t
      ensures Valid()
      ensures Pending() == AfterRemove(old(Pending()), id)
      ensures var k := Find(old(Pending()), id);
              if k == |old(Pending())| then node == null
              else node != null && Taken(node, k, old(queue), old(Pending()))
    {
      hide Pending, Find;
      var prev: Node?, q := null, sendqueue;
      ghost var k := 0;
      while q != null && id != q.id
        invariant Searched(id, k) && q == At(queue, k) && (prev == if k == 0 then null else queue[k - 1])
        decreases |queue| - k
      {
        prev, q, k := q, q.next, k + 1;
      }
      Found(id, k);
      PendingSize();
      if q == null { return null; }
      node := q;
      TakeOut(prev, node, k);
    }

    lemma PendingSize()
      ensures |Pending()| == |queue|
    {
    }

    /** `coap_send_confirmed`; `id` is what the first transmission returns.  A message that could not be
        sent is not queued. */
    method SendConfirmed(now: nat, pdu: nat, id: int, r: int) returns (tid: int)
      requires Valid() && basetime <= now
      modifies this, Nodes()`next, Nodes()`t
      ensures Valid() && tid == id
      ensures id != INVALID_TID ==>
                basetime == (if old(Pending()) == [] then now else old(basetime)) &&
                Pending() == AfterSend(now, old(Pending()), pdu, id, r)
      ensures id == INVALID_TID ==> basetime == old(basetime) && Pending() == old(Pending())
    {
      hide Enter, Pending, Timeout;
      tid := id;
      if id == INVALID_TID { return; }
      var timeout := Timeout(r);
      PendingSize();
      var node := new Node(pdu, id, timeout, if sendqueue == null then timeout else now - basetime + timeout);
      if sendqueue == null { RestartClock(now); }
      Insert(node);
    }

    method RestartClock(now: nat)
      requires Valid() && queue == []
      modifies this`basetime
      ensures basetime == now && Pending() == old(Pending())
    {
      basetime := now;
    }

    /** `coap_retransmit` for a node that was popped; `id` is what the transmission returns. */
    method Retransmit(node: Node, id: int)
      requires Valid() && node !in queue && node.next == null
      modifies this`sendqueue, this`queue, Nodes()`next, Nodes()`t, node
      ensures Valid()
      ensures Pending() == AfterRetransmit(basetime, old(Pending()), old(Content(node)), id)
    {
      hide Enter, Pending;
      if node.retransmitCnt < MAX_RETRANSMIT {
        node.retransmitCnt := node.retransmitCnt + 1;
        node.t := Shifted(node.timeout, node.retransmitCnt);
        node.id := id;
        Insert(node);
      }
    }

    lemma FirstDue()
      requires Valid() && sendqueue != null
      ensures Pending() != [] && Pending()[0].due == basetime + sendqueue.t
    {
    }

    /** One turn of the event loop: the first message, if it is due, is popped and retransmitted. */
    method FireFirst(now: nat, id: int) returns (fired: bool)
      requires Valid() && basetime <= now
      modifies this`sendqueue, this`queue, Nodes()
      ensures Valid() && basetime == old(basetime)
      ensures fired <==> old(Pending()) != [] && old(Pending())[0].due <= now
      ensures Pending() == if fired
                then AfterRetransmit(basetime, old(Pending())[1..], old(Pending())[0].message, id)
                else old(Pending())
    {
      hide Pending, AfterRetransmit;
      PendingSize();
      if sendqueue == null { return false; }
      FirstDue();
      if sendqueue.t > now - basetime { return false; }
      var node := PopNext();
      Retransmit(node, id);
      return true;
    }
  }

  // ----- what the operations do to the list of pending messages -----

  /** The queue restarts its time base when it is empty. */
  function BaseAfterSend(now: nat, base: nat, es: seq<Entry>): nat {
    if es == [] then now else base
  }

  function AfterSend(now: nat, es: seq<Entry>, pdu: nat, id: int, r: int): seq<Entry> {
    Enter(es, Entry(Message(pdu, id, Timeout(r), 0), now + Timeout(r)))
  }

  function AfterRetransmit(base: nat, es: seq<Entry>, m: Message, id: int): seq<Entry> {
    if m.count < MAX_RETRANSMIT then
      Enter(es, Entry(m.(id := id, count := m.count + 1), base + Shifted(m.timeout, m.count + 1)))
    else es
  }

  /** The deadlines: 2, 4, 8 and 16 timeouts after the base time, and then the message is given up. */
  lemma AfterRetransmitIs(base: nat, es: seq<Entry>, m: Message, id: int)
    ensures m.count >= 4 ==> AfterRetransmit(base, es, m, id) == es
    ensures m.count < 4 ==>
              AfterRetransmit(base, es, m, id) ==
                Enter(es, Entry(m.(id := id, count := m.count + 1),
                                base + m.timeout * (if m.count == 0 then 2 else if m.count == 1 then 4
                                                    else if m.count == 2 then 8 else 16)))
  {
    hide Enter;
    ShiftedIs(m.timeout);
  }

  function AfterRemove(es: seq<Entry>, id: int): seq<Entry> {
    var k := Find(es, id);
    if k == |es| then es else es[..k] + es[k + 1..]
  }
}
