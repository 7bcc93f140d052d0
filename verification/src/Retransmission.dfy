/** Runs of the confirmable-message layer: any interleaving of sends, of firings of the first
    queued message once it is due, of acknowledgements and of the passing of time.

    The two maps are bookkeeping of this model: when each message was first sent and how many
    times it has been transmitted.
 */
module Retransmission {
  import opened TimerQueue
  import opened SendQueue

  datatype State = State(now: nat, base: nat, pending: seq<Entry>, first: map<nat, nat>, sends: map<nat, nat>)

  datatype Step =
    | Tick(ticks: nat)
    | Send(pdu: nat, id: int, r: int)
    | Fire(tid: int)
    | Acknowledge(tid: int)

  const START: State := State(0, 0, [], map[], map[])

  /** A message is sent once; the first queued message fires only when it is due. */
  predicate Enabled(s: State, step: Step) {
    match step
    case Send(pdu, _, _) => pdu !in s.sends && pdu !in s.first
    case Fire(_) => s.pending != [] && s.pending[0].due <= s.now
    case _ => true
  }

  /** The steps are the operations of `SendQueue.Context`, seen on the list of pending messages. */
  function Next(s: State, step: Step): State
    requires Enabled(s, step)
  {
    match step
    case Tick(ticks) => s.(now := s.now + ticks)
    case Send(pdu, id, r) =>
      State(s.now, BaseAfterSend(s.now, s.base, s.pending), AfterSend(s.now, s.pending, pdu, id, r),
            s.first[pdu := s.now], s.sends[pdu := 1])
    case Fire(tid) =>
      var m := s.pending[0].message;
      var again := m.count < MAX_RETRANSMIT && m.pdu in s.sends;
      var sends := if again then s.sends[m.pdu := s.sends[m.pdu] + 1] else s.sends;
      s.(pending := AfterRetransmit(s.base, s.pending[1..], m, tid), sends := sends)
    case Acknowledge(tid) => s.(pending := AfterRemove(s.pending, tid))
  }

  predicate Runs(s: State, steps: seq<Step>)
    decreases |steps|
  {
    steps == [] || (Enabled(s, steps[0]) && Runs(Next(s, steps[0]), steps[1..]))
  }

  function Final(s: State, steps: seq<Step>): State
    requires Runs(s, steps)
    decreases |steps|
  {
    if steps == [] then s else Final(Next(s, steps[0]), steps[1..])
  }

  // ----- the invariant -----

  ghost predicate DistinctPdus(es: seq<Entry>) {
    forall i, j :: 0 <= i < j < |es| ==> es[i].message.pdu != es[j].message.pdu
  }

  /** What holds of every queued message. */
  ghost predicate OnSchedule(s: State, e: Entry) {
    var m := e.message;
    m.pdu in s.first && m.pdu in s.sends && s.sends[m.pdu] == m.count + 1 && m.count <= MAX_RETRANSMIT &&
    s.base <= s.first[m.pdu] <= s.now && 2048 <= m.timeout <= 3068 &&
    e.due == if m.count == 0 then s.first[m.pdu] + m.timeout else s.base + Shifted(m.timeout, m.count)
  }

  ghost predicate AtMostFive(s: State) {
    forall p <- s.sends :: 1 <= s.sends[p] <= MAX_RETRANSMIT + 1
  }

  ghost predicate Invariant(s: State) {
    ByDue(s.pending) && DistinctPdus(s.pending) && s.base <= s.now && AtMostFive(s) &&
    forall i :: 0 <= i < |s.pending| ==> OnSchedule(s, s.pending[i])
  }

  // ----- insertion by due time -----

  lemma {:induction false} PlaceSplits(es: seq<Entry>, due: int)
    requires ByDue(es)
    ensures var k := Place(es, due);
            (forall i :: 0 <= i < k ==> es[i].due <= due) && forall i :: k <= i < |es| ==> due < es[i].due
  {
    if es != [] && es[0].due <= due {
      PlaceSplits(es[1..], due);
      assert forall i :: 0 < i < |es| ==> es[i] == es[1..][i - 1];
    }
  }

  lemma EnterKeepsOrder(es: seq<Entry>, e: Entry)
    requires ByDue(es)
    ensures ByDue(Enter(es, e))
  {
    PlaceSplits(es, e.due);
    hide Place;
  }

  lemma EnterKeepsDistinct(es: seq<Entry>, e: Entry)
    requires DistinctPdus(es) && forall i :: 0 <= i < |es| ==> es[i].message.pdu != e.message.pdu
    ensures DistinctPdus(Enter(es, e))
  {
    hide Place;
  }

  /** The entries of the new list are the old ones and the new one. */
  lemma EnterAt(es: seq<Entry>, e: Entry, i: nat)
    requires i < |Enter(es, e)|
    ensures Enter(es, e)[i] == e || exists j :: 0 <= j < |es| && Enter(es, e)[i] == es[j]
  {
    hide Place;
    var k := Place(es, e.due);
    if i < k {
      assert Enter(es, e)[i] == es[i];
    } else if i > k {
      assert Enter(es, e)[i] == es[i - 1];
    }
  }

  // ----- every step keeps the invariant -----

  /** `OnSchedule` for a list. */
  ghost predicate AllOnSchedule(s: State, es: seq<Entry>) {
    forall i :: 0 <= i < |es| ==> OnSchedule(s, es[i])
  }

  lemma EnterOnSchedule(s: State, es: seq<Entry>, e: Entry)
    requires AllOnSchedule(s, es) && OnSchedule(s, e)
    ensures AllOnSchedule(s, Enter(es, e))
  {
    hide OnSchedule;
    var r := Enter(es, e);
    forall i | 0 <= i < |r|
      ensures OnSchedule(s, r[i])
    {
      EnterAt(es, e, i);
    }
  }

  lemma SendKeeps(s: State, step: Step)
    requires Invariant(s) && step.Send? && Enabled(s, step)
    ensures Invariant(Next(s, step))
  {
    var t := Next(s, step);
    var e := Entry(Message(step.pdu, step.id, Timeout(step.r), 0), s.now + Timeout(step.r));
    hide Timeout;
    assert OnSchedule(t, e);
    assert AllOnSchedule(t, s.pending);
    hide OnSchedule, Enter, Place;
    assert t.pending == Enter(s.pending, e);
    EnterOnSchedule(t, s.pending, e);
    EnterKeepsOrder(s.pending, e);
    assert forall i :: 0 <= i < |s.pending| ==> s.pending[i].message.pdu != step.pdu by { OthersSent(s); }
    EnterKeepsDistinct(s.pending, e);
  }

  lemma OthersSent(s: State)
    requires Invariant(s)
    ensures forall i :: 0 <= i < |s.pending| ==> s.pending[i].message.pdu in s.sends
  {
    assert forall i :: 0 <= i < |s.pending| ==> OnSchedule(s, s.pending[i]);
  }

  /** The first message and the others. */
  lemma HeadAndRest(s: State)
    requires Invariant(s) && s.pending != []
    ensures OnSchedule(s, s.pending[0]) && AllOnSchedule(s, s.pending[1..])
    ensures ByDue(s.pending[1..]) && DistinctPdus(s.pending[1..]) && s.base <= s.now && AtMostFive(s)
    ensures forall i :: 0 <= i < |s.pending[1..]| ==> s.pending[1..][i].message.pdu != s.pending[0].message.pdu
  {
    var rest := s.pending[1..];
    assert forall i :: 0 <= i < |rest| ==> rest[i] == s.pending[i + 1];
    hide OnSchedule;
  }

  /** A transmission of one message changes nothing for the others. */
  lemma OthersStay(s: State, t: State, es: seq<Entry>, pdu: nat)
    requires AllOnSchedule(s, es) && forall i :: 0 <= i < |es| ==> es[i].message.pdu != pdu
    requires t.base == s.base && t.now == s.now && t.first == s.first
    requires forall p :: p != pdu && p in s.sends ==> p in t.sends && t.sends[p] == s.sends[p]
    ensures AllOnSchedule(t, es)
  {
    forall i | 0 <= i < |es|
      ensures OnSchedule(t, es[i])
    {
      assert OnSchedule(s, es[i]);
    }
  }

  /** The message that fired is on its schedule again. */
  lemma FiredOnSchedule(s: State, step: Step)
    requires s.pending != [] && OnSchedule(s, s.pending[0]) && s.pending[0].message.count < MAX_RETRANSMIT
    requires step.Fire? && Enabled(s, step)
    ensures var m := s.pending[0].message;
            var e := Entry(m.(id := step.tid, count := m.count + 1), s.base + Shifted(m.timeout, m.count + 1));
            OnSchedule(Next(s, step), e) && Next(s, step).pending == Enter(s.pending[1..], e)
  {
    hide Enter, Shifted;
  }

  lemma FireKeeps(s: State, step: Step)
    requires Invariant(s) && step.Fire? && Enabled(s, step)
    ensures Invariant(Next(s, step))
  {
    hide OnSchedule, AllOnSchedule, Enter, Shifted, ByDue, DistinctPdus, AfterRetransmit;
    var t, m, rest := Next(s, step), s.pending[0].message, s.pending[1..];
    HeadAndRest(s);
    OthersStay(s, t, rest, m.pdu);
    HeadCount(s);
    if m.count < MAX_RETRANSMIT {
      FiredOnSchedule(s, step);
      var e := Entry(m.(id := step.tid, count := m.count + 1), s.base + Shifted(m.timeout, m.count + 1));
      EnterOnSchedule(t, rest, e);
      EnterKeepsOrder(rest, e);
      EnterKeepsDistinct(rest, e);
    } else {
      NothingQueued(s.base, rest, m, step.tid);
    }
    ScheduleIsInvariant(t);
  }

  lemma NothingQueued(base: nat, es: seq<Entry>, m: Message, tid: int)
    requires m.count >= MAX_RETRANSMIT
    ensures AfterRetransmit(base, es, m, tid) == es
  {
  }

  lemma HeadCount(s: State)
    requires s.pending != [] && OnSchedule(s, s.pending[0]) && AtMostFive(s)
    ensures var m := s.pending[0].message;
            m.pdu in s.sends && s.sends[m.pdu] == m.count + 1 <= MAX_RETRANSMIT + 1
  {
  }

  lemma ScheduleIsInvariant(t: State)
    requires ByDue(t.pending) && DistinctPdus(t.pending) && t.base <= t.now && AtMostFive(t) &&
             AllOnSchedule(t, t.pending)
    ensures Invariant(t)
  {
    hide OnSchedule, ByDue, DistinctPdus;
  }

  lemma AcknowledgeKeeps(s: State, step: Step)
    requires Invariant(s) && step.Acknowledge?
    ensures Invariant(Next(s, step))
  {
    var t, k := Next(s, step), Find(s.pending, step.tid);
    if k < |s.pending| {
      forall i | 0 <= i < |t.pending|
        ensures OnSchedule(t, t.pending[i])
      {
        assert t.pending[i] == s.pending[if i < k then i else i + 1];
        assert OnSchedule(s, t.pending[i]);
      }
    }
  }

  lemma StepKeeps(s: State, step: Step)
    requires Invariant(s) && Enabled(s, step)
    ensures Invariant(Next(s, step))
  {
    match step
    case Tick(_) =>
      var t := Next(s, step);
      forall i | 0 <= i < |t.pending|
        ensures OnSchedule(t, t.pending[i])
      {
        assert OnSchedule(s, s.pending[i]);
      }
    case Send(_, _, _) => SendKeeps(s, step);
    case Fire(_) => FireKeeps(s, step);
    case Acknowledge(_) => AcknowledgeKeeps(s, step);
  }

  lemma {:induction false} RunKeeps(s: State, steps: seq<Step>)
    requires Invariant(s) && Runs(s, steps)
    ensures Invariant(Final(s, steps))
    decreases |steps|
  {
    hide Invariant, Next, Enabled;
    if steps != [] {
      StepKeeps(s, steps[0]);
      RunKeeps(Next(s, steps[0]), steps[1..]);
    }
  }

  // ----- the results -----

  /** No message is ever transmitted more than five times, and the queue is in due order. */
  lemma EveryRunIsSafe(steps: seq<Step>)
    requires Runs(START, steps)
    ensures var s := Final(START, steps);
            AtMostFive(s) && ByDue(s.pending) && forall e <- s.pending :: e.message.count + 1 <= 5
  {
    RunKeeps(START, steps);
    hide Next, Enabled, Runs, Final;
    var s := Final(START, steps);
    assert Invariant(s);
    forall e | e in s.pending
      ensures e.message.count + 1 <= 5
    {
      assert OnSchedule(s, e);
    }
  }

  /** A queued message is due, or given up, at most 16 timeouts after it was first sent:
      49088 ticks, well within the 31 timeouts (93 s) of section 4.8.2 of RFC 7252. */
  lemma WaitIsBounded(steps: seq<Step>, e: Entry)
    requires Runs(START, steps) && e in Final(START, steps).pending
    ensures var s := Final(START, steps);
            e.message.pdu in s.first && e.due <= s.first[e.message.pdu] + 16 * e.message.timeout &&
            e.due - s.first[e.message.pdu] <= 49088 < 31 * 2048 <= 31 * e.message.timeout <= 95108
  {
    RunKeeps(START, steps);
    hide Next, Enabled, Runs, Final;
    var s := Final(START, steps);
    assert Invariant(s);
    assert OnSchedule(s, e);
    ShiftedIs(e.message.timeout);
  }

  /** The interval that a firing schedules, in every run: half of the one that section 4.2 of RFC 7252
      asks for, less the time that the firing is late, and for the first retransmission less the
      time by which the base of the queue lies before the first transmission. */
  lemma IntervalIs(steps: seq<Step>, tid: int)
    requires Runs(START, steps) && Enabled(Final(START, steps), Fire(tid))
    requires Final(START, steps).pending[0].message.count < MAX_RETRANSMIT
    ensures var s := Final(START, steps);
            var m := s.pending[0].message;
            m.pdu in s.first &&
            exists e :: e in Next(s, Fire(tid)).pending && e.message == m.(id := tid, count := m.count + 1) &&
              2 * (e.due - s.now) == Shifted(m.timeout, m.count + 1) - 2 * (s.now - s.pending[0].due)
                                     - (if m.count == 0 then 2 * (s.first[m.pdu] - s.base) else 0)
  {
    hide *;
    var s := Final(START, steps);
    StartIsInvariant();
    RunKeeps(START, steps);
    FireEnabled(s, tid);
    HeadAndRest(s);
    HeadDue(s);
    FiredOnSchedule(s, Fire(tid));
    var m := s.pending[0].message;
    EnterHas(s.pending[1..], Entry(m.(id := tid, count := m.count + 1), s.base + Shifted(m.timeout, m.count + 1)));
    ShiftedNext(m.timeout, m.count);
  }

  lemma StartIsInvariant()
    ensures Invariant(START)
  {
  }

  lemma FireEnabled(s: State, tid: int)
    requires Enabled(s, Fire(tid))
    ensures s.pending != [] && s.pending[0].due <= s.now
  {
  }

  lemma HeadDue(s: State)
    requires s.pending != [] && OnSchedule(s, s.pending[0])
    ensures var m := s.pending[0].message;
            m.pdu in s.first &&
            s.pending[0].due ==
              if m.count == 0 then s.first[m.pdu] + m.timeout else s.base + Shifted(m.timeout, m.count)
  {
    hide Shifted;
  }

  lemma EnterHas(es: seq<Entry>, e: Entry)
    ensures e in Enter(es, e)
  {
    hide Place;
    assert Enter(es, e)[Place(es, e.due)] == e;
  }

  lemma ShiftedNext(t: nat, count: nat)
    ensures Shifted(t, count + 1) == 2 * Shifted(t, count) && Shifted(t, 0) == t
  {
  }

  /** So a retransmission never waits longer than half of what the RFC asks for. */
  lemma IntervalAtMostHalf(steps: seq<Step>, tid: int)
    requires Runs(START, steps) && Enabled(Final(START, steps), Fire(tid))
    ensures var s := Final(START, steps);
            var m := s.pending[0].message;
            2 * (s.base + Shifted(m.timeout, m.count + 1) - s.now) <= Shifted(m.timeout, m.count + 1)
  {
    RunKeeps(START, steps);
    hide Next, Runs, Final;
    var s := Final(START, steps);
    assert Invariant(s);
    assert OnSchedule(s, s.pending[0]);
  }

  // ----- retransmission ends -----

  function Left(es: seq<Entry>): nat {
    if es == [] then 0 else 5 - (if es[0].message.count > 4 then 5 else es[0].message.count) + Left(es[1..])
  }

  lemma {:induction false} LeftAppend(a: seq<Entry>, b: seq<Entry>)
    ensures Left(a + b) == Left(a) + Left(b)
  {
    if a == [] {
      assert a + b == b;
    } else {
      assert (a + b)[1..] == a[1..] + b;
      LeftAppend(a[1..], b);
    }
  }

  /** The transmissions still to come, the last one counting as giving up. */
  lemma LeftEnter(es: seq<Entry>, e: Entry)
    ensures Left(Enter(es, e)) == Left(es) + Left([e])
  {
    hide Place;
    var k := Place(es, e.due);
    LeftAppend(es[..k] + [e], es[k..]);
    LeftAppend(es[..k], [e]);
    LeftAppend(es[..k], es[k..]);
    assert es[..k] + es[k..] == es;
  }

  lemma FireLeft(base: nat, es: seq<Entry>, tid: int)
    requires es != [] && es[0].message.count <= MAX_RETRANSMIT
    ensures Left(AfterRetransmit(base, es[1..], es[0].message, tid)) == Left(es) - 1
  {
    hide Enter, Shifted;
    var m := es[0].message;
    if m.count < MAX_RETRANSMIT {
      LeftEnter(es[1..], Entry(m.(id := tid, count := m.count + 1), base + Shifted(m.timeout, m.count + 1)));
    }
  }

  lemma RemoveLeft(es: seq<Entry>, tid: int)
    ensures Left(AfterRemove(es, tid)) <= Left(es)
  {
    hide Find;
    var k := Find(es, tid);
    if k < |es| {
      LeftAppend(es[..k], es[k + 1..]);
      LeftAppend(es[..k], es[k..]);
      assert es[..k] + es[k..] == es;
      assert es[k..][1..] == es[k + 1..];
    }
  }

  /** Every firing uses up one; nothing but a send adds any. */
  lemma StepLeft(s: State, step: Step)
    requires Invariant(s) && Enabled(s, step) && !step.Send?
    ensures step.Fire? ==> Left(Next(s, step).pending) == Left(s.pending) - 1
    ensures !step.Fire? ==> Left(Next(s, step).pending) <= Left(s.pending)
  {
    hide Left, AfterRetransmit, AfterRemove, ByDue, DistinctPdus;
    match step
    case Tick(_) =>
    case Fire(tid) =>
      assert OnSchedule(s, s.pending[0]);
      FireLeft(s.base, s.pending, tid);
    case Acknowledge(tid) =>
      RemoveLeft(s.pending, tid);
  }

  function Fires(steps: seq<Step>): nat {
    if steps == [] then 0 else (if steps[0].Fire? then 1 else 0) + Fires(steps[1..])
  }

  ghost predicate NoSends(steps: seq<Step>) {
    forall i :: 0 <= i < |steps| ==> !steps[i].Send?
  }

  /** Once sends stop, only so many firings remain. */
  lemma {:induction false} FiringsEnd(s: State, steps: seq<Step>)
    requires Invariant(s) && Runs(s, steps) && NoSends(steps)
    ensures Fires(steps) + Left(Final(s, steps).pending) <= Left(s.pending)
    decreases |steps|
  {
    hide Invariant, Next, Enabled, Left;
    if steps != [] {
      StepKeeps(s, steps[0]);
      StepLeft(s, steps[0]);
      FiringsEnd(Next(s, steps[0]), steps[1..]);
    }
  }

  lemma RunStep(s: State, step: Step, rest: seq<Step>)
    requires Enabled(s, step) && Runs(Next(s, step), rest)
    ensures Runs(s, [step] + rest) && Final(s, [step] + rest) == Final(Next(s, step), rest)
  {
    assert ([step] + rest)[1..] == rest;
  }

  // ----- after a stall -----

  /** All deadlines that the queued messages still have ahead of them have passed. */
  ghost predicate Stalled(s: State) {
    forall i :: 0 <= i < |s.pending| ==>
      s.pending[i].due <= s.now && s.base + Shifted(s.pending[i].message.timeout, MAX_RETRANSMIT) <= s.now
  }

  function FireRun(n: nat, tid: int): (r: seq<Step>)
    ensures |r| == n
  {
    if n == 0 then [] else [Fire(tid)] + FireRun(n - 1, tid)
  }

  lemma {:induction false} ShiftedGrows(t: nat, a: nat, b: nat)
    requires a <= b
    ensures Shifted(t, a) <= Shifted(t, b)
    decreases b
  {
    if a < b { ShiftedGrows(t, a, b - 1); }
  }

  lemma EnterMembers(es: seq<Entry>, e: Entry)
    ensures forall x :: x in Enter(es, e) <==> x == e || x in es
  {
    hide Place;
    var k := Place(es, e.due);
    assert es == es[..k] + es[k..];
  }

  ghost predicate Waiting(es: seq<Entry>, pdu: nat) {
    exists i :: 0 <= i < |es| && es[i].message.pdu == pdu
  }

  /** One firing after a stall: still stalled, and the other messages are where they were. */
  lemma FireStalled(s: State, tid: int)
    requires Invariant(s) && Stalled(s) && s.pending != []
    ensures var t, m := Next(s, Fire(tid)), s.pending[0].message;
            Enabled(s, Fire(tid)) && Stalled(t) && t.now == s.now &&
            m.pdu in s.sends && m.pdu in t.sends &&
            (!Waiting(t.pending, m.pdu) ==> t.sends[m.pdu] == MAX_RETRANSMIT + 1) &&
            (forall p :: p != m.pdu && Waiting(s.pending, p) ==> Waiting(t.pending, p)) &&
            (forall p :: Waiting(t.pending, p) ==> Waiting(s.pending, p)) &&
            (forall p :: p != m.pdu && p in s.sends ==> p in t.sends && t.sends[p] == s.sends[p])
  {
    hide Enter, Shifted, ByDue, DistinctPdus, AfterRetransmit, Invariant;
    var t, m, rest := Next(s, Fire(tid)), s.pending[0].message, s.pending[1..];
    HeadAndRest(s);
    HeadCount(s);
    assert forall x <- rest :: x in s.pending;
    if m.count < MAX_RETRANSMIT {
      FiredOnSchedule(s, Fire(tid));
      var e := Entry(m.(id := tid, count := m.count + 1), s.base + Shifted(m.timeout, m.count + 1));
      EnterMembers(rest, e);
      ShiftedGrows(m.timeout, m.count + 1, MAX_RETRANSMIT);
      assert forall x <- t.pending :: x == e || x in s.pending;
      assert e in t.pending && Waiting(t.pending, m.pdu);
      WaitingMembers(rest, t.pending);
      WaitingOr(t.pending, s.pending, e);
    } else {
      NothingQueued(s.base, rest, m, tid);
      WaitingMembers(rest, s.pending);
    }
    WaitingRest(s.pending);
    forall i | 0 <= i < |t.pending|
      ensures t.pending[i].due <= t.now
      ensures t.base + Shifted(t.pending[i].message.timeout, MAX_RETRANSMIT) <= t.now
    {
      var x := t.pending[i];
      if x in s.pending {
        var j :| 0 <= j < |s.pending| && s.pending[j] == x;
      }
    }
  }

  lemma WaitingOr(fs: seq<Entry>, es: seq<Entry>, e: Entry)
    requires (forall x <- fs :: x == e || x in es) && Waiting(es, e.message.pdu)
    ensures forall p :: Waiting(fs, p) ==> Waiting(es, p)
  {
    forall p | Waiting(fs, p)
      ensures Waiting(es, p)
    {
      var i :| 0 <= i < |fs| && fs[i].message.pdu == p;
      assert fs[i] == e || fs[i] in es;
    }
  }

  lemma WaitingMembers(es: seq<Entry>, fs: seq<Entry>)
    requires forall x <- es :: x in fs
    ensures forall p :: Waiting(es, p) ==> Waiting(fs, p)
  {
    forall p | Waiting(es, p)
      ensures Waiting(fs, p)
    {
      var i :| 0 <= i < |es| && es[i].message.pdu == p;
      assert es[i] in fs;
    }
  }

  lemma WaitingRest(es: seq<Entry>)
    requires es != []
    ensures forall p :: p != es[0].message.pdu && Waiting(es, p) ==> Waiting(es[1..], p)
  {
    forall p | p != es[0].message.pdu && Waiting(es, p)
      ensures Waiting(es[1..], p)
    {
      var i :| 0 <= i < |es| && es[i].message.pdu == p;
      assert es[1..][i - 1] == es[i];
    }
  }

  /** After a stall everything that is queued is transmitted to the end at one moment: as many firings
      as are left need no time to pass, they empty the queue, and every message has then been
      transmitted five times. */
  lemma {:induction false} StallBurst(s: State, tid: int)
    requires Invariant(s) && Stalled(s)
    ensures var fires := FireRun(Left(s.pending), tid);
            Runs(s, fires) &&
            var t := Final(s, fires);
            t.pending == [] && t.now == s.now &&
            (forall p :: Waiting(s.pending, p) ==> p in t.sends && t.sends[p] == MAX_RETRANSMIT + 1) &&
            (forall p :: p in s.sends && !Waiting(s.pending, p) ==> p in t.sends && t.sends[p] == s.sends[p])
    decreases Left(s.pending)
  {
    hide Invariant, Stalled, Next, Enabled, Waiting;
    if s.pending == [] {
      NoneWaiting();
    } else {
      FireStalled(s, tid);
      HeadWaits(s.pending);
      StepKeeps(s, Fire(tid));
      StepLeft(s, Fire(tid));
      hide Left, Runs, Final;
      var t := Next(s, Fire(tid));
      StallBurst(t, tid);
      FireRunUnfold(Left(s.pending), tid);
      RunStep(s, Fire(tid), FireRun(Left(t.pending), tid));
    }
  }

  lemma FireRunUnfold(n: nat, tid: int)
    requires n > 0
    ensures FireRun(n, tid) == [Fire(tid)] + FireRun(n - 1, tid)
  {
  }

  lemma NoneWaiting()
    ensures forall p :: !Waiting([], p)
  {
  }

  lemma HeadWaits(es: seq<Entry>)
    requires es != []
    ensures Waiting(es, es[0].message.pdu)
  {
  }

  /** A message that has been sent once, at the time 0, is sent four times more at the time 40000, if
      nothing has fired before. */
  lemma BurstExample()
    ensures var stall := [Send(7, 1, 0), Tick(40000)];
            Runs(START, stall) &&
            var s := Final(START, stall);
            s.now == 40000 && 7 in s.first && s.first[7] == 0 && 7 in s.sends && s.sends[7] == 1 &&
            Runs(s, FireRun(5, 1)) &&
            var t := Final(s, FireRun(5, 1));
            t.now == 40000 && t.pending == [] && 7 in t.sends && t.sends[7] == 5
  {
    ShiftedIs(2048);
    var one := Next(START, Send(7, 1, 0));
    var s := Next(one, Tick(40000));
    var e := Entry(Message(7, 1, 2048, 0), 2048);
    assert s.pending == [e] && s.first == map[7 := 0] && s.sends == map[7 := 1] && s.base == 0;
    assert Stalled(s);
    assert Left(s.pending) == 5 by { assert [e][1..] == []; }
    HeadWaits(s.pending);
    var stall := [Send(7, 1, 0), Tick(40000)];
    assert stall == [Send(7, 1, 0)] + ([Tick(40000)] + []);
    StartIsInvariant();
    hide Next, Left, Stalled, Waiting, FireRun, Invariant;
    RunStep(one, Tick(40000), []);
    RunStep(START, Send(7, 1, 0), [Tick(40000)] + []);
    RunKeeps(START, stall);
    StallBurst(s, 1);
  }
}
