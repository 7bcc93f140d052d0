/** libcoap's observer bookkeeping (resource.c; section 4 of RFC 7641, which the code knows as
    draft-ietf-core-observe-09). */
module Observe {
  import opened Wire
  import opened Wrappers

  const MAX_NON: nat := 5
  const MAX_TOKEN: nat := 8

  /** A subscription.  `seen` is bookkeeping of this model: the version of the resource that was last
      sent to the subscriber. */
  datatype Sub = Sub(peer: nat, token: seq<byte>, non: bool, nonCnt: nat, dirty: bool, seen: nat)

  /** What happens to one notification: no PDU, a failed transmission, or a transmission. */
  datatype Outcome = NoPdu | Failed | Sent

  /** The type of the message that carries a notification. */
  datatype Kind = Confirmable | NonConfirmable

  // ----- the operations on values -----

  /** The subscription after its turn in `coap_notify_observers`. */
  function NotifyOne(all: bool, version: nat, s: Sub, o: Outcome): Sub {
    if !all && !s.dirty then s
    else if o.NoPdu? || |s.token| > MAX_TOKEN then s.(dirty := true)
    else s.(nonCnt := if s.non && s.nonCnt < MAX_NON then s.nonCnt + 1 else 0,
            dirty := o.Failed?,
            seen := if o.Sent? then version else s.seen)
  }

  function NotifyAll(all: bool, version: nat, subs: seq<Sub>, outcomes: nat -> Outcome): (r: seq<Sub>)
    ensures |r| == |subs|
    ensures forall i :: 0 <= i < |subs| ==> r[i] == NotifyOne(all, version, subs[i], outcomes(i))
  {
    seq(|subs|, i requires 0 <= i < |subs| => NotifyOne(all, version, subs[i], outcomes(i)))
  }

  /** The type of the notification that a subscription is sent in its turn. */
  function KindOf(all: bool, s: Sub, o: Outcome): Maybe<Kind> {
    if (!all && !s.dirty) || o.NoPdu? || |s.token| > MAX_TOKEN then None
    else Some(if s.non && s.nonCnt < MAX_NON then NonConfirmable else Confirmable)
  }

  predicate Matches(s: Sub, peer: nat, token: Maybe<seq<byte>>) {
    s.peer == peer && (token.None? || s.token == token.value)
  }

  /** The first subscription of the peer, with this token if one is given. */
  function FindSub(subs: seq<Sub>, peer: nat, token: Maybe<seq<byte>>): (k: nat)
    ensures k <= |subs| && (k < |subs| ==> Matches(subs[k], peer, token))
    ensures forall i :: 0 <= i < k ==> !Matches(subs[i], peer, token)
  {
    if subs == [] || Matches(subs[0], peer, token) then 0 else 1 + FindSub(subs[1..], peer, token)
  }

  /** The token of a new subscription; without one it is empty. */
  function TokenOf(token: Maybe<seq<byte>>): seq<byte> {
    if token.None? then [] else token.value
  }

  function AddSub(subs: seq<Sub>, peer: nat, token: Maybe<seq<byte>>, version: nat): seq<Sub> {
    if FindSub(subs, peer, token) < |subs| then subs
    else subs + [Sub(peer, TokenOf(token), false, 0, false, version)]
  }

  function DeleteSub(subs: seq<Sub>, peer: nat, token: Maybe<seq<byte>>): seq<Sub> {
    var k := FindSub(subs, peer, token);
    if k == |subs| then subs else subs[..k] + subs[k + 1..]
  }

  // ----- the linked objects -----

  class Subscription {
    const peer: nat
    const token: seq<byte>
    var non: bool
    var nonCnt: nat
    var dirty: bool
    ghost var seen: nat

    constructor (peer: nat, token: seq<byte>, ghost version: nat)
      ensures View(this) == Sub(peer, token, false, 0, false, version)
    {
      this.peer, this.token, non, nonCnt, dirty, seen := peer, token, false, 0, false, version;
    }
  }

  ghost function View(s: Subscription): Sub
    reads s
  {
    Sub(s.peer, s.token, s.non, s.nonCnt, s.dirty, s.seen)
  }

  ghost function Views(list: seq<Subscription>): (r: seq<Sub>)
    reads list
    ensures |r| == |list| && forall i :: 0 <= i < |list| ==> r[i] == View(list[i])
  {
    seq(|list|, i requires 0 <= i < |list| reads list => View(list[i]))
  }

  ghost predicate Distinct(list: seq<Subscription>) {
    forall i, j :: 0 <= i < j < |list| ==> list[i] != list[j]
  }

  class Resource {
    var observable: bool
    var dirty: bool
    var partiallydirty: bool
    var subscribers: seq<Subscription>
    ghost var version: nat

    ghost predicate Valid()
      reads this
    {
      Distinct(subscribers)
    }

    ghost function Subs(): seq<Sub>
      reads this, subscribers
    {
      Views(subscribers)
    }

    constructor (observable: bool)
      ensures Valid() && Subs() == [] && !dirty && !partiallydirty && version == 0 && this.observable == observable
    {
      this.observable, dirty, partiallydirty, subscribers, version := observable, false, false, [], 0;
    }

    /** The application has changed the resource and says so. */
    method Change()
      requires Valid()
      modifies this`dirty, this`version
      ensures Valid() && dirty && version == old(version) + 1 && Subs() == old(Subs())
    {
      dirty := true;
      version := version + 1;
    }

    /** `coap_find_observer`: the first subscription of the peer, with the token if one is given. */
    method Find(peer: nat, token: Maybe<seq<byte>>) returns (s: Subscription?, k: nat)
      requires Valid()
      ensures k == FindSub(Subs(), peer, token)
      ensures if k < |subscribers| then s == subscribers[k] else s == null
      ensures s == null <==> forall x <- subscribers :: !(x.peer == peer && (token.None? || x.token == token.value))
      ensures s != null ==> k < |subscribers| && s.peer == peer && (token.None? || s.token == token.value)
      ensures forall i :: 0 <= i < k && i < |subscribers| ==>
                !(subscribers[i].peer == peer && (token.None? || subscribers[i].token == token.value))
    {
      k := 0;
      while k < |subscribers|
        invariant k <= |subscribers| && forall i :: 0 <= i < k ==> !Matches(Subs()[i], peer, token)
      {
        s := subscribers[k];
        if s.peer == peer && (token.None? || token.value == s.token) {
          FindIs(Subs(), peer, token, k);
          return;
        }
        k := k + 1;
      }
      FindIs(Subs(), peer, token, k);
      s := null;
    }

    /** `coap_add_observer` */
    method Add(peer: nat, token: Maybe<seq<byte>>) returns (s: Subscription)
      requires Valid() && (token.Some? ==> |token.value| <= MAX_TOKEN)
      modifies this`subscribers
      ensures Valid() && s in subscribers && Matches(View(s), peer, token)
      ensures Subs() == AddSub(old(Subs()), peer, token, version)
      ensures s.peer == peer && (token.None? || s.token == token.value)
      ensures if exists x :: x in old(subscribers) && x.peer == peer && (token.None? || x.token == token.value)
              then subscribers == old(subscribers)
              else fresh(s) && subscribers == old(subscribers) + [s] && (token.None? ==> s.token == [])
    {
      var found, k := Find(peer, token);
      if found != null { return found; }
      s := new Subscription(peer, TokenOf(token), version);
      subscribers := subscribers + [s];
    }

    /** `coap_delete_observer`: the first subscription of the peer, with the token if one is given, leaves
        its place `k`. */
    method Delete(peer: nat, token: Maybe<seq<byte>>) returns (ghost k: nat)
      requires Valid()
      modifies this`subscribers
      ensures Valid() && Subs() == DeleteSub(old(Subs()), peer, token)
      ensures k <= |old(subscribers)| && forall i :: 0 <= i < k ==>
                var x := old(subscribers)[i]; !(x.peer == peer && (token.None? || x.token == token.value))
      ensures k == |old(subscribers)| ==> subscribers == old(subscribers)
      ensures k < |old(subscribers)| ==>
                var x := old(subscribers)[k];
                x.peer == peer && (token.None? || x.token == token.value) &&
                subscribers == old(subscribers)[..k] + old(subscribers)[k + 1..]
    {
      hide Views, Distinct, FindSub, DeleteSub;
      ghost var subs := Subs();
      var s, i := Find(peer, token);
      DeleteIs(subs, peer, token);
      FindInside(subs, peer, token);
      k := i;
      if s != null { TakeOut(i); }
    }

    method TakeOut(k: nat)
      requires Valid() && k < |subscribers|
      modifies this`subscribers
      ensures Valid() && Subs() == old(Subs())[..k] + old(Subs())[k + 1..]
      ensures subscribers == old(subscribers)[..k] + old(subscribers)[k + 1..]
    {
      subscribers := subscribers[..k] + subscribers[k + 1..];
    }

    /** One turn of the loop of `coap_notify_observers`; `sent` is the type of the message, if there is
        one: not confirmable only if the subscription allows it and fewer than five in a row have been so. */
    method NotifySubscriber(s: Subscription, o: Outcome) returns (sent: Maybe<Kind>)
      modifies s, this`partiallydirty
      ensures View(s) == NotifyOne(dirty, version, old(View(s)), o)
      ensures partiallydirty <==> old(partiallydirty) || ((dirty || old(s.dirty)) && s.dirty)
      ensures sent == KindOf(dirty, old(View(s)), o)
      ensures sent.Some? <==> (dirty || old(s.dirty)) && !o.NoPdu? && |s.token| <= 8
      ensures sent == Some(NonConfirmable) ==> s.non && old(s.nonCnt) < 5 && s.nonCnt == old(s.nonCnt) + 1
      ensures sent == Some(Confirmable) ==> !(s.non && old(s.nonCnt) < 5) && s.nonCnt == 0
      ensures sent == None ==> s.nonCnt == old(s.nonCnt)
    {
      if !dirty && !s.dirty { return None; }
      s.dirty := false;
      if o.NoPdu? || |s.token| > MAX_TOKEN {
        s.dirty := true;
        partiallydirty := true;
        return None;
      }
      sent := Some(if s.non && s.nonCnt < MAX_NON then NonConfirmable else Confirmable);
      s.nonCnt := if sent.value.Confirmable? then 0 else s.nonCnt + 1;
      if o.Failed? {
        s.dirty := true;
        partiallydirty := true;
      } else {
        s.seen := version;
      }
    }

    /** The first `i` subscribers have had their turn. */
    ghost predicate Turns(i: nat, was: seq<Sub>, outcomes: nat -> Outcome)
      reads this, subscribers
    {
      i <= |subscribers| == |was| &&
      (forall j :: 0 <= j < i ==> View(subscribers[j]) == NotifyOne(dirty, version, was[j], outcomes(j))) &&
      (forall j :: i <= j < |subscribers| ==> View(subscribers[j]) == was[j]) &&
      (partiallydirty <==> exists j :: 0 <= j < i && subscribers[j].dirty)
    }

    method Turn(i: nat, ghost was: seq<Sub>, outcomes: nat -> Outcome)
      requires Valid() && i < |subscribers| && Turns(i, was, outcomes)
      modifies this`partiallydirty, subscribers[i]
      ensures Valid() && Turns(i + 1, was, outcomes)
    {
      hide NotifyOne;
      var s := subscribers[i];
      assert forall j :: 0 <= j < |subscribers| && j != i ==> subscribers[j] != s;
      if !dirty && !s.dirty { CleanStays(version, was[i], outcomes(i)); }
      var _ := NotifySubscriber(s, outcomes(i));
    }

    method NotifySubscribers(outcomes: nat -> Outcome)
      requires Valid() && !partiallydirty
      modifies this`partiallydirty, subscribers
      ensures Valid() && Turns(|subscribers|, old(Subs()), outcomes)
    {
      ghost var was := Subs();
      assert Turns(0, was, outcomes);
      for i := 0 to |subscribers|
        invariant Valid() && Turns(i, was, outcomes)
      {
        hide Turns;
        Turn(i, was, outcomes);
      }
    }

    lemma AllTurns(was: seq<Sub>, outcomes: nat -> Outcome)
      requires Turns(|subscribers|, was, outcomes)
      ensures Subs() == NotifyAll(dirty, version, was, outcomes)
      ensures partiallydirty <==> exists i :: 0 <= i < |Subs()| && Subs()[i].dirty
    {
      assert forall j :: 0 <= j < |subscribers| ==> Subs()[j].dirty == subscribers[j].dirty;
    }

    /** `coap_notify_observers`, with what happens to each notification. */
    method Notify(outcomes: nat -> Outcome)
      requires Valid()
      modifies this`dirty, this`partiallydirty, subscribers
      ensures Valid() && !dirty
      ensures var runs := observable && (old(dirty) || old(partiallydirty));
              Subs() == (if runs then NotifyAll(old(dirty), version, old(Subs()), outcomes) else old(Subs())) &&
              (partiallydirty <==>
                 if runs then exists i :: 0 <= i < |Subs()| && Subs()[i].dirty else old(partiallydirty))
    {
      hide Turns, Views, NotifyAll, Distinct;
      if observable && (dirty || partiallydirty) {
        ghost var was := Subs();
        partiallydirty := false;
        NotifySubscribers(outcomes);
        AllTurns(was, outcomes);
      }
      dirty := false;
    }
  }

  lemma FindInside(subs: seq<Sub>, peer: nat, token: Maybe<seq<byte>>)
    ensures FindSub(subs, peer, token) <= |subs|
  {
  }

  lemma DeleteIs(subs: seq<Sub>, peer: nat, token: Maybe<seq<byte>>)
    ensures var k := FindSub(subs, peer, token);
            DeleteSub(subs, peer, token) == if k == |subs| then subs else subs[..k] + subs[k + 1..]
  {
  }

  lemma CleanStays(version: nat, s: Sub, o: Outcome)
    requires !s.dirty
    ensures NotifyOne(false, version, s, o) == s
  {
  }

  lemma FindIs(subs: seq<Sub>, peer: nat, token: Maybe<seq<byte>>, k: nat)
    requires k <= |subs| && (forall i :: 0 <= i < k ==> !Matches(subs[i], peer, token))
    requires k < |subs| ==> Matches(subs[k], peer, token)
    ensures FindSub(subs, peer, token) == k
  {
  }

  // ----- what a subscription is sent -----

  datatype Turn = Turn(all: bool, version: nat, outcome: Outcome)

  /** The types of the notifications that a subscription is sent in its turns. */
  function Kinds(s: Sub, turns: seq<Turn>): seq<Kind>
    decreases |turns|
  {
    if turns == [] then [] else
    var t := turns[0];
    var k, rest := KindOf(t.all, s, t.outcome), Kinds(NotifyOne(t.all, t.version, s, t.outcome), turns[1..]);
    if k.None? then rest else [k.value] + rest
  }

  /** A subscription that has been sent `nonCnt` in a row without confirmation is sent at most `5 - nonCnt`
      more of them. */
  lemma {:induction false} FewMore(s: Sub, turns: seq<Turn>, m: nat)
    requires m <= |Kinds(s, turns)| && forall i :: 0 <= i < m ==> Kinds(s, turns)[i] == NonConfirmable
    ensures m == 0 || s.nonCnt + m <= 5
    decreases |turns|
  {
    if m > 0 {
      var t := turns[0];
      var s', kinds := NotifyOne(t.all, t.version, s, t.outcome), Kinds(s, turns);
      if KindOf(t.all, s, t.outcome).None? {
        FewMore(s', turns[1..], m);
      } else {
        assert kinds[0] == NonConfirmable && kinds[1..] == Kinds(s', turns[1..]);
        FewMore(s', turns[1..], m - 1);
      }
    }
  }

  /** Of any six notifications in a row one is confirmable, whatever happens to them; the sixth of them
      at the latest, so five may be without confirmation. */
  lemma {:induction false} OneOfSix(s: Sub, turns: seq<Turn>, i: nat)
    requires i + 6 <= |Kinds(s, turns)|
    ensures exists j :: i <= j < i + 6 && Kinds(s, turns)[j] == Confirmable
    decreases |turns|
  {
    var t := turns[0];
    var s', kinds := NotifyOne(t.all, t.version, s, t.outcome), Kinds(s, turns);
    var rest := Kinds(s', turns[1..]);
    if KindOf(t.all, s, t.outcome).None? {
      OneOfSix(s', turns[1..], i);
    } else if i > 0 {
      OneOfSix(s', turns[1..], i - 1);
      var j :| i - 1 <= j < i + 5 && rest[j] == Confirmable;
      assert kinds[j + 1] == Confirmable;
    } else if forall j :: 0 <= j < 6 ==> kinds[j] == NonConfirmable {
      FewMore(s, turns, 6);
    }
  }

  // ----- whole runs -----

  datatype State = State(observable: bool, dirty: bool, partiallydirty: bool, version: nat, subs: seq<Sub>)

  datatype Step =
    | Change
    | Subscribe(peer: nat, token: Maybe<seq<byte>>)
    | Unsubscribe(peer: nat, which: Maybe<seq<byte>>)
    | Notify(outcomes: nat -> Outcome)

  function Next(s: State, step: Step): State {
    match step
    case Change => s.(dirty := true, version := s.version + 1)
    case Subscribe(peer, token) => s.(subs := AddSub(s.subs, peer, token, s.version))
    case Unsubscribe(peer, token) => s.(subs := DeleteSub(s.subs, peer, token))
    case Notify(outcomes) =>
      if s.observable && (s.dirty || s.partiallydirty) then
        var subs := NotifyAll(s.dirty, s.version, s.subs, outcomes);
        s.(dirty := false, partiallydirty := exists i :: 0 <= i < |subs| && subs[i].dirty, subs := subs)
      else s.(dirty := false)
  }

  function Run(s: State, steps: seq<Step>): State
    decreases |steps|
  {
    if steps == [] then s else Run(Next(s, steps[0]), steps[1..])
  }

  /** Whoever has not been sent the latest version still has a flag that says so. */
  ghost predicate Remembered(s: State) {
    forall i :: 0 <= i < |s.subs| ==> s.subs[i].seen == s.version || s.subs[i].dirty || s.dirty
  }

  ghost predicate DirtyImpliesPartial(s: State) {
    forall i :: 0 <= i < |s.subs| ==> s.subs[i].dirty ==> s.partiallydirty
  }

  ghost predicate Unique(subs: seq<Sub>) {
    forall i, j :: 0 <= i < j < |subs| ==> subs[i].peer != subs[j].peer || subs[i].token != subs[j].token
  }

  /** Never more than five notifications without confirmation in a row. */
  ghost predicate FewNonConfirmable(subs: seq<Sub>) {
    forall i :: 0 <= i < |subs| ==> subs[i].nonCnt <= MAX_NON
  }

  ghost predicate Invariant(s: State) {
    Remembered(s) && DirtyImpliesPartial(s) && Unique(s.subs) && FewNonConfirmable(s.subs)
  }

  lemma SubscribeKeeps(s: State, peer: nat, token: Maybe<seq<byte>>)
    requires Invariant(s)
    ensures Invariant(Next(s, Subscribe(peer, token)))
  {
    var k := FindSub(s.subs, peer, token);
    if k == |s.subs| {
      var t := Next(s, Subscribe(peer, token));
      assert forall i :: 0 <= i < k ==> !Matches(s.subs[i], peer, token) && t.subs[i] == s.subs[i];
      assert t.subs[k] == Sub(peer, TokenOf(token), false, 0, false, s.version);
    }
  }

  /** In peers and tokens: after subscribing there is a subscription of the peer with the token; the old
      ones keep their places, and one is appended iff there was none. */
  lemma SubscribeAdds(s: State, peer: nat, token: seq<byte>)
    ensures var r := Next(s, Subscribe(peer, Some(token))).subs;
            (exists x <- r :: x.peer == peer && x.token == token) &&
            |r| == |s.subs| + (if exists x <- s.subs :: x.peer == peer && x.token == token then 0 else 1) &&
            r[..|s.subs|] == s.subs
  {
    var k := FindSub(s.subs, peer, Some(token));
    var r := Next(s, Subscribe(peer, Some(token))).subs;
    if k < |s.subs| {
      assert s.subs[k] in s.subs;
      assert r == s.subs;
    } else {
      assert r[|s.subs|] in r;
    }
  }

  /** The subscriptions other than the one of the peer with the token. */
  function Others(subs: seq<Sub>, peer: nat, token: seq<byte>): seq<Sub> {
    if subs == [] then []
    else (if subs[0].peer == peer && subs[0].token == token then [] else [subs[0]]) + Others(subs[1..], peer, token)
  }

  /** After unsubscribing exactly the others are left, in order. */
  lemma UnsubscribeRemoves(s: State, peer: nat, token: seq<byte>)
    requires Unique(s.subs)
    ensures Next(s, Unsubscribe(peer, Some(token))).subs == Others(s.subs, peer, token)
  {
    DeleteLeavesOthers(s.subs, peer, token);
  }

  lemma {:induction false} DeleteLeavesOthers(subs: seq<Sub>, peer: nat, token: seq<byte>)
    requires Unique(subs)
    ensures DeleteSub(subs, peer, Some(token)) == Others(subs, peer, token)
    decreases subs
  {
    if subs == [] {
    } else {
      hide DeleteSub;
      var rest := subs[1..];
      assert forall i :: 0 <= i < |rest| ==> rest[i] == subs[i + 1];
      DeleteFirst(subs, peer, token);
      if subs[0].peer == peer && subs[0].token == token {
        NoOthers(rest, peer, token);
      } else {
        DeleteLeavesOthers(rest, peer, token);
      }
    }
  }

  lemma DeleteFirst(subs: seq<Sub>, peer: nat, token: seq<byte>)
    requires subs != []
    ensures DeleteSub(subs, peer, Some(token)) ==
              if subs[0].peer == peer && subs[0].token == token then subs[1..]
              else [subs[0]] + DeleteSub(subs[1..], peer, Some(token))
  {
    var rest := subs[1..];
    var k := FindSub(rest, peer, Some(token));
    if k < |rest| {
      assert subs[..k + 1] + subs[k + 2..] == [subs[0]] + (rest[..k] + rest[k + 1..]);
    } else {
      assert subs == [subs[0]] + rest;
    }
  }

  lemma {:induction false} NoOthers(subs: seq<Sub>, peer: nat, token: seq<byte>)
    requires forall i :: 0 <= i < |subs| ==> subs[i].peer != peer || subs[i].token != token
    ensures Others(subs, peer, token) == subs
    decreases subs
  {
    if subs != [] {
      NoOthers(subs[1..], peer, token);
      assert [subs[0]] + subs[1..] == subs;
    }
  }

  lemma NotifyKeeps(s: State, outcomes: nat -> Outcome)
    requires Invariant(s) && s.observable
    ensures Invariant(Next(s, Notify(outcomes)))
  {
    if s.dirty || s.partiallydirty {
      var t := Next(s, Notify(outcomes));
      assert forall i :: 0 <= i < |s.subs| ==> t.subs[i] == NotifyOne(s.dirty, s.version, s.subs[i], outcomes(i));
    }
  }

  lemma UnsubscribeKeeps(s: State, peer: nat, which: Maybe<seq<byte>>)
    requires Invariant(s)
    ensures Invariant(Next(s, Unsubscribe(peer, which)))
  {
    hide FindSub;
    var t, k := Next(s, Unsubscribe(peer, which)), FindSub(s.subs, peer, which);
    if k < |s.subs| {
      UniqueWithout(s.subs, k);
      assert forall x <- t.subs :: x in s.subs;
      assert t.subs == s.subs[..k] + s.subs[k + 1..];
      hide Unique, Next, DeleteSub;
      MembersKeep(s, t);
    } else {
      assert t == s;
    }
  }

  lemma UniqueWithout(subs: seq<Sub>, k: nat)
    requires Unique(subs) && k < |subs|
    ensures Unique(subs[..k] + subs[k + 1..])
  {
    var r := subs[..k] + subs[k + 1..];
    assert forall i :: 0 <= i < |r| ==> r[i] == subs[if i < k then i else i + 1];
  }

  /** What the invariant says of single subscriptions. */
  lemma MembersKeep(s: State, t: State)
    requires Remembered(s) && DirtyImpliesPartial(s) && FewNonConfirmable(s.subs)
    requires t == s.(subs := t.subs) && forall x <- t.subs :: x in s.subs
    ensures Remembered(t) && DirtyImpliesPartial(t) && FewNonConfirmable(t.subs)
  {
    forall i | 0 <= i < |t.subs|
      ensures exists j :: 0 <= j < |s.subs| && t.subs[i] == s.subs[j]
    {
      assert t.subs[i] in s.subs;
    }
  }

  lemma ChangeKeeps(s: State)
    requires Invariant(s)
    ensures Invariant(Next(s, Change))
  {
  }

  lemma StepKeeps(s: State, step: Step)
    requires Invariant(s) && s.observable
    ensures Invariant(Next(s, step)) && Next(s, step).observable
  {
    hide Invariant;
    match step
    case Change => ChangeKeeps(s);
    case Subscribe(peer, token) => SubscribeKeeps(s, peer, token);
    case Unsubscribe(peer, which) => UnsubscribeKeeps(s, peer, which);
    case Notify(outcomes) => NotifyKeeps(s, outcomes);
  }

  /** Over every run on an observable resource, whatever fails: no notification is forgotten, a dirty
      subscriber is found again, and no two subscriptions are the same. */
  lemma {:induction false} RunKeeps(s: State, steps: seq<Step>)
    requires Invariant(s) && s.observable
    ensures Invariant(Run(s, steps))
    decreases |steps|
  {
    hide Invariant, Next;
    if steps != [] {
      StepKeeps(s, steps[0]);
      RunKeeps(Next(s, steps[0]), steps[1..]);
    }
  }

  // ----- a resource that is not observable -----

  const UNOBSERVABLE: State := State(false, false, false, 0, [])

  lemma {:induction false} RunSplit(s: State, a: seq<Step>, b: seq<Step>)
    ensures Run(s, a + b) == Run(Run(s, a), b)
    decreases |a|
  {
    hide Next;
    if a == [] {
      assert a + b == b;
    } else {
      assert (a + b)[1..] == a[1..] + b;
      RunSplit(Next(s, a[0]), a[1..], b);
    }
  }

  /** No subscription is ever marked, and none is ahead of the resource. */
  ghost predicate Unmarked(s: State) {
    !s.observable && forall x <- s.subs :: !x.dirty && x.seen <= s.version
  }

  /** One step other than a change: subscriptions go, or come up to date. */
  lemma QuietStep(s: State, step: Step)
    requires Unmarked(s)
    ensures var t := Next(s, step);
            Unmarked(t) &&
            (!step.Change? ==> t.version == s.version && (t.dirty <==> s.dirty && !step.Notify?) &&
                               forall x <- t.subs :: x in s.subs || x.seen == s.version)
  {
    match step
    case Change =>
    case Subscribe(peer, token) =>
    case Unsubscribe(peer, which) =>
      var k := FindSub(s.subs, peer, which);
      hide FindSub;
      assert forall x <- DeleteSub(s.subs, peer, which) :: x in s.subs;
    case Notify(_) =>
  }

  lemma {:induction false} UnmarkedRun(s: State, steps: seq<Step>)
    requires Unmarked(s)
    ensures Unmarked(Run(s, steps))
    decreases |steps|
  {
    hide Unmarked, Next;
    if steps != [] {
      QuietStep(s, steps[0]);
      UnmarkedRun(Next(s, steps[0]), steps[1..]);
    }
  }

  lemma {:induction false} QuietRun(s: State, steps: seq<Step>)
    requires Unmarked(s) && forall i :: 0 <= i < |steps| ==> !steps[i].Change?
    ensures var t := Run(s, steps);
            Unmarked(t) && t.version == s.version && (forall x <- t.subs :: x in s.subs || x.seen == s.version) &&
            (t.dirty <==> s.dirty && forall i :: 0 <= i < |steps| ==> !steps[i].Notify?)
    decreases |steps|
  {
    hide Unmarked, Next;
    if steps != [] {
      QuietStep(s, steps[0]);
      QuietRun(Next(s, steps[0]), steps[1..]);
      assert forall i :: 0 < i < |steps| ==> steps[i] == steps[1..][i - 1];
    }
  }

  /** In a run on a resource that is not observable a notification is forgotten iff a pass has followed
      the last change, which is `steps[k]`, and a subscription from before that change is still there. */
  lemma ForgetsIff(steps: seq<Step>, k: nat)
    requires k < |steps| && steps[k].Change? && forall i :: k < i < |steps| ==> !steps[i].Change?
    ensures var before, s := Run(UNOBSERVABLE, steps[..k]), Run(UNOBSERVABLE, steps);
            !Remembered(s) <==> (exists i :: k < i < |steps| && steps[i].Notify?) &&
                                exists x :: x in before.subs && x in s.subs
  {
    var before, s, rest := Run(UNOBSERVABLE, steps[..k]), Run(UNOBSERVABLE, steps), steps[k + 1..];
    assert steps == steps[..k] + steps[k..];
    RunSplit(UNOBSERVABLE, steps[..k], steps[k..]);
    assert steps[k..][1..] == rest;
    UnmarkedRun(UNOBSERVABLE, steps[..k]);
    var changed := Next(before, Change);
    assert s == Run(changed, rest);
    QuietRun(changed, rest);
    assert forall i :: k < i < |steps| ==> steps[i] == rest[i - k - 1];
    hide Run;
    BehindIff(before, s);
  }

  /** Without a change there is nothing to forget. */
  lemma UnchangedRemembers(steps: seq<Step>)
    requires forall i :: 0 <= i < |steps| ==> !steps[i].Change?
    ensures Remembered(Run(UNOBSERVABLE, steps))
  {
    QuietRun(UNOBSERVABLE, steps);
  }

  /** Who has not been sent the version of the last change subscribed before it. */
  lemma BehindIff(before: State, s: State)
    requires Unmarked(before) && Unmarked(s) && s.version == before.version + 1
    requires forall x <- s.subs :: x in before.subs || x.seen == s.version
    ensures Remembered(s) <==> s.dirty || !exists x :: x in before.subs && x in s.subs
  {
    if !s.dirty && exists x :: x in before.subs && x in s.subs {
      var x :| x in before.subs && x in s.subs;
      var i :| 0 <= i < |s.subs| && s.subs[i] == x;
      assert s.subs[i].seen != s.version;
    }
  }

  /** It happens: subscribe, change, notify. */
  lemma ForgottenChange(peer: nat, token: Maybe<seq<byte>>, outcomes: nat -> Outcome)
    ensures !Remembered(Run(UNOBSERVABLE, [Subscribe(peer, token), Change, Notify(outcomes)]))
  {
    var steps := [Subscribe(peer, token), Change, Notify(outcomes)];
    var one := Next(UNOBSERVABLE, steps[0]);
    var two := Next(one, steps[1]);
    var three := Next(two, steps[2]);
    assert three.subs == [Sub(peer, TokenOf(token), false, 0, false, 0)] && three.version == 1 && !three.dirty;
    assert !Remembered(three) by { assert three.subs[0].seen != three.version; }
    hide Next, Remembered;
    RunSplit(UNOBSERVABLE, [steps[0]], [steps[1], steps[2]]);
    RunSplit(one, [steps[1]], [steps[2]]);
    RunOne(UNOBSERVABLE, steps[0]);
    RunOne(one, steps[1]);
    RunOne(two, steps[2]);
    assert steps == [steps[0]] + [steps[1], steps[2]] && [steps[1], steps[2]] == [steps[1]] + [steps[2]];
  }

  lemma RunOne(s: State, step: Step)
    ensures Run(s, [step]) == Next(s, step)
  {
    assert [step][1..] == [];
  }

  /** Once transmissions succeed, one pass brings every subscriber up to date and clears all flags. */
  lemma PassDelivers(s: State, outcomes: nat -> Outcome)
    requires Invariant(s) && s.observable
    requires forall i :: 0 <= i < |s.subs| ==> outcomes(i) == Sent && |s.subs[i].token| <= MAX_TOKEN
    ensures var t := Next(s, Notify(outcomes));
            !t.dirty && !t.partiallydirty &&
            forall i :: 0 <= i < |t.subs| ==> t.subs[i].seen == s.version
  {
    var t := Next(s, Notify(outcomes));
    if s.dirty || s.partiallydirty {
      assert forall i :: 0 <= i < |s.subs| ==> t.subs[i] == NotifyOne(s.dirty, s.version, s.subs[i], outcomes(i));
    }
  }
}
