/** Whole runs of the confirmable-message protocol over the send queue. */
module Retransmission {
  import opened DeltaQueue
  import opened Powers

  /** Where every message of a run is. `sends` counts how often each id went out on the network. */
  datatype State = State(queue: seq<Entry>, sends: multiset<int>,
                         acked: set<int>, refused: set<int>, gaveUp: set<int>, cancelled: set<int>)

  const INIT: State := State([], multiset{}, {}, {}, {}, {})

  /** One call into the protocol code.
      Send: `coap_send_confirmed`. Round: one round of the drive loop. Ack, Reset: these cases of
      `coap_dispatch`. Cancel: any call of `coap_cancel_all_messages`. Adjust: `coap_adjust_basetime`. */
  datatype Event =
    | Send(m: Msg, t: nat)
    | Round(elapsed: nat)
    | Ack(id: int)
    | Reset(id: int)
    | Cancel(remote: int, token: seq<int>)
    | Adjust(delta: int)

  /** Ids are distinct and a new message has not been retransmitted. */
  predicate Legal(s: State, e: Event) {
    e.Send? ==> e.m.id !in s.sends && e.m.retransmitCnt == 0
  }

  function Step(s: State, e: Event): State {
    match e
    case Send(m, t) => s.(queue := Insert(s.queue, Entry(t, m)), sends := s.sends + multiset{m.id})
    case Round(elapsed) =>
      if s.queue == [] || s.queue[0].t > elapsed then s
      else
        var m, rest := s.queue[0].msg, Pop(s.queue);
        if m.retransmitCnt < COAP_DEFAULT_MAX_RETRANSMIT
        then s.(queue := Retransmit(rest, m), sends := s.sends + multiset{m.id})
        else s.(queue := Retransmit(rest, m), gaveUp := s.gaveUp + {m.id})
    case Ack(id) =>
      if HasId(s.queue, id) then s.(queue := RemoveId(s.queue, id), acked := s.acked + {id}) else s
    case Reset(id) =>
      if HasId(s.queue, id) then s.(queue := RemoveId(s.queue, id), refused := s.refused + {id}) else s
    case Cancel(remote, token) =>
      s.(queue := DeltaQueue.Cancel(s.queue, remote, token),
          cancelled := s.cancelled + Cancelled(s.queue, remote, token))
    case Adjust(delta) => if s.queue == [] then s else s.(queue := DeltaQueue.Adjust(s.queue, delta))
  }

  function Cancelled(q: seq<Entry>, remote: int, token: seq<int>): set<int> {
    set i | 0 <= i < |q| && Matches(q[i].msg, remote, token) :: q[i].msg.id
  }

  ghost predicate LegalRun(s: State, es: seq<Event>)
    decreases |es|
  {
    es == [] || (Legal(s, es[0]) && LegalRun(Step(s, es[0]), es[1..]))
  }

  function Run(s: State, es: seq<Event>): State
    decreases |es|
  {
    if es == [] then s else Run(Step(s, es[0]), es[1..])
  }

  // ----- the messages of a queue -----

  function Bag(q: seq<Entry>): multiset<Msg>
    decreases |q|
  {
    if q == [] then multiset{} else multiset{q[0].msg} + Bag(q[1..])
  }

  lemma BagCons(e: Entry, rest: seq<Entry>)
    ensures Bag([e] + rest) == multiset{e.msg} + Bag(rest)
  {
    assert ([e] + rest)[1..] == rest;
  }

  lemma InsertBag(q: seq<Entry>, e: Entry)
    ensures Bag(Insert(q, e)) == Bag(q) + multiset{e.msg}
  {
    hide Bag, Insert;
    forall m ensures Bag(Insert(q, e))[m] == (Bag(q) + multiset{e.msg})[m] {
      InsertCount(q, e, m);
    }
  }

  lemma {:induction false} InsertCount(q: seq<Entry>, e: Entry, m: Msg)
    ensures Bag(Insert(q, e))[m] == Bag(q)[m] + (if e.msg == m then 1 else 0)
    decreases |q|
  {
    hide Bag;
    BagCons(e, q);
    if q == [] {
      assert [e] + q == [e];
    } else {
      var rest := q[1..];
      assert q == [q[0]] + rest;
      BagCons(q[0], rest);
      if e.t < q[0].t {
        var r := q[0].(t := q[0].t - e.t);
        BagCons(e, [r] + rest);
        BagCons(r, rest);
        assert [e, r] + rest == [e] + ([r] + rest);
      } else {
        InsertCount(rest, Later(e, q[0].t), m);
        BagCons(q[0], Insert(rest, Later(e, q[0].t)));
      }
    }
  }

  lemma PopBag(q: seq<Entry>)
    requires q != []
    ensures Bag(q) == Bag(Pop(q)) + multiset{q[0].msg}
  {
    hide Bag;
    assert q == [q[0]] + q[1..];
    BagCons(q[0], q[1..]);
    SameBag(q);
  }

  /** Popping only changes the timer of the second message. */
  lemma SameBag(q: seq<Entry>)
    requires q != []
    ensures Bag(Pop(q)) == Bag(q[1..])
  {
    hide Bag;
    if |q| > 1 {
      assert q[1..] == [q[1]] + q[2..];
      BagCons(q[1], q[2..]);
      BagCons(q[1].(t := q[1].t + q[0].t), q[2..]);
    } else {
      assert Pop(q) == q[1..];
    }
  }

  lemma {:induction false} RemoveBag(q: seq<Entry>, id: int) returns (m: Msg)
    requires HasId(q, id)
    ensures m.id == id && Bag(q) == Bag(RemoveId(q, id)) + multiset{m}
    decreases |q|
  {
    hide Bag, Pop;
    if q[0].msg.id == id {
      PopBag(q);
      m := q[0].msg;
    } else {
      var rest := q[1..];
      var i :| 0 <= i < |q| && q[i].msg.id == id;
      assert rest[i - 1] == q[i];
      m := RemoveBag(rest, id);
      BagCons(q[0], RemoveId(rest, id));
      assert q == [q[0]] + rest;
      BagCons(q[0], rest);
    }
  }

  lemma {:induction false} CancelBag(q: seq<Entry>, remote: int, token: seq<int>, m: Msg)
    ensures Bag(DeltaQueue.Cancel(q, remote, token))[m] == if Matches(m, remote, token) then 0 else Bag(q)[m]
    decreases |q|
  {
    if q != [] {
      CancelBag(q[1..], remote, token, m);
      if !Matches(q[0].msg, remote, token) {
        BagCons(q[0], DeltaQueue.Cancel(q[1..], remote, token));
      }
    }
  }

  lemma {:induction false} ExpireBag(q: seq<Entry>, delta: nat)
    ensures Bag(Expire(q, delta)) == Bag(q)
    decreases |q|
  {
    if q != [] {
      if q[0].t < delta {
        ExpireBag(q[1..], delta - q[0].t);
        BagCons(q[0].(t := 0), Expire(q[1..], delta - q[0].t));
      } else {
        BagCons(q[0].(t := delta), q[1..]);
      }
    }
  }

  lemma {:induction false} InBag(q: seq<Entry>, m: Msg)
    ensures m in Bag(q) <==> exists i :: 0 <= i < |q| && q[i].msg == m
    decreases |q|
  {
    if q != [] {
      InBag(q[1..], m);
      if m in Bag(q[1..]) {
        var i :| 0 <= i < |q[1..]| && q[1..][i].msg == m;
        assert q[i + 1].msg == m;
      }
      if i :| 1 <= i < |q| && q[i].msg == m {
        assert q[1..][i - 1].msg == m;
      }
    }
  }

  ghost predicate Holds(b: multiset<Msg>, id: int) {
    exists m :: m in b && m.id == id
  }

  /** Queues whose bags hold the same ids, up to `more`, have the same id sets. */
  lemma SameIds(q: seq<Entry>, q': seq<Entry>, more: set<int>)
    requires forall id :: Holds(Bag(q'), id) <==> Holds(Bag(q), id) || id in more
    ensures Ids(q') == Ids(q) + more
  {
    hide Holds, Bag;
    IdsInBag(q);
    IdsInBag(q');
    forall id ensures id in Ids(q') <==> id in Ids(q) + more {
      assert Holds(Bag(q'), id) <==> Holds(Bag(q), id) || id in more;
    }
  }

  function Ids(q: seq<Entry>): set<int> {
    set i | 0 <= i < |q| :: q[i].msg.id
  }

  lemma IdsInBag(q: seq<Entry>)
    ensures forall id :: id in Ids(q) <==> Holds(Bag(q), id)
  {
    forall id ensures id in Ids(q) <==> Holds(Bag(q), id) {
      if id in Ids(q) {
        var i :| 0 <= i < |q| && q[i].msg.id == id;
        InBag(q, q[i].msg);
      }
      if m :| m in Bag(q) && m.id == id {
        InBag(q, m);
      }
    }
  }

  // ----- the invariant -----

  ghost predicate Unique(b: multiset<Msg>) {
    forall m, m' :: m in b && m' in b && m.id == m'.id ==> m == m' && b[m] == 1
  }

  /** A queued message went out once more than its retransmission count says. */
  ghost predicate Counted(b: multiset<Msg>, sends: multiset<int>) {
    Unique(b) && forall m :: m in b ==>
        m.retransmitCnt <= COAP_DEFAULT_MAX_RETRANSMIT && sends[m.id] == 1 + m.retransmitCnt
  }

  /** Every message ever sent is in exactly one place; a given-up one went out 5 times, and none more often. */
  ghost predicate Placed(s: State) {
    && Ids(s.queue) !! s.acked !! s.refused !! s.gaveUp !! s.cancelled
    && (forall id :: id in s.sends <==> id in Ids(s.queue) + s.acked + s.refused + s.gaveUp + s.cancelled)
    && (forall id :: id in s.gaveUp ==> s.sends[id] == 1 + COAP_DEFAULT_MAX_RETRANSMIT)
    && (forall id :: s.sends[id] <= 1 + COAP_DEFAULT_MAX_RETRANSMIT)
  }

  ghost predicate Inv(s: State) {
    Counted(Bag(s.queue), s.sends) && Placed(s)
  }

  lemma InvInit()
    ensures Inv(INIT)
  {
    assert Ids(INIT.queue) == {};
  }

  // ----- bags of messages -----

  lemma BagJoins(b: multiset<Msg>, m: Msg, sends: multiset<int>)
    requires Counted(b, sends) && m.id !in sends && m.retransmitCnt == 0
    ensures Counted(b + multiset{m}, sends + multiset{m.id})
    ensures forall id :: Holds(b + multiset{m}, id) <==> Holds(b, id) || id == m.id
  {
    assert !Holds(b, m.id);
    forall id ensures Holds(b + multiset{m}, id) <==> Holds(b, id) || id == m.id {
      assert m in b + multiset{m};
    }
  }

  lemma BagLeaves(b: multiset<Msg>, m: Msg, sends: multiset<int>)
    requires Counted(b + multiset{m}, sends)
    ensures Counted(b, sends)
    ensures forall id :: Holds(b, id) <==> Holds(b + multiset{m}, id) && id != m.id
  {
    assert (b + multiset{m})[m] == b[m] + 1 && m in b + multiset{m};
    forall id ensures Holds(b, id) <==> Holds(b + multiset{m}, id) && id != m.id {
      if Holds(b, id) {
        var n :| n in b && n.id == id;
        assert n in b + multiset{m};
      }
      if Holds(b + multiset{m}, id) && id != m.id {
        var n :| n in b + multiset{m} && n.id == id;
        assert n in b;
      }
    }
  }

  /** The message that leaves comes back with both counts one higher. */
  lemma BagRepeats(b: multiset<Msg>, m: Msg, sends: multiset<int>)
    requires Counted(b + multiset{m}, sends) && m.retransmitCnt < COAP_DEFAULT_MAX_RETRANSMIT
    ensures Counted(b + multiset{Rearmed(m).msg}, sends + multiset{m.id})
    ensures forall id :: Holds(b + multiset{Rearmed(m).msg}, id) <==> Holds(b + multiset{m}, id)
  {
    hide Counted, Holds;
    BagLeaves(b, m, sends);
    HoldsAdded(b, m);
    HoldsAdded(b, Rearmed(m).msg);
    CountedAgain(b, m, sends);
  }

  lemma HoldsAdded(b: multiset<Msg>, m: Msg)
    ensures forall id :: Holds(b + multiset{m}, id) <==> Holds(b, id) || id == m.id
  {
    assert m in b + multiset{m};
    forall id ensures Holds(b + multiset{m}, id) <==> Holds(b, id) || id == m.id {
      if Holds(b, id) {
        var n :| n in b && n.id == id;
        assert n in b + multiset{m};
      }
    }
  }

  lemma CountedAgain(b: multiset<Msg>, m: Msg, sends: multiset<int>)
    requires Counted(b + multiset{m}, sends) && m.retransmitCnt < COAP_DEFAULT_MAX_RETRANSMIT
    requires Counted(b, sends) && !Holds(b, m.id)
    ensures Counted(b + multiset{Rearmed(m).msg}, sends + multiset{m.id})
  {
    assert m in b + multiset{m};
    assert sends[m.id] == 1 + m.retransmitCnt;
    assert forall n :: n in b ==> n.id != m.id;
  }

  // ----- one event -----

  lemma QueueOnly(s: State, q: seq<Entry>)
    requires Inv(s) && Bag(q) == Bag(s.queue)
    ensures Inv(s.(queue := q)) && Ids(q) == Ids(s.queue)
  {
    hide Ids, Bag;
    SameIds(s.queue, q, {});
  }

  /** A message joins the queue. */
  lemma Joins(s: State, m: Msg, q: seq<Entry>)
    requires Inv(s) && m.id !in s.sends && m.retransmitCnt == 0
    requires Bag(q) == Bag(s.queue) + multiset{m}
    ensures Inv(s.(queue := q, sends := s.sends + multiset{m.id})) && Ids(q) == Ids(s.queue) + {m.id}
  {
    hide Ids, Bag, Counted;
    BagJoins(Bag(s.queue), m, s.sends);
    SameIds(s.queue, q, {m.id});
  }

  /** The ids after a message left the queue. */
  lemma IdsLeft(q: seq<Entry>, m: Msg, q': seq<Entry>, sends: multiset<int>)
    requires Counted(Bag(q), sends) && Bag(q) == Bag(q') + multiset{m}
    ensures Counted(Bag(q'), sends) && m.id in Ids(q) && Ids(q') == Ids(q) - {m.id}
    ensures sends[m.id] == 1 + m.retransmitCnt
  {
    assert m in Bag(q);
    hide Ids, Bag;
    BagLeaves(Bag(q'), m, sends);
    IdsInBag(q);
    IdsInBag(q');
    assert Holds(Bag(q), m.id);
  }

  /** A message leaves the queue for another place. */
  lemma Leaves(s: State, m: Msg, s': State)
    requires Inv(s) && s'.sends == s.sends && Bag(s.queue) == Bag(s'.queue) + multiset{m}
    requires
      || s' == s.(queue := s'.queue, acked := s.acked + {m.id})
      || s' == s.(queue := s'.queue, refused := s.refused + {m.id})
      || (s' == s.(queue := s'.queue, gaveUp := s.gaveUp + {m.id}) && m.retransmitCnt == COAP_DEFAULT_MAX_RETRANSMIT)
    ensures Inv(s') && m.id in Ids(s.queue) && Ids(s'.queue) == Ids(s.queue) - {m.id}
  {
    hide Ids, Bag, Counted;
    IdsLeft(s.queue, m, s'.queue, s.sends);
  }

  /** A message stays in the queue with its retransmission count and its number of sends one higher. */
  lemma Repeats(s: State, m: Msg, rest: seq<Entry>, q: seq<Entry>)
    requires Inv(s) && m.retransmitCnt < COAP_DEFAULT_MAX_RETRANSMIT
    requires Bag(s.queue) == Bag(rest) + multiset{m}
    requires Bag(q) == Bag(rest) + multiset{Rearmed(m).msg}
    ensures Inv(s.(queue := q, sends := s.sends + multiset{m.id})) && m.id in Ids(s.queue) && Ids(q) == Ids(s.queue)
  {
    hide Ids, Bag, Counted;
    IdsLeft(s.queue, m, rest, s.sends);
    BagRepeats(Bag(rest), m, s.sends);
    SameIds(s.queue, q, {});
  }

  /** Cancelled messages leave the queue. */
  lemma CancelLeaves(s: State, remote: int, token: seq<int>)
    requires Inv(s)
    ensures Inv(Step(s, Cancel(remote, token)))
    ensures var gone := Cancelled(s.queue, remote, token);
      gone <= Ids(s.queue) && Ids(Step(s, Cancel(remote, token)).queue) == Ids(s.queue) - gone
  {
    hide Bag, Ids, Cancelled, DeltaQueue.Cancel, Counted;
    CancelCounted(s.queue, remote, token, s.sends);
    CancelledIds(s.queue, remote, token, s.sends);
  }

  lemma CancelCounted(q: seq<Entry>, remote: int, token: seq<int>, sends: multiset<int>)
    requires Counted(Bag(q), sends)
    ensures Counted(Bag(DeltaQueue.Cancel(q, remote, token)), sends)
  {
    hide Bag;
    forall m ensures Bag(DeltaQueue.Cancel(q, remote, token))[m] <= Bag(q)[m] {
      CancelBag(q, remote, token, m);
    }
  }

  lemma CancelledIds(q: seq<Entry>, remote: int, token: seq<int>, sends: multiset<int>)
    requires Counted(Bag(q), sends)
    ensures Cancelled(q, remote, token) <= Ids(q)
    ensures Ids(DeltaQueue.Cancel(q, remote, token)) == Ids(q) - Cancelled(q, remote, token)
  {
    hide Bag;
    var q', gone := DeltaQueue.Cancel(q, remote, token), Cancelled(q, remote, token);
    IdsInBag(q);
    IdsInBag(q');
    forall id ensures id in Ids(q') <==> id in Ids(q) && id !in gone {
      if id in Ids(q') {
        var m :| m in Bag(q') && m.id == id;
        CancelBag(q, remote, token, m);
        if id in gone {
          var i :| 0 <= i < |q| && Matches(q[i].msg, remote, token) && q[i].msg.id == id;
          InBag(q, q[i].msg);
        }
      }
      if id in Ids(q) && id !in gone {
        var m :| m in Bag(q) && m.id == id;
        InBag(q, m);
        CancelBag(q, remote, token, m);
        assert m in Bag(q');
      }
    }
  }

  // ----- runs -----

  /** A message that has left the queue: it is never sent again and its outcome never changes. */
  ghost predicate Settled(s: State, s': State, id: int) {
    && id !in Ids(s'.queue) && s'.sends[id] == s.sends[id]
    && (id in s'.acked <==> id in s.acked) && (id in s'.refused <==> id in s.refused)
    && (id in s'.gaveUp <==> id in s.gaveUp) && (id in s'.cancelled <==> id in s.cancelled)
  }

  lemma StepKeepsInv(s: State, e: Event)
    requires Inv(s) && Legal(s, e)
    ensures Inv(Step(s, e))
    ensures forall id :: id in s.sends && id !in Ids(s.queue) ==> Settled(s, Step(s, e), id)
  {
    hide Inv, Bag, Ids, Pop, Insert, RemoveId, Expire, DeltaQueue.Cancel, Cancelled, HasId;
    match e
    case Send(m, t) =>
      InsertBag(s.queue, Entry(t, m));
      Joins(s, m, Insert(s.queue, Entry(t, m)));
    case Round(elapsed) =>
      if s.queue != [] && s.queue[0].t <= elapsed {
        RoundKeepsInv(s, elapsed);
      }
    case Ack(id) =>
      if HasId(s.queue, id) {
        var m := RemoveBag(s.queue, id);
        Leaves(s, m, Step(s, e));
      }
    case Reset(id) =>
      if HasId(s.queue, id) {
        var m := RemoveBag(s.queue, id);
        Leaves(s, m, Step(s, e));
      }
    case Cancel(remote, token) =>
      CancelLeaves(s, remote, token);
    case Adjust(delta) =>
      if s.queue != [] {
        AdjustBag(s.queue, delta);
        QueueOnly(s, DeltaQueue.Adjust(s.queue, delta));
      }
  }

  // ----- what each event does -----

  lemma HasIdIs(q: seq<Entry>, id: int)
    ensures HasId(q, id) <==> id in Ids(q)
  {
  }

  /** An acknowledgement takes the message out of the queue and leaves the due times of the others; the message is
      then acknowledged, and nothing else about it. One for a message that is not queued changes nothing. */
  lemma AckStops(s: State, id: int, base: int)
    requires Inv(s)
    ensures var s' := Step(s, Ack(id));
      && id !in Ids(s'.queue) && WithoutFirst(Dues(s'.queue, base), Dues(s.queue, base), id)
      && s' == s.(queue := s'.queue, acked := if id in Ids(s.queue) then s.acked + {id} else s.acked)
      && (id in Ids(s.queue) ==> id in s'.acked && id !in s'.refused + s'.gaveUp + s'.cancelled)
  {
    hide Dues, RemoveId, WithoutFirst, Bag, Ids, HasId, Counted;
    Removed(s, id, base);
    if id in Ids(s.queue) {
      var m := RemoveBag(s.queue, id);
      Leaves(s, m, Step(s, Ack(id)));
    }
  }

  /** A reset does the same, but that the message counts as refused. */
  lemma ResetStops(s: State, id: int, base: int)
    requires Inv(s)
    ensures var s' := Step(s, Reset(id));
      && id !in Ids(s'.queue) && WithoutFirst(Dues(s'.queue, base), Dues(s.queue, base), id)
      && s' == s.(queue := s'.queue, refused := if id in Ids(s.queue) then s.refused + {id} else s.refused)
      && (id in Ids(s.queue) ==> id in s'.refused && id !in s'.acked + s'.gaveUp + s'.cancelled)
  {
    hide Dues, RemoveId, WithoutFirst, Bag, Ids, HasId, Counted;
    Removed(s, id, base);
    if id in Ids(s.queue) {
      var m := RemoveBag(s.queue, id);
      Leaves(s, m, Step(s, Reset(id)));
    }
  }

  lemma Removed(s: State, id: int, base: int)
    ensures HasId(s.queue, id) <==> id in Ids(s.queue)
    ensures WithoutFirst(Dues(RemoveId(s.queue, id), base), Dues(s.queue, base), id)
    ensures id !in Ids(s.queue) ==> WithoutFirst(Dues(s.queue, base), Dues(s.queue, base), id)
  {
    hide Dues, RemoveId, WithoutFirst, RemoveDue, IsFirst, Ids, HasId;
    HasIdIs(s.queue, id);
    RemoveKeepsDues(s.queue, id, base);
    RemoveDueFirst(Dues(s.queue, base), id);
    if id !in Ids(s.queue) {
      NotAmongDues(s.queue, id, base);
    }
  }

  lemma NotAmongDues(q: seq<Entry>, id: int, base: int)
    requires id !in Ids(q)
    ensures WithoutFirst(Dues(q, base), Dues(q, base), id)
  {
    DuesAt(q, base);
    var ds := Dues(q, base);
    forall i | 0 <= i < |q| ensures ds[i].msg.id != id {
      assert q[i].msg.id in Ids(q);
    }
    assert IsFirst(ds, |ds|, id) && ds[..|ds|] + [] == ds;
  }

  /** A new message is due `t` after the base time, behind all that are not due later, and counts as sent once. */
  lemma SendQueues(s: State, m: Msg, t: nat, base: int) returns (k: nat)
    ensures var s' := Step(s, Send(m, t)); var before, d := Dues(s.queue, base), Due(base + t, m);
      && k <= |before| && Dues(s'.queue, base) == before[..k] + [d] + before[k..]
      && (forall i :: 0 <= i < k ==> before[i].at <= d.at) && (k < |before| ==> d.at < before[k].at)
      && s' == s.(queue := s'.queue, sends := s.sends + multiset{m.id})
  {
    hide Dues, InsertDue, Insert;
    InsertKeepsDues(s.queue, Entry(t, m), base);
    k := InsertDueAt(Dues(s.queue, base), Due(base + t, m));
  }

  /** One round sends the first message again when it is due, to be due its doubled timeout after the base time, or
      gives it up; the others keep their due times. */
  lemma RoundActs(s: State, elapsed: nat, base: int)
    ensures var s', before := Step(s, Round(elapsed)), Dues(s.queue, base);
      if before == [] || before[0].at > base + elapsed then s' == s
      else
        var m := before[0].msg;
        if m.retransmitCnt < 4 then
          var again := Due(base + m.timeout * Pow2(m.retransmitCnt + 1) % 0x1_0000_0000,
                           m.(retransmitCnt := m.retransmitCnt + 1));
          && Dues(s'.queue, base) == InsertDue(before[1..], again)
          && s' == s.(queue := s'.queue, sends := s.sends + multiset{m.id})
        else
          Dues(s'.queue, base) == before[1..] && s' == s.(queue := s'.queue, gaveUp := s.gaveUp + {m.id})
  {
    hide InsertDue, Insert, Pop, Pow2;
    var q := s.queue;
    if q != [] && q[0].t <= elapsed {
      var m := q[0].msg;
      PopKeepsDues(q, base);
      if m.retransmitCnt < COAP_DEFAULT_MAX_RETRANSMIT {
        InsertKeepsDues(Pop(q), Rearmed(m), base);
      }
    }
  }

  /** A cancellation takes out exactly the messages for that peer and token, and they count as cancelled. */
  lemma CancelTakes(s: State, remote: int, token: seq<int>)
    ensures var s' := Step(s, Cancel(remote, token));
      && (forall m :: Bag(s'.queue)[m] == if m.remote == remote && m.token == token then 0 else Bag(s.queue)[m])
      && (forall id :: id in s'.cancelled <==>
            id in s.cancelled || exists i :: 0 <= i < |s.queue| && Matches(s.queue[i].msg, remote, token)
                                             && s.queue[i].msg.id == id)
      && s' == s.(queue := s'.queue, cancelled := s'.cancelled)
  {
    hide Bag, DeltaQueue.Cancel;
    forall m ensures Bag(Step(s, Cancel(remote, token)).queue)[m]
      == if m.remote == remote && m.token == token then 0 else Bag(s.queue)[m]
    {
      CancelBag(s.queue, remote, token, m);
    }
  }

  /** Moving the base time changes nothing but timers. When time has stepped back, every due time is kept; else the
      messages that are past become due now, and all others shift by one amount. */
  lemma AdjustMoves(s: State, delta: int, base: int)
    ensures var s' := Step(s, Adjust(delta));
      && s' == s.(queue := s'.queue)
      && |s'.queue| == |s.queue| == |Dues(s.queue, base)| == |Dues(s'.queue, base + delta)|
      && (delta <= 0 ==> s.queue == [] || Dues(s'.queue, base + delta) == Dues(s.queue, base))
    ensures delta > 0 ==>
      var before, after := Dues(s.queue, base), Dues(Step(s, Adjust(delta)).queue, base + delta);
      && (forall i :: 0 <= i < |before| ==> after[i].msg == before[i].msg)
      && (forall i :: 0 <= i < |before| && before[i].at < base + delta ==> after[i].at == base + delta)
      && (forall i, j :: 0 <= i < j < |before| && before[i].at >= base + delta && before[j].at >= base + delta ==>
            after[j].at - before[j].at == after[i].at - before[i].at)
      && (forall i :: 0 <= i < |before| && before[i].at >= base + delta
                      && (i > 0 ==> before[i - 1].at < base + delta) ==>
            after[i].at == base + delta + (base + delta - if i > 0 then before[i - 1].at else base))
  {
    hide Dues, Expire, Expired;
    if s.queue == [] {
      DuesAt(s.queue, base);
      DuesAt(s.queue, base + delta);
    } else if delta <= 0 {
      DuesAt(s.queue, base);
      AdjustBackKeepsDues(s.queue, delta, base);
      DuesAt(DeltaQueue.Adjust(s.queue, delta), base + delta);
    } else {
      AdjustForwardDues(s.queue, delta, base);
      ExpiredCountsPast(s.queue, delta, base);
      DuesAt(s.queue, base);
      DuesAt(Expire(s.queue, delta), base + delta);
    }
  }

  lemma RoundKeepsInv(s: State, elapsed: nat)
    requires Inv(s) && s.queue != [] && s.queue[0].t <= elapsed
    ensures Inv(Step(s, Round(elapsed)))
    ensures forall id :: id in s.sends && id !in Ids(s.queue) ==> Settled(s, Step(s, Round(elapsed)), id)
  {
    hide Inv, Bag, Ids, Pop, Insert;
    var m, rest := s.queue[0].msg, Pop(s.queue);
    PopBag(s.queue);
    if m.retransmitCnt < COAP_DEFAULT_MAX_RETRANSMIT {
      InsertBag(rest, Rearmed(m));
      Repeats(s, m, rest, Retransmit(rest, m));
    } else {
      AtMost(s, m);
      Leaves(s, m, Step(s, Round(elapsed)));
    }
  }

  lemma AtMost(s: State, m: Msg)
    requires Inv(s) && m in Bag(s.queue)
    ensures m.retransmitCnt <= COAP_DEFAULT_MAX_RETRANSMIT
  {
  }

  lemma AdjustBag(q: seq<Entry>, delta: int)
    requires q != []
    ensures Bag(DeltaQueue.Adjust(q, delta)) == Bag(q)
  {
    hide Bag;
    if delta > 0 {
      ExpireBag(q, delta);
    } else {
      BagCons(q[0].(t := q[0].t - delta), q[1..]);
      BagCons(q[0], q[1..]);
      assert q == [q[0]] + q[1..];
    }
  }

  /** On every run, each message sent is in exactly one place and went out at most 5 times. */
  lemma {:induction false} RunKeepsInv(s: State, es: seq<Event>)
    requires Inv(s) && LegalRun(s, es)
    ensures Inv(Run(s, es))
    decreases |es|
  {
    hide Inv;
    if es != [] {
      StepKeepsInv(s, es[0]);
      RunKeepsInv(Step(s, es[0]), es[1..]);
    }
  }

  /** Every run of sends, drive rounds, acknowledgements, resets and cancellations: an id that was sent is queued,
      acknowledged, refused, given up or cancelled, and only one of these; it went out at most 5 times, exactly
      5 times when given up; and a queued message went out once more than its counter says. */
  lemma EveryRun(es: seq<Event>)
    requires LegalRun(INIT, es)
    ensures var s := Run(INIT, es); var five := 1 + COAP_DEFAULT_MAX_RETRANSMIT;
      && Ids(s.queue) !! s.acked !! s.refused !! s.gaveUp !! s.cancelled
      && (forall id :: id in s.sends <==> id in Ids(s.queue) + s.acked + s.refused + s.gaveUp + s.cancelled)
      && (forall id :: s.sends[id] <= five) && (forall id :: id in s.gaveUp ==> s.sends[id] == five)
      && (forall i :: 0 <= i < |s.queue| ==> s.sends[s.queue[i].msg.id] == 1 + s.queue[i].msg.retransmitCnt)
  {
    hide Bag;
    InvInit();
    RunKeepsInv(INIT, es);
    var q := Run(INIT, es).queue;
    forall i | 0 <= i < |q| ensures q[i].msg in Bag(q) {
      InBag(q, q[i].msg);
    }
  }

  /** Once a message has left the queue, no later event of any run sends it or changes its outcome. */
  lemma {:induction false} SettledForever(s: State, es: seq<Event>, id: int)
    requires Inv(s) && LegalRun(s, es)
    requires id in s.sends && id !in Ids(s.queue)
    ensures Settled(s, Run(s, es), id)
    decreases |es|
  {
    hide Inv, Ids;
    if es != [] {
      var s' := Step(s, es[0]);
      StepKeepsInv(s, es[0]);
      assert Settled(s, s', id);
      SettledForever(s', es[1..], id);
    }
  }

  lemma {:induction false} RunSplit(s: State, a: seq<Event>, b: seq<Event>)
    ensures LegalRun(s, a + b) <==> LegalRun(s, a) && LegalRun(Run(s, a), b)
    ensures Run(s, a + b) == Run(Run(s, a), b)
    decreases |a|
  {
    hide Step, Legal;
    if a == [] {
      assert a + b == b;
    } else {
      assert (a + b)[1..] == a[1..] + b;
      RunSplit(Step(s, a[0]), a[1..], b);
    }
  }

  /** On every run, a message that was sent is not sent again behind an acknowledgement or a reset for it. */
  lemma AnsweredForever(es: seq<Event>, k: nat, id: int)
    requires LegalRun(INIT, es) && k < |es| && (es[k] == Ack(id) || es[k] == Reset(id))
    requires id in Run(INIT, es[..k]).sends
    ensures Run(INIT, es).sends[id] == Run(INIT, es[..k]).sends[id] && id !in Ids(Run(INIT, es).queue)
  {
    hide Inv, Ids, Dues, WithoutFirst, Run;
    var s, rest := Run(INIT, es[..k]), es[k + 1..];
    assert es == es[..k] + ([es[k]] + rest) && ([es[k]] + rest)[1..] == rest;
    RunSplit(INIT, es[..k], [es[k]] + rest);
    InvInit();
    RunKeepsInv(INIT, es[..k]);
    RunFirst(s, es[k], rest);
    var s' := Step(s, es[k]);
    StepKeepsInv(s, es[k]);
    AckStops(s, id, 0);
    ResetStops(s, id, 0);
    SettledForever(s', rest, id);
  }

  lemma RunFirst(s: State, e: Event, rest: seq<Event>)
    requires LegalRun(s, [e] + rest)
    ensures Legal(s, e) && LegalRun(Step(s, e), rest) && Run(s, [e] + rest) == Run(Step(s, e), rest)
  {
    assert ([e] + rest)[1..] == rest;
  }

  /** The events of one whole drive loop. */
  function DriveRounds(q: seq<Entry>, elapsed: nat): seq<Event>
    decreases Budget(q)
  {
    if q == [] || q[0].t > elapsed then []
    else
      RoundSpendsBudget(q);
      [Round(elapsed)] + DriveRounds(Retransmit(Pop(q), q[0].msg), elapsed)
  }

  /** A drive loop is a run of at most `Budget` rounds that ends in the queue the loop leaves. */
  lemma {:induction false} DriveIsARun(s: State, elapsed: nat)
    ensures var es := DriveRounds(s.queue, elapsed);
      |es| <= Budget(s.queue) && LegalRun(s, es) && Run(s, es).queue == Drive(s.queue, elapsed)
    decreases Budget(s.queue)
  {
    hide Insert, Pop, Budget;
    if s.queue != [] && s.queue[0].t <= elapsed {
      var s' := Step(s, Round(elapsed));
      RoundSpendsBudget(s.queue);
      DriveIsARun(s', elapsed);
      assert ([Round(elapsed)] + DriveRounds(s'.queue, elapsed))[1..] == DriveRounds(s'.queue, elapsed);
    }
  }

  // ----- sends within one drive loop -----

  /** How often one drive loop sends the message `id` of a queue with these due times. */
  function ResendsOf(ds: seq<Due>, id: int, elapsed: nat): nat
    decreases |ds|
  {
    if ds == [] then 0
    else (if ds[0].msg.id == id then Resends(ds[0].msg, ds[0].at, elapsed) else 0) + ResendsOf(ds[1..], id, elapsed)
  }

  lemma ResendsCons(d: Due, rest: seq<Due>, id: int, elapsed: nat)
    ensures ResendsOf([d] + rest, id, elapsed)
      == (if d.msg.id == id then Resends(d.msg, d.at, elapsed) else 0) + ResendsOf(rest, id, elapsed)
  {
    assert ([d] + rest)[1..] == rest;
  }

  lemma {:induction false} ResendsInserted(ds: seq<Due>, d: Due, id: int, elapsed: nat)
    ensures ResendsOf(InsertDue(ds, d), id, elapsed) == ResendsOf([d] + ds, id, elapsed)
    decreases |ds|
  {
    hide Resends;
    ResendsCons(d, ds, id, elapsed);
    if ds != [] && d.at >= ds[0].at {
      ResendsInserted(ds[1..], d, id, elapsed);
      ResendsCons(d, ds[1..], id, elapsed);
      ResendsCons(ds[0], InsertDue(ds[1..], d), id, elapsed);
    }
  }

  lemma {:induction false} NoneDue(ds: seq<Due>, id: int, elapsed: nat)
    requires forall i :: 0 <= i < |ds| ==> ds[i].at > elapsed
    ensures ResendsOf(ds, id, elapsed) == 0
    decreases |ds|
  {
    if ds != [] {
      NoneDue(ds[1..], id, elapsed);
    }
  }

  /** Every message goes out in one drive loop as often as its own due time and timeout say, however the messages
      lie in the queue. */
  lemma {:induction false} DriveSends(s: State, elapsed: nat, id: int)
    ensures Run(s, DriveRounds(s.queue, elapsed)).sends[id] == s.sends[id] + ResendsOf(Dues(s.queue, 0), id, elapsed)
    decreases Budget(s.queue)
  {
    hide Insert, Pop, Budget, Dues, InsertDue, ResendsOf;
    var q := s.queue;
    if q == [] || q[0].t > elapsed {
      if q != [] { HeadIsFirst(q, 0); } else { DuesAt(q, 0); }
      NoneDue(Dues(q, 0), id, elapsed);
    } else {
      var s', m, rest := Step(s, Round(elapsed)), q[0].msg, Dues(Pop(q), 0);
      RoundSpendsBudget(q);
      DriveSends(s', elapsed, id);
      assert ([Round(elapsed)] + DriveRounds(s'.queue, elapsed))[1..] == DriveRounds(s'.queue, elapsed);
      assert Dues(q, 0) == [Due(q[0].t, m)] + rest by {
        PopKeepsDues(q, 0);
        assert q == [q[0]] + q[1..];
        DuesCons(q[0], q[1..], 0);
      }
      ResendsCons(Due(q[0].t, m), rest, id, elapsed);
      if m.retransmitCnt < COAP_DEFAULT_MAX_RETRANSMIT {
        var e := Rearmed(m);
        InsertKeepsDues(Pop(q), e, 0);
        ResendsInserted(rest, Due(e.t, e.msg), id, elapsed);
        ResendsCons(Due(e.t, e.msg), rest, id, elapsed);
      }
    }
  }

  /** A message with a timeout of 2 ticks, looked at 32 ticks late: one drive loop sends it four times more. */
  lemma BurstExample(remote: int, token: seq<int>)
    ensures var m := Msg(1, 2, 0, remote, token); var s := Step(INIT, Send(m, 2));
      && LegalRun(INIT, [Send(m, 2)]) && s.sends[1] == 1
      && Run(s, DriveRounds(s.queue, 32)).sends[1] == 5 && Run(s, DriveRounds(s.queue, 32)).queue == []
  {
    hide Drive, DriveRounds, Dues, Settle, Resends;
    var m := Msg(1, 2, 0, remote, token);
    var s := Step(INIT, Send(m, 2));
    assert s.queue == [Entry(2, m)] && LegalRun(Step(INIT, Send(m, 2)), [Send(m, 2)][1..]);
    var ds := Dues(s.queue, 0);
    DuesCons(Entry(2, m), [], 0);
    DuesAt([], 2);
    assert s.queue == [Entry(2, m)] + [] && ds == [Due(2, m)];
    WholeBurst(m, 2, 0, 32);
    DriveSends(s, 32, 1);
    ResendsCons(Due(2, m), [], 1, 32);
    assert [Due(2, m)] + [] == ds;
    DriveIsARun(s, 32);
    DriveSettlesEach(s.queue, 32, 0);
    assert SettleAll(ds, 0, 32) == multiset{};
    DuesAt(Drive(s.queue, 32), 0);
    assert |multiset(Dues(Drive(s.queue, 32), 0))| == 0;
  }
}
