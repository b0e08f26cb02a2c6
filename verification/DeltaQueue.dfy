/** libcoap's retransmission queue as a sequence: every entry stores the time that passes after the one in
    front of it. Its meaning is a list of absolute due times. */
module DeltaQueue {
  import opened Powers

  const COAP_DEFAULT_MAX_RETRANSMIT: nat := 4

  /** What a queue node carries besides its timer. */
  datatype Msg = Msg(id: int, timeout: nat, retransmitCnt: nat, remote: int, token: seq<int>)

  datatype Entry = Entry(t: nat, msg: Msg)

  datatype Due = Due(at: int, msg: Msg)

  /** The due times of a queue whose timers start at `base`. */
  function Dues(q: seq<Entry>, base: int): seq<Due>
    decreases |q|
  {
    if q == [] then []
    else [Due(base + q[0].t, q[0].msg)] + Dues(q[1..], base + q[0].t)
  }

  lemma {:induction false} DuesAt(q: seq<Entry>, base: int)
    ensures |Dues(q, base)| == |q|
    ensures forall i :: 0 <= i < |q| ==> Dues(q, base)[i] == Due(base + Sum(q, i + 1), q[i].msg)
    decreases |q|
  {
    if q != [] {
      DuesAt(q[1..], base + q[0].t);
      forall i | 0 <= i < |q| ensures Dues(q, base)[i] == Due(base + Sum(q, i + 1), q[i].msg) {
        SumFront(q, i);
        if i > 0 {
          assert q[1..][i - 1] == q[i] && Dues(q, base)[i] == Dues(q[1..], base + q[0].t)[i - 1];
        }
      }
    }
  }

  lemma DuesCons(e: Entry, rest: seq<Entry>, base: int)
    ensures Dues([e] + rest, base) == [Due(base + e.t, e.msg)] + Dues(rest, base + e.t)
  {
    assert ([e] + rest)[1..] == rest;
  }

  lemma NoDues(base: int, base': int)
    ensures Dues([], base) == Dues([], base')
  {
  }

  /** The sum of the first `n` timers. */
  function Sum(q: seq<Entry>, n: nat): nat
    requires n <= |q|
  {
    if n == 0 then 0 else Sum(q, n - 1) + q[n - 1].t
  }

  lemma {:induction false} SumFront(q: seq<Entry>, n: nat)
    requires n < |q|
    ensures Sum(q, n + 1) == q[0].t + Sum(q[1..], n)
  {
    if n > 0 {
      SumFront(q, n - 1);
    }
  }

  // ----- insertion -----

  /** An entry seen from `t` later on. */
  function Later(e: Entry, t: nat): Entry
    requires t <= e.t
  {
    Entry(e.t - t, e.msg)
  }

  /** `coap_insert_node`: the new entry goes behind entries with an equal due time. */
  function Insert(q: seq<Entry>, e: Entry): seq<Entry>
    decreases |q|
  {
    if q == [] then [e]
    else if e.t < q[0].t then [e, q[0].(t := q[0].t - e.t)] + q[1..]
    else [q[0]] + Insert(q[1..], Later(e, q[0].t))
  }

  /** Insertion into a list of due times. */
  function InsertDue(ds: seq<Due>, d: Due): seq<Due>
    decreases |ds|
  {
    if ds == [] || d.at < ds[0].at then [d] + ds else [ds[0]] + InsertDue(ds[1..], d)
  }

  /** The new one goes behind those not later than it that stand in front of the first later one. */
  lemma {:induction false} InsertDueAt(ds: seq<Due>, d: Due) returns (k: nat)
    ensures k <= |ds| && InsertDue(ds, d) == ds[..k] + [d] + ds[k..]
    ensures (forall i :: 0 <= i < k ==> ds[i].at <= d.at) && (k < |ds| ==> d.at < ds[k].at)
    decreases |ds|
  {
    if ds == [] || d.at < ds[0].at {
      k := 0;
    } else {
      var i := InsertDueAt(ds[1..], d);
      k := i + 1;
      assert ds[..k] == [ds[0]] + ds[1..][..i] && ds[k..] == ds[1..][i..];
    }
  }

  /** Insertion keeps every due time and places the new one behind equal ones. */
  lemma {:induction false} InsertKeepsDues(q: seq<Entry>, e: Entry, base: int)
    ensures Dues(Insert(q, e), base) == InsertDue(Dues(q, base), Due(base + e.t, e.msg))
    decreases |q|
  {
    if q == [] {
      assert Dues(Insert(q, e), base) == [Due(base + e.t, e.msg)] + Dues([], base + e.t);
    } else if e.t < q[0].t {
      var r := q[0].(t := q[0].t - e.t);
      var ins := Insert(q, e);
      assert ins[1..] == [r] + q[1..] && ([r] + q[1..])[1..] == q[1..];
      assert Dues(ins[1..], base + e.t) == Dues(q, base);
    } else {
      InsertKeepsDues(q[1..], Later(e, q[0].t), base + q[0].t);
      assert Insert(q, e)[1..] == Insert(q[1..], Later(e, q[0].t));
    }
  }

  // ----- removal -----

  /** `coap_pop_next` without the popped entry: the next one inherits its time. */
  function Pop(q: seq<Entry>): seq<Entry>
    requires q != []
  {
    if |q| == 1 then [] else [q[1].(t := q[1].t + q[0].t)] + q[2..]
  }

  lemma PopKeepsDues(q: seq<Entry>, base: int)
    requires q != []
    ensures Dues(Pop(q), base) == Dues(q, base)[1..]
  {
    hide Dues;
    assert q == [q[0]] + q[1..];
    DuesCons(q[0], q[1..], base);
    if |q| > 1 {
      var r := q[1].(t := q[1].t + q[0].t);
      assert q[1..] == [q[1]] + q[2..] && Pop(q) == [r] + q[2..];
      DuesCons(q[1], q[2..], base + q[0].t);
      DuesCons(r, q[2..], base);
    } else {
      assert q[1..] == [] && Pop(q) == q[1..];
      NoDues(base, base + q[0].t);
    }
  }

  function HasId(q: seq<Entry>, id: int): bool {
    exists i :: 0 <= i < |q| && q[i].msg.id == id
  }

  /** `coap_remove_from_queue`: the first entry with that id, if any. */
  function RemoveId(q: seq<Entry>, id: int): seq<Entry>
    decreases |q|
  {
    if q == [] then []
    else if q[0].msg.id == id then Pop(q)
    else [q[0]] + RemoveId(q[1..], id)
  }

  function RemoveDue(ds: seq<Due>, id: int): seq<Due>
    decreases |ds|
  {
    if ds == [] then []
    else if ds[0].msg.id == id then ds[1..]
    else [ds[0]] + RemoveDue(ds[1..], id)
  }

  /** `left` is `ds` without the first message with that id, if there is one. */
  ghost predicate WithoutFirst(left: seq<Due>, ds: seq<Due>, id: int) {
    exists k: nat :: IsFirst(ds, k, id) && left == ds[..k] + (if k < |ds| then ds[k + 1..] else [])
  }

  /** Position `k` holds the first message with that id, or `k` is the length and there is none. */
  predicate IsFirst(ds: seq<Due>, k: nat, id: int) {
    && k <= |ds| && (forall i :: 0 <= i < k ==> ds[i].msg.id != id)
    && (k < |ds| ==> ds[k].msg.id == id)
  }

  lemma {:induction false} RemoveDueFirst(ds: seq<Due>, id: int)
    ensures WithoutFirst(RemoveDue(ds, id), ds, id)
    decreases |ds|
  {
    if ds == [] {
      assert IsFirst(ds, 0, id);
    } else if ds[0].msg.id == id {
      assert IsFirst(ds, 0, id) && ds[..0] + ds[0 + 1..] == ds[1..];
    } else {
      var rest := ds[1..];
      RemoveDueFirst(rest, id);
      var k: nat :|
        IsFirst(rest, k, id) && RemoveDue(rest, id) == rest[..k] + (if k < |rest| then rest[k + 1..] else []);
      FirstBehind(ds, k, id);
    }
  }

  lemma FirstBehind(ds: seq<Due>, k: nat, id: int)
    requires ds != [] && ds[0].msg.id != id && IsFirst(ds[1..], k, id)
    ensures IsFirst(ds, k + 1, id)
    ensures [ds[0]] + (ds[1..][..k] + (if k < |ds[1..]| then ds[1..][k + 1..] else []))
      == ds[..k + 1] + (if k + 1 < |ds| then ds[k + 1 + 1..] else [])
  {
    assert [ds[0]] + ds[1..][..k] == ds[..k + 1];
    forall i | 0 <= i < k + 1 ensures ds[i].msg.id != id {
      assert i > 0 ==> ds[i] == ds[1..][i - 1];
    }
  }

  /** Removing a transaction keeps the due time of every other one. */
  lemma {:induction false} RemoveKeepsDues(q: seq<Entry>, id: int, base: int)
    ensures Dues(RemoveId(q, id), base) == RemoveDue(Dues(q, base), id)
    decreases |q|
  {
    if q != [] {
      if q[0].msg.id == id {
        PopKeepsDues(q, base);
      } else {
        RemoveKeepsDues(q[1..], id, base + q[0].t);
        assert ([q[0]] + RemoveId(q[1..], id))[1..] == RemoveId(q[1..], id);
      }
    }
  }

  // ----- cancelling by token -----

  predicate Matches(m: Msg, remote: int, token: seq<int>) {
    m.remote == remote && m.token == token
  }

  /** `coap_cancel_all_messages`: matching entries vanish together with their timers. */
  function Cancel(q: seq<Entry>, remote: int, token: seq<int>): seq<Entry>
    decreases |q|
  {
    if q == [] then []
    else if Matches(q[0].msg, remote, token) then Cancel(q[1..], remote, token)
    else [q[0]] + Cancel(q[1..], remote, token)
  }

  function CancelDues(ds: seq<Due>, remote: int, token: seq<int>): seq<Due>
    decreases |ds|
  {
    if ds == [] then []
    else if Matches(ds[0].msg, remote, token) then CancelDues(ds[1..], remote, token)
    else [ds[0]] + CancelDues(ds[1..], remote, token)
  }

  /** No cancelled entry with a running timer stands in front of a surviving one. */
  predicate NothingLost(q: seq<Entry>, remote: int, token: seq<int>) {
    forall i, j :: 0 <= i < j < |q| && Matches(q[i].msg, remote, token) && !Matches(q[j].msg, remote, token) ==>
        q[i].t == 0
  }

  /** Cancelling drops the timers of cancelled entries, so survivors become due early: by `lost` at the start. */
  lemma {:induction false} CancelExactly(q: seq<Entry>, remote: int, token: seq<int>, base: int, lost: nat)
    ensures Dues(Cancel(q, remote, token), base) == CancelDues(Dues(q, base + lost), remote, token)
      <==> Cancel(q, remote, token) == [] || (lost == 0 && NothingLost(q, remote, token))
    decreases |q|
  {
    hide Dues, CancelDues, NothingLost;
    if q == [] {
      NoDues(base, base + lost);
      CancelledDues(q, remote, token, base + lost);
      DuesAt(q, base);
    } else {
      var t, rest := q[0].t, q[1..];
      assert q == [q[0]] + rest;
      DuesCons(q[0], rest, base + lost);
      CancelDuesCons(Due(base + lost + t, q[0].msg), Dues(rest, base + lost + t), remote, token);
      NothingLostTail(q, remote, token);
      if Matches(q[0].msg, remote, token) {
        CancelExactly(rest, remote, token, base, lost + t);
        assert base + lost + t == base + (lost + t);
        if Cancel(rest, remote, token) != [] { Survives(q, remote, token); }
      } else {
        DuesCons(q[0], Cancel(rest, remote, token), base);
        var kept := Dues(Cancel(rest, remote, token), base + t);
        var due := CancelDues(Dues(rest, base + lost + t), remote, token);
        SameCons(Due(base + t, q[0].msg), kept, Due(base + lost + t, q[0].msg), due);
        if lost == 0 {
          CancelExactly(rest, remote, token, base + t, 0);
          if Cancel(rest, remote, token) == [] { NothingLostWhenGone(rest, remote, token); }
        }
      }
    }
  }

  /** Of two messages due at 3 and 7 the first is cancelled: the other becomes due at 4. */
  lemma CancelLosesExample(m: Msg, m': Msg)
    requires !Matches(m', m.remote, m.token)
    ensures var q := [Entry(3, m), Entry(4, m')];
      && Dues(q, 0) == [Due(3, m), Due(7, m')]
      && Dues(Cancel(q, m.remote, m.token), 0) == [Due(4, m')]
  {
    var q := [Entry(3, m), Entry(4, m')];
    assert q == [Entry(3, m)] + [Entry(4, m')] && q[1..] == [Entry(4, m')] + [];
    DuesCons(q[0], q[1..], 0);
    DuesCons(q[1], [], 3);
    DuesCons(q[1], [], 0);
    assert Cancel(q, m.remote, m.token) == [q[1]] + Cancel([], m.remote, m.token);
  }

  /** A second cancellation finds nothing more. */
  lemma {:induction false} CancelTwice(q: seq<Entry>, remote: int, token: seq<int>)
    ensures Cancel(Cancel(q, remote, token), remote, token) == Cancel(q, remote, token)
    decreases |q|
  {
    if q != [] {
      CancelTwice(q[1..], remote, token);
      if !Matches(q[0].msg, remote, token) {
        assert ([q[0]] + Cancel(q[1..], remote, token))[1..] == Cancel(q[1..], remote, token);
      }
    }
  }

  lemma SameCons(a: Due, s: seq<Due>, b: Due, t: seq<Due>)
    ensures [a] + s == [b] + t <==> a == b && s == t
  {
    if [a] + s == [b] + t {
      assert ([a] + s)[0] == ([b] + t)[0] && ([a] + s)[1..] == ([b] + t)[1..];
    }
  }

  lemma CancelDuesCons(d: Due, ds: seq<Due>, remote: int, token: seq<int>)
    ensures CancelDues([d] + ds, remote, token)
      == (if Matches(d.msg, remote, token) then [] else [d]) + CancelDues(ds, remote, token)
  {
    assert ([d] + ds)[1..] == ds;
  }

  lemma Survives(q: seq<Entry>, remote: int, token: seq<int>)
    requires q != [] && Cancel(q[1..], remote, token) != []
    ensures exists j :: 1 <= j < |q| && !Matches(q[j].msg, remote, token)
  {
    var j := SurvivorAt(q[1..], remote, token);
    assert !Matches(q[j + 1].msg, remote, token);
  }

  lemma {:induction false} CancelledDues(q: seq<Entry>, remote: int, token: seq<int>, base: int)
    ensures |CancelDues(Dues(q, base), remote, token)| == |Cancel(q, remote, token)|
    decreases |q|
  {
    if q != [] {
      assert Dues(q, base)[1..] == Dues(q[1..], base + q[0].t);
      CancelledDues(q[1..], remote, token, base + q[0].t);
    }
  }

  lemma {:induction false} SurvivorAt(q: seq<Entry>, remote: int, token: seq<int>) returns (j: nat)
    requires Cancel(q, remote, token) != []
    ensures j < |q| && !Matches(q[j].msg, remote, token)
    decreases |q|
  {
    if Matches(q[0].msg, remote, token) {
      j := SurvivorAt(q[1..], remote, token);
      j := j + 1;
    } else {
      j := 0;
    }
  }

  lemma {:induction false} NothingLostWhenGone(q: seq<Entry>, remote: int, token: seq<int>)
    requires Cancel(q, remote, token) == []
    ensures NothingLost(q, remote, token)
    decreases |q|
  {
    if q != [] {
      NothingLostWhenGone(q[1..], remote, token);
      forall i | 1 <= i < |q| ensures Matches(q[i].msg, remote, token) {
        if !Matches(q[i].msg, remote, token) { SurvivorStays(q, i, remote, token); }
      }
    }
  }

  lemma {:induction false} SurvivorStays(q: seq<Entry>, i: nat, remote: int, token: seq<int>)
    requires i < |q| && !Matches(q[i].msg, remote, token)
    ensures Cancel(q, remote, token) != []
    decreases |q|
  {
    if Matches(q[0].msg, remote, token) {
      SurvivorStays(q[1..], i - 1, remote, token);
    }
  }

  lemma NothingLostTail(q: seq<Entry>, remote: int, token: seq<int>)
    requires q != []
    ensures NothingLost(q, remote, token) <==>
      NothingLost(q[1..], remote, token) &&
      (Matches(q[0].msg, remote, token) ==>
         q[0].t == 0 || forall j :: 1 <= j < |q| ==> Matches(q[j].msg, remote, token))
  {
    var rest := q[1..];
    if NothingLost(rest, remote, token)
       && (Matches(q[0].msg, remote, token) ==>
             q[0].t == 0 || forall j :: 1 <= j < |q| ==> Matches(q[j].msg, remote, token)) {
      forall i, j | 0 <= i < j < |q| && Matches(q[i].msg, remote, token) && !Matches(q[j].msg, remote, token)
        ensures q[i].t == 0
      {
        if i > 0 { assert rest[i - 1] == q[i] && rest[j - 1] == q[j]; }
      }
    }
    if NothingLost(q, remote, token) {
      forall i, j | 0 <= i < j < |rest| && Matches(rest[i].msg, remote, token) && !Matches(rest[j].msg, remote, token)
        ensures rest[i].t == 0
      {
        assert rest[i] == q[i + 1] && rest[j] == q[j + 1];
      }
    }
  }

  // ----- moving the base time -----

  /** The forward loop of `coap_adjust_basetime`: expired timers become 0, the first other one is set to
      what is left of `delta`. */
  function Expire(q: seq<Entry>, delta: nat): seq<Entry>
    decreases |q|
  {
    if q == [] then []
    else if q[0].t < delta then [q[0].(t := 0)] + Expire(q[1..], delta - q[0].t)
    else [q[0].(t := delta)] + q[1..]
  }

  /** The number of timers that loop sets to 0. */
  function Expired(q: seq<Entry>, delta: nat): nat
    decreases |q|
  {
    if q != [] && q[0].t < delta then 1 + Expired(q[1..], delta - q[0].t) else 0
  }

  /** `coap_adjust_basetime` on a non-empty queue; `base + delta` is the new base time. */
  function Adjust(q: seq<Entry>, delta: int): seq<Entry>
    requires q != []
  {
    if delta <= 0 then [q[0].(t := q[0].t - delta)] + q[1..] else Expire(q, delta)
  }

  /** The number `coap_adjust_basetime` returns. */
  function AdjustResult(q: seq<Entry>, delta: int): nat {
    if delta <= 0 then 0 else Expired(q, delta)
  }

  /** That is how many due times have passed, none when the clock steps back. */
  lemma AdjustResultCounts(q: seq<Entry>, delta: int, base: int)
    ensures AdjustResult(q, delta) <= |q| == |Dues(q, base)|
    ensures forall i :: 0 <= i < |q| ==>
      (i < AdjustResult(q, delta) <==> delta > 0 && Dues(q, base)[i].at < base + delta)
  {
    hide Dues, Expired;
    if delta > 0 {
      ExpiredCountsPast(q, delta, base);
    } else {
      DuesAt(q, base);
    }
  }

  /** When the clock steps back, no due time changes. */
  lemma AdjustBackKeepsDues(q: seq<Entry>, delta: int, base: int)
    requires q != [] && delta <= 0
    ensures Dues(Adjust(q, delta), base + delta) == Dues(q, base)
  {
    hide Dues;
    var e := q[0].(t := q[0].t - delta);
    assert q == [q[0]] + q[1..];
    DuesCons(q[0], q[1..], base);
    DuesCons(e, q[1..], base + delta);
  }

  /** Moving forward counts exactly the due times that have passed: they are the first ones of the queue. */
  lemma {:induction false} ExpiredCountsPast(q: seq<Entry>, delta: nat, base: int)
    ensures Expired(q, delta) <= |q| == |Dues(q, base)|
    ensures forall i :: 0 <= i < |q| ==> (i < Expired(q, delta) <==> Dues(q, base)[i].at < base + delta)
    decreases |q|
  {
    DuesAt(q, base);
    if q != [] && q[0].t < delta {
      ExpiredCountsPast(q[1..], delta - q[0].t, base + q[0].t);
      forall i | 0 <= i < |q|
        ensures i < Expired(q, delta) <==> Dues(q, base)[i].at < base + delta
      {
        if i > 0 { assert Dues(q, base)[i] == Dues(q[1..], base + q[0].t)[i - 1]; }
      }
    } else if q != [] {
      forall i | 0 <= i < |q|
        ensures Dues(q, base)[i].at >= base + delta
      {
        SumFront(q, i);
      }
    }
  }

  /** Moving forward makes past entries due at the new base time. The others all shift by one amount, which
      is 0 just when the first of them had half of its timer left. */
  lemma AdjustForwardDues(q: seq<Entry>, delta: nat, base: int)
    ensures |Dues(Expire(q, delta), base + delta)| == |Dues(q, base)| == |q| && Expired(q, delta) <= |q|
    ensures var k, before, after := Expired(q, delta), Dues(q, base), Dues(Expire(q, delta), base + delta);
      && (forall i :: 0 <= i < |q| ==> after[i].msg == before[i].msg)
      && (forall i :: 0 <= i < k ==> after[i].at == base + delta)
      && (forall i :: k <= i < |q| ==> after[i].at == before[i].at + (2 * (delta - Sum(q, k)) - q[k].t))
  {
    hide Dues, Expire;
    ExpireDues(q, delta, base);
    ShiftIs(q, delta);
  }

  /** The due times that have not passed are kept if and only if there are none, or the first of them has half of
      its timer left. */
  lemma AdjustKeepsExactly(q: seq<Entry>, delta: nat, base: int)
    requires q != [] && delta > 0
    ensures Expired(q, delta) <= |q| == |Dues(q, base)| == |Dues(Adjust(q, delta), base + delta)|
    ensures var k := Expired(q, delta);
      (forall i :: k <= i < |q| ==> Dues(Adjust(q, delta), base + delta)[i] == Dues(q, base)[i])
      <==> k == |q| || 2 * (delta - Sum(q, k)) == q[k].t
  {
    hide Dues, Sum, Expire, Expired;
    AdjustForwardDues(q, delta, base);
    var k := Expired(q, delta);
    if k < |q| {
      assert Dues(Adjust(q, delta), base + delta)[k].msg == Dues(q, base)[k].msg;
    }
  }

  /** A message due at 10 is due at 8 once the base time has moved on by 4. */
  lemma AdjustLosesExample(m: Msg)
    ensures Dues([Entry(10, m)], 0) == [Due(10, m)]
    ensures Dues(Adjust([Entry(10, m)], 4), 4) == [Due(8, m)]
  {
    assert [Entry(4, m)] + [] == [Entry(4, m)];
  }

  /** The amount by which the entries that are not past shift. */
  function Shift(q: seq<Entry>, delta: nat): int
    decreases |q|
  {
    if q == [] then 0 else if q[0].t < delta then Shift(q[1..], delta - q[0].t) else 2 * delta - q[0].t
  }

  lemma {:induction false} ShiftIs(q: seq<Entry>, delta: nat)
    ensures Expired(q, delta) <= |q|
    ensures var k := Expired(q, delta); k < |q| ==> Shift(q, delta) == 2 * (delta - Sum(q, k)) - q[k].t
    decreases |q|
  {
    if q != [] && q[0].t < delta {
      ShiftIs(q[1..], delta - q[0].t);
      var k := Expired(q, delta);
      if k < |q| {
        SumFront(q, k - 1);
      }
    }
  }

  /** `after` is `before` with the first `k` entries due at `now` and the others shifted. */
  predicate Moved(before: seq<Due>, after: seq<Due>, k: nat, now: int, shift: int) {
    |after| == |before| && forall i :: 0 <= i < |before| ==>
      after[i] == Due(if i < k then now else before[i].at + shift, before[i].msg)
  }

  lemma MovedCons(d: Due, before: seq<Due>, after: seq<Due>, k: nat, now: int, shift: int)
    requires Moved(before, after, k, now, shift)
    ensures Moved([d] + before, [d.(at := now)] + after, k + 1, now, shift)
  {
  }

  lemma {:induction false} ExpireDues(q: seq<Entry>, delta: nat, base: int)
    ensures |Dues(q, base)| == |q|
    ensures Moved(Dues(q, base), Dues(Expire(q, delta), base + delta), Expired(q, delta), base + delta, Shift(q, delta))
    decreases |q|
  {
    hide Dues, Moved;
    DuesAt(q, base);
    if q == [] {
      NoDues(base, base + delta);
      assert Dues(q, base) == [];
      NothingMoved(base + delta, 0);
    } else {
      var t, rest := q[0].t, q[1..];
      assert q == [q[0]] + rest;
      DuesCons(q[0], rest, base);
      if t < delta {
        ExpireDues(rest, delta - t, base + t);
        DuesCons(q[0].(t := 0), Expire(rest, delta - t), base + delta);
        MovedCons(Due(base + t, q[0].msg), Dues(rest, base + t), Dues(Expire(rest, delta - t), base + delta),
                  Expired(rest, delta - t), base + delta, Shift(rest, delta - t));
      } else {
        DuesCons(q[0].(t := delta), rest, base + delta);
        ShiftDues(rest, base + t, base + delta + delta);
        ShiftedFrom(Due(base + t, q[0].msg), Dues(rest, base + t), Dues(rest, base + delta + delta), base + delta,
            2 * delta - t);
      }
    }
  }

  lemma NothingMoved(now: int, shift: int)
    ensures Moved([], [], 0, now, shift)
  {
  }

  lemma ShiftedFrom(d: Due, before: seq<Due>, after: seq<Due>, now: int, shift: int)
    requires |after| == |before|
    requires forall i :: 0 <= i < |before| ==> after[i] == Due(before[i].at + shift, before[i].msg)
    ensures Moved([d] + before, [d.(at := d.at + shift)] + after, 0, now, shift)
  {
  }

  lemma {:induction false} ShiftDues(q: seq<Entry>, base: int, base': int)
    ensures |Dues(q, base)| == |Dues(q, base')| == |q|
    ensures forall i :: 0 <= i < |q| ==> Dues(q, base')[i] == Due(Dues(q, base)[i].at + (base' - base), q[i].msg)
  {
    DuesAt(q, base);
    DuesAt(q, base');
  }

  // ----- retransmission -----

  /** The node `coap_retransmit` inserts again: its timer doubles each time, in 32-bit arithmetic. */
  function Rearmed(m: Msg): Entry {
    Entry(m.timeout * Pow2(m.retransmitCnt + 1) % 0x1_0000_0000, m.(retransmitCnt := m.retransmitCnt + 1))
  }

  /** `coap_retransmit` of a popped message. */
  function Retransmit(q: seq<Entry>, m: Msg): seq<Entry> {
    if m.retransmitCnt < COAP_DEFAULT_MAX_RETRANSMIT then Insert(q, Rearmed(m)) else q
  }

  /** The same when sending gave the id `sent`, which the node takes. */
  function Resent(q: seq<Entry>, m: Msg, sent: int): seq<Entry> {
    if m.retransmitCnt < COAP_DEFAULT_MAX_RETRANSMIT then Insert(q, Rearmed(m.(id := sent))) else q
  }

  /** On due times: below 4 retransmissions the message is due its doubled timeout after the base time, under the new
      id; else it is dropped. */
  lemma ResentDues(q: seq<Entry>, m: Msg, sent: int, base: int)
    ensures Dues(Resent(q, m, sent), base) ==
      if m.retransmitCnt < 4 then
        InsertDue(Dues(q, base), Due(base + m.timeout * Pow2(m.retransmitCnt + 1) % 0x1_0000_0000,
                                     m.(id := sent, retransmitCnt := m.retransmitCnt + 1)))
      else Dues(q, base)
  {
    hide Insert, InsertDue, Dues, Pow2;
    InsertKeepsDues(q, Rearmed(m.(id := sent)), base);
  }

  lemma {:induction false} InsertHasId(q: seq<Entry>, e: Entry, id: int)
    ensures HasId(Insert(q, e), id) <==> HasId(q, id) || e.msg.id == id
    decreases |q|
  {
    hide HasId;
    HasIdCons(e, q, id);
    if q == [] {
      assert [e] + q == [e];
    } else {
      var rest := q[1..];
      assert q == [q[0]] + rest;
      HasIdCons(q[0], rest, id);
      if e.t < q[0].t {
        var r := q[0].(t := q[0].t - e.t);
        HasIdCons(r, rest, id);
        HasIdCons(e, [r] + rest, id);
        assert [e, r] + rest == [e] + ([r] + rest);
      } else {
        InsertHasId(rest, Later(e, q[0].t), id);
        HasIdCons(q[0], Insert(rest, Later(e, q[0].t)), id);
      }
    }
  }

  lemma HasIdCons(e: Entry, rest: seq<Entry>, id: int)
    ensures HasId([e] + rest, id) <==> e.msg.id == id || HasId(rest, id)
  {
    var q := [e] + rest;
    assert q[0] == e && forall i :: 0 <= i < |rest| ==> q[i + 1] == rest[i];
  }

  /** An acknowledgement still finds a message that was sent again if and only if the network took it: a refused
      send overwrites the id, and the message stays in the queue. */
  lemma FoundAgain(q: seq<Entry>, m: Msg, sent: int)
    requires m.retransmitCnt < COAP_DEFAULT_MAX_RETRANSMIT && !HasId(q, m.id)
    ensures HasId(Resent(q, m, sent), sent)
    ensures HasId(Resent(q, m, sent), m.id) <==> sent == m.id
    ensures Resent(q, m, m.id) == Retransmit(q, m)
  {
    InsertHasId(q, Rearmed(m.(id := sent)), sent);
    InsertHasId(q, Rearmed(m.(id := sent)), m.id);
  }

  /** A message with id 7 whose resend is refused is queued under the invalid id. */
  lemma RefusedResendExample(m: Msg)
    requires m.id == 7 && m.retransmitCnt == 0
    ensures !HasId(Resent([], m, -1), 7) && HasId(Resent([], m, -1), -1)
  {
    FoundAgain([], m, -1);
  }

  /** The number of times the drive loop can still pop each message. */
  function Budget(q: seq<Entry>): nat
    decreases |q|
  {
    if q == [] then 0 else Chances(q[0].msg) + Budget(q[1..])
  }

  function Chances(m: Msg): nat {
    if m.retransmitCnt < COAP_DEFAULT_MAX_RETRANSMIT then COAP_DEFAULT_MAX_RETRANSMIT + 1 - m.retransmitCnt else 1
  }

  lemma {:induction false} InsertBudget(q: seq<Entry>, e: Entry)
    ensures Budget(Insert(q, e)) == Budget(q) + Chances(e.msg)
    decreases |q|
  {
    if q == [] {
    } else if e.t < q[0].t {
      var r := q[0].(t := q[0].t - e.t);
      assert Insert(q, e)[1..] == [r] + q[1..] && ([r] + q[1..])[1..] == q[1..];
    } else {
      InsertBudget(q[1..], Later(e, q[0].t));
      assert Insert(q, e)[1..] == Insert(q[1..], Later(e, q[0].t));
    }
  }

  /** Each round of the drive loop uses up one chance, whatever the timers are. */
  lemma RoundSpendsBudget(q: seq<Entry>)
    requires q != []
    ensures Budget(Retransmit(Pop(q), q[0].msg)) == Budget(q) - 1
  {
    var m := q[0].msg;
    if |q| > 1 {
      assert Pop(q)[1..] == q[1..][1..];
    }
    assert Budget(Pop(q)) == Budget(q[1..]);
    if m.retransmitCnt < COAP_DEFAULT_MAX_RETRANSMIT {
      InsertBudget(Pop(q), Rearmed(m));
    }
  }

  /** The loop of `EndpointPrivate::send()`, `elapsed` ticks after the base time. */
  function Drive(q: seq<Entry>, elapsed: nat): seq<Entry>
    decreases Budget(q)
  {
    if q == [] || q[0].t > elapsed then q
    else
      RoundSpendsBudget(q);
      Drive(Retransmit(Pop(q), q[0].msg), elapsed)
  }

  /** What becomes of one due message by `now`, seen on its own: its later due times all count from the base time. */
  function Settle(d: Due, base: int, now: int): multiset<Due>
    decreases Chances(d.msg)
  {
    if d.at > now then multiset{d}
    else if d.msg.retransmitCnt < COAP_DEFAULT_MAX_RETRANSMIT then
      Settle(Due(base + Rearmed(d.msg).t, Rearmed(d.msg).msg), base, now)
    else multiset{}
  }

  function SettleAll(ds: seq<Due>, base: int, now: int): multiset<Due>
    decreases |ds|
  {
    if ds == [] then multiset{} else Settle(ds[0], base, now) + SettleAll(ds[1..], base, now)
  }

  lemma {:induction false} SettleInserted(ds: seq<Due>, d: Due, base: int, now: int)
    ensures SettleAll(InsertDue(ds, d), base, now) == Settle(d, base, now) + SettleAll(ds, base, now)
    decreases |ds|
  {
    if ds == [] || d.at < ds[0].at {
      assert ([d] + ds)[1..] == ds;
    } else {
      SettleInserted(ds[1..], d, base, now);
      assert InsertDue(ds, d)[1..] == InsertDue(ds[1..], d);
    }
  }

  lemma {:induction false} NothingToSettle(ds: seq<Due>, base: int, now: int)
    requires forall i :: 0 <= i < |ds| ==> ds[i].at > now
    ensures SettleAll(ds, base, now) == multiset(ds)
    decreases |ds|
  {
    if ds != [] {
      NothingToSettle(ds[1..], base, now);
      assert ds == [ds[0]] + ds[1..];
    }
  }

  lemma {:induction false} HeadIsFirst(q: seq<Entry>, base: int)
    requires q != []
    ensures |Dues(q, base)| == |q|
    ensures forall i :: 0 <= i < |q| ==> Dues(q, base)[i].at >= base + q[0].t
  {
    DuesAt(q, base);
    forall i | 0 <= i < |q| ensures Dues(q, base)[i].at >= base + q[0].t {
      SumFront(q, i);
    }
  }

  /** The drive loop ends with every due time later than now, and treats each message as if it were alone:
      the queue it leaves holds exactly what becomes of every message on its own. */
  lemma {:induction false} DriveSettlesEach(q: seq<Entry>, elapsed: nat, base: int)
    ensures forall i :: 0 <= i < |Dues(Drive(q, elapsed), base)| ==>
        Dues(Drive(q, elapsed), base)[i].at > base + elapsed
    ensures multiset(Dues(Drive(q, elapsed), base)) == SettleAll(Dues(q, base), base, base + elapsed)
    decreases Budget(q)
  {
    hide Dues, InsertDue, SettleAll, Insert;
    var now := base + elapsed;
    if q == [] || q[0].t > elapsed {
      if q != [] { HeadIsFirst(q, base); } else { DuesAt(q, base); }
      NothingToSettle(Dues(q, base), base, now);
    } else {
      RoundSpendsBudget(q);
      DriveSettlesEach(Retransmit(Pop(q), q[0].msg), elapsed, base);
      RoundSettles(q, base, now);
    }
  }

  /** One round of the drive loop changes nothing about what becomes of each message. */
  lemma RoundSettles(q: seq<Entry>, base: int, now: int)
    requires q != [] && base + q[0].t <= now
    ensures SettleAll(Dues(Retransmit(Pop(q), q[0].msg), base), base, now) == SettleAll(Dues(q, base), base, now)
  {
    hide Dues, InsertDue, SettleAll, Insert, Pop;
    var m, d := q[0].msg, Due(base + q[0].t, q[0].msg);
    var rest := Dues(Pop(q), base);
    assert Dues(q, base) == [d] + rest by {
      PopKeepsDues(q, base);
      assert q == [q[0]] + q[1..];
      DuesCons(q[0], q[1..], base);
    }
    SettleHead(d, rest, base, now);
    if m.retransmitCnt < COAP_DEFAULT_MAX_RETRANSMIT {
      var e := Rearmed(m);
      InsertKeepsDues(Pop(q), e, base);
      SettleInserted(rest, Due(base + e.t, e.msg), base, now);
    }
  }

  lemma SettleHead(d: Due, rest: seq<Due>, base: int, now: int)
    ensures SettleAll([d] + rest, base, now) == Settle(d, base, now) + SettleAll(rest, base, now)
  {
    assert ([d] + rest)[1..] == rest;
  }

  // ----- the spacing of retransmissions -----

  lemma {:induction false} InsertDueAdds(ds: seq<Due>, d: Due)
    ensures multiset(InsertDue(ds, d)) == multiset(ds) + multiset{d}
    decreases |ds|
  {
    if ds != [] && d.at >= ds[0].at {
      InsertDueAdds(ds[1..], d);
      assert ds == [ds[0]] + ds[1..];
    }
  }

  /** A message sent again `elapsed` ticks after the base time is due its doubled timeout from then on if and only
      if no time has elapsed: the code counts from the base time. */
  lemma SpacingExactly(q: seq<Entry>, m: Msg, base: int, elapsed: nat)
    requires m.retransmitCnt < COAP_DEFAULT_MAX_RETRANSMIT
    ensures var e := Rearmed(m);
      && Dues(Retransmit(q, m), base) == InsertDue(Dues(q, base), Due(base + e.t, e.msg))
      && (Dues(Retransmit(q, m), base) == InsertDue(Dues(q, base), Due(base + elapsed + e.t, e.msg)) <==> elapsed == 0)
  {
    hide InsertDue, Dues, Insert;
    var e, ds := Rearmed(m), Dues(q, base);
    var d, wanted := Due(base + e.t, e.msg), Due(base + elapsed + e.t, e.msg);
    InsertKeepsDues(q, e, base);
    if elapsed != 0 {
      InsertDueAdds(ds, d);
      InsertDueAdds(ds, wanted);
      assert (multiset(ds) + multiset{d})[d] != (multiset(ds) + multiset{wanted})[d];
    }
  }

  /** How often one drive loop sends a message that is due `t` after the base time. */
  function Resends(m: Msg, t: int, elapsed: nat): nat
    decreases Chances(m)
  {
    if t > elapsed || m.retransmitCnt >= COAP_DEFAULT_MAX_RETRANSMIT then 0
    else 1 + Resends(Rearmed(m).msg, Rearmed(m).t, elapsed)
  }

  /** One drive loop sends a due message more than `n` times if and only if that many retransmissions are left and
      its timeout, doubled for each of the first `n` of them, has elapsed since the base time. */
  lemma {:induction false} SentInOneLoop(m: Msg, t: nat, elapsed: nat, n: nat)
    requires t <= elapsed && m.timeout * 16 < 0x1_0000_0000
    ensures Resends(m, t, elapsed) > n <==>
      && m.retransmitCnt + n < COAP_DEFAULT_MAX_RETRANSMIT
      && (n == 0 || m.timeout * Pow2(m.retransmitCnt + n) <= elapsed)
    decreases n
  {
    hide Pow2;
    if n > 0 && m.retransmitCnt < COAP_DEFAULT_MAX_RETRANSMIT {
      var e := Rearmed(m);
      DoubledTimer(m.timeout, m.retransmitCnt + 1);
      if m.retransmitCnt + n < COAP_DEFAULT_MAX_RETRANSMIT {
        TimersGrow(m.timeout, m.retransmitCnt + 1, m.retransmitCnt + n);
      }
      if e.t <= elapsed {
        SentInOneLoop(e.msg, e.t, elapsed, n - 1);
      }
    }
  }

  lemma TimersGrow(timeout: nat, k: nat, n: nat)
    requires k <= n
    ensures timeout * Pow2(k) <= timeout * Pow2(n)
  {
    Pow2Grows(k, n);
    TimesGrows(timeout, Pow2(k), Pow2(n));
  }

  lemma DoubledTimer(timeout: nat, k: nat)
    requires timeout * 16 < 0x1_0000_0000 && k <= 4
    ensures timeout * Pow2(k) % 0x1_0000_0000 == timeout * Pow2(k) <= timeout * 16
    ensures k < 4 ==> timeout * Pow2(k) <= timeout * Pow2(k + 1)
    ensures Pow2(4) == 16
  {
    assert Pow2(0) == 1 && Pow2(1) == 2 && Pow2(2) == 4 && Pow2(3) == 8 && Pow2(4) == 16 && Pow2(5) == 32;
  }

  /** One drive loop sends a due message all the times that are left and gives it up, if and only if sixteen times
      its first timeout has elapsed since the base time. */
  lemma {:induction false} WholeBurst(m: Msg, t: nat, base: int, elapsed: nat)
    requires t <= elapsed && m.retransmitCnt <= COAP_DEFAULT_MAX_RETRANSMIT && m.timeout * 16 < 0x1_0000_0000
    ensures Settle(Due(base + t, m), base, base + elapsed) == multiset{} <==>
      m.retransmitCnt == COAP_DEFAULT_MAX_RETRANSMIT || m.timeout * 16 <= elapsed
    ensures m.retransmitCnt == COAP_DEFAULT_MAX_RETRANSMIT || m.timeout * 16 <= elapsed ==>
      Resends(m, t, elapsed) == COAP_DEFAULT_MAX_RETRANSMIT - m.retransmitCnt
    decreases COAP_DEFAULT_MAX_RETRANSMIT - m.retransmitCnt
  {
    if m.retransmitCnt < COAP_DEFAULT_MAX_RETRANSMIT {
      var e := Rearmed(m);
      DoubledTimer(m.timeout, m.retransmitCnt + 1);
      if e.t <= elapsed {
        WholeBurst(e.msg, e.t, base, elapsed);
      }
    }
  }

  // ----- the first timeout -----

  /** `SHR_FP`: rounds and drops `frac` binary places. */
  function ShiftRound(v: nat, frac: nat): nat
    requires frac > 0
  {
    (v + Pow2(frac - 1)) / Pow2(frac)
  }

  /** `calc_timeout` with its constants in fixed point: 6 fraction bits, factor 1.5, timeout 2; products are 32-bit. */
  function CalcTimeout(ticksPerSecond: nat, r: nat): (timeout: nat)
    requires r < 256
    ensures timeout < 0x400_0000
  {
    var FP1 := 64;
    var inner := ShiftRound((96 - FP1) * r, 8);
    var scaled := ShiftRound((inner + FP1) * 128, 6);
    (ticksPerSecond * scaled % 0x1_0000_0000 + 32) % 0x1_0000_0000 / 64
  }

  /** The first timeout always lies between 2 and 3 times the tick rate just when the last product fits in 32 bits. */
  lemma FirstTimeoutInRange(ticksPerSecond: nat)
    ensures (forall r: nat :: r < 256 ==> 2 * ticksPerSecond <= CalcTimeout(ticksPerSecond, r) <= 3 * ticksPerSecond)
      <==> 192 * ticksPerSecond + 32 < 0x1_0000_0000
  {
    hide CalcTimeout;
    if 192 * ticksPerSecond + 32 < 0x1_0000_0000 {
      forall r: nat | r < 256 ensures 2 * ticksPerSecond <= CalcTimeout(ticksPerSecond, r) <= 3 * ticksPerSecond {
        TimeoutFits(ticksPerSecond, r);
      }
    } else {
      TimeoutWraps(ticksPerSecond);
    }
  }

  lemma TimeoutFits(ticks: nat, r: nat)
    requires r < 256 && 192 * ticks + 32 < 0x1_0000_0000
    ensures 2 * ticks <= CalcTimeout(ticks, r) <= 3 * ticks
  {
    hide Pow2, ShiftRound;
    var scaled := ScaledFactor(r);
    ScaledTicks(ticks, scaled);
    InTicks(ticks, ticks * scaled);
    InWord(ticks * scaled);
  }

  /** The first timeout is `2 * (1 + r / 512)` seconds in ticks, but for rounding: the factor is exact to a 64th,
      the result to half a tick. */
  lemma TimeoutAccurate(ticks: nat, r: nat)
    requires r < 256 && 192 * ticks + 32 < 0x1_0000_0000
    ensures var error := 256 * CalcTimeout(ticks, r) - ticks * (512 + r); -128 - 4 * ticks <= error <= 128 + 4 * ticks
  {
    hide Pow2, ShiftRound;
    var scaled := ScaledFactor(r);
    ScaledTicks(ticks, scaled);
    InWord(ticks * scaled);
    Rounded(ticks * scaled);
    NearProducts(ticks, 4 * scaled, 512 + r);
    assert ticks * (4 * scaled) == 4 * (ticks * scaled);
  }

  lemma Rounded(product: nat)
    ensures -32 <= 64 * ((product + 32) / 64) - product <= 32
  {
  }

  lemma NearProducts(n: nat, a: int, b: int)
    requires -4 <= a - b <= 4
    ensures -4 * n <= n * a - n * b <= 4 * n
  {
    assert n * a - n * b == n * (a - b);
    if n > 0 {
      NearProducts(n - 1, a, b);
      assert n * (a - b) == (n - 1) * (a - b) + (a - b) && (n - 1) * a - (n - 1) * b == (n - 1) * (a - b);
    }
  }

  lemma InWord(product: nat)
    requires product + 32 < 0x1_0000_0000
    ensures (product % 0x1_0000_0000 + 32) % 0x1_0000_0000 == product + 32
  {
  }

  lemma TimeoutWraps(ticks: nat)
    requires 192 * ticks + 32 >= 0x1_0000_0000
    ensures CalcTimeout(ticks, 255) < 2 * ticks
  {
    hide Pow2;
    PowersOfTwo();
    assert ShiftRound(32 * 255, 8) == 32 && ShiftRound(96 * 128, 6) == 192;
  }

  lemma ScaledFactor(r: nat) returns (scaled: nat)
    requires r < 256
    ensures scaled == ShiftRound((ShiftRound(32 * r, 8) + 64) * 128, 6)
    ensures 128 <= scaled <= 192 && -4 <= 4 * scaled - (512 + r) <= 4
  {
    hide Pow2;
    PowersOfTwo();
    var inner := ShiftRound(32 * r, 8);
    scaled := ShiftRound((inner + 64) * 128, 6);
    assert inner <= 32 && scaled == 2 * (inner + 64);
  }

  lemma PowersOfTwo()
    ensures Pow2(5) == 32 && Pow2(6) == 64 && Pow2(7) == 128 && Pow2(8) == 256
  {
  }

  lemma ScaledTicks(ticks: nat, scaled: nat)
    requires 128 <= scaled <= 192
    ensures 128 * ticks <= ticks * scaled <= 192 * ticks
  {
    TimesGrows(ticks, 128, scaled);
    TimesGrows(ticks, scaled, 192);
  }

  lemma InTicks(ticks: nat, product: nat)
    requires 128 * ticks <= product <= 192 * ticks
    ensures 2 * ticks <= (product + 32) / 64 <= 3 * ticks
  {
  }
}
