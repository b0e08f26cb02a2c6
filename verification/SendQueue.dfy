/** libcoap's send queue as linked nodes that are updated in place, proved against the sequence model. */
module SendQueue {
  import opened DeltaQueue
  import opened Powers
  import opened Sequences

  /** The range of `coap_tick_t`, an unsigned 64-bit type. */
  const TICK_RANGE: nat := 0x1_0000_0000_0000_0000

  const COAP_INVALID_TID: int := -1

  class Node {
    var next: Node?
    var t: nat
    var retransmitCnt: nat
    const timeout: nat
    var id: int
    const remote: int
    const token: seq<int>

    constructor (id: int, timeout: nat, remote: int, token: seq<int>)
      ensures next == null && t == 0 && Message() == Msg(id, timeout, 0, remote, token)
    {
      this.id, this.timeout, this.remote, this.token := id, timeout, remote, token;
      next, t, retransmitCnt := null, 0, 0;
    }

    ghost function Message(): Msg
      reads this
    {
      Msg(id, timeout, retransmitCnt, remote, token)
    }
  }

  ghost predicate Within(s: seq<Node>, t: seq<Node>) {
    forall i {:trigger s[i]} :: 0 <= i < |s| ==> s[i] in t
  }

  ghost function At(s: seq<Node>, i: nat): Node? {
    if i < |s| then s[i] else null
  }

  /** `first` leads through exactly `s` and then to null. */
  ghost predicate Chain(first: Node?, s: seq<Node>)
    reads s
  {
    first == At(s, 0) && forall i {:trigger s[i].next} :: 0 <= i < |s| ==> s[i].next == At(s, i + 1)
  }

  /** The nodes hold exactly these entries. */
  ghost predicate Shows(s: seq<Node>, q: seq<Entry>)
    reads s
  {
    |s| == |q| && forall i {:trigger s[i]} {:trigger q[i]} :: 0 <= i < |s| ==> q[i] == Entry(s[i].t, s[i].Message())
  }

  /** One step of the search: the new timer stays relative to the entry in front. */
  lemma InsertStep(q: seq<Entry>, e: Entry, k: nat, t: nat)
    requires k < |q| && q[k].t <= t
    ensures q[..k] + Insert(q[k..], e.(t := t)) == q[..k + 1] + Insert(q[k + 1..], e.(t := t - q[k].t))
  {
    assert q[k..][1..] == q[k + 1..] && q[..k + 1] == q[..k] + [q[k]];
  }

  lemma InsertLater(q: seq<Entry>, e: Entry)
    requires q != [] && q[0].t <= e.t
    ensures Insert(q, e) == [q[0]] + Insert(q[1..], Later(e, q[0].t))
  {
  }

  lemma InsertStart(q: seq<Entry>, e: Entry)
    requires q != [] && q[0].t <= e.t
    ensures Insert(q, e) == q[..1] + Insert(q[1..], Later(e, q[0].t))
  {
    hide Insert;
    InsertLater(q, e);
    assert q[..1] == [q[0]];
  }

  /** `e` between two entries; the one behind, if any, becomes relative to it. */
  ghost function Placed(q: seq<Entry>, k: nat, e: Entry): seq<Entry>
    requires k <= |q| && (k < |q| ==> e.t <= q[k].t)
  {
    if k < |q| then q[..k] + ([e, q[k].(t := q[k].t - e.t)] + q[k + 1..]) else q + [e]
  }

  lemma InsertHere(q: seq<Entry>, e: Entry, k: nat)
    requires k <= |q| && (k < |q| ==> e.t < q[k].t)
    ensures q[..k] + Insert(q[k..], e) == Placed(q, k, e)
  {
    if k < |q| {
      assert Insert(q[k..], e) == [e, q[k].(t := q[k].t - e.t)] + q[k + 1..] by { assert q[k..][1..] == q[k + 1..]; }
    } else {
      assert q[..k] == q && q[k..] == [];
    }
  }

  lemma PlacedInSteps(q: seq<Entry>, k: nat, e: Entry)
    requires k <= |q| && (k < |q| ==> e.t <= q[k].t)
    ensures var q' := if k < |q| then q[k := q[k].(t := q[k].t - e.t)] else q;
      q'[..k] + [e] + q'[k..] == Placed(q, k, e)
  {
  }

  lemma Neighbours(s: seq<Node>, k: nat, n: Node)
    requires Distinct(s) && n !in s && 1 <= k <= |s|
    ensures forall i :: 0 <= i < |s| && i != k - 1 ==> s[i] != s[k - 1]
    ensures k < |s| ==> forall i :: 0 <= i < |s| && i != k ==> s[i] != s[k]
    ensures forall i :: 0 <= i < |s| ==> s[i] != n
  {
  }

  lemma Spliced(s: seq<Node>, k: nat, n: Node)
    requires Distinct(s) && n !in s && k <= |s|
    ensures Distinct(s[..k] + [n] + s[k..])
    ensures forall m :: m in s[..k] + [n] + s[k..] <==> m in s || m == n
  {
    var r := s[..k] + [n] + s[k..];
    assert forall i :: 0 <= i < |r| ==> r[i] == if i < k then s[i] else if i == k then n else s[i - 1];
    assert s == s[..k] + s[k..];
    hide Distinct;
    InPieces(s[..k], n, s[k..]);
    DistinctPlus(s, k, n, r);
  }

  lemma InPieces(a: seq<Node>, n: Node, b: seq<Node>)
    ensures forall m :: m in a + [n] + b <==> m in a + b || m == n
  {
  }

  lemma DistinctPlus(s: seq<Node>, k: nat, n: Node, r: seq<Node>)
    requires Distinct(s) && n !in s && k <= |s| && |r| == |s| + 1
    requires forall i {:trigger r[i]} :: 0 <= i < |r| ==> r[i] == if i < k then s[i] else if i == k then n else s[i - 1]
    ensures Distinct(r)
  {
    forall i, j | 0 <= i < j < |r| ensures r[i] != r[j] {
      var a, b := if i < k then i else i - 1, if j < k then j else j - 1;
      if i == k {
        assert r[i] == n && r[j] == s[b] && s[b] in s;
      } else if j == k {
        assert r[j] == n && r[i] == s[a] && s[a] in s;
      } else {
        assert r[i] == s[a] && r[j] == s[b] && a < b;
      }
    }
  }

  /** The two pointers that put a node between two neighbours. */
  method PointTo(first: Node?, p: Node, q: Node?, node: Node, ghost s: seq<Node>, ghost k: nat)
    requires Chain(first, s) && Distinct(s) && node !in s
    requires 1 <= k <= |s| && p == s[k - 1] && q == At(s, k)
    modifies p`next, node`next
    ensures Chain(first, s[..k] + [node] + s[k..])
  {
    hide Distinct;
    Neighbours(s, k, node);
    node.next := q;
    p.next := node;
    ghost var r := s[..k] + [node] + s[k..];
    assert forall i :: 0 <= i < |r| ==> r[i] == if i < k then s[i] else if i == k then node else s[i - 1];
  }

  lemma SplicedShows(s: seq<Node>, q: seq<Entry>, k: nat, node: Node)
    requires Shows(s, q) && k <= |s|
    ensures k <= |q| && Shows(s[..k] + [node] + s[k..], q[..k] + [Entry(node.t, node.Message())] + q[k..])
  {
  }

  /** Taking a node out of the middle of a chain. */
  method PassOver(first: Node?, p: Node, q: Node, ghost s: seq<Node>, ghost k: nat)
    requires Chain(first, s) && Distinct(s) && 1 <= k < |s| && p == s[k - 1] && q == s[k]
    modifies p`next
    ensures Chain(first, s[..k] + s[k + 1..]) && p.next == At(s[..k] + s[k + 1..], k)
  {
    hide Distinct;
    Elsewhere(s, k - 1);
    p.next := q.next;
    ghost var r := s[..k] + s[k + 1..];
    assert forall i :: 0 <= i < |r| ==> r[i] == s[if i < k then i else i + 1];
  }

  lemma DroppedShows(s: seq<Node>, q: seq<Entry>, k: nat)
    requires Shows(s, q) && k < |s|
    ensures k < |q| && Shows(s[..k] + s[k + 1..], q[..k] + q[k + 1..])
  {
  }

  lemma ShowsTimer(s: seq<Node>, q: seq<Entry>, k: nat)
    requires Shows(s, q)
    ensures |q| == |s| && (k < |s| ==> q[k].t == s[k].t)
  {
  }

  lemma PopInSteps(q: seq<Entry>, k: nat)
    requires k < |q|
    ensures var q' := q[..k] + q[k + 1..];
      q[..k] + Pop(q[k..]) == if k < |q'| then q'[k := q'[k].(t := q'[k].t + q[k].t)] else q'
  {
    var q', rest := q[..k] + q[k + 1..], q[k..];
    if k < |q'| {
      var e := q[k + 1].(t := q[k + 1].t + q[k].t);
      assert rest[0] == q[k] && rest[1] == q[k + 1] && rest[2..] == q[k + 2..];
      assert q'[k] == q[k + 1] && q'[k := e] == q[..k] + ([e] + q[k + 2..]);
    } else {
      assert q' == q[..k];
    }
  }

  /** The search by id stopped at `k`: behind the last entry, or at the first one with that id. */
  lemma {:induction false} NotBefore(q: seq<Entry>, k: nat, id: int)
    requires k <= |q| && (forall i :: 0 <= i < k ==> q[i].msg.id != id)
    requires k < |q| ==> q[k].msg.id == id
    ensures HasId(q, id) == (k < |q|)
    ensures RemoveId(q, id) == if k < |q| then q[..k] + Pop(q[k..]) else q
  {
    hide Pop, HasId, RemoveId;
    HasIdAt(q, k, id);
    RemoveStep(q, id);
    if k > 0 {
      var rest := q[1..];
      NotBefore(rest, k - 1, id);
      assert q == [q[0]] + rest;
      assert q[..k] == [q[0]] + rest[..k - 1] && rest[k - 1..] == q[k..];
      if k < |q| {
        assert [q[0]] + (rest[..k - 1] + Pop(q[k..])) == q[..k] + Pop(q[k..]);
      }
    } else if q != [] {
      assert q[0..] == q && q[..0] + Pop(q) == Pop(q);
    }
  }

  lemma RemoveStep(q: seq<Entry>, id: int)
    ensures q == [] ==> RemoveId(q, id) == q
    ensures q != [] && q[0].msg.id == id ==> RemoveId(q, id) == Pop(q)
    ensures q != [] && q[0].msg.id != id ==> RemoveId(q, id) == [q[0]] + RemoveId(q[1..], id)
  {
  }

  lemma HasIdAt(q: seq<Entry>, k: nat, id: int)
    requires k <= |q| && (forall i :: 0 <= i < k ==> q[i].msg.id != id)
    requires k < |q| ==> q[k].msg.id == id
    ensures HasId(q, id) == (k < |q|)
  {
  }

  /** One step of the cancelling search. */
  lemma CancelStep(q: seq<Entry>, k: nat, remote: int, token: seq<int>)
    requires k < |q|
    ensures q[..k] + Cancel(q[k..], remote, token)
      == if Matches(q[k].msg, remote, token) then q[..k] + Cancel(q[k + 1..], remote, token)
         else q[..k + 1] + Cancel(q[k + 1..], remote, token)
  {
    assert q[k..][1..] == q[k + 1..] && q[..k + 1] == q[..k] + [q[k]];
  }

  lemma CancelEnd(q: seq<Entry>, remote: int, token: seq<int>)
    ensures q[..|q|] + Cancel(q[|q|..], remote, token) == q
  {
  }

  lemma ExpireStep(q: seq<Entry>, k: nat, delta: nat)
    requires k < |q| && q[k].t < delta
    ensures var q' := q[k := q[k].(t := 0)];
      && q[..k] + Expire(q[k..], delta) == q'[..k + 1] + Expire(q'[k + 1..], delta - q[k].t)
      && k + Expired(q[k..], delta) == k + 1 + Expired(q'[k + 1..], delta - q[k].t)
  {
    var q' := q[k := q[k].(t := 0)];
    assert q[k..][1..] == q'[k + 1..] && q'[..k + 1] == q[..k] + [q'[k]];
  }

  lemma ExpireEnd(q: seq<Entry>, k: nat, delta: nat)
    requires k <= |q| && (k < |q| ==> q[k].t >= delta)
    ensures q[..k] + Expire(q[k..], delta) == if k < |q| then q[k := q[k].(t := delta)] else q
    ensures Expired(q[k..], delta) == 0
  {
    if k < |q| {
      assert q[k..][1..] == q[k + 1..] && q == q[..k] + [q[k]] + q[k + 1..];
    }
  }

  lemma DriveStep(q: seq<Entry>, elapsed: nat)
    ensures q == [] || q[0].t > elapsed ==> Drive(q, elapsed) == q
    ensures q != [] && q[0].t <= elapsed ==>
      var next := DeltaQueue.Retransmit(Pop(q), q[0].msg);
      Drive(q, elapsed) == Drive(next, elapsed) && Budget(next) == Budget(q) - 1
  {
    hide Pop, DeltaQueue.Retransmit;
    if q != [] {
      RoundSpendsBudget(q);
    }
  }

  /** What one node of the queue holds. */
  lemma NodeAt(first: Node?, s: seq<Node>, q: seq<Entry>, k: nat)
    requires Chain(first, s) && Shows(s, q)
    ensures first == At(s, 0) && |q| == |s|
    ensures k < |s| ==> s[k].next == At(s, k + 1) && q[k] == Entry(s[k].t, s[k].Message())
  {
  }

  lemma HeadShown(first: Node?, s: seq<Node>, q: seq<Entry>)
    requires Chain(first, s) && Shows(s, q)
    ensures first == At(s, 0) && |q| == |s| && (q != [] ==> q[0].t == s[0].t)
  {
  }

  lemma NoneExpired(delta: int)
    ensures AdjustResult([], delta) == 0
  {
  }

  /** The one signed 64-bit number that leads from one time to the other. */
  lemma DeltaReaches(now: nat, base: nat)
    requires now < TICK_RANGE && base < TICK_RANGE
    ensures (base + TickDiff(now, base)) % TICK_RANGE == now
    ensures -0x8000_0000_0000_0000 <= TickDiff(now, base) < 0x8000_0000_0000_0000
    ensures -0x8000_0000_0000_0000 <= now - base < 0x8000_0000_0000_0000 ==> TickDiff(now, base) == now - base
  {
  }

  /** The signed difference of two unsigned 64-bit times. */
  function TickDiff(now: nat, base: nat): int {
    var d := (now - base) % TICK_RANGE;
    if d < TICK_RANGE / 2 then d else d - TICK_RANGE
  }

  class Context {
    var sendqueue: Node?
    var basetime: nat
    ghost var nodes: seq<Node>
    ghost var queue: seq<Entry>

    ghost predicate Valid()
      reads this, nodes
    {
      Distinct(nodes) && Chain(sendqueue, nodes) && Shows(nodes, queue)
    }

    /** `coap_insert_node` on the send queue; a new or popped node points nowhere. */
    method InsertNode(node: Node)
      requires Valid() && node !in nodes && node.next == null
      modifies this, nodes, node
      ensures Valid() && basetime == old(basetime)
      ensures queue == Insert(old(queue), Entry(old(node.t), old(node.Message())))
      ensures forall n :: n in nodes <==> n in old(nodes) || n == node
    {
      ghost var e := Entry(node.t, node.Message());
      if sendqueue == null {
        sendqueue := node;
        nodes, queue := [node], [e];
      } else if node.t < sendqueue.t {
        InsertFirst(node);
      } else {
        InsertBehind(node);
      }
    }

    method InsertBehind(node: Node)
      requires Valid() && node !in nodes && node.next == null && sendqueue != null && node.t >= sendqueue.t
      modifies this, nodes, node
      ensures Valid() && basetime == old(basetime)
      ensures queue == Insert(old(queue), Entry(old(node.t), old(node.Message())))
      ensures forall n :: n in nodes <==> n in old(nodes) || n == node
    {
      hide Insert, Placed, Chain, Shows;
      ghost var e := Entry(node.t, node.Message());
      ghost var k;
      var p, q;
      p, q, k := FindPlace(node, e);
      InsertHere(queue, e.(t := node.t), k);
      PlacedInSteps(queue, k, e.(t := node.t));
      Spliced(nodes, k, node);
      if q != null {
        SetTimer(q, q.t - node.t, k);
      }
      LinkBehind(p, q, node, k);
    }

    method InsertFirst(node: Node)
      requires Valid() && node !in nodes && sendqueue != null && node.t < sendqueue.t
      modifies this, sendqueue, node
      ensures Valid() && basetime == old(basetime)
      ensures queue == Insert(old(queue), Entry(old(node.t), old(node.Message()))) && nodes == [node] + old(nodes)
    {
      ghost var e := Entry(node.t, node.Message());
      node.next := sendqueue;
      sendqueue.t := sendqueue.t - node.t;
      sendqueue := node;
      nodes, queue := [node] + nodes, Insert(queue, e);
    }

    /** Searches the place behind all entries that are due no later, making the new timer relative on the way. */
    method FindPlace(node: Node, ghost e: Entry) returns (p: Node, q: Node?, ghost k: nat)
      requires Valid() && node !in nodes && sendqueue != null && node.t >= sendqueue.t
      requires e == Entry(node.t, node.Message())
      modifies node`t
      ensures Valid() && node.Message() == e.msg
      ensures 1 <= k <= |nodes| && p == nodes[k - 1] && q == At(nodes, k) && (q != null ==> node.t < q.t)
      ensures |queue| == |nodes| && (k < |queue| ==> q != null && node.t < q.t == queue[k].t)
      ensures Insert(queue, e) == queue[..k] + Insert(queue[k..], e.(t := node.t))
    {
      hide Distinct, Insert;
      q := sendqueue;
      InsertStart(queue, e);
      node.t := node.t - q.t;
      p := q;
      q := q.next;
      k := 1;
      while q != null && q.t <= node.t
        invariant 1 <= k <= |nodes| && p == nodes[k - 1] && q == At(nodes, k)
        invariant Shows(nodes, queue) && node.Message() == e.msg
        invariant Insert(queue, e) == queue[..k] + Insert(queue[k..], e.(t := node.t))
        decreases |nodes| - k
      {
        InsertStep(queue, e, k, node.t);
        node.t := node.t - q.t;
        p := q;
        q := q.next;
        k := k + 1;
      }
    }

    /** Changes one timer. */
    method SetTimer(q: Node, t: nat, ghost k: nat)
      requires Valid() && k < |nodes| && q == nodes[k]
      modifies q`t, `queue
      ensures Valid() && k < |old(queue)| == |queue| == |nodes|
      ensures queue == old(queue)[k := old(queue)[k].(t := t)]
    {
      Elsewhere(nodes, k);
      hide Distinct;
      q.t := t;
      queue := queue[k := queue[k].(t := t)];
    }

    /** Links the new node between two neighbours. */
    method LinkBehind(p: Node, q: Node?, node: Node, ghost k: nat)
      requires Valid() && node !in nodes
      requires 1 <= k <= |nodes| && p == nodes[k - 1] && q == At(nodes, k)
      modifies `nodes, `queue, p`next, node`next
      ensures Valid() && k <= |old(queue)|
      ensures nodes == old(nodes[..k]) + [node] + old(nodes[k..])
      ensures queue == old(queue[..k]) + [Entry(node.t, node.Message())] + old(queue[k..])
    {
      hide Distinct, Chain;
      Spliced(nodes, k, node);
      PointTo(sendqueue, p, q, node, nodes, k);
      SplicedShows(nodes, queue, k, node);
      nodes := nodes[..k] + [node] + nodes[k..];
      queue := queue[..k] + [Entry(node.t, node.Message())] + queue[k..];
    }

    /** `coap_pop_next`. */
    method PopNext() returns (popped: Node?)
      requires Valid()
      modifies this, nodes
      ensures Valid() && basetime == old(basetime)
      ensures old(queue) == [] ==> popped == null && queue == []
      ensures old(queue) != [] ==>
                && popped != null && popped == old(nodes[0]) && nodes == old(nodes[1..]) && popped.next == null
                && queue == Pop(old(queue))
                && popped.Message() == old(queue[0].msg)
    {
      if sendqueue == null {
        return null;
      }
      hide Distinct;
      DistinctTail(nodes);
      Elsewhere(nodes, 0);
      if |nodes| > 1 { Elsewhere(nodes, 1); }
      popped := sendqueue;
      sendqueue := sendqueue.next;
      if sendqueue != null {
        sendqueue.t := sendqueue.t + popped.t;
      }
      popped.next := null;
      nodes := nodes[1..];
      queue := Pop(queue);
    }

    /** `coap_remove_from_queue` on the send queue. */
    method RemoveFromQueue(id: int) returns (found: bool, removed: Node?)
      requires Valid()
      modifies this, nodes
      ensures Valid() && basetime == old(basetime)
      ensures found == HasId(old(queue), id) == (removed != null)
      ensures queue == RemoveId(old(queue), id)
      ensures found ==> removed.id == id && removed.next == null && removed in old(nodes)
      ensures Within(nodes, old(nodes)) && removed !in nodes
    {
      removed := null;
      if sendqueue == null {
        return false, null;
      }
      if id == sendqueue.id {
        removed := PopNext();
        return true, removed;
      }
      ghost var k;
      var p;
      p, removed, k := FindBehind(id);
      NotBefore(queue, k, id);
      if removed == null {
        return false, null;
      }
      Unlink(p, removed, k);
      return true, removed;
    }

    /** What `coap_dispatch` does to the queue when an acknowledgement or a reset arrives: the transaction leaves it,
        and for a reset, when there are resources whose observers it cancels, so does every message for the same
        peer and token. */
    method Dispatch(id: int, reset: bool, resources: nat) returns (sent: Node?)
      requires Valid()
      modifies this, nodes
      ensures Valid() && basetime == old(basetime)
      ensures (sent != null) == HasId(old(queue), id) && (sent != null ==> sent.id == id)
      ensures var rest := RemoveId(old(queue), id);
        queue == if reset && sent != null && resources > 0 then Cancel(rest, sent.remote, sent.token) else rest
      ensures !reset || sent == null || resources == 0 ==>
        Dues(queue, basetime) == RemoveDue(Dues(old(queue), basetime), id)
    {
      hide Dues, RemoveDue, RemoveId, Cancel, Distinct, Chain, Shows;
      RemoveKeepsDues(queue, id, basetime);
      var found;
      found, sent := RemoveFromQueue(id);
      if reset && sent != null {
        CancelObservers(sent.remote, sent.token, resources);
      }
    }

    /** `coap_cancel`: one cancellation for each resource. */
    method CancelObservers(remote: int, token: seq<int>, resources: nat)
      requires Valid()
      modifies this, nodes
      ensures Valid() && basetime == old(basetime) && Within(nodes, old(nodes))
      ensures queue == if resources > 0 then Cancel(old(queue), remote, token) else old(queue)
    {
      hide Cancel, Distinct, Chain, Shows;
      for i := 0 to resources
        invariant Valid() && basetime == old(basetime) && Within(nodes, old(nodes))
        invariant queue == if i > 0 then Cancel(old(queue), remote, token) else old(queue)
      {
        CancelTwice(queue, remote, token);
        CancelTwice(old(queue), remote, token);
        CancelAll(remote, token);
      }
    }

    /** Takes out a node that is not the first one; the node behind inherits its time. */
    method Unlink(p: Node, q: Node, ghost k: nat)
      requires Valid() && 1 <= k < |nodes| && p == nodes[k - 1] && q == nodes[k]
      modifies this, nodes
      ensures Valid() && basetime == old(basetime)
      ensures nodes == old(nodes[..k]) + old(nodes[k + 1..]) && q !in nodes && q.next == null && q.id == old(q.id)
      ensures k < |old(queue)| && queue == old(queue[..k]) + Pop(old(queue[k..]))
    {
      hide Distinct, Pop, Shows, Chain;
      DistinctWithout(nodes, k);
      ShowsTimer(nodes, queue, k);
      PopInSteps(queue, k);
      Drop(p, q, k);
      if p.next != null {
        ShowsTimer(nodes, queue, k);
        SetTimer(p.next, p.next.t + q.t, k);
      }
      ShowsTimer(nodes, queue, 0);
      q.next := null;
    }

    method FindBehind(id: int) returns (p: Node, q: Node?, ghost k: nat)
      requires Valid() && sendqueue != null && sendqueue.id != id
      ensures 1 <= k <= |nodes| && p == nodes[k - 1] && q == At(nodes, k)
      ensures forall i :: 0 <= i < k ==> queue[i].msg.id != id
      ensures q != null ==> q.id == id
    {
      p := sendqueue;
      q := sendqueue.next;
      k := 1;
      while q != null && id != q.id
        invariant 1 <= k <= |nodes| && p == nodes[k - 1] && q == At(nodes, k)
        invariant forall i :: 0 <= i < k ==> queue[i].msg.id != id
        decreases |nodes| - k
      {
        p := q;
        q := q.next;
        k := k + 1;
      }
    }

    /** `coap_cancel_all_messages`. */
    method CancelAll(remote: int, token: seq<int>)
      requires Valid()
      modifies this, nodes
      ensures Valid() && basetime == old(basetime)
      ensures queue == Cancel(old(queue), remote, token)
      ensures Within(nodes, old(nodes))
    {
      hide Distinct;
      while sendqueue != null && remote == sendqueue.remote && token == sendqueue.token
        invariant Valid() && basetime == old(basetime)
        invariant Cancel(queue, remote, token) == Cancel(old(queue), remote, token)
        invariant Within(nodes, old(nodes))
        decreases |nodes|
      {
        DistinctTail(nodes);
        sendqueue := sendqueue.next;
        nodes, queue := nodes[1..], queue[1..];
      }
      if sendqueue == null {
        return;
      }
      CancelBehind(remote, token);
    }

    /** The second loop: cancels the matching nodes behind a first one that does not match. */
    method CancelBehind(remote: int, token: seq<int>)
      requires Valid() && sendqueue != null && !Matches(sendqueue.Message(), remote, token)
      modifies this, nodes
      ensures Valid() && basetime == old(basetime)
      ensures queue == Cancel(old(queue), remote, token)
      ensures Within(nodes, old(nodes))
    {
      hide Distinct, Cancel, Chain, Shows;
      var p := sendqueue;
      var q := p.next;
      ghost var k := 1;
      NodeAt(sendqueue, nodes, queue, 0);
      CancelStep(queue, 0, remote, token);
      while q != null
        invariant Valid() && basetime == old(basetime)
        invariant 1 <= k <= |nodes| == |queue| && p == nodes[k - 1] && q == At(nodes, k)
        invariant queue[..k] + Cancel(queue[k..], remote, token) == Cancel(old(queue), remote, token)
        invariant Within(nodes, old(nodes))
        decreases |nodes| - k
      {
        NodeAt(sendqueue, nodes, queue, k);
        CancelStep(queue, k, remote, token);
        if remote == q.remote && token == q.token {
          Drop(p, q, k);
          q := p.next;
        } else {
          p := q;
          q := q.next;
          k := k + 1;
        }
      }
      HeadShown(sendqueue, nodes, queue);
      CancelEnd(queue, remote, token);
    }

    /** Takes out a node together with its timer. */
    method Drop(p: Node, q: Node, ghost k: nat)
      requires Valid() && 1 <= k < |nodes| && p == nodes[k - 1] && q == nodes[k]
      modifies `nodes, `queue, p`next
      ensures Valid() && p.next == At(nodes, k)
      ensures nodes == old(nodes[..k]) + old(nodes[k + 1..])
      ensures k < |old(queue)| && queue == old(queue[..k]) + old(queue[k + 1..])
    {
      hide Distinct, Chain;
      DistinctWithout(nodes, k);
      PassOver(sendqueue, p, q, nodes, k);
      DroppedShows(nodes, queue, k);
      nodes := nodes[..k] + nodes[k + 1..];
      queue := queue[..k] + queue[k + 1..];
    }

    /** `coap_adjust_basetime`: the difference of two times is a signed number. */
    method AdjustBasetime(now: nat) returns (result: nat)
      requires Valid() && now < TICK_RANGE && basetime < TICK_RANGE
      modifies this, nodes
      ensures Valid() && nodes == old(nodes) && sendqueue == old(sendqueue) && basetime == now
      ensures result == AdjustResult(old(queue), TickDiff(now, old(basetime)))
      ensures queue == if old(queue) == [] then [] else Adjust(old(queue), TickDiff(now, old(basetime)))
    {
      hide Distinct, Chain, Shows, Expire, Expired;
      result := 0;
      var delta := TickDiff(now, basetime);
      HeadShown(sendqueue, nodes, queue);
      DeltaReaches(now, basetime);
      NoneExpired(delta);
      if sendqueue != null {
        if delta <= 0 {
          SetTimer(sendqueue, sendqueue.t - delta, 0);
        } else {
          result := ExpireNodes(delta);
        }
      }
      basetime := (basetime + delta) % TICK_RANGE;
    }

    method ExpireNodes(delta: nat) returns (result: nat)
      requires Valid()
      modifies nodes, `queue
      ensures Valid()
      ensures result == Expired(old(queue), delta)
      ensures queue == Expire(old(queue), delta)
    {
      hide Distinct, Expire, Expired;
      var q, t := sendqueue, 0;
      assert queue[..0] + Expire(queue[0..], delta) == Expire(queue, delta) && queue[0..] == queue;
      result := 0;
      ghost var k := 0;
      while q != null && t + q.t < delta
        invariant 0 <= k == result <= |nodes| && q == At(nodes, k) && t <= delta
        invariant Valid() && nodes == old(nodes)
        invariant queue[..k] + Expire(queue[k..], delta - t) == Expire(old(queue), delta)
        invariant k + Expired(queue[k..], delta - t) == Expired(old(queue), delta)
        decreases |nodes| - k
      {
        ExpireStep(queue, k, delta - t);
        t := t + q.t;
        SetTimer(q, 0, k);
        result := result + 1;
        q := q.next;
        k := k + 1;
      }
      ExpireEnd(queue, k, delta - t);
      if q != null {
        SetTimer(q, delta - t, k);
      }
    }

    /** `coap_retransmit` of a node that is not queued. `sent` is the id that `coap_send_impl` returns, invalid when
        the network refuses; the code stores it once the node is linked, which makes no difference to the queue. */
    method Retransmit(node: Node, sent: int) returns (id: int)
      requires Valid() && node !in nodes && node.next == null
      modifies this, nodes, node
      ensures Valid() && basetime == old(basetime)
      ensures queue == Resent(old(queue), old(node.Message()), sent)
      ensures Within(nodes, old(nodes) + [node])
      ensures id == if old(node.retransmitCnt) < COAP_DEFAULT_MAX_RETRANSMIT then sent else COAP_INVALID_TID
    {
      if node.retransmitCnt < COAP_DEFAULT_MAX_RETRANSMIT {
        node.retransmitCnt := node.retransmitCnt + 1;
        node.t := node.timeout * Pow2(node.retransmitCnt) % 0x1_0000_0000;
        node.id := sent;
        InsertNode(node);
        return sent;
      }
      return COAP_INVALID_TID;
    }

    /** The drive loop `EndpointPrivate::send()`; it ends for every queue and time. */
    method Send(now: nat)
      requires Valid() && now < TICK_RANGE && basetime < TICK_RANGE
      modifies this, nodes
      ensures Valid() && basetime == old(basetime)
      ensures queue == Drive(old(queue), (now - basetime) % TICK_RANGE)
    {
      hide Distinct, Pop, Chain, Shows, Drive, Budget, DeltaQueue.Retransmit;
      ghost var elapsed := (now - basetime) % TICK_RANGE;
      HeadShown(sendqueue, nodes, queue);
      DriveStep(queue, elapsed);
      var pdu := sendqueue;
      while pdu != null && pdu.t <= (now - basetime) % TICK_RANGE
        invariant Valid() && basetime == old(basetime) && pdu == sendqueue
        invariant pdu == At(nodes, 0) && |queue| == |nodes| && (queue != [] ==> pdu.t == queue[0].t)
        invariant Drive(queue, elapsed) == Drive(old(queue), elapsed)
        invariant Within(nodes, old(nodes))
        decreases Budget(queue)
      {
        DriveStep(queue, elapsed);
        Round();
        HeadShown(sendqueue, nodes, queue);
        pdu := sendqueue;
      }
      DriveStep(queue, elapsed);
    }

    method Round()
      requires Valid() && queue != []
      modifies this, nodes
      ensures Valid() && basetime == old(basetime) && Within(nodes, old(nodes))
      ensures queue == DeltaQueue.Retransmit(Pop(old(queue)), old(queue[0].msg))
    {
      DistinctTail(nodes);
      hide Distinct, Pop, Insert;
      var popped := PopNext();
      var _ := Retransmit(popped, popped.id);
    }

    /** `coap_send_confirmed`; `sent` is the id that `coap_send_impl` returns, invalid when the network refuses. */
    method SendConfirmed(sent: int, remote: int, token: seq<int>, ticksPerSecond: nat, r: nat, now: nat)
        returns (id: int)
      requires Valid() && r < 256 && now < TICK_RANGE && basetime < TICK_RANGE
      modifies this, nodes
      ensures Valid() && fresh(set n | n in nodes && n !in old(nodes))
      ensures id == sent
      ensures sent == COAP_INVALID_TID ==> queue == old(queue) && basetime == old(basetime)
      ensures sent != COAP_INVALID_TID ==> basetime == if old(queue) == [] then now else old(basetime)
      ensures sent != COAP_INVALID_TID ==>
        var m := Msg(sent, CalcTimeout(ticksPerSecond, r), 0, remote, token);
        && queue == Insert(old(queue), Entry((now - basetime + m.timeout) % TICK_RANGE, m))
        && (basetime <= now && now - basetime + m.timeout < TICK_RANGE ==>
              Dues(queue, basetime) == InsertDue(Dues(old(queue), basetime), Due(now + m.timeout, m)))
    {
      hide Dues, InsertDue, Insert, Distinct, CalcTimeout;
      id := sent;
      if sent == COAP_INVALID_TID {
        return;
      }
      var timeout := CalcTimeout(ticksPerSecond, r);
      var node := new Node(id, timeout, remote, token);
      if sendqueue == null {
        node.t := timeout;
        basetime := now;
      } else {
        node.t := (now - basetime + timeout) % TICK_RANGE;
      }
      InsertKeepsDues(queue, Entry(node.t, node.Message()), basetime);
      InsertNode(node);
    }
  }
}
