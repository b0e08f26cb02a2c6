/** Whole sequences of `addOption` calls, some of them refused for lack of space. */
module CoapRuns {
  import opened Bytes
  import opened OptionWire
  import opened OptionList
  import opened CoapPdu

  /** One call of `addOption`: the number and value asked for, whether it succeeded, and the value then stored. */
  datatype Call = Call(number: uint16, value: seq<byte>, added: bool, stored: seq<byte>)

  /** The options in the message in the order of the calls, under the numbers they really took. */
  function Added(calls: seq<Call>): seq<Opt>
    decreases |calls|, 0
  {
    if calls == [] then []
    else
      var front, c := calls[..|calls| - 1], calls[|calls| - 1];
      Added(front) + if c.added then [Opt(Taken(front, c.number), c.stored)] else []
  }

  /** The largest number in the message. */
  function Largest(calls: seq<Call>): uint16
    decreases |calls|, 0
  {
    if calls == [] then 0
    else
      var front, c := calls[..|calls| - 1], calls[|calls| - 1];
      if c.added && Taken(front, c.number) > Largest(front) then Taken(front, c.number) else Largest(front)
  }

  /** The last number asked for that was not below any in the message: what the message keeps as the largest. */
  function Recorded(calls: seq<Call>): uint16
    decreases |calls|, 0
  {
    if calls == [] then 0
    else if Record(calls) then calls[|calls| - 1].number else Recorded(calls[..|calls| - 1])
  }

  /** The last call asks for a number not below any in the message. */
  predicate Record(calls: seq<Call>)
    requires calls != []
    decreases |calls| - 1, 1
  {
    calls[|calls| - 1].number >= Largest(calls[..|calls| - 1])
  }

  /** The number that a next call really takes. */
  function Taken(calls: seq<Call>, number: uint16): uint16
    decreases |calls|, 1
  {
    if number >= Recorded(calls) || Added(calls) == [] then ToUint16(Largest(calls) + number - Recorded(calls))
    else number
  }

  /** The options asked for and accepted, in the order of the calls. */
  function Accepted(calls: seq<Call>): seq<Opt> {
    if calls == [] then []
    else
      var front, c := calls[..|calls| - 1], calls[|calls| - 1];
      Accepted(front) + if c.added then [Opt(c.number, c.stored)] else []
  }

  /** The i-th call is the last that asked for a number not below any in the message then. */
  predicate LastRecordAt(calls: seq<Call>, i: nat) {
    i < |calls| && Record(calls[..i + 1]) && forall k :: i + 1 < k <= |calls| ==> !Record(calls[..k])
  }

  /** The last call succeeds, and the last call in front of it that asked for no less than all options in the
      message misleads it: that one was refused for more than any, or was misled itself; and this call asks for at
      least as much as that one, or is the first to succeed. */
  predicate Misled(calls: seq<Call>)
    requires calls != []
    decreases |calls|
  {
    var front, c := calls[..|calls| - 1], calls[|calls| - 1];
    && c.added
    && exists i ::
        && 0 <= i < |front| && LastRecordAt(front, i)
        && (c.number >= front[i].number || Added(front) == [])
        && if front[i].added then Misled(front[..i + 1]) else front[i].number > Largest(front[..i])
  }

  /** The last call is the first to succeed, and asks for less than the refused one in front of it. */
  predicate Derailed(calls: seq<Call>)
    requires calls != []
  {
    var front, c := calls[..|calls| - 1], calls[|calls| - 1];
    c.added && Added(front) == [] && front != [] && c.number < front[|front| - 1].number
  }

  predicate NeverDerailed(calls: seq<Call>) {
    forall k :: 0 < k <= |calls| ==> !Derailed(calls[..k])
  }

  predicate NeverMisled(calls: seq<Call>) {
    forall k :: 0 < k <= |calls| ==> !Misled(calls[..k])
  }

  lemma Prefix<T>(s: seq<T>, n: nat)
    requires n <= |s|
    ensures forall k :: 0 <= k <= n ==> s[..n][..k] == s[..k]
    ensures s[..|s|] == s
  {}

  lemma FewerDerailed(calls: seq<Call>, n: nat)
    requires NeverDerailed(calls) && n <= |calls|
    ensures NeverDerailed(calls[..n])
  {
    hide Derailed;
    Prefix(calls, n);
  }

  /** As long as nothing is in the message every call is a record. */
  lemma {:induction false} NothingAdded(calls: seq<Call>)
    requires calls == [] || Added(calls) == []
    ensures Added(calls) == [] && Largest(calls) == 0
        && Recorded(calls) == if calls == [] then 0 else calls[|calls| - 1].number
  {
    if calls != [] {
      NothingAdded(calls[..|calls| - 1]);
    }
  }

  lemma {:induction false} RecordedIsMax(calls: seq<Call>)
    requires NeverDerailed(calls)
    ensures Largest(calls) <= Recorded(calls)
  {
    if calls != [] {
      var front, c := calls[..|calls| - 1], calls[|calls| - 1];
      Prefix(calls, |front|);
      RecordedIsMax(front);
      assert !Derailed(calls[..|calls|]);
      if Added(front) == [] {
        NothingAdded(front);
      }
    }
  }

  /** What the last record says about the recorded and the largest number. */
  lemma {:induction false} LastRecord(calls: seq<Call>) returns (i: nat)
    requires calls != [] && NeverDerailed(calls)
    ensures LastRecordAt(calls, i) && forall k :: LastRecordAt(calls, k) ==> k == i
    ensures Recorded(calls) == calls[i].number >= Largest(calls[..i])
    ensures Largest(calls) == if calls[i].added then Taken(calls[..i], calls[i].number) else Largest(calls[..i])
  {
    var n := |calls| - 1;
    var front := calls[..n];
    Prefix(calls, n);
    RecordedIsMax(front);
    assert !Derailed(calls[..|calls|]);
    if Added(front) == [] {
      NothingAdded(front);
    }
    if Record(calls) {
      i := n;
    } else {
      i := LastRecord(front);
    }
  }

  /** A call takes another number than its own exactly when an earlier one misleads it. */
  lemma {:induction false} MisledExactly(calls: seq<Call>)
    requires calls != [] && calls[|calls| - 1].added && NeverDerailed(calls[..|calls| - 1])
    ensures var front, number := calls[..|calls| - 1], calls[|calls| - 1].number;
      Misled(calls) <==> Taken(front, number) != number
    decreases |calls|
  {
    hide Recorded, Largest, Added, LastRecordAt, Derailed, Record;
    var front, number := calls[..|calls| - 1], calls[|calls| - 1].number;
    RecordedIsMax(front);
    if front == [] {
      NothingAdded([]);
    } else {
      var i := LastRecord(front);
      var upTo := front[..i + 1];
      if front[i].added {
        assert upTo[..i] == front[..i];
        FewerDerailed(front, i);
        MisledExactly(upTo);
      }
    }
  }

  /** A derailed call is misled. */
  lemma DerailedIsMisled(calls: seq<Call>)
    requires calls != [] && Derailed(calls) && NeverDerailed(calls[..|calls| - 1])
    ensures Misled(calls)
  {
    hide Recorded, Largest, Added;
    var front := calls[..|calls| - 1];
    NothingAdded(front);
    MisledExactly(calls);
  }

  lemma NeverMisledMore(calls: seq<Call>)
    requires calls != [] && NeverMisled(calls[..|calls| - 1]) && !Misled(calls)
    ensures NeverMisled(calls)
  {
    hide Misled;
    var front := calls[..|calls| - 1];
    forall k | 0 < k <= |calls| ensures !Misled(calls[..k]) {
      if k < |calls| {
        assert front[..k] == calls[..k];
      } else {
        assert calls[..k] == calls;
      }
    }
  }

  /** Without a refusal no call is misled. */
  lemma {:induction false} AddedIsNotMisled(calls: seq<Call>)
    requires forall i :: 0 <= i < |calls| ==> calls[i].added
    ensures NeverMisled(calls)
    decreases |calls|
  {
    hide Added, Largest, LastRecordAt;
    if calls != [] {
      AddedIsNotMisled(calls[..|calls| - 1]);
      NeverMisledMore(calls);
    }
  }

  /** If no call is misled, all options have the numbers that were asked for. */
  lemma {:induction false} NeverMisledKeepsNumbers(calls: seq<Call>)
    requires NeverMisled(calls)
    ensures NeverDerailed(calls) && Added(calls) == Accepted(calls)
  {
    if calls != [] {
      var front := calls[..|calls| - 1];
      Prefix(calls, |front|);
      NeverMisledKeepsNumbers(front);
      assert !Misled(calls[..|calls|]);
      NoLonger(calls);
      if calls[|calls| - 1].added {
        MisledExactly(calls);
      }
    }
  }

  lemma NoLonger(calls: seq<Call>)
    requires calls != [] && !Misled(calls) && NeverDerailed(calls[..|calls| - 1])
    ensures NeverDerailed(calls)
  {
    hide Derailed, Misled;
    Prefix(calls, |calls| - 1);
    if Derailed(calls) {
      DerailedIsMisled(calls);
    }
  }

  lemma {:induction false} LastOfInsert(prev: uint16, opts: seq<Opt>, o: Opt)
    requires Sorted(prev, opts) && prev <= o.number
    ensures Last(prev, Insert(opts, o)) == if o.number > Last(prev, opts) then o.number else Last(prev, opts)
    decreases |opts|
  {
    if opts != [] && opts[0].number <= o.number {
      LastOfInsert(opts[0].number, opts[1..], o);
    } else {
      LastIsMax(prev, opts);
    }
  }

  lemma OneMore(calls: seq<Call>, c: Call)
    ensures Added(calls + [c]) == Added(calls) + if c.added then [Opt(Taken(calls, c.number), c.stored)] else []
    ensures Largest(calls + [c])
         == if c.added && Taken(calls, c.number) > Largest(calls) then Taken(calls, c.number) else Largest(calls)
    ensures Recorded(calls + [c]) == if c.number >= Largest(calls) then c.number else Recorded(calls)
  {
    assert (calls + [c])[..|calls|] == calls;
  }

  lemma InsertOne(adds: seq<Opt>, o: Opt)
    ensures InsertAll(adds + [o]) == Insert(InsertAll(adds), o) && InsertAll(adds + [o]) != []
  {
    assert (adds + [o])[..|adds|] == adds;
  }

  /** A message with this header and token that holds what these calls left. */
  ghost predicate Holds(p: CoapPDU, calls: seq<Call>, head: seq<byte>)
    reads p, p.pdu
  {
    p.WellFormed() && p.tail == [] && Head(p.Message()) == head && p.opts == InsertAll(Added(calls))
  }

  /** And it keeps the recorded number, which is not below its last option. */
  ghost predicate Follows(p: CoapPDU, calls: seq<Call>, head: seq<byte>)
    reads p, p.pdu
  {
    && Holds(p, calls, head) && p.Valid() && NeverDerailed(calls)
    && p.maxAddedOptionNumber == Recorded(calls) && Last(0, p.opts) == Largest(calls)
    && (p.opts == [] <==> Added(calls) == [])
  }

  /** What a call asked for, and its result. */
  predicate Answers(c: Call, o: Opt, r: int) {
    c.number == o.number && c.value == o.value && r == (if c.added then 0 else 1)
        && (c.added ==> StoredAs(c.stored, c.value))
  }

  /** One more call. */
  method AddOne(p: CoapPDU, o: Opt, ghost calls: seq<Call>, ghost head: seq<byte>) returns (r: int, ghost c: Call)
    requires Follows(p, calls, head) && |o.value| <= 65530
    modifies p, p.pdu
    ensures p.pdu == old(p.pdu) || fresh(p.pdu)
    ensures p.payloadPointer == old(p.payloadPointer) && p.payloadLength == old(p.payloadLength)
    ensures Answers(c, o, r) && (!p.constructedFromBuffer ==> r == 0)
    ensures Holds(p, calls + [c], head) && (!Derailed(calls + [c]) ==> Follows(p, calls + [c], head))
  {
    hide Means, Head, Added, Largest, Recorded, InsertAll, Insert, Needed, InHole, StoredAs, Overwritten, Meaningless;
    ghost var was, max := p.opts, p.maxAddedOptionNumber;
    WellSorted(p.Message(), was, []);
    ghost var stored, at, end;
    r, stored, at, end := p.AddOption(o.number, o.value);
    c := Call(o.number, o.value, r == 0, stored);
    OneMore(calls, c);
    AfterCall(calls, c, was, max);
  }

  /** What a call does to the options and the recorded number. */
  lemma AfterCall(calls: seq<Call>, c: Call, was: seq<Opt>, max: uint16)
    requires was == InsertAll(Added(calls)) && Sorted(0, was) && NeverDerailed(calls)
    requires max == Recorded(calls) && Last(0, was) == Largest(calls) <= max && (was == [] <==> Added(calls) == [])
    ensures EffectiveNumber(was, [], max, c.number) == Taken(calls, c.number)
    ensures Added(calls) + [] == Added(calls)
    ensures var taken := Opt(Taken(calls, c.number), c.stored); var now := Insert(was, taken);
      && InsertAll(Added(calls) + [taken]) == now != []
      && Last(0, now) == if taken.number > Last(0, was) then taken.number else Last(0, was)
    ensures !Derailed(calls + [c]) ==> NeverDerailed(calls + [c])
    ensures was == [] && c.number < max && c.added ==> Derailed(calls + [c])
  {
    hide Added, Largest, Recorded, InsertAll, Insert, Sorted;
    var taken := Opt(Taken(calls, c.number), c.stored);
    InsertOne(Added(calls), taken);
    LastOfInsert(0, was, taken);
    var all := calls + [c];
    assert all[..|calls|] == calls;
    Prefix(all, |calls|);
    if was == [] {
      NothingAdded(calls);
    }
  }

  lemma WellSorted(b: seq<byte>, opts: seq<Opt>, tail: seq<byte>)
    requires Means(b, opts, tail)
    ensures Sorted(0, opts)
  {}

  /** What a run of calls asked for, and its results. */
  predicate Asked(calls: seq<Call>, adds: seq<Opt>, results: seq<int>) {
    |calls| == |results| <= |adds| && forall i :: 0 <= i < |calls| ==> Answers(calls[i], adds[i], results[i])
  }

  /** What such a run leaves of `adds`. A run ends early only when its last call is derailed. If no call is misled,
      the options have the numbers asked for; a growing message refuses and misleads none. */
  ghost predicate Outcome(calls: seq<Call>, adds: seq<Opt>, growing: bool) {
    && (forall k :: 0 < k < |calls| ==> !Derailed(calls[..k]))
    && (|calls| < |adds| ==> calls != [] && Derailed(calls))
    && (NeverMisled(calls) ==> |calls| == |adds| && Added(calls) == Accepted(calls))
    && (growing ==> NeverMisled(calls) && |Accepted(calls)| == |adds|)
    && (growing && (forall o :: o in adds ==> |o.value| < 269) ==> Accepted(calls) == adds)
  }

  /** Where such a run stands: `any` says that some call has succeeded, `derailed` that the last one was derailed. */
  ghost predicate Running(calls: seq<Call>, adds: seq<Opt>, results: seq<int>, growing: bool, any: bool,
                          derailed: bool)
  {
    && Asked(calls, adds, results)
    && (calls == [] || NeverDerailed(calls[..|calls| - 1]))
    && (if derailed then calls != [] && Derailed(calls) else NeverDerailed(calls) && (any <==> Added(calls) != []))
    && (growing ==> forall i :: 0 <= i < |calls| ==> calls[i].added)
  }

  lemma RunStarts(adds: seq<Opt>, growing: bool)
    ensures Running([], adds, [], growing, false, false)
  {}

  /** One more call; how the caller can tell from the results that it was derailed. */
  lemma RunGoesOn(calls: seq<Call>, adds: seq<Opt>, results: seq<int>, growing: bool, any: bool, c: Call, r: int)
    requires Running(calls, adds, results, growing, any, false)
    requires |results| < |adds| && Answers(c, adds[|results|], r) && (growing ==> r == 0)
    ensures var i := |results|;
      var derailed := r == 0 && !any && i > 0 && adds[i].number < adds[i - 1].number;
      && Running(calls + [c], adds, results + [r], growing, any || r == 0, derailed)
      && (derailed <==> Derailed(calls + [c]))
  {
    hide Derailed, NeverDerailed, Added, StoredAs;
    var i := |results|;
    assert i > 0 ==> Answers(calls[i - 1], adds[i - 1], results[i - 1]);
    LastAnswer(calls, c, adds[i], if i > 0 then adds[i - 1].number else 0, any);
  }

  /** `addOption` for the elements of `adds`, in that order, as long as the recorded number is not below the last
      option. The message then holds the stable sort of what was added, under the numbers really taken. */
  method AddAll(p: CoapPDU, adds: seq<Opt>) returns (results: seq<int>, ghost calls: seq<Call>)
    requires p.Valid() && p.opts == [] && p.tail == [] && p.maxAddedOptionNumber == 0
    requires forall o :: o in adds ==> |o.value| <= 65530
    modifies p, p.pdu
    ensures p.pdu == old(p.pdu) || fresh(p.pdu)
    ensures p.payloadPointer == old(p.payloadPointer) && p.payloadLength == old(p.payloadLength)
    ensures p.WellFormed() && p.tail == [] && Head(p.Message()) == Head(old(p.Message()))
    ensures Asked(calls, adds, results) && Outcome(calls, adds, !p.constructedFromBuffer)
    ensures p.opts == InsertAll(Added(calls)) && StableSortOf(p.opts, Added(calls))
  {
    hide Means, Head, Added, InsertAll, Follows, Holds, StableSortOf, Derailed, Outcome, Asked, Answers, Running;
    results, calls := [], [];
    ghost var head := NoCalls(p);
    ghost var growing := !p.constructedFromBuffer;
    var any, derailed := false, false;
    RunStarts(adds, growing);
    while |results| < |adds| && !derailed
      invariant p.pdu == old(p.pdu) || fresh(p.pdu)
      invariant p.payloadPointer == old(p.payloadPointer) && p.payloadLength == old(p.payloadLength)
      invariant Running(calls, adds, results, growing, any, derailed) && |results| <= |adds|
      invariant Holds(p, calls, head) && (!derailed ==> Follows(p, calls, head))
    {
      var i := |results|;
      assert adds[i] in adds;
      var r;
      ghost var c;
      r, c := AddOne(p, adds[i], calls, head);
      RunGoesOn(calls, adds, results, growing, any, c, r);
      calls, results := calls + [c], results + [r];
      derailed := r == 0 && !any && i > 0 && adds[i].number < adds[i - 1].number;
      any := any || r == 0;
    }
    RunEnds(calls, adds, results, growing, any, derailed);
    Sortable(calls, adds, results);
    Unhold(p, calls, head);
  }

  lemma NoCalls(p: CoapPDU) returns (head: seq<byte>)
    requires p.Valid() && p.opts == [] && p.tail == [] && p.maxAddedOptionNumber == 0
    ensures head == Head(p.Message()) && Follows(p, [], head) && Holds(p, [], head)
  {
    head := Head(p.Message());
  }

  lemma Unhold(p: CoapPDU, calls: seq<Call>, head: seq<byte>)
    requires Holds(p, calls, head)
    ensures p.WellFormed() && p.tail == [] && p.opts == InsertAll(Added(calls)) && Head(p.Message()) == head
  {}

  /** How a derailed call shows in the requests and results. */
  lemma LastAnswer(calls: seq<Call>, c: Call, o: Opt, before: uint16, any: bool)
    requires NeverDerailed(calls) && (any <==> Added(calls) != []) && c.number == o.number
    requires calls != [] ==> before == calls[|calls| - 1].number
    ensures var all := calls + [c];
      && all[..|all| - 1] == calls && (Added(all) != [] <==> any || c.added)
      && (Derailed(all) <==> c.added && !any && calls != [] && o.number < before)
      && (!Derailed(all) ==> NeverDerailed(all))
  {
    hide Added, Taken, Largest, Recorded;
    var all := calls + [c];
    assert all[..|calls|] == calls;
    OneMore(calls, c);
    Prefix(all, |calls|);
  }

  lemma RunEnds(calls: seq<Call>, adds: seq<Opt>, results: seq<int>, growing: bool, any: bool, derailed: bool)
    requires Running(calls, adds, results, growing, any, derailed) && (|results| < |adds| ==> derailed)
    ensures Asked(calls, adds, results) && Outcome(calls, adds, growing)
  {
    hide Misled, Added, Derailed, StoredAs;
    if calls != [] {
      Prefix(calls, |calls| - 1);
    }
    if NeverMisled(calls) {
      NeverMisledKeepsNumbers(calls);
      assert calls[..|calls|] == calls;
    }
    if growing {
      AddedIsNotMisled(calls);
      AllAccepted(calls, adds, results);
    }
  }

  lemma {:induction false} AllAccepted(calls: seq<Call>, adds: seq<Opt>, results: seq<int>)
    requires Asked(calls, adds, results) && forall i :: 0 <= i < |calls| ==> calls[i].added
    ensures |Accepted(calls)| == |calls|
    ensures |calls| == |adds| && (forall o :: o in adds ==> |o.value| < 269) ==> Accepted(calls) == adds
    decreases |calls|
  {
    if calls != [] {
      var n := |calls| - 1;
      AllAccepted(calls[..n], adds[..n], results[..n]);
      if |calls| == |adds| && forall o :: o in adds ==> |o.value| < 269 {
        assert adds == adds[..n] + [adds[n]] && adds[n] in adds && forall o :: o in adds[..n] ==> o in adds;
        assert Answers(calls[n], adds[n], results[n]);
        ShortStored(calls[n].stored, adds[n].value);
      }
    }
  }

  /** What was added has 16-bit lengths and can be sorted. */
  lemma Sortable(calls: seq<Call>, adds: seq<Opt>, results: seq<int>)
    requires Asked(calls, adds, results)
    ensures StableSortOf(InsertAll(Added(calls)), Added(calls))
  {
    hide StableSortOf, InsertAll, Taken;
    ShortAdded(calls, adds, results);
    InsertAllIsStableSort(Added(calls));
  }

  lemma {:induction false} ShortAdded(calls: seq<Call>, adds: seq<Opt>, results: seq<int>)
    requires Asked(calls, adds, results)
    ensures forall o :: o in Added(calls) ==> |o.value| < 0x1_0000
    decreases |calls|
  {
    hide Taken;
    if calls != [] {
      var n := |calls| - 1;
      assert Answers(calls[n], adds[n], results[n]);
      ShortAdded(calls[..n], adds, results[..n]);
    }
  }
}
