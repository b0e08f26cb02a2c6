/** The SDK's event loop: commands are scheduled from any thread under a lock, and an event counter wakes the
    loop when it waits. */
module Executer {
  datatype Option<C> = None | Some(value: C)

  /** Where the loop thread is. Check: the test in `exec`. Grab: the start of `step`. Batch: running the commands it
      took. Waiting: in `epoll_wait`, inside the `Synchronize` command `on`, which runs in the batch or as the
      primary command. Reading: about to read the counter. Restore: putting the primary command back. */
  datatype Place<C> = Check | Grab | Batch | Waiting(on: C, inBatch: bool) | Reading(inBatch: bool) | Restore | Done

  /** `home` is the `Synchronize` command of the application, which waits for its event counter; `foreign` are
      those of other synchronizers, which wait for counters of their own. All other commands run and return.
      `pending` counts schedulers that stand between enqueueing and waking. `log` lists all commands ever put in
      the queue, `executed` those run, `grabbed` is the length of the log at the last grab, and `started` lists the
      primary commands run. */
  datatype State<!C> = State(
    home: C, foreign: set<C>,
    place: Place<C>, running: bool,
    queue: seq<C>, batch: seq<C>, primary: Option<C>, current: Option<C>,
    counter: nat, pending: nat,
    executed: seq<C>, log: seq<C>, grabbed: nat, started: seq<C>)

  /** One atomic step of some thread. */
  datatype Event<C> =
    | Enqueue(command: C)          // `Executer::schedule(command, false)`
    | Skip                         // the `skip` behind it: `eventfd_write`
    | SchedulePrimary(command: C)  // `Executer::schedule(command, true)`
    | Exit                         // `Executer::exit`
    | Advance                      // the loop thread goes on
    | Return                       // `epoll_wait` returns for a timeout or other descriptors only
    | WakeUp                       // `epoll_wait` returns for the counter

  /** The command waits in `epoll_wait`. */
  predicate Waits<C(==)>(s: State<C>, c: C) {
    c == s.home || c in s.foreign
  }

  predicate Enabled<C(==)>(s: State<C>, e: Event<C>) {
    match e
    case Skip => s.pending > 0
    case Advance => !s.place.Waiting? && s.place != Done
    case Return => s.place.Waiting?
    case WakeUp => s.place.Waiting? && s.place.on == s.home && s.counter > 0
    case _ => true
  }

  function Step<C(==)>(s: State<C>, e: Event<C>): State<C>
    requires Enabled(s, e)
  {
    match e
    case Enqueue(c) => s.(queue := s.queue + [c], log := s.log + [c], pending := s.pending + 1)
    case Skip => s.(counter := s.counter + 1, pending := s.pending - 1)
    case SchedulePrimary(c) =>
      if Displaces(s, e) then
        s.(queue := s.queue + [s.primary.value], log := s.log + [s.primary.value], primary := Some(c))
      else s.(primary := Some(c))
    case Exit => s.(running := false)
    case Return => s.(place := if s.place.inBatch then Batch else Restore)
    case WakeUp => s.(place := Reading(s.place.inBatch))
    case Advance => LoopStep(s)
  }

  /** A primary command that replaces another one pushes it into the queue, and nobody wakes the loop for it. */
  predicate Displaces<C(==)>(s: State<C>, e: Event<C>) {
    e.SchedulePrimary? && s.primary.Some? && s.primary.value != e.command
  }

  function LoopStep<C(==)>(s: State<C>): State<C>
    requires !s.place.Waiting? && s.place != Done
  {
    match s.place
    case Check => if s.running then s.(place := Grab) else s.(place := Done, queue := [])
    case Grab => s.(place := Batch, batch := s.queue, queue := [], grabbed := |s.log|)
    case Batch =>
      if s.batch != [] then
        var c := s.batch[0];
        s.(executed := s.executed + [c], batch := s.batch[1..],
           place := if Waits(s, c) then Waiting(c, true) else Batch)
      else if s.primary == None then s.(current := None, place := Check)
      else
        var c := s.primary.value;
        s.(current := s.primary, primary := None, started := s.started + [c],
           place := if Waits(s, c) then Waiting(c, false) else Restore)
    case Reading(inBatch) => s.(counter := 0, place := if inBatch then Batch else Restore)
    case Restore => s.(primary := if s.primary == None then s.current else s.primary, place := Check)
    case _ => s
  }

  function Start<C>(synchronize: C, foreign: set<C>): State<C> {
    State(synchronize, foreign, Check, true, [], [], Some(synchronize), None, 0, 0, [], [], 0, [])
  }

  ghost predicate LegalRun<C>(s: State<C>, es: seq<Event<C>>)
    decreases |es|
  {
    es == [] || (Enabled(s, es[0]) && LegalRun(Step(s, es[0]), es[1..]))
  }

  ghost function Run<C>(s: State<C>, es: seq<Event<C>>): State<C>
    requires LegalRun(s, es)
    decreases |es|
  {
    if es == [] then s else Run(Step(s, es[0]), es[1..])
  }

  // ----- order -----

  /** Nothing is lost, doubled or reordered: commands run, then the batch, then the queue make up the log, until
      the loop ends and drops what is queued. Outside a batch, all commands of the last grab have run. */
  ghost predicate InOrder<C>(s: State<C>) {
    && s.grabbed <= |s.log|
    && s.executed + s.batch == s.log[..s.grabbed]
    && (s.place != Done ==> s.queue == s.log[s.grabbed..])
    && (s.place == Batch || InBatch(s.place) || s.batch == [])
  }

  /** A command of the batch waits. */
  predicate InBatch<C>(place: Place<C>) {
    (place.Waiting? || place.Reading?) && place.inBatch
  }

  lemma StepInOrder<C>(s: State<C>, e: Event<C>)
    requires InOrder(s) && Enabled(s, e)
    ensures InOrder(Step(s, e))
  {
  }

  /** Under any interleaving with scheduling threads. */
  lemma {:induction false} RunInOrder<C>(s: State<C>, es: seq<Event<C>>)
    requires InOrder(s) && LegalRun(s, es)
    ensures InOrder(Run(s, es))
    decreases |es|
  {
    hide InOrder, Step, Enabled;
    if es != [] {
      StepInOrder(s, es[0]);
      RunInOrder(Step(s, es[0]), es[1..]);
    }
  }

  // ----- waking -----

  /** While the loop is in its batch or waits, a queued command has its wake-up: the counter is positive, or a
      scheduler stands between enqueueing and waking. That does not help a loop that waits for another counter. */
  predicate Awake<C(==)>(s: State<C>) {
    match s.place
    case Batch => s.queue == [] || s.counter > 0 || s.pending > 0
    case Waiting(on, _) => s.queue == [] || (on == s.home && (s.counter > 0 || s.pending > 0))
    case _ => true
  }

  /** The command the loop is about to run waits for another counter. */
  predicate MeetsForeign<C(==)>(s: State<C>) {
    var next := if s.batch != [] then Some(s.batch[0]) else s.primary;
    s.place == Batch && next.Some? && Waits(s, next.value) && next.value != s.home
  }

  /** The steps after which a queued command may wait unnoticed: a primary command displaced behind the grab,
      with no wake-up under way or in a loop that waits for another counter; a command enqueued in such a loop;
      the start of such a wait with commands queued; and the counter read in the middle of a batch. */
  predicate Unnoticed<C(==)>(s: State<C>, e: Event<C>) {
    var stranger := s.place.Waiting? && s.place.on != s.home;
    || (Displaces(s, e) && (s.place == Batch || s.place.Waiting?) && ((s.counter == 0 && s.pending == 0) || stranger))
    || (e.Enqueue? && stranger)
    || (e == Advance && s.queue != [] && MeetsForeign(s))
    || (e == Advance && s.queue != [] && s.place == Reading(true) && s.pending == 0)
  }

  lemma StepAwake<C>(s: State<C>, e: Event<C>)
    requires Awake(s) && Enabled(s, e)
    ensures Awake(Step(s, e)) <==> !Unnoticed(s, e)
  {
  }

  /** No step of the run displaces a primary command unnoticed. */
  ghost predicate Noticed<C>(s: State<C>, es: seq<Event<C>>)
    requires LegalRun(s, es)
    decreases |es|
  {
    es == [] || (!Unnoticed(s, es[0]) && Noticed(Step(s, es[0]), es[1..]))
  }

  /** No state along the run has the loop wait for a command that nobody will wake it for. */
  ghost predicate AwakeThroughout<C>(s: State<C>, es: seq<Event<C>>)
    requires LegalRun(s, es)
    decreases |es|
  {
    Awake(s) && (es == [] || AwakeThroughout(Step(s, es[0]), es[1..]))
  }

  /** The wake-up protocol: that holds along exactly these runs. */
  lemma {:induction false} RunAwake<C>(s: State<C>, es: seq<Event<C>>)
    requires Awake(s) && LegalRun(s, es)
    ensures AwakeThroughout(s, es) <==> Noticed(s, es)
    ensures Noticed(s, es) ==> Awake(Run(s, es))
    decreases |es|
  {
    hide Awake, Step, Enabled, Unnoticed;
    if es != [] {
      StepAwake(s, es[0]);
      if Awake(Step(s, es[0])) {
        RunAwake(Step(s, es[0]), es[1..]);
      }
    }
  }

  /** None of the commands waits. */
  predicate AllReturn<C(==)>(cs: seq<C>, home: C, foreign: set<C>) {
    forall i :: 0 <= i < |cs| ==> cs[i] != home && cs[i] !in foreign
  }

  /** Only `home` is a `Synchronize` command, and only as the primary one. */
  predicate Ordinary<C(==)>(s: State<C>) {
    && AllReturn(s.queue, s.home, s.foreign) && AllReturn(s.batch, s.home, s.foreign)
    && s.primary in [None, Some(s.home)] && s.current in [None, Some(s.home)]
    && (s.place.Waiting? ==> s.place == Waiting(s.home, false)) && s.place != Reading(true)
  }

  /** The application schedules ordinary commands only. */
  predicate ByApplication<C(==)>(s: State<C>, e: Event<C>) {
    !e.SchedulePrimary? && (e.Enqueue? ==> !Waits(s, e.command))
  }

  lemma StepOrdinary<C>(s: State<C>, e: Event<C>)
    requires Ordinary(s) && Enabled(s, e) && ByApplication(s, e)
    ensures Ordinary(Step(s, e))
    ensures Step(s, e).home == s.home && Step(s, e).foreign == s.foreign
  {
    hide AllReturn, LoopStep;
    match e
    case Enqueue(c) => OneMoreReturns(s.queue, c, s.home, s.foreign);
    case Advance => LoopStepOrdinary(s);
    case _ =>
  }

  lemma OneMoreReturns<C>(cs: seq<C>, c: C, home: C, foreign: set<C>)
    ensures AllReturn(cs + [c], home, foreign) <==> AllReturn(cs, home, foreign) && c != home && c !in foreign
  {
    assert (cs + [c])[|cs|] == c && forall i :: 0 <= i < |cs| ==> (cs + [c])[i] == cs[i];
  }

  lemma LoopStepOrdinary<C>(s: State<C>)
    requires Ordinary(s) && Enabled(s, Advance)
    ensures var t := LoopStep(s); Ordinary(t) && t.home == s.home && t.foreign == s.foreign
  {
    hide AllReturn;
    FewerReturn(s.batch, s.home, s.foreign);
    match s.place
    case Batch =>
      if s.batch == [] {
        assert s.primary == None || s.primary.value == s.home;
      }
    case _ =>
  }

  lemma FewerReturn<C>(cs: seq<C>, home: C, foreign: set<C>)
    ensures AllReturn([], home, foreign)
    ensures AllReturn(cs, home, foreign) && cs != [] ==>
      AllReturn(cs[1..], home, foreign) && cs[0] != home && cs[0] !in foreign
  {
  }

  lemma OrdinaryNoticed<C>(s: State<C>, e: Event<C>)
    requires Ordinary(s) && ByApplication(s, e)
    ensures !Unnoticed(s, e)
  {
  }

  /** Runs in which only ordinary commands are scheduled, as the application does. */
  lemma {:induction false} OrdinaryIsNoticed<C>(s: State<C>, es: seq<Event<C>>)
    requires Ordinary(s) && LegalRun(s, es) && forall i :: 0 <= i < |es| ==> ByApplication(s, es[i])
    ensures Noticed(s, es)
    decreases |es|
  {
    hide Step, Enabled, Ordinary, Unnoticed;
    if es != [] {
      assert ByApplication(s, es[0]);
      StepOrdinary(s, es[0]);
      OrdinaryNoticed(s, es[0]);
      forall i | 0 <= i < |es[1..]| ensures ByApplication(Step(s, es[0]), es[1..][i]) {
        assert es[1..][i] == es[i + 1] && ByApplication(s, es[i + 1]);
      }
      OrdinaryIsNoticed(Step(s, es[0]), es[1..]);
    }
  }

  /** From the start, as long as only ordinary commands are scheduled: all commands run are the first ones scheduled,
      in order, the others are waiting to run, and the loop never waits for `epoll_wait` with a command queued and
      no wake-up under way. */
  lemma ApplicationRuns<C>(synchronize: C, foreign: set<C>, es: seq<Event<C>>)
    requires LegalRun(Start(synchronize, foreign), es)
    requires forall i :: 0 <= i < |es| ==> ByApplication(Start(synchronize, foreign), es[i])
    ensures var t := Run(Start(synchronize, foreign), es);
      && t.executed <= t.log && (t.place != Done ==> t.executed + t.batch + t.queue == t.log)
      && (t.place.Waiting? && t.queue != [] ==> t.place.on == synchronize && (t.counter > 0 || t.pending > 0))
    ensures AwakeThroughout(Start(synchronize, foreign), es)
  {
    hide LegalRun, Run, Step, Enabled, Unnoticed, ByApplication;
    var s := Start(synchronize, foreign);
    OrdinaryIsNoticed(s, es);
    RunInOrder(s, es);
    RunAwake(s, es);
    HomeStays(s, es);
  }

  lemma {:induction false} HomeStays<C>(s: State<C>, es: seq<Event<C>>)
    requires LegalRun(s, es)
    ensures Run(s, es).home == s.home && Run(s, es).foreign == s.foreign
    decreases |es|
  {
    if es != [] {
      HomeStays(Step(s, es[0]), es[1..]);
    }
  }

  lemma Four<C>(s: State<C>, a: Event<C>, b: Event<C>, c: Event<C>, d: Event<C>)
    requires Enabled(s, a) && Enabled(Step(s, a), b) && Enabled(Step(Step(s, a), b), c)
    requires Enabled(Step(Step(Step(s, a), b), c), d)
    ensures LegalRun(s, [a, b, c, d]) && Run(s, [a, b, c, d]) == Step(Step(Step(Step(s, a), b), c), d)
  {
    hide Step, Enabled;
    var s1 := Step(s, a);
    var s2 := Step(s1, b);
    var s3 := Step(s2, c);
    RunCons(s3, d, []);
    RunCons(s2, c, [d]);
    RunCons(s1, b, [c, d]);
    RunCons(s, a, [b, c, d]);
    assert [d] + [] == [d] && [c] + [d] == [c, d] && [b] + [c, d] == [b, c, d] && [a] + [b, c, d] == [a, b, c, d];
  }

  /** A run that leaves the loop waiting with nothing to wake it: the `Synchronize` command of a second synchronizer
      arrives as primary while the batch runs, and displaces the first one into the queue. */
  lemma DisplacedUnnoticed<C>(synchronize: C, other: C)
    requires synchronize != other
    ensures var es := [Advance, Advance, SchedulePrimary(other), Advance];
      && LegalRun(Start(synchronize, {other}), es)
      && var s := Run(Start(synchronize, {other}), es);
         s.place == Waiting(other, false) && s.queue == [synchronize] && s.counter == 0 && s.pending == 0
  {
    Four(Start(synchronize, {other}), Advance, Advance, SchedulePrimary(other), Advance);
  }

  /** A primary command that returns does no such harm: the loop goes on, takes the displaced command with the next
      batch, and waits in it. */
  lemma DisplacedByOrdinary<C>(synchronize: C, other: C)
    requires synchronize != other
    ensures var es := [Advance, Advance, SchedulePrimary(other), Advance];
      && LegalRun(Start(synchronize, {}), es)
      && var s := Run(Start(synchronize, {}), es);
         && s.place == Restore && s.queue == [synchronize]
         && LegalRun(s, [Advance, Advance, Advance, Advance])
         && var t := Run(s, [Advance, Advance, Advance, Advance]);
            t.place == Waiting(synchronize, true) && t.queue == [] && t.executed == [synchronize]
                && t.primary == Some(other)
  {
    Four(Start(synchronize, {}), Advance, Advance, SchedulePrimary(other), Advance);
    var s := Run(Start(synchronize, {}), [Advance, Advance, SchedulePrimary(other), Advance]);
    Four(s, Advance, Advance, Advance, Advance);
  }

  /** The counter read by a displaced `Synchronize` command in the batch was meant for the queue: `home` waits again
      as primary, with a command queued and nothing to wake it. */
  lemma WakeUpConsumed<C>(s: State<C>, c: C)
    requires s.place == Waiting(s.home, true) && s.batch == [] && s.primary == Some(s.home)
    requires s.queue == [] && s.counter == 0 && s.pending == 0
    ensures var arrive := [Enqueue(c), Skip, WakeUp, Advance];
      && LegalRun(s, arrive)
      && var t := Run(s, arrive);
         && Enabled(t, Advance)
         && var u := Step(t, Advance);
            u.place == Waiting(s.home, false) && u.queue == [c] && u.counter == 0 && u.pending == 0
  {
    Four(s, Enqueue(c), Skip, WakeUp, Advance);
  }

  // ----- progress -----

  function Advances<C>(n: nat): seq<Event<C>> {
    if n == 0 then [] else [Advance] + Advances(n - 1)
  }

  lemma RunCons<C>(s: State<C>, e: Event<C>, es: seq<Event<C>>)
    requires Enabled(s, e) && LegalRun(Step(s, e), es)
    ensures LegalRun(s, [e] + es) && Run(s, [e] + es) == Run(Step(s, e), es)
  {
    assert ([e] + es)[1..] == es;
  }

  lemma {:induction false} BatchRuns<C>(s: State<C>)
    requires s.place == Batch && AllReturn(s.batch, s.home, s.foreign)
    ensures LegalRun(s, Advances(|s.batch|))
    ensures Run(s, Advances(|s.batch|)) == s.(executed := s.executed + s.batch, batch := [])
    decreases |s.batch|
  {
    if s.batch == [] {
      assert s.executed + s.batch == s.executed;
    } else {
      var s' := Step(s, Advance);
      BatchRuns(s');
      RunCons(s, Advance, Advances(|s'.batch|));
      assert s.executed + [s.batch[0]] + s.batch[1..] == s.executed + s.batch;
    }
  }

  /** A waiting loop with a positive counter can wake up, and the loop's own next steps then run every command
      scheduled so far: five of them and one for each command. */
  lemma WakesAndRunsAll<C>(s: State<C>)
    requires InOrder(s) && s.place == Waiting(s.home, false) && s.running && s.counter > 0
    requires AllReturn(s.queue, s.home, s.foreign)
    ensures var es := [WakeUp] + Advances(4 + |s.queue|);
      LegalRun(s, es) && Run(s, es).executed == s.log
  {
    hide Step, InOrder, LegalRun, Run, Enabled;
    var n, s5 := |s.queue|, Grabbed(s);
    BatchRuns(s5);
    FourMore<C>(n);
    FiveSteps(s, Advances(n));
    AllExecuted(s);
  }

  /** Where the loop is after it woke up and grabbed the queue. */
  function Grabbed<C(==)>(s: State<C>): State<C> {
    s.(place := Batch, counter := 0, batch := s.queue, queue := [], grabbed := |s.log|,
       primary := if s.primary == None then s.current else s.primary)
  }

  lemma FourMore<C>(n: nat)
    ensures Advances<C>(4 + n) == [Advance] + ([Advance] + ([Advance] + ([Advance] + Advances<C>(n))))
  {
    assert Advances<C>(4 + n) == [Advance] + Advances<C>(3 + n);
    assert Advances<C>(3 + n) == [Advance] + Advances<C>(2 + n);
  }

  lemma FiveSteps<C>(s: State<C>, es: seq<Event<C>>)
    requires s.place == Waiting(s.home, false) && s.running && s.counter > 0 && LegalRun(Grabbed(s), es)
    ensures var all := [WakeUp] + ([Advance] + ([Advance] + ([Advance] + ([Advance] + es))));
      LegalRun(s, all) && Run(s, all) == Run(Grabbed(s), es)
  {
    hide LegalRun, Run;
    var s1 := Step(s, WakeUp);
    var s2 := Step(s1, Advance);
    var s3 := Step(s2, Advance);
    var s4 := Step(s3, Advance);
    assert Step(s4, Advance) == Grabbed(s);
    RunCons(s4, Advance, es);
    RunCons(s3, Advance, [Advance] + es);
    RunCons(s2, Advance, [Advance] + ([Advance] + es));
    RunCons(s1, Advance, [Advance] + ([Advance] + ([Advance] + es)));
    RunCons(s, WakeUp, [Advance] + ([Advance] + ([Advance] + ([Advance] + es))));
  }

  lemma AllExecuted<C>(s: State<C>)
    requires InOrder(s) && s.place == Waiting(s.home, false)
    ensures s.executed + s.queue == s.log
  {
    assert s.executed + s.batch == s.executed;
  }

  // ----- primary commands -----

  /** Nothing is taken out of the two histories. */
  lemma StepGrows<C>(s: State<C>, e: Event<C>)
    requires Enabled(s, e)
    ensures s.started <= Step(s, e).started && s.log <= Step(s, e).log
  {
  }

  /** A primary command stays the primary one until it is started or another one displaces it into the queue. */
  lemma StepKeepsPrimary<C>(s: State<C>, e: Event<C>, c: C)
    requires Enabled(s, e) && s.primary == Some(c)
    ensures var t := Step(s, e);
      t.primary == Some(c) || t.started == s.started + [c] || t.log == s.log + [c]
  {
  }

  lemma {:induction false} RunGrows<C>(s: State<C>, es: seq<Event<C>>)
    requires LegalRun(s, es)
    ensures s.started <= Run(s, es).started && s.log <= Run(s, es).log
    decreases |es|
  {
    hide Step, Enabled;
    if es != [] {
      StepGrows(s, es[0]);
      RunGrows(Step(s, es[0]), es[1..]);
    }
  }

  /** `c` is the primary command, or was started or queued since `before`. */
  predicate Kept<C(==)>(before: State<C>, s: State<C>, c: C)
    requires before.started <= s.started && before.log <= s.log
  {
    s.primary == Some(c) || c in s.started[|before.started|..] || c in s.log[|before.log|..]
  }

  /** No schedule loses a command that is scheduled as primary: whatever the threads do, it is then the primary one,
      or was started, or went into the queue. */
  lemma PrimaryKept<C>(s: State<C>, c: C, es: seq<Event<C>>)
    requires LegalRun(s, [SchedulePrimary(c)] + es)
    ensures var t := Run(s, [SchedulePrimary(c)] + es);
      s.started <= t.started && s.log <= t.log && Kept(s, t, c)
  {
    hide LegalRun, Run;
    RunFirst(s, SchedulePrimary(c), es);
    KeptAlong(Step(s, SchedulePrimary(c)), es, c);
    RunGrows(Step(s, SchedulePrimary(c)), es);
  }

  lemma RunFirst<C>(s: State<C>, e: Event<C>, es: seq<Event<C>>)
    requires LegalRun(s, [e] + es)
    ensures Enabled(s, e) && LegalRun(Step(s, e), es) && Run(s, [e] + es) == Run(Step(s, e), es)
  {
    assert ([e] + es)[1..] == es;
  }

  lemma {:induction false} KeptAlong<C>(s: State<C>, es: seq<Event<C>>, c: C)
    requires LegalRun(s, es) && s.primary == Some(c)
    ensures var t := Run(s, es); s.started <= t.started && s.log <= t.log && Kept(s, t, c)
    decreases |es|
  {
    hide Step, Enabled;
    RunGrows(s, es);
    if es != [] {
      var s' := Step(s, es[0]);
      StepGrows(s, es[0]);
      StepKeepsPrimary(s, es[0], c);
      RunGrows(s', es[1..]);
      if s'.primary == Some(c) {
        KeptAlong(s', es[1..], c);
      } else if s'.started == s.started + [c] {
        assert s'.started[|s.started|] == c;
      } else {
        assert s'.log[|s.log|] == c;
      }
    }
  }

  // ----- a primary command runs -----

  /** The loop runs the primary command it took. */
  predicate RunsPrimary<C(==)>(place: Place<C>) {
    place == Restore || ((place.Waiting? || place.Reading?) && !place.inBatch)
  }

  ghost predicate KeepsRunning<C>(s: State<C>, es: seq<Event<C>>)
    requires LegalRun(s, es)
    decreases |es|
  {
    RunsPrimary(s.place) && (es == [] || KeepsRunning(Step(s, es[0]), es[1..]))
  }

  /** The last primary command scheduled by these events. */
  function Latest<C>(es: seq<Event<C>>): Option<C>
    decreases |es|
  {
    if es == [] then None
    else if es[|es| - 1].SchedulePrimary? then Some(es[|es| - 1].command)
    else Latest(es[..|es| - 1])
  }

  lemma {:induction false} LatestCons<C>(e: Event<C>, es: seq<Event<C>>)
    ensures Latest([e] + es) == if Latest(es) != None then Latest(es) else Latest([e])
    decreases |es|
  {
    var all := [e] + es;
    if es == [] {
      assert all == [e];
    } else {
      assert all[..|all| - 1] == [e] + es[..|es| - 1] && all[|all| - 1] == es[|es| - 1];
      LatestCons(e, es[..|es| - 1]);
    }
  }

  lemma PrimaryRunsOn<C>(s: State<C>, e: Event<C>)
    requires Enabled(s, e) && RunsPrimary(s.place) && RunsPrimary(Step(s, e).place)
    ensures Step(s, e).current == s.current
    ensures Step(s, e).primary == if Latest([e]) == None then s.primary else Latest([e])
  {
    assert [e][..0] == [];
  }

  /** While a primary command runs, other threads set the next one only. */
  lemma {:induction false} WhilePrimaryRuns<C>(s: State<C>, es: seq<Event<C>>)
    requires LegalRun(s, es) && KeepsRunning(s, es)
    ensures var t := Run(s, es);
      t.current == s.current && t.primary == if Latest(es) == None then s.primary else Latest(es)
    decreases |es|
  {
    hide Enabled, Step;
    if es != [] {
      assert [es[0]] + es[1..] == es;
      LatestCons(es[0], es[1..]);
      PrimaryRunsOn(s, es[0]);
      WhilePrimaryRuns(Step(s, es[0]), es[1..]);
    }
  }

  /** A primary command that was started is put back behind its run if and only if no other one was scheduled last
      while it ran; otherwise that one replaces it. */
  lemma PutBackIff<C>(s: State<C>, es: seq<Event<C>>, c: C)
    requires s.place == Batch && s.batch == [] && s.primary == Some(c)
    requires LegalRun(Step(s, Advance), es) && KeepsRunning(Step(s, Advance), es)
    requires Run(Step(s, Advance), es).place == Restore
    ensures var t := Step(Run(Step(s, Advance), es), Advance);
      && t.place == Check && (t.primary == Some(c) <==> Latest(es) in [None, Some(c)])
      && (Latest(es) != None ==> t.primary == Latest(es))
  {
    hide Latest, LegalRun, KeepsRunning, Run;
    WhilePrimaryRuns(Step(s, Advance), es);
  }

  /** A synchronizer that starts while the application waits replaces its `Synchronize` command for good: the first
      one is neither primary, nor queued, nor will it run. */
  lemma ReplacedExample<C>(synchronize: C, other: C)
    requires synchronize != other
    ensures var wait: seq<Event<C>> := [Advance, Advance, Advance, SchedulePrimary(other)];
      && LegalRun(Start(synchronize, {other}), wait)
      && var s := Run(Start(synchronize, {other}), wait);
         && s.place == Waiting(synchronize, false)
         && LegalRun(s, [Return, Advance, Advance, Advance])
         && var t := Run(s, [Return, Advance, Advance, Advance]);
            t.place == Batch && t.batch == [] && t.queue == [] && t.primary == Some(other) && t.started == [synchronize]
  {
    Four(Start(synchronize, {other}), Advance, Advance, Advance, SchedulePrimary(other));
    var s := Run(Start(synchronize, {other}), [Advance, Advance, Advance, SchedulePrimary(other)]);
    Four(s, Return, Advance, Advance, Advance);
  }

  // ----- the loop's own steps -----

  /** What the loop thread does when nobody wakes it: it goes on, and its waits end. */
  function Own<C>(place: Place<C>): Event<C> {
    if place.Waiting? then Return else Advance
  }

  /** A bound on the steps up to the start of the primary command. */
  function ToStart<C>(s: State<C>): nat {
    match s.place
    case Batch => 2 * |s.batch|
    case Grab => 2 * |s.queue| + 1
    case Check => 2 * |s.queue| + 2
    case Restore => 2 * |s.queue| + 3
    case Done => 0
    case _ => if s.place.inBatch then 2 * |s.batch| + 1 else 2 * |s.queue| + 4
  }

  /** As long as the loop is not told to end, its own steps start the primary command, whatever is queued: every
      schedule of a primary command is served or displaced. */
  lemma {:induction false} PrimaryStarts<C>(s: State<C>, c: C) returns (es: seq<Event<C>>)
    requires s.running && s.place != Done && s.primary == Some(c)
    ensures |es| <= ToStart(s) + 1 && (forall i :: 0 <= i < |es| ==> es[i] in [Advance, Return])
    ensures LegalRun(s, es) && Run(s, es).started == s.started + [c]
    decreases ToStart(s)
  {
    hide LegalRun, Run;
    var e, s' := Own(s.place), Step(s, Own(s.place));
    if s.place == Batch && s.batch == [] {
      RunNone(s');
      RunCons(s, e, []);
      es := [e] + [];
    } else {
      es := PrimaryStarts(s', c);
      RunCons(s, e, es);
      es := [e] + es;
    }
  }

  lemma RunNone<C>(s: State<C>)
    ensures LegalRun(s, []) && Run(s, []) == s
  {
  }

  function ToEnd<C>(s: State<C>): nat {
    match s.place
    case Grab => 2 * |s.queue| + 5
    case Batch => 2 * |s.batch| + 4
    case Check => 1
    case Restore => 2
    case Done => 0
    case _ => if s.place.inBatch then 2 * |s.batch| + 5 else 3
  }

  /** What the step the loop is in has taken, or is about to take. */
  function InFlight<C(==)>(s: State<C>): seq<C> {
    if s.place == Grab then s.queue else if s.place == Batch || InBatch(s.place) then s.batch else []
  }

  lemma OwnStep<C>(s: State<C>)
    requires !s.running && s.place != Done
    ensures var s' := Step(s, Own(s.place));
      && !s'.running && ToEnd(s') < ToEnd(s) && (s'.place == Done ==> s'.queue == [])
      && s'.executed + InFlight(s') == s.executed + InFlight(s)
  {
    if s.place == Batch && s.batch != [] {
      assert s.executed + [s.batch[0]] + s.batch[1..] == s.executed + s.batch;
    }
  }

  /** Told to end, the loop finishes the step it is in and drops what is queued behind it. */
  lemma {:induction false} ExitEnds<C>(s: State<C>) returns (es: seq<Event<C>>)
    requires !s.running
    ensures |es| <= ToEnd(s) && (forall i :: 0 <= i < |es| ==> es[i] in [Advance, Return])
    ensures LegalRun(s, es) && Run(s, es).place == Done && (s.place != Done ==> Run(s, es).queue == [])
    ensures Run(s, es).executed == s.executed + InFlight(s)
    decreases ToEnd(s)
  {
    hide LegalRun, Run, Step;
    if s.place == Done {
      es := [];
      RunNone(s);
    } else {
      var e, s' := Own(s.place), Step(s, Own(s.place));
      OwnStep(s);
      es := ExitEnds(s');
      if s'.place == Done {
        assert es == [];
        RunNone(s');
      }
      RunCons(s, e, es);
      es := [e] + es;
    }
  }

  /** Nothing else ends it. */
  lemma {:induction false} OnlyExitEnds<C>(s: State<C>, es: seq<Event<C>>)
    requires LegalRun(s, es) && s.running && s.place != Done && Exit !in es
    ensures Run(s, es).running && Run(s, es).place != Done
    decreases |es|
  {
    if es != [] {
      assert es[0] != Exit && Exit !in es[1..];
      OnlyExitEnds(Step(s, es[0]), es[1..]);
    }
  }

  // ----- the code -----

  /** The executor's fields, the local variables of `step`, and the synchronizer's event counter; the ghost fields
      say where in the protocol the loop thread is. */
  class Loop<!C(==)> {
    const home: C
    const foreign: set<C>
    var commands: seq<C>
    var primary: Option<C>
    var running: bool
    var code: int
    var counter: nat
    var executed: seq<C>
    var batch: seq<C>
    var current: Option<C>
    ghost var place: Place<C>
    ghost var pending: nat
    ghost var log: seq<C>
    ghost var grabbed: nat
    ghost var started: seq<C>

    constructor (synchronize: C, foreign: set<C>)
      ensures Now() == Start(synchronize, foreign) && code == 0
    {
      home, this.foreign := synchronize, foreign;
      commands, primary, running, code, counter, executed := [], Some(synchronize), true, 0, 0, [];
      place, batch, current, pending, log, grabbed, started := Check, [], None, 0, [], 0, [];
    }

    ghost function Now(): State<C>
      reads this
    {
      State(home, foreign, place, running, commands, batch, primary, current, counter, pending, executed, log, grabbed,
            started)
    }

    /** `Executer::Private::schedule`, under the lock. */
    method Schedule(command: C, isPrimary: bool)
      modifies this
      ensures Now() == Step(old(Now()), if isPrimary then SchedulePrimary(command) else Enqueue(command))
      ensures primary == if isPrimary then Some(command) else old(primary)
      ensures commands == old(commands) + (if !isPrimary then [command]
                                           else if old(primary) in [None, Some(command)] then []
                                           else [old(primary).value])
    {
      if !isPrimary {
        commands := commands + [command];
        log, pending := log + [command], pending + 1;
      } else {
        if primary != Some(command) && primary != None {
          commands := commands + [primary.value];
          log := log + [primary.value];
        }
        primary := Some(command);
      }
    }

    /** `Synchronizer::skip` */
    method WakeLoop()
      requires pending > 0
      modifies this
      ensures Now() == Step(old(Now()), Skip) && counter == old(counter) + 1
    {
      counter := counter + 1;
      pending := pending - 1;
    }

    /** `Application::schedule`: enqueue, then wake. */
    method ScheduleCommand(command: C)
      modifies this
      ensures Now() == Step(Step(old(Now()), Enqueue(command)), Skip)
    {
      Schedule(command, false);
      WakeLoop();
    }

    /** `Executer::Private::exit` */
    method Leave(code: int)
      modifies this
      ensures Now() == Step(old(Now()), Exit) && this.code == code && !running
    {
      this.code := code;
      running := false;
    }

    /** The test in `exec`, and its end: the queue is cleared, not run. */
    method GoesOn() returns (go: bool)
      requires place == Check
      modifies this
      ensures Now() == Step(old(Now()), Advance) && go == old(running)
      ensures place == (if go then Grab else Done) && commands == if go then old(commands) else []
    {
      go := running;
      if go {
        place := Grab;
      } else {
        commands := [];
        place := Done;
      }
    }

    /** `step`, first lock: takes the whole queue. */
    method GrabAll()
      requires place == Grab
      modifies this
      ensures Now() == Step(old(Now()), Advance)
    {
      batch := commands;
      commands := [];
      place, grabbed := Batch, |log|;
    }

    /** One round of the loop over the commands taken. */
    method ExecuteOne()
      requires place == Batch && batch != []
      modifies this
      ensures Now() == Step(old(Now()), Advance)
    {
      place := if Waits(Now(), batch[0]) then Waiting(batch[0], true) else Batch;
      executed := executed + [batch[0]];
      batch := batch[1..];
    }

    /** Second lock: takes the primary command and starts it. */
    method TakePrimary()
      requires place == Batch && batch == []
      modifies this
      ensures Now() == Step(old(Now()), Advance)
    {
      current := primary;
      primary := None;
      if current != None {
        started := started + [current.value];
      }
      place := if current == None then Check
               else if Waits(Now(), current.value) then Waiting(current.value, false) else Restore;
    }

    /** The command `Synchronize`: waits, and reads the counter if it is its own and woke it. */
    method Synchronize(command: C)
      requires place.Waiting? && place.on == command
      modifies this
      ensures Now() == if command == home && old(counter) > 0 then Step(Step(old(Now()), WakeUp), Advance)
                       else Step(old(Now()), Return)
    {
      if command == home && counter > 0 {
        counter := 0;
      }
      place := if place.inBatch then Batch else Restore;
    }

    /** Third lock: puts the primary command back unless there is a new one. */
    method RestorePrimary()
      requires place == Restore
      modifies this
      ensures Now() == Step(old(Now()), Advance)
    {
      if primary == None {
        primary := current;
      }
      place := Check;
    }

    /** `step` while no other thread interferes: it runs all that was queued, in order, keeps the primary command,
        and uses up the wake-ups exactly when the application's `Synchronize` command was among those it ran. */
    method OneStep()
      requires place == Grab && batch == []
      modifies this
      ensures place == Check && batch == [] && commands == [] && primary == old(primary)
      ensures executed == old(executed) + old(commands) && log == old(log)
      ensures started == old(started) + AsSeq(old(primary))
      ensures counter == if home in old(commands) || old(primary) == Some(home) then 0 else old(counter)
    {
      GrabAll();
      RunBatch();
      RunPrimary();
    }

    /** The loop over the commands taken. */
    method RunBatch()
      requires place == Batch
      modifies this
      ensures place == Batch && batch == [] && commands == old(commands) && primary == old(primary) && log == old(log)
      ensures executed == old(executed) + old(batch) && started == old(started)
      ensures counter == if home in old(batch) then 0 else old(counter)
    {
      hide Waits;
      ghost var done: seq<C> := [];
      while batch != []
        invariant place == Batch && commands == old(commands) && primary == old(primary) && log == old(log)
        invariant started == old(started)
        invariant done + batch == old(batch) && executed == old(executed) + done
        invariant counter == if home in done then 0 else old(counter)
        decreases |batch|
      {
        var command := batch[0];
        assert done + batch == (done + [command]) + batch[1..];
        WaitsIf(Now(), command);
        ExecuteOne();
        done := done + [command];
        if command == home || command in foreign {
          Synchronize(command);
        }
      }
      assert done == old(batch);
    }

    /** From the second lock of `step` to its end. */
    method RunPrimary()
      requires place == Batch && batch == []
      modifies this
      ensures place == Check && batch == [] && commands == old(commands) && primary == old(primary) && log == old(log)
      ensures executed == old(executed) && started == old(started) + AsSeq(old(primary))
      ensures counter == if old(primary) == Some(home) then 0 else old(counter)
    {
      TakePrimary();
      if current == None {
        return;
      }
      if current.value == home || current.value in foreign {
        Synchronize(current.value);
      }
      RestorePrimary();
    }
  }

  function AsSeq<C>(o: Option<C>): seq<C> {
    if o.Some? then [o.value] else []
  }

  lemma WaitsIf<C>(s: State<C>, c: C)
    ensures Waits(s, c) <==> c == s.home || c in s.foreign
  {
  }
}
