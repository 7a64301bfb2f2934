/** The log queue of UtilsLog.cpp as a protocol of interleaved atomic steps. Any number of producers run UtilsLog::Log
    or UtilsLog::LogFile, one worker runs st_WorkerThreadProc, and anybody may raise the exit flag. Producers push
    under the lock; the worker takes the front under the lock, but tests the list for emptiness and reads the exit
    flag without it. */
module LogWorker {

  // What a producer logs (CLogInfo).
  datatype Message = Message(text: string, file: string, level: int)

  // A queued message with the producer that pushed it; the tag is history, the program does not read it.
  datatype Entry = Entry(producer: nat, message: Message)

  datatype Producer = Idle | Locking(message: Message) | Pushing(message: Message) | Releasing

  // The worker's program counter. Between `front` and `pop_front` it holds a message that is still in the list.
  datatype Worker =
    | Starting
    | TestingList
    | Waiting
    | Reading
    | Popping(entry: Entry)
    | Unlocking(entry: Entry)
    | Writing(entry: Entry)
    | TestingExit
    | Sleeping
    | Stopped

  datatype Holder = Nobody | TheWorker | TheProducer(id: nat)

  // The shared variables, the program counters, and four history variables: the calls made, the pushes, the writes,
  // and how many messages had been pushed when the worker last tested the list.
  datatype State = State(
    queue: seq<Entry>,
    holder: Holder,
    exit: bool,
    worker: Worker,
    producers: seq<Producer>,
    called: seq<Entry>,
    pushed: seq<Entry>,
    written: seq<Entry>,
    tested: nat)

  datatype Step =
    | Call(id: nat, message: Message)
    | Acquire(id: nat)
    | Push(id: nat)
    | Release(id: nat)
    | Exit
    | Work

  ghost predicate Initial(s: State) {
    && s.queue == s.called == s.pushed == s.written == []
    && s.holder == Nobody
    && s.worker == Starting
    && s.tested == 0
    && forall p :: 0 <= p < |s.producers| ==> s.producers[p] == Idle
  }

  // Whether a step can be taken: a thread waits for the lock, and `front` and `pop_front` need a non-empty list.
  ghost predicate Enabled(s: State, step: Step) {
    match step
    case Call(p, _) => p < |s.producers| && s.producers[p].Idle?
    case Acquire(p) => p < |s.producers| && s.producers[p].Locking? && s.holder == Nobody
    case Push(p) => p < |s.producers| && s.producers[p].Pushing?
    case Release(p) => p < |s.producers| && s.producers[p].Releasing?
    case Exit => true
    case Work =>
      match s.worker
      case Waiting => s.holder == Nobody
      case Reading => s.queue != []
      case Popping(_) => s.queue != []
      case Stopped => false
      case _ => true
  }

  ghost function Next(s: State, step: Step): State
    requires Enabled(s, step)
  {
    match step
    case Call(p, m) => s.(producers := s.producers[p := Locking(m)], called := s.called + [Entry(p, m)])
    case Acquire(p) =>
      s.(producers := s.producers[p := Pushing(s.producers[p].message)], holder := TheProducer(p))
    case Push(p) =>
      var e := Entry(p, s.producers[p].message);
      s.(producers := s.producers[p := Releasing], queue := s.queue + [e], pushed := s.pushed + [e])
    case Release(p) => s.(producers := s.producers[p := Idle], holder := Nobody)
    case Exit => s.(exit := true)
    case Work => NextOfWorker(s)
  }

  ghost function NextOfWorker(s: State): State
    requires Enabled(s, Work)
  {
    match s.worker
    case Starting => s.(worker := TestingList, exit := false)
    case TestingList => s.(worker := if s.queue != [] then Waiting else TestingExit, tested := |s.pushed|)
    case Waiting => s.(worker := Reading, holder := TheWorker)
    case Reading => s.(worker := Popping(s.queue[0]))
    case Popping(e) => s.(worker := Unlocking(e), queue := s.queue[1..])
    case Unlocking(e) => s.(worker := Writing(e), holder := Nobody)
    case Writing(e) => s.(worker := Sleeping, written := s.written + [e])
    case TestingExit => s.(worker := if s.exit then Stopped else Sleeping)
    case Sleeping => s.(worker := TestingList)
  }

  // A run takes its steps one after another, each when it is enabled.
  ghost predicate Runs(s: State, steps: seq<Step>)
    decreases |steps|
  {
    steps == [] || (Enabled(s, steps[0]) && Runs(Next(s, steps[0]), steps[1..]))
  }

  ghost function End(s: State, steps: seq<Step>): State
    requires Runs(s, steps)
    decreases |steps|
  {
    if steps == [] then s else End(Next(s, steps[0]), steps[1..])
  }

  // What every reachable state satisfies.

  // The message the worker has taken off the list and not written yet.
  ghost function InHand(w: Worker): seq<Entry> {
    match w
    case Unlocking(e) => [e]
    case Writing(e) => [e]
    case _ => []
  }

  ghost predicate Critical(p: Producer) {
    p.Pushing? || p.Releasing?
  }

  // A thread is between lock and unlock exactly when it holds the lock.
  ghost predicate Exclusive(s: State) {
    && (s.holder == TheWorker <==> s.worker.Reading? || s.worker.Popping? || s.worker.Unlocking?)
    && (s.holder.TheProducer? ==> s.holder.id < |s.producers|)
    && forall p :: 0 <= p < |s.producers| ==> (Critical(s.producers[p]) <==> s.holder == TheProducer(p))
  }

  // Nothing is lost, doubled or reordered between the pushes and the writes.
  ghost predicate Conserved(s: State) {
    s.written + InHand(s.worker) + s.queue == s.pushed
  }

  // A worker on its way to the front of the list finds it there.
  ghost predicate Fed(s: State) {
    && (s.worker.Waiting? || s.worker.Reading? ==> s.queue != [])
    && (s.worker.Popping? ==> s.queue != [] && s.queue[0] == s.worker.entry)
  }

  // A worker that found the list empty had written all that was pushed until then.
  ghost predicate Drained(s: State) {
    && s.tested <= |s.pushed|
    && (s.worker.TestingExit? || s.worker.Stopped? ==> s.written == s.pushed[..s.tested])
    && (s.worker.Stopped? ==> s.exit)
  }

  // The entries of one producer, in order.
  ghost function By(entries: seq<Entry>, p: nat): seq<Message> {
    if entries == [] then []
    else
      var rest := By(entries[..|entries| - 1], p);
      if entries[|entries| - 1].producer == p then rest + [entries[|entries| - 1].message] else rest
  }

  // A call that has not pushed its message yet.
  ghost function Pending(p: Producer): seq<Message> {
    match p
    case Locking(m) => [m]
    case Pushing(m) => [m]
    case _ => []
  }

  // Each producer's calls are pushed in the order it made them, but for the one it is still in.
  ghost predicate InProgramOrder(s: State) {
    forall p :: 0 <= p < |s.producers| ==> By(s.called, p) == By(s.pushed, p) + Pending(s.producers[p])
  }

  ghost predicate Invariant(s: State) {
    Exclusive(s) && Conserved(s) && Fed(s) && Drained(s) && InProgramOrder(s)
  }

  lemma AddedBy(entries: seq<Entry>, e: Entry, p: nat)
    ensures By(entries + [e], p) == By(entries, p) + if e.producer == p then [e.message] else []
  {
    assert (entries + [e])[..|entries|] == entries;
  }

  lemma InitialInvariant(s: State)
    requires Initial(s)
    ensures Invariant(s)
  {
  }

  lemma ExclusiveStep(s: State, step: Step)
    requires Exclusive(s) && Enabled(s, step)
    ensures Exclusive(Next(s, step))
  {
  }

  lemma ConservedStep(s: State, step: Step)
    requires Fed(s) && Conserved(s) && Enabled(s, step)
    ensures Conserved(Next(s, step))
  {
    match step
    case Push(p) =>
      var e := Entry(p, s.producers[p].message);
      assert s.written + InHand(s.worker) + (s.queue + [e]) == s.written + InHand(s.worker) + s.queue + [e];
    case Work =>
      if s.worker.Popping? {
        assert s.queue == [s.worker.entry] + s.queue[1..];
        assert s.written + [] + s.queue == s.written + [s.worker.entry] + s.queue[1..];
      } else if s.worker.Writing? {
        assert s.written + [s.worker.entry] + [] == s.written + [s.worker.entry];
      }
    case _ =>
  }

  lemma FedStep(s: State, step: Step)
    requires Fed(s) && Enabled(s, step)
    ensures Fed(Next(s, step))
  {
  }

  lemma DrainedStep(s: State, step: Step)
    requires Drained(s) && Conserved(s) && Enabled(s, step)
    ensures Drained(Next(s, step))
  {
    if step == Work && s.worker.TestingList? && s.queue == [] {
      assert s.written + [] + [] == s.written;
    }
  }

  lemma ProgramOrderStep(s: State, step: Step)
    requires InProgramOrder(s) && Enabled(s, step)
    ensures InProgramOrder(Next(s, step))
  {
    var t := Next(s, step);
    forall p | 0 <= p < |t.producers|
      ensures By(t.called, p) == By(t.pushed, p) + Pending(t.producers[p])
    {
      assert By(s.called, p) == By(s.pushed, p) + Pending(s.producers[p]);
      match step
      case Call(q, m) => AddedBy(s.called, Entry(q, m), p);
      case Push(q) => AddedBy(s.pushed, Entry(q, s.producers[q].message), p);
      case _ =>
    }
  }

  lemma InvariantStep(s: State, step: Step)
    requires Invariant(s) && Enabled(s, step)
    ensures Invariant(Next(s, step))
  {
    hide Next, Exclusive, Conserved, Fed, Drained, InProgramOrder;
    ExclusiveStep(s, step);
    ConservedStep(s, step);
    FedStep(s, step);
    DrainedStep(s, step);
    ProgramOrderStep(s, step);
  }

  lemma {:induction false} InvariantRun(s: State, steps: seq<Step>)
    requires Invariant(s) && Runs(s, steps)
    ensures Invariant(End(s, steps))
    decreases |steps|
  {
    hide Next, Enabled, Invariant;
    if steps != [] {
      InvariantStep(s, steps[0]);
      InvariantRun(Next(s, steps[0]), steps[1..]);
    }
  }

  // No two threads are between lock and unlock at once.
  lemma MutualExclusion(s: State, steps: seq<Step>, p: nat, q: nat)
    requires Initial(s) && Runs(s, steps) && p < |End(s, steps).producers| && q < |End(s, steps).producers|
    requires Critical(End(s, steps).producers[p])
    ensures Critical(End(s, steps).producers[q]) ==> p == q
    ensures var w := End(s, steps).worker; !w.Reading? && !w.Popping? && !w.Unlocking?
  {
    InitialInvariant(s);
    InvariantRun(s, steps);
  }

  // The main results, over every run.

  // At any moment the messages written, then the one in the worker's hand, then those in the list, are the messages
  // pushed in the order of the pushes; and each producer's are in the order of its calls.
  lemma NothingLostOrReordered(s: State, steps: seq<Step>, p: nat)
    requires Initial(s) && Runs(s, steps) && p < |s.producers|
    ensures var t := End(s, steps);
      && t.written + InHand(t.worker) + t.queue == t.pushed
      && |t.producers| == |s.producers|
      && By(t.called, p) == By(t.written + InHand(t.worker) + t.queue, p) + Pending(t.producers[p])
  {
    InitialInvariant(s);
    InvariantRun(s, steps);
    ProducersKept(s, steps);
  }

  lemma {:induction false} ProducersKept(s: State, steps: seq<Step>)
    requires Runs(s, steps)
    ensures |End(s, steps).producers| == |s.producers|
    decreases |steps|
  {
    if steps != [] {
      ProducersKept(Next(s, steps[0]), steps[1..]);
    }
  }

  // The worker never takes the front of an empty list, although it tests the list without the lock; it is held up
  // only by a producer that holds the lock, and that producer can go on.
  lemma WorkerNeverStuck(s: State, steps: seq<Step>)
    requires Initial(s) && Runs(s, steps) && !End(s, steps).worker.Stopped?
    ensures var t := End(s, steps);
      || Enabled(t, Work)
      || (t.worker.Waiting? && t.holder.TheProducer?
        && (Enabled(t, Push(t.holder.id)) || Enabled(t, Release(t.holder.id))))
  {
    InitialInvariant(s);
    InvariantRun(s, steps);
    var t := End(s, steps);
    if t.holder.TheProducer? {
      assert Critical(t.producers[t.holder.id]);
    }
  }

  // When the worker has stopped, exactly the messages pushed before its last test of the list are written; those
  // pushed later stay in the list, however long the others run on.
  lemma WrittenAtStop(s: State, steps: seq<Step>)
    requires Initial(s) && Runs(s, steps) && End(s, steps).worker.Stopped?
    ensures var t := End(s, steps);
      && t.exit
      && t.tested <= |t.pushed|
      && t.written == t.pushed[..t.tested]
      && t.queue == t.pushed[t.tested..]
      && (t.written == t.pushed <==> t.tested == |t.pushed|)
  {
    InitialInvariant(s);
    InvariantRun(s, steps);
    var t := End(s, steps);
    assert t.written + [] + t.queue == t.written + t.queue;
    assert t.queue == (t.written + t.queue)[|t.written|..];
  }

  // A stopped worker writes nothing more.
  lemma {:induction false} StoppedForGood(s: State, steps: seq<Step>)
    requires s.worker.Stopped? && Runs(s, steps)
    ensures End(s, steps).worker.Stopped? && End(s, steps).written == s.written
    decreases |steps|
  {
    if steps != [] {
      StoppedForGood(Next(s, steps[0]), steps[1..]);
    }
  }

  // The program does lose messages: one pushed between the worker's last test of the list and its reading of the
  // flag is never written, although its Log call had returned before anybody called Exit.
  lemma LateMessageLost(m: Message, rest: seq<Step>) returns (s: State, before: seq<Step>, after: seq<Step>)
    ensures Initial(s) && Runs(s, before) && Exit !in before
    ensures var t := End(s, before);
      && !t.exit && t.producers == [Idle] && t.called == t.pushed == [Entry(0, m)]
      && Runs(t, [Exit] + after)
      && var u := End(t, [Exit] + after);
        && u.worker.Stopped? && u.written == []
        && (Runs(u, rest) ==> End(u, rest).written == [])
  {
    hide Runs, End;
    s := State([], Nobody, false, Starting, [Idle], [], [], [], 0);
    var s1 := Next(Next(s, Work), Work);
    var s2 := Next(Next(s1, Call(0, m)), Acquire(0));
    var s3 := Next(Next(s2, Push(0)), Release(0));
    var s4 := Next(Next(s3, Exit), Work);
    RunsNothing(s3);
    RunsTwo(s2, Push(0), Release(0), []);
    RunsTwo(s1, Call(0, m), Acquire(0), [Push(0), Release(0)] + []);
    RunsTwo(s, Work, Work, [Call(0, m), Acquire(0)] + ([Push(0), Release(0)] + []));
    before := [Work, Work] + ([Call(0, m), Acquire(0)] + ([Push(0), Release(0)] + []));
    after := [Work];
    RunsNothing(s4);
    RunsTwo(s3, Exit, Work, []);
    assert [Exit, Work] + [] == [Exit] + after;
    if Runs(s4, rest) {
      StoppedForGood(s4, rest);
    }
  }

  lemma RunsNothing(s: State)
    ensures Runs(s, []) && End(s, []) == s
  {}

  lemma RunsTwo(s: State, a: Step, b: Step, rest: seq<Step>)
    requires Enabled(s, a) && Enabled(Next(s, a), b) && Runs(Next(Next(s, a), b), rest)
    ensures Runs(s, [a, b] + rest)
    ensures End(s, [a, b] + rest) == End(Next(Next(s, a), b), rest)
  {
    assert ([a, b] + rest)[1..] == [b] + rest;
    assert ([b] + rest)[1..] == rest;
    assert Runs(Next(s, a), [b] + rest);
  }

  // Stopping. Left to themselves, with no new call to Log and no new call to Exit, the threads settle.

  predicate Settling(step: Step) {
    !step.Call? && !step.Exit?
  }

  ghost predicate Settles(steps: seq<Step>) {
    forall i :: 0 <= i < |steps| ==> Settling(steps[i])
  }

  // The exit flag counts only once the worker has cleared it.
  predicate Leaving(s: State) {
    s.exit && !s.worker.Starting?
  }

  // An Exit that comes before the worker's first step is erased by that step.
  lemma EarlyExitErased(s: State)
    requires s.worker.Starting?
    ensures Next(Next(s, Exit), Work) == Next(s, Work)
  {}

  // Without a later Exit, the worker then never stops, whatever else is called.
  lemma {:induction false} NeverStops(s: State, steps: seq<Step>)
    requires Invariant(s) && !Leaving(s) && Runs(s, steps) && Exit !in steps
    ensures !Leaving(End(s, steps)) && !End(s, steps).worker.Stopped?
    decreases |steps|
  {
    hide Next, Enabled, Invariant, Leaving;
    if steps == [] {
      NotStopped(s);
    } else {
      assert steps[0] in steps;
      InvariantStep(s, steps[0]);
      NotLeavingStep(s, steps[0]);
      NeverStops(Next(s, steps[0]), steps[1..]);
    }
  }

  lemma NotStopped(s: State)
    requires Invariant(s) && !Leaving(s)
    ensures !s.worker.Stopped?
  {}

  lemma NotLeavingStep(s: State, step: Step)
    requires !Leaving(s) && !step.Exit? && Enabled(s, step)
    ensures !Leaving(Next(s, step))
  {}

  // What is left to do: eight steps for each queued message, eleven for each call in progress, and those from where
  // the worker stands.
  ghost function Left(s: State): nat {
    8 * |s.queue| + LeftOfWorker(s.worker) + LeftOfProducers(s.producers)
  }

  ghost function LeftOfWorker(w: Worker): nat {
    match w
    case Starting => 4
    case TestingList => 3
    case Waiting => 2
    case Reading => 1
    case Popping(_) => 0
    case Unlocking(_) => 6
    case Writing(_) => 5
    case TestingExit => 2
    case Sleeping => 4
    case Stopped => 1
  }

  ghost function LeftOfProducer(p: Producer): nat {
    match p
    case Idle => 0
    case Locking(_) => 11
    case Pushing(_) => 10
    case Releasing => 1
  }

  ghost function LeftOfProducers(ps: seq<Producer>): nat {
    if ps == [] then 0 else LeftOfProducer(ps[0]) + LeftOfProducers(ps[1..])
  }

  lemma {:induction false} LeftAfter(ps: seq<Producer>, i: nat, p: Producer)
    requires i < |ps|
    ensures LeftOfProducers(ps[i := p]) + LeftOfProducer(ps[i]) == LeftOfProducers(ps) + LeftOfProducer(p)
    decreases |ps|
  {
    if i > 0 {
      assert ps[i := p][1..] == ps[1..][i - 1 := p];
      LeftAfter(ps[1..], i - 1, p);
    }
  }

  lemma LeftStep(s: State, step: Step)
    requires Fed(s) && Leaving(s) && Settling(step) && Enabled(s, step)
    ensures Leaving(Next(s, step)) && Left(Next(s, step)) < Left(s)
  {
    match step
    case Acquire(p) => LeftAfter(s.producers, p, Next(s, step).producers[p]);
    case Push(p) => LeftAfter(s.producers, p, Next(s, step).producers[p]);
    case Release(p) => LeftAfter(s.producers, p, Next(s, step).producers[p]);
    case Work =>
  }

  // As long as the worker has not stopped, it can go on or a producer can that holds the lock.
  lemma SomebodyCanGoOn(s: State) returns (step: Step)
    requires Exclusive(s) && Fed(s) && !s.worker.Stopped?
    ensures Settling(step) && Enabled(s, step)
  {
    step := Work;
    if !Enabled(s, Work) {
      var p := s.holder.id;
      assert Critical(s.producers[p]);
      step := if s.producers[p].Pushing? then Push(p) else Release(p);
    }
  }

  // A worker past its last test of a list that is no longer empty.
  predicate Late(s: State) {
    (s.worker.TestingExit? || s.worker.Stopped?) && s.queue != []
  }

  // The same, counted: the first n pushes are not all covered by a last test that has been made.
  predicate LateFor(s: State, n: nat) {
    (s.worker.TestingExit? || s.worker.Stopped?) && s.tested < n
  }

  // The queue of a worker past its last test holds exactly what was pushed since.
  lemma LateForAll(s: State)
    requires Invariant(s)
    ensures LateFor(s, |s.pushed|) <==> Late(s)
  {
    if s.worker.TestingExit? || s.worker.Stopped? {
      assert |s.written + [] + s.queue| == |s.pushed|;
    }
  }

  // Whatever is pushed from now on, a late worker stays late and one that is not becomes late for none of the first n.
  lemma LateForStep(s: State, step: Step, n: nat)
    requires Leaving(s) && Settling(step) && Enabled(s, step) && n <= |s.pushed|
    ensures n <= |Next(s, step).pushed| && s.pushed <= Next(s, step).pushed
    ensures LateFor(Next(s, step), n) <==> LateFor(s, n)
  {}

  lemma {:induction false} LateForRun(s: State, steps: seq<Step>, n: nat)
    requires Invariant(s) && Leaving(s) && Runs(s, steps) && Settles(steps) && n <= |s.pushed|
    ensures s.pushed <= End(s, steps).pushed && (LateFor(End(s, steps), n) <==> LateFor(s, n))
    decreases |steps|
  {
    hide Next, Enabled, Invariant, Leaving, Settling, LateFor;
    if steps != [] {
      InvariantStep(s, steps[0]);
      InvariantFed(s);
      LeftStep(s, steps[0]);
      LateForStep(s, steps[0], n);
      LateForRun(Next(s, steps[0]), steps[1..], n);
    }
  }

  // A state in which nobody can go on, or whose worker has stopped.
  lemma Settled(s: State)
    requires Invariant(s)
    ensures (forall step :: Settling(step) ==> !Enabled(s, step)) ==> s.worker.Stopped?
    ensures s.tested <= |s.pushed|
    ensures s.worker.Stopped? ==> s.written == s.pushed[..s.tested]
  {
    if !s.worker.Stopped? {
      var step := SomebodyCanGoOn(s);
    }
  }

  lemma {:induction false} SettlingEnds(s: State, steps: seq<Step>)
    requires Invariant(s) && Leaving(s) && Runs(s, steps) && Settles(steps)
    ensures |steps| + Left(End(s, steps)) <= Left(s) && Leaving(End(s, steps)) && Invariant(End(s, steps))
    decreases |steps|
  {
    hide Next, Enabled, Invariant, Leaving, Settling, Left;
    if steps != [] {
      InvariantStep(s, steps[0]);
      InvariantFed(s);
      LeftStep(s, steps[0]);
      SettlingEnds(Next(s, steps[0]), steps[1..]);
    }
  }

  // Every schedule without new calls is short; where it can go no further the worker has stopped, having written
  // exactly what was pushed before its last test; and that covers everything pushed before the schedule began exactly
  // when the worker was not already late, whatever the calls in progress still push.
  lemma SettlesStopped(s: State, steps: seq<Step>)
    requires Invariant(s) && Leaving(s) && Runs(s, steps) && Settles(steps)
    ensures var t := End(s, steps);
      && |steps| + Left(t) <= Left(s) && Leaving(t) && t.tested <= |t.pushed| && s.pushed <= t.pushed
      && ((forall step :: Settling(step) ==> !Enabled(t, step)) ==> t.worker.Stopped?)
      && (t.worker.Stopped? ==> t.written == t.pushed[..t.tested])
      && (t.worker.Stopped? ==> (s.pushed <= t.written <==> !Late(s)))
  {
    hide Enabled, Invariant, Leaving, Settling, Left, Late, Runs;
    var t := End(s, steps);
    SettlingEnds(s, steps);
    Settled(t);
    LateForAll(s);
    LateForRun(s, steps, |s.pushed|);
    if t.worker.Stopped? && t.tested >= |s.pushed| {
      assert t.written[..|s.pushed|] == t.pushed[..|s.pushed|] == s.pushed;
    }
  }

  lemma InvariantFed(s: State)
    requires Invariant(s)
    ensures Exclusive(s) && Fed(s)
  {}

  // A way to settle.
  lemma {:induction false} Settle(s: State) returns (steps: seq<Step>)
    requires Invariant(s) && Leaving(s)
    ensures Runs(s, steps) && Settles(steps) && End(s, steps).worker.Stopped?
    decreases Left(s)
  {
    hide Next, Enabled, Invariant, Leaving, Settling, Left;
    if s.worker.Stopped? {
      steps := [];
    } else {
      InvariantFed(s);
      var step := SomebodyCanGoOn(s);
      LeftStep(s, step);
      InvariantStep(s, step);
      var rest := Settle(Next(s, step));
      steps := [step] + rest;
      assert steps[1..] == rest;
    }
  }

  // Left to themselves the threads can bring the worker to a stop exactly if the flag is up and the worker started;
  // by SettlesStopped every schedule then does.
  lemma StopsExactlyIf(s: State)
    requires Invariant(s)
    ensures (exists steps :: Runs(s, steps) && Settles(steps) && End(s, steps).worker.Stopped?) <==> Leaving(s)
  {
    if Leaving(s) {
      var steps := Settle(s);
      assert Runs(s, steps) && Settles(steps);
    } else {
      forall steps | Runs(s, steps) && Settles(steps) ensures !End(s, steps).worker.Stopped? {
        NeverStops(s, steps);
      }
    }
  }
}
