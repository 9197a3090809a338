/** Reading several streams at once: one worker per stream puts pages into a
    shared bounded queue, a stop flag, and a consuming generator that polls the
    queue and, whenever it finds it empty, drops the workers that are done.
    Every interleaving of the steps is a run; a timeout is a step that may occur
    whenever the queue is empty (for the consumer) or full (for a worker). */
module StreamReader {
  datatype Page = Page(content: nat)

  /** A page together with the stream it was read from. */
  datatype Item = Item(stream: nat, page: Page)

  datatype Phase =
    | Attempting  // reading the next page or waiting to put it
    | Checking    // a put timed out, the stop flag is looked at next
    | Returned
    | Failed

  /** `count` is how many pages of its stream the worker has put. */
  datatype Worker = Worker(count: nat, phase: Phase)

  datatype Ending = Completed | Closed | Raised

  datatype Consumer =
    | Polling
    | Yielded
    | Pruning(todo: seq<nat>, keep: seq<nat>)
    | Stopped(ending: Ending)

  /** `puts` records every put, in order. */
  datatype State = State(
    workers: seq<Worker>, queue: seq<Item>, stop: bool, consumer: Consumer, inProgress: seq<nat>,
    yielded: seq<Item>, puts: seq<Item>)

  type Streams = s: seq<seq<Page>> | |s| > 0 witness [[]]

  datatype Step =
    | Put(w: nat) | Full(w: nat) | Check(w: nat) | Finish(w: nat) | Fail(w: nat)
    | Get | TimeOut | PruneOne | PruneEnd | Resume | Close

  // --------------------------------------------------------------------- steps

  function Init(streams: Streams): State {
    State(seq(|streams|, _ => Worker(0, Attempting)), [], false, Polling, seq(|streams|, i => i), [], [])
  }

  predicate InPhase(s: State, w: nat, phase: Phase) {
    w < |s.workers| && s.workers[w].phase == phase
  }

  predicate Done(s: State, w: nat) {
    w < |s.workers| && (s.workers[w].phase.Returned? || s.workers[w].phase.Failed?)
  }

  predicate Enabled(streams: Streams, s: State, step: Step) {
    match step
    case Put(w) =>
      InPhase(s, w, Attempting) && w < |streams| && s.workers[w].count < |streams[w]| && |s.queue| < |streams|
    case Full(w) =>
      InPhase(s, w, Attempting) && w < |streams| && s.workers[w].count < |streams[w]| && |s.queue| >= |streams|
    case Check(w) => InPhase(s, w, Checking)
    case Finish(w) => InPhase(s, w, Attempting) && w < |streams| && s.workers[w].count >= |streams[w]|
    case Fail(w) => InPhase(s, w, Attempting)
    case Get => s.consumer.Polling? && s.queue != []
    case TimeOut => s.consumer.Polling? && s.queue == []
    case PruneOne => s.consumer.Pruning? && s.consumer.todo != []
    case PruneEnd => s.consumer.Pruning? && s.consumer.todo == []
    case Resume => s.consumer.Yielded?
    case Close => s.consumer.Yielded?
  }

  function NextItem(streams: Streams, s: State, w: nat): Item
    requires Enabled(streams, s, Put(w))
  {
    Item(w, streams[w][s.workers[w].count])
  }

  function WithPhase(s: State, w: nat, phase: Phase): State
    requires w < |s.workers|
  {
    s.(workers := s.workers[w := s.workers[w].(phase := phase)])
  }

  function End(s: State, ending: Ending): State {
    s.(consumer := Stopped(ending), stop := true)
  }

  function Next(streams: Streams, s: State, step: Step): State
    requires Enabled(streams, s, step)
  {
    match step
    case Put(w) =>
      var item := NextItem(streams, s, w);
      s.(workers := s.workers[w := Worker(s.workers[w].count + 1, Attempting)],
         queue := s.queue + [item], puts := s.puts + [item])
    case Full(w) => WithPhase(s, w, Checking)
    case Check(w) => WithPhase(s, w, if s.stop then Returned else Attempting)
    case Finish(w) => WithPhase(s, w, Returned)
    case Fail(w) => WithPhase(s, w, Failed)
    case Get => s.(consumer := Yielded, queue := s.queue[1..], yielded := s.yielded + [s.queue[0]])
    case TimeOut => s.(consumer := Pruning(s.inProgress, []))
    case PruneOne =>
      var w := s.consumer.todo[0];
      if !Done(s, w) then s.(consumer := Pruning(s.consumer.todo[1..], s.consumer.keep + [w]))
      else if InPhase(s, w, Failed) then End(s, Raised)
      else s.(consumer := Pruning(s.consumer.todo[1..], s.consumer.keep))
    case PruneEnd =>
      var s' := s.(inProgress := s.consumer.keep);
      if s'.inProgress == [] then End(s', Completed) else s'.(consumer := Polling)
    case Resume => s.(consumer := Polling)
    case Close => End(s, Closed)
  }

  /** `steps` can be taken one after the other from `s`. */
  ghost predicate Runs(streams: Streams, s: State, steps: seq<Step>)
    decreases |steps|
  {
    steps == [] || (Enabled(streams, s, steps[0]) && Runs(streams, Next(streams, s, steps[0]), steps[1..]))
  }

  ghost function After(streams: Streams, s: State, steps: seq<Step>): State
    requires Runs(streams, s, steps)
    decreases |steps|
  {
    if steps == [] then s else After(streams, Next(streams, s, steps[0]), steps[1..])
  }

  // ----------------------------------------------------------------- invariant

  /** The pages among `items` that come from stream `w`, in order. */
  function Of(items: seq<Item>, w: nat): seq<Page> {
    if items == [] then []
    else
      var k := |items| - 1;
      Of(items[..k], w) + (if items[k].stream == w then [items[k].page] else [])
  }

  lemma {:induction false} OfAppend(a: seq<Item>, b: seq<Item>, w: nat)
    ensures Of(a + b, w) == Of(a, w) + Of(b, w)
  {
    if b == [] {
      assert a + b == a;
    } else {
      var k := |b| - 1;
      OfAppend(a, b[..k], w);
      assert (a + b)[..|a| + k] == a + b[..k];
    }
  }

  /** The workers the consumer still waits for. */
  function Awaited(s: State): seq<nat> {
    if s.consumer.Pruning? then s.consumer.keep + s.consumer.todo else s.inProgress
  }

  /** How far worker `w` is, what that says of its stream's pages, and why it is
      no longer waited for if it is not. */
  ghost predicate WorkerInv(streams: Streams, s: State, w: nat)
    requires w < |streams| && w < |s.workers|
  {
    var worker := s.workers[w];
    && worker.count <= |streams[w]|
    && Of(s.puts, w) == streams[w][..worker.count]
    && (worker.phase.Returned? && !s.stop ==> worker.count == |streams[w]|)
    && (w !in Awaited(s) ==> worker.phase.Returned?) && (w in Awaited(s) ==> w in s.inProgress)
    && (s.consumer == Stopped(Completed) ==> worker == Worker(|streams[w]|, Returned))
  }

  ghost predicate Inv(streams: Streams, s: State) {
    && |s.workers| == |streams|
    && s.puts == s.yielded + s.queue
    && |s.queue| <= |streams|
    && (s.stop <==> s.consumer.Stopped?)
    && (forall i :: 0 <= i < |s.puts| ==> s.puts[i].stream < |streams|)
    && (forall w :: 0 <= w < |streams| ==> WorkerInv(streams, s, w))
  }

  lemma InitInv(streams: Streams)
    ensures Inv(streams, Init(streams))
  {
    var s := Init(streams);
    forall w | 0 <= w < |streams| ensures w in s.inProgress {
      assert s.inProgress[w] == w;
    }
  }

  /** Every step of every worker and of the consumer keeps the invariant. */
  lemma NextInv(streams: Streams, s: State, step: Step)
    requires Inv(streams, s) && Enabled(streams, s, step)
    ensures Inv(streams, Next(streams, s, step))
  {
    var s' := Next(streams, s, step);
    hide WorkerInv;
    forall w | 0 <= w < |streams| ensures WorkerInv(streams, s', w) {
      assert WorkerInv(streams, s, w);
      WorkerKept(streams, s, step, w);
    }
    match step
    case Put(w) => assert s'.puts == s'.yielded + s'.queue;
    case Get => assert s.queue == [s.queue[0]] + s.queue[1..];
    case _ =>
  }

  lemma WorkerKept(streams: Streams, s: State, step: Step, w: nat)
    requires |s.workers| == |streams| && w < |streams| && WorkerInv(streams, s, w)
    requires s.stop <==> s.consumer.Stopped?
    requires Enabled(streams, s, step)
    ensures WorkerInv(streams, Next(streams, s, step), w)
  {
    if step.Put? {
      PutKept(streams, s, step.w, w);
    } else if step.Full? || step.Check? || step.Finish? || step.Fail? {
      PhaseKept(streams, s, step, w);
    } else {
      ConsumerKept(streams, s, step, w);
    }
  }

  lemma PhaseKept(streams: Streams, s: State, step: Step, w: nat)
    requires |s.workers| == |streams| && w < |streams| && WorkerInv(streams, s, w)
    requires step.Full? || step.Check? || step.Finish? || step.Fail?
    requires s.stop <==> s.consumer.Stopped?
    requires Enabled(streams, s, step)
    ensures WorkerInv(streams, Next(streams, s, step), w)
  {
    hide Of;
    assert Awaited(Next(streams, s, step)) == Awaited(s);
  }

  lemma ConsumerKept(streams: Streams, s: State, step: Step, w: nat)
    requires |s.workers| == |streams| && w < |streams| && WorkerInv(streams, s, w)
    requires step.Get? || step.TimeOut? || step.PruneOne? || step.PruneEnd? || step.Resume? || step.Close?
    requires s.stop <==> s.consumer.Stopped?
    requires Enabled(streams, s, step)
    ensures WorkerInv(streams, Next(streams, s, step), w)
  {
    hide Of;
    if step.PruneOne? || step.PruneEnd? {
      PruneKept(streams, s, step, w);
    } else if step.TimeOut? {
      assert [] + s.inProgress == s.inProgress;
    }
  }

  lemma PruneKept(streams: Streams, s: State, step: Step, w: nat)
    requires |s.workers| == |streams| && w < |streams| && WorkerInv(streams, s, w)
    requires (step.PruneOne? || step.PruneEnd?) && !s.stop && Enabled(streams, s, step)
    ensures WorkerInv(streams, Next(streams, s, step), w)
  {
    hide Of;
    var todo, keep := s.consumer.todo, s.consumer.keep;
    if step.PruneOne? {
      assert todo == [todo[0]] + todo[1..];
      assert w in keep + todo <==> w == todo[0] || w in keep + todo[1..];
      assert keep + [todo[0]] + todo[1..] == keep + todo;
    } else {
      assert keep + todo == keep;
    }
  }

  lemma PutKept(streams: Streams, s: State, v: nat, w: nat)
    requires |s.workers| == |streams| && w < |streams| && WorkerInv(streams, s, w)
    requires s.stop <==> s.consumer.Stopped?
    requires Enabled(streams, s, Put(v))
    ensures WorkerInv(streams, Next(streams, s, Put(v)), w)
  {
    var item := NextItem(streams, s, v);
    OfAppend(s.puts, [item], w);
    assert [item][..0] == [];
    assert Of([item], w) == if v == w then [item.page] else [];
    if v == w {
      assert streams[w][..s.workers[w].count + 1] == streams[w][..s.workers[w].count] + [item.page];
    }
  }

  /** The invariant holds throughout every run. */
  lemma {:induction false} RunInv(streams: Streams, s: State, steps: seq<Step>)
    requires Inv(streams, s) && Runs(streams, s, steps)
    ensures Inv(streams, After(streams, s, steps))
    decreases |steps|
  {
    if steps != [] {
      NextInv(streams, s, steps[0]);
      RunInv(streams, Next(streams, s, steps[0]), steps[1..]);
    }
  }

  // ---------------------------------------------------- what a client can rely on

  /** In every reachable state: nothing put is lost or duplicated, the queue is
      bounded, and the yielded pages of each stream are a prefix of that stream. */
  lemma ConservationAndOrder(streams: Streams, steps: seq<Step>)
    requires Runs(streams, Init(streams), steps)
    ensures var s := After(streams, Init(streams), steps);
      && s.yielded + s.queue == s.puts
      && |s.queue| <= |streams|
      && forall w :: 0 <= w < |streams| ==> Of(s.yielded, w) <= streams[w]
  {
    InitInv(streams);
    RunInv(streams, Init(streams), steps);
    var s := After(streams, Init(streams), steps);
    forall w | 0 <= w < |streams| ensures Of(s.yielded, w) <= streams[w] {
      assert WorkerInv(streams, s, w);
      OfAppend(s.yielded, s.queue, w);
      assert Of(s.yielded, w) <= Of(s.puts, w);
    }
  }

  function Pages(items: seq<Item>): (r: seq<Page>)
    ensures |r| == |items|
  {
    seq(|items|, i requires 0 <= i < |items| => items[i].page)
  }

  lemma {:induction false} OfOnly(items: seq<Item>)
    requires forall i :: 0 <= i < |items| ==> items[i].stream == 0
    ensures Of(items, 0) == Pages(items)
  {
    if items != [] {
      OfOnly(items[..|items| - 1]);
    }
  }

  /** A single stream keeps its total order: what has been yielded is its beginning. */
  lemma SingleStreamOrder(streams: Streams, steps: seq<Step>)
    requires |streams| == 1 && Runs(streams, Init(streams), steps)
    ensures Pages(After(streams, Init(streams), steps).yielded) <= streams[0]
  {
    InitInv(streams);
    RunInv(streams, Init(streams), steps);
    var s := After(streams, Init(streams), steps);
    forall i | 0 <= i < |s.yielded| ensures s.yielded[i].stream == 0 {
      assert s.puts[i] == s.yielded[i];
    }
    OfOnly(s.yielded);
    ConservationAndOrder(streams, steps);
  }

  // ------------------------------------------------------------- a normal exit

  /** The puts of a run since the consumer last found the queue empty. */
  ghost function PutsSince(streams: Streams, s: State, steps: seq<Step>, sofar: seq<Item>): seq<Item>
    requires Runs(streams, s, steps)
    decreases |steps|
  {
    if steps == [] then sofar
    else
      var now :=
        match steps[0]
        case TimeOut => []
        case Put(w) => sofar + [NextItem(streams, s, w)]
        case _ => sofar;
      PutsSince(streams, Next(streams, s, steps[0]), steps[1..], now)
  }

  /** While the consumer prunes, and after a normal exit, the queue holds exactly
      the puts since it was last found empty. */
  lemma {:induction false} QueueSince(streams: Streams, s: State, steps: seq<Step>, sofar: seq<Item>)
    requires Inv(streams, s) && Runs(streams, s, steps)
    requires s.consumer.Pruning? || s.consumer == Stopped(Completed) ==> s.queue == sofar
    ensures var s' := After(streams, s, steps);
      s'.consumer.Pruning? || s'.consumer == Stopped(Completed) ==> s'.queue == PutsSince(streams, s, steps, sofar)
    decreases |steps|
  {
    if steps != [] {
      var s' := Next(streams, s, steps[0]);
      NextInv(streams, s, steps[0]);
      var now :=
        match steps[0]
        case TimeOut => []
        case Put(w) => sofar + [NextItem(streams, s, w)]
        case _ => sofar;
      QueueSince(streams, s', steps[1..], now);
    }
  }

  /** Whether every page of every stream has been yielded. */
  ghost predicate AllYielded(streams: Streams, s: State) {
    forall w :: 0 <= w < |streams| ==> Of(s.yielded, w) == streams[w]
  }

  lemma OfLast(items: seq<Item>)
    requires items != []
    ensures Of(items, items[|items| - 1].stream) != []
  {
  }

  /** When the generator ends normally every worker has put its whole stream and
      none has failed; the pages still in the queue, which nothing takes out any
      more, are those put since the queue was last found empty.  So all pages
      were yielded exactly when there was no such put. */
  lemma NormalExit(streams: Streams, steps: seq<Step>)
    requires Runs(streams, Init(streams), steps)
    requires After(streams, Init(streams), steps).consumer == Stopped(Completed)
    ensures var s := After(streams, Init(streams), steps);
      && |s.workers| == |streams|
      && (forall w :: 0 <= w < |streams| ==>
            s.workers[w] == Worker(|streams[w]|, Returned) && Of(s.puts, w) == streams[w])
      && s.queue == PutsSince(streams, Init(streams), steps, [])
      && (AllYielded(streams, s) <==> PutsSince(streams, Init(streams), steps, []) == [])
  {
    InitInv(streams);
    RunInv(streams, Init(streams), steps);
    QueueSince(streams, Init(streams), steps, []);
    var s := After(streams, Init(streams), steps);
    forall w | 0 <= w < |streams|
      ensures s.workers[w] == Worker(|streams[w]|, Returned) && Of(s.puts, w) == streams[w]
      ensures Of(s.puts, w) == Of(s.yielded, w) + Of(s.queue, w)
    {
      assert WorkerInv(streams, s, w);
      assert streams[w][..|streams[w]|] == streams[w];
      OfAppend(s.yielded, s.queue, w);
    }
    if AllYielded(streams, s) {
      forall w | 0 <= w < |streams| ensures Of(s.queue, w) == [] {
        assert |Of(s.puts, w)| == |Of(s.yielded, w)| + |Of(s.queue, w)|;
      }
      if s.queue != [] {
        assert s.puts[|s.puts| - 1] == s.queue[|s.queue| - 1];
        OfLast(s.queue);
      }
    }
    if s.queue == [] {
      forall w | 0 <= w < |streams| ensures Of(s.yielded, w) == streams[w] {
        assert Of(s.queue, w) == [];
      }
    }
  }

  /** A run that ends normally and loses a page: the worker puts its only page and
      returns while the consumer, having just found the queue empty, is pruning. */
  lemma LosingRun() returns (streams: Streams, steps: seq<Step>)
    ensures Runs(streams, Init(streams), steps)
    ensures After(streams, Init(streams), steps).consumer == Stopped(Completed)
    ensures !AllYielded(streams, After(streams, Init(streams), steps))
  {
    streams, steps := [[Page(7)]], [TimeOut, Put(0), Finish(0), PruneOne, PruneEnd];
    var s0 := Init(streams);
    var s1 := Next(streams, s0, TimeOut);
    var s2 := Next(streams, s1, Put(0));
    var s3 := Next(streams, s2, Finish(0));
    assert s3.consumer.todo == [0];
    var s4 := Next(streams, s3, PruneOne);
    var s5 := Next(streams, s4, PruneEnd);
    assert Runs(streams, s5, []);
    assert Runs(streams, s4, [PruneEnd]) && After(streams, s4, [PruneEnd]) == s5;
    assert Runs(streams, s3, [PruneOne, PruneEnd]) && After(streams, s3, [PruneOne, PruneEnd]) == s5;
    assert Runs(streams, s2, steps[2..]) && After(streams, s2, steps[2..]) == s5;
    assert Runs(streams, s1, steps[1..]) && After(streams, s1, steps[1..]) == s5;
    assert Of(s5.yielded, 0) != streams[0];
  }

  // ------------------------------------------------------------------ shutdown

  function Weight(worker: Worker, length: nat): nat {
    match worker.phase
    case Attempting => 2 + if worker.count < length then length - worker.count else 0
    case Checking => 1
    case _ => 0
  }

  function TotalWeight(streams: seq<seq<Page>>, workers: seq<Worker>): nat
    requires |streams| == |workers|
  {
    if workers == [] then 0
    else Weight(workers[0], |streams[0]|) + TotalWeight(streams[1..], workers[1..])
  }

  lemma {:induction false} LighterWorker(streams: seq<seq<Page>>, workers: seq<Worker>, w: nat, worker: Worker)
    requires |streams| == |workers| && w < |workers|
    requires Weight(worker, |streams[w]|) < Weight(workers[w], |streams[w]|)
    ensures TotalWeight(streams, workers[w := worker]) < TotalWeight(streams, workers)
  {
    var changed := workers[w := worker];
    if w == 0 {
      assert changed[1..] == workers[1..];
    } else {
      assert changed[1..] == workers[1..][w - 1 := worker];
      LighterWorker(streams[1..], workers[1..], w - 1, worker);
    }
  }

  /** Once the flag is set every possible step brings the workers closer to
      their end, and a put takes one of the free places in the queue. */
  lemma StopStep(streams: Streams, s: State, step: Step)
    requires Inv(streams, s) && s.stop && Enabled(streams, s, step)
    ensures var s' := Next(streams, s, step);
      && Inv(streams, s') && s'.stop && s'.yielded == s.yielded
      && TotalWeight(streams, s'.workers) < TotalWeight(streams, s.workers)
      && |s'.queue| == |s.queue| + (if step.Put? then 1 else 0)
  {
    NextInv(streams, s, step);
    var s' := Next(streams, s, step);
    assert WorkerInv(streams, s, step.w);
    LighterWorker(streams, s.workers, step.w, s'.workers[step.w]);
  }

  /** As long as some worker is not done, some step is possible. */
  lemma StopProgress(streams: Streams, s: State, w: nat) returns (step: Step)
    requires Inv(streams, s) && s.stop && w < |streams| && !Done(s, w)
    ensures Enabled(streams, s, step)
  {
    assert WorkerInv(streams, s, w);
    step :=
      if s.workers[w].phase.Checking? then Check(w)
      else if s.workers[w].count >= |streams[w]| then Finish(w)
      else if |s.queue| < |streams| then Put(w)
      else Full(w);
  }

  function PutCount(steps: seq<Step>): nat {
    if steps == [] then 0 else (if steps[0].Put? then 1 else 0) + PutCount(steps[1..])
  }

  /** After the flag is set all workers together put at most as many pages as
      there are free places, and every run is finite. */
  lemma {:induction false} Shutdown(streams: Streams, s: State, steps: seq<Step>)
    requires Inv(streams, s) && s.stop && Runs(streams, s, steps)
    ensures PutCount(steps) <= |streams| - |s.queue|
    ensures |steps| <= TotalWeight(streams, s.workers)
    ensures After(streams, s, steps).yielded == s.yielded
    decreases |steps|
  {
    if steps != [] {
      StopStep(streams, s, steps[0]);
      Shutdown(streams, Next(streams, s, steps[0]), steps[1..]);
    }
  }

  /** A run that cannot be continued after the flag is set has let every worker
      return. */
  lemma ShutdownComplete(streams: Streams, s: State, steps: seq<Step>)
    requires Inv(streams, s) && s.stop && Runs(streams, s, steps)
    requires forall step :: !Enabled(streams, After(streams, s, steps), step)
    ensures forall w :: 0 <= w < |streams| ==> Done(After(streams, s, steps), w)
  {
    StaysStopped(streams, s, steps);
    forall w | 0 <= w < |streams| ensures Done(After(streams, s, steps), w) {
      if !Done(After(streams, s, steps), w) {
        var step := StopProgress(streams, After(streams, s, steps), w);
        assert false;
      }
    }
  }

  lemma {:induction false} StaysStopped(streams: Streams, s: State, steps: seq<Step>)
    requires Inv(streams, s) && s.stop && Runs(streams, s, steps)
    ensures Inv(streams, After(streams, s, steps)) && After(streams, s, steps).stop
    decreases |steps|
  {
    if steps != [] {
      StopStep(streams, s, steps[0]);
      StaysStopped(streams, Next(streams, s, steps[0]), steps[1..]);
    }
  }

  predicate IsWorkerStep(step: Step) {
    step.Put? || step.Full? || step.Check? || step.Finish? || step.Fail?
  }

  /** Until the flag is set the consumer itself can always take a step. */
  lemma ConsumerProgress(streams: Streams, s: State) returns (step: Step)
    requires !s.stop && (s.stop <==> s.consumer.Stopped?)
    ensures Enabled(streams, s, step) && !IsWorkerStep(step)
  {
    step :=
      match s.consumer
      case Polling => if s.queue == [] then TimeOut else Get
      case Yielded => Resume
      case Pruning(todo, _) => if todo == [] then PruneEnd else PruneOne
      case Stopped(_) => Get;
  }

  // -------------------------------------------------------------- runs are bounded

  /** Steps that worker `worker` can still cause: three for each page left, one to
      end, and one more while it looks at the flag. */
  function Credit(worker: Worker, length: nat): nat {
    (match worker.phase case Attempting => 1 case Checking => 2 case _ => 0)
    + if worker.phase.Returned? || worker.phase.Failed? || worker.count >= length then 0
      else 3 * (length - worker.count)
  }

  function Credits(streams: seq<seq<Page>>, workers: seq<Worker>): nat
    requires |streams| == |workers|
  {
    if workers == [] then 0 else Credit(workers[0], |streams[0]|) + Credits(streams[1..], workers[1..])
  }

  lemma {:induction false} ChangedCredit(streams: seq<seq<Page>>, workers: seq<Worker>, w: nat, worker: Worker)
    requires |streams| == |workers| && w < |workers|
    ensures Credits(streams, workers[w := worker]) ==
      Credits(streams, workers) - Credit(workers[w], |streams[w]|) + Credit(worker, |streams[w]|)
  {
    var changed := workers[w := worker];
    hide Credit;
    if w == 0 {
      assert changed[1..] == workers[1..];
    } else {
      assert changed[1..] == workers[1..][w - 1 := worker];
      ChangedCredit(streams[1..], workers[1..], w - 1, worker);
    }
  }

  function ConsumerCredit(c: Consumer): nat {
    match c
    case Yielded => 1
    case Pruning(todo, _) => |todo| + 1
    case _ => 0
  }

  function Potential(streams: Streams, s: State): nat
    requires |s.workers| == |streams|
  {
    Credits(streams, s.workers) + 2 * |s.queue| + ConsumerCredit(s.consumer)
  }

  /** The consumer never waits for more workers than there are. */
  predicate FewAwaited(streams: Streams, s: State) {
    |s.workers| == |streams| && |s.inProgress| <= |streams| && |Awaited(s)| <= |streams|
  }

  /** How much a step may add to the potential, and one for the step itself. */
  function Allowance(streams: Streams, step: Step): nat {
    if step.Full? then 2 else if step.TimeOut? then |streams| + 2 else 0
  }

  lemma StepCost(streams: Streams, s: State, step: Step)
    requires FewAwaited(streams, s) && Enabled(streams, s, step)
    ensures FewAwaited(streams, Next(streams, s, step))
    ensures Potential(streams, Next(streams, s, step)) + 1 <= Potential(streams, s) + Allowance(streams, step)
  {
    if IsWorkerStep(step) {
      WorkerCost(streams, s, step);
    } else {
      ConsumerCost(streams, s, step);
    }
  }

  lemma WorkerCost(streams: Streams, s: State, step: Step)
    requires FewAwaited(streams, s) && Enabled(streams, s, step) && IsWorkerStep(step)
    ensures FewAwaited(streams, Next(streams, s, step))
    ensures Potential(streams, Next(streams, s, step)) + 1 <= Potential(streams, s) + Allowance(streams, step)
  {
    hide Credits;
    var s' := Next(streams, s, step);
    assert step.w < |s.workers| && s'.workers == s.workers[step.w := s'.workers[step.w]];
    ChangedCredit(streams, s.workers, step.w, s'.workers[step.w]);
  }

  lemma ConsumerCost(streams: Streams, s: State, step: Step)
    requires FewAwaited(streams, s) && Enabled(streams, s, step) && !IsWorkerStep(step)
    ensures FewAwaited(streams, Next(streams, s, step))
    ensures Potential(streams, Next(streams, s, step)) + 1 <= Potential(streams, s) + Allowance(streams, step)
  {
    hide Credits, Credit;
    assert Next(streams, s, step).workers == s.workers;
  }

  function Allowances(streams: Streams, steps: seq<Step>): nat {
    if steps == [] then 0 else Allowance(streams, steps[0]) + Allowances(streams, steps[1..])
  }

  lemma {:induction false} RunCost(streams: Streams, s: State, steps: seq<Step>)
    requires FewAwaited(streams, s) && Runs(streams, s, steps)
    ensures |steps| <= Potential(streams, s) + Allowances(streams, steps)
    decreases |steps|
  {
    if steps != [] {
      hide Potential, FewAwaited, Allowance;
      StepCost(streams, s, steps[0]);
      RunCost(streams, Next(streams, s, steps[0]), steps[1..]);
    }
  }

  function FullCount(steps: seq<Step>): nat {
    if steps == [] then 0 else (if steps[0].Full? then 1 else 0) + FullCount(steps[1..])
  }

  function TimeOutCount(steps: seq<Step>): nat {
    if steps == [] then 0 else (if steps[0].TimeOut? then 1 else 0) + TimeOutCount(steps[1..])
  }

  lemma {:induction false} AllowancesAre(streams: Streams, steps: seq<Step>)
    ensures Allowances(streams, steps) == 2 * FullCount(steps) + (|streams| + 2) * TimeOutCount(steps)
  {
    if steps != [] {
      AllowancesAre(streams, steps[1..]);
      var n, k := |streams| + 2, TimeOutCount(steps[1..]);
      assert n * (1 + k) == n + n * k;
    }
  }

  function PageCount(streams: seq<seq<Page>>): nat {
    if streams == [] then 0 else |streams[0]| + PageCount(streams[1..])
  }

  lemma {:induction false} InitCredits(streams: seq<seq<Page>>, workers: seq<Worker>)
    requires |workers| == |streams| && forall w :: 0 <= w < |workers| ==> workers[w] == Worker(0, Attempting)
    ensures Credits(streams, workers) == 3 * PageCount(streams) + |streams|
  {
    if streams != [] {
      InitCredits(streams[1..], workers[1..]);
    }
  }

  /** A run can only be long by timing out: apart from what the timeouts of the
      workers and of the consumer cost it takes at most three steps for each page
      and one for each worker. */
  lemma RunBound(streams: Streams, steps: seq<Step>)
    requires Runs(streams, Init(streams), steps)
    ensures |steps| <= 3 * PageCount(streams) + |streams| + 2 * FullCount(steps) + (|streams| + 2) * TimeOutCount(steps)
  {
    var s := Init(streams);
    assert FewAwaited(streams, s);
    InitCredits(streams, s.workers);
    RunCost(streams, s, steps);
    AllowancesAre(streams, steps);
  }
}
