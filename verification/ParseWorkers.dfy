// Recipe parsing by several worker processes: job lists, pending lists, one result queue, one consumer.
module ParseWorkers {

  type Job = nat

  /** What a worker sends back for a job: `(True, mc, infos)`, or an exception. */
  datatype Outcome = Outcome(job: Job, failed: bool)

  /** Where a worker is in its loop. Closing is `results.close()` and `join_thread()`. */
  datatype WorkerPc = Top | Parsing(job: Job) | Posting | Closing | Dead

  /**
   * A worker. What it has put into the queue sits in buffer until its feeder thread moves it to the
   * pipe that the consumer reads.
   */
  datatype Worker = Worker(jobs: seq<Job>, havejobs: bool, pending: seq<Outcome>, buffer: seq<Outcome>, pc: WorkerPc, killed: bool)

  /** Where the consumer is: in parse_generator, or (Yielded) in parse_next with what it got. */
  datatype ConsumerPc =
    | Loop
    | Reaping(todo: seq<nat>)
    | Check
    | Getting
    | Yielded(got: Outcome)
    | TimedOut
    | Finished
    | NotAllParsed
    | Halted

  datatype State = State(
    workers: seq<Worker>,
    pipe: seq<Outcome>,
    processes: seq<nat>,
    empty: bool,
    consumed: seq<Job>,
    failures: seq<Job>,
    drained: seq<Outcome>,
    quit: bool,
    pc: ConsumerPc)

  /** The two orders in which a round of the consumer could reap dead workers and read the queue. */
  datatype Order = ReapThenGet | GetThenReap

  datatype Event =
    | WorkerTop(i: nat)
    | WorkerParsed(i: nat, failed: bool)
    | WorkerPost(i: nat, full: bool)
    | WorkerFlush(i: nat)
    | WorkerExit(i: nat)
    | Kill(i: nat)
    | ConsumerStep
    | Drain
    | SetQuit

  // ---- the steps ----

  /** `while havejobs or pending`, the quit test and `self.jobs.pop()` */
  function TopStep(w: Worker, quit: bool): Worker {
    if (!w.havejobs && w.pending == []) || quit then w.(pc := Closing)
    else if w.jobs == [] then w.(havejobs := false, pc := Posting)
    else w.(jobs := w.jobs[..|w.jobs| - 1], pc := Parsing(w.jobs[|w.jobs| - 1]))
  }

  /** `if pending`: the last result goes to the queue, or back to the list if that is full. */
  function PostStep(w: Worker, full: bool): Worker {
    if w.pending == [] || full then w.(pc := Top)
    else w.(pending := w.pending[..|w.pending| - 1], buffer := w.buffer + [w.pending[|w.pending| - 1]], pc := Top)
  }

  /** A killed worker keeps, for good, all that it has not handed over. */
  function KillStep(w: Worker): Worker {
    w.(jobs := if w.pc.Parsing? then w.jobs + [w.pc.job] else w.jobs, pc := Dead, killed := true)
  }

  function Without(ps: seq<nat>, i: nat): seq<nat> {
    if ps == [] then [] else if ps[0] == i then ps[1..] else [ps[0]] + Without(ps[1..], i)
  }

  /** One step of the consumer; toparse is the number of jobs. */
  function Consume(s: State, toparse: nat, order: Order): State {
    match s.pc
    case Loop =>
      if s.processes != [] || !s.empty then
        s.(pc := if order == ReapThenGet then Reaping(s.processes) else Getting)
      else if |s.consumed| >= toparse then s.(pc := Finished)
      else s.(pc := NotAllParsed)
    case Reaping(todo) =>
      if todo == [] then s.(pc := Check)
      else if todo[0] < |s.workers| && s.workers[todo[0]].pc == Dead then
        s.(processes := Without(s.processes, todo[0]), pc := Reaping(todo[1..]))
      else s.(pc := Reaping(todo[1..]))
    case Check =>
      if |s.consumed| >= toparse then s.(pc := Finished)
      else s.(pc := if order == ReapThenGet then Getting else Loop)
    case Getting =>
      if s.pipe == [] then s.(empty := true, pc := TimedOut)
      else s.(empty := false, pipe := s.pipe[1..], pc := Yielded(s.pipe[0]))
    case Yielded(r) =>
      if r.failed then s.(failures := s.failures + [r.job], pc := Halted)
      else s.(consumed := s.consumed + [r.job], pc := if order == ReapThenGet then Loop else Reaping(s.processes))
    case TimedOut => s.(pc := if order == ReapThenGet then Loop else Reaping(s.processes))
    case _ => s
  }

  predicate Over(pc: ConsumerPc) {
    pc == Finished || pc == NotAllParsed || pc == Halted
  }

  predicate Enabled(s: State, e: Event) {
    match e
    case WorkerTop(i) => i < |s.workers| && s.workers[i].pc == Top
    case WorkerParsed(i, failed) => i < |s.workers| && s.workers[i].pc.Parsing?
    case WorkerPost(i, full) => i < |s.workers| && s.workers[i].pc == Posting
    case WorkerFlush(i) => i < |s.workers| && s.workers[i].pc != Dead && s.workers[i].buffer != []
    case WorkerExit(i) => i < |s.workers| && s.workers[i].pc == Closing && s.workers[i].buffer == []
    case Kill(i) => i < |s.workers| && s.workers[i].pc != Dead
    case ConsumerStep => !Over(s.pc)
    case Drain => Over(s.pc) && s.pipe != []
    case SetQuit => Over(s.pc)
  }

  function Step(s: State, e: Event, toparse: nat, order: Order): State
    requires Enabled(s, e)
  {
    match e
    case WorkerTop(i) => s.(workers := s.workers[i := TopStep(s.workers[i], s.quit)])
    case WorkerParsed(i, failed) =>
      var w := s.workers[i];
      s.(workers := s.workers[i := w.(pending := w.pending + [Outcome(w.pc.job, failed)], pc := Posting)])
    case WorkerPost(i, full) => s.(workers := s.workers[i := PostStep(s.workers[i], full)])
    case WorkerFlush(i) =>
      var w := s.workers[i];
      s.(workers := s.workers[i := w.(buffer := w.buffer[1..])], pipe := s.pipe + [w.buffer[0]])
    case WorkerExit(i) => s.(workers := s.workers[i := s.workers[i].(pc := Dead)])
    case Kill(i) => s.(workers := s.workers[i := KillStep(s.workers[i])])
    case ConsumerStep => Consume(s, toparse, order)
    case Drain => s.(drained := s.drained + [s.pipe[0]], pipe := s.pipe[1..])
    case SetQuit => s.(quit := true)
  }

  /** Is es a run from s, and where does it lead? Any interleaving is such a run. */
  predicate CanRun(s: State, es: seq<Event>, toparse: nat, order: Order)
    decreases |es|
  {
    es == [] || (Enabled(s, es[0]) && CanRun(Step(s, es[0], toparse, order), es[1..], toparse, order))
  }

  function Run(s: State, es: seq<Event>, toparse: nat, order: Order): State
    requires CanRun(s, es, toparse, order)
    decreases |es|
  {
    if es == [] then s else Run(Step(s, es[0], toparse, order), es[1..], toparse, order)
  }

  // ---- the start ----

  /** `lst[i::n]` */
  function Stride(lst: seq<Job>, i: nat, n: nat): seq<Job>
    requires n > 0
    decreases |lst| - i
  {
    if i >= |lst| then [] else [lst[i]] + Stride(lst, i + n, n)
  }

  /** `chunkify(lst, n)` */
  function Chunkify(lst: seq<Job>, n: nat): seq<seq<Job>> {
    seq(n, i requires 0 <= i < n => Stride(lst, i, n))
  }

  function NewWorkers(chunks: seq<seq<Job>>): seq<Worker> {
    seq(|chunks|, i requires 0 <= i < |chunks| => Worker(chunks[i], true, [], [], Top, false))
  }

  function UpTo(n: nat): seq<nat> {
    seq(n, i => i)
  }

  /** `start()`: n workers share the jobs in willparse. */
  function Start(willparse: seq<Job>, n: nat): State {
    State(NewWorkers(Chunkify(willparse, n)), [], UpTo(n), false, [], [], [], false, Loop)
  }

  // ---- every job is in exactly one place ----

  function One(b: bool): nat {
    if b then 1 else 0
  }

  /** How many of the jobs satisfy p. */
  ghost function Count(js: seq<Job>, p: Job -> bool): nat {
    if js == [] then 0 else One(p(js[0])) + Count(js[1..], p)
  }

  ghost function CountIn(rs: seq<Outcome>, p: Job -> bool): nat {
    if rs == [] then 0 else One(p(rs[0].job)) + CountIn(rs[1..], p)
  }

  /** The jobs a worker still has: in its list, in hand, pending, or on the way to the pipe. */
  ghost function Held(w: Worker, p: Job -> bool): nat {
    Count(w.jobs, p) + One(w.pc.Parsing? && p(w.pc.job)) + CountIn(w.pending, p) + CountIn(w.buffer, p)
  }

  ghost function HeldByAll(ws: seq<Worker>, p: Job -> bool): nat {
    if ws == [] then 0 else Held(ws[0], p) + HeldByAll(ws[1..], p)
  }

  /**
   * The jobs that satisfy p, over all places: the workers, the pipe, the consumer's hand, and what it
   * has dealt with.
   */
  ghost function Places(s: State, p: Job -> bool): nat {
    HeldByAll(s.workers, p) + CountIn(s.pipe, p) + One(s.pc.Yielded? && p(s.pc.got.job))
    + Count(s.consumed, p) + Count(s.failures, p) + CountIn(s.drained, p)
  }

  lemma {:induction false} CountBack(js: seq<Job>, j: Job, p: Job -> bool)
    ensures Count(js + [j], p) == Count(js, p) + One(p(j))
  {
    if js == [] {
      assert (js + [j])[1..] == [];
    } else {
      assert (js + [j])[1..] == js[1..] + [j];
      CountBack(js[1..], j, p);
    }
  }

  lemma {:induction false} CountInBack(rs: seq<Outcome>, r: Outcome, p: Job -> bool)
    ensures CountIn(rs + [r], p) == CountIn(rs, p) + One(p(r.job))
  {
    if rs == [] {
      assert (rs + [r])[1..] == [];
    } else {
      assert (rs + [r])[1..] == rs[1..] + [r];
      CountInBack(rs[1..], r, p);
    }
  }

  lemma CountFront(js: seq<Job>, p: Job -> bool)
    requires js != []
    ensures Count(js, p) == Count(js[..|js| - 1], p) + One(p(js[|js| - 1]))
  {
    assert js == js[..|js| - 1] + [js[|js| - 1]];
    CountBack(js[..|js| - 1], js[|js| - 1], p);
  }

  lemma CountInFront(rs: seq<Outcome>, p: Job -> bool)
    requires rs != []
    ensures CountIn(rs, p) == CountIn(rs[..|rs| - 1], p) + One(p(rs[|rs| - 1].job))
  {
    assert rs == rs[..|rs| - 1] + [rs[|rs| - 1]];
    CountInBack(rs[..|rs| - 1], rs[|rs| - 1], p);
  }

  lemma {:induction false} HeldAfter(ws: seq<Worker>, i: nat, w: Worker, p: Job -> bool)
    requires i < |ws| && Held(w, p) == Held(ws[i], p)
    ensures HeldByAll(ws[i := w], p) == HeldByAll(ws, p)
  {
    hide Held;
    if i == 0 {
      assert ws[i := w][1..] == ws[1..];
    } else {
      assert ws[i := w][1..] == ws[1..][i - 1 := w];
      HeldAfter(ws[1..], i - 1, w, p);
    }
  }

  /** One worker hands the result r to the pipe. */
  lemma {:induction false} HeldLess(ws: seq<Worker>, i: nat, w: Worker, j: Job, p: Job -> bool)
    requires i < |ws| && Held(w, p) + One(p(j)) == Held(ws[i], p)
    ensures HeldByAll(ws[i := w], p) + One(p(j)) == HeldByAll(ws, p)
  {
    hide Held;
    if i == 0 {
      assert ws[i := w][1..] == ws[1..];
    } else {
      assert ws[i := w][1..] == ws[1..][i - 1 := w];
      HeldLess(ws[1..], i - 1, w, j, p);
    }
  }

  lemma TopHeld(w: Worker, quit: bool, p: Job -> bool)
    requires w.pc == Top
    ensures Held(TopStep(w, quit), p) == Held(w, p)
  {
    if w.jobs != [] {
      CountFront(w.jobs, p);
    }
  }

  lemma PostHeld(w: Worker, full: bool, p: Job -> bool)
    requires w.pc == Posting
    ensures Held(PostStep(w, full), p) == Held(w, p)
  {
    if w.pending != [] {
      CountInFront(w.pending, p);
      CountInBack(w.buffer, w.pending[|w.pending| - 1], p);
    }
  }

  lemma KillHeld(w: Worker, p: Job -> bool)
    ensures Held(KillStep(w), p) == Held(w, p)
  {
    if w.pc.Parsing? {
      CountBack(w.jobs, w.pc.job, p);
    }
  }

  lemma ConsumeKeepsJobs(s: State, toparse: nat, order: Order, p: Job -> bool)
    ensures Places(Consume(s, toparse, order), p) == Places(s, p)
  {
    hide HeldByAll, Without, Count;
    if s.pc == Getting && s.pipe != [] {
      assert CountIn(s.pipe, p) == One(p(s.pipe[0].job)) + CountIn(s.pipe[1..], p);
    }
    hide CountIn;
    if s.pc.Yielded? {
      CountBack(s.consumed, s.pc.got.job, p);
      CountBack(s.failures, s.pc.got.job, p);
    }
  }

  /** Every step moves jobs between places; none is lost and none is doubled. */
  lemma StepKeepsJobs(s: State, e: Event, toparse: nat, order: Order, p: Job -> bool)
    requires Enabled(s, e)
    ensures Places(Step(s, e, toparse, order), p) == Places(s, p)
  {
    hide HeldByAll, TopStep, PostStep, KillStep, Consume;
    match e
    case WorkerTop(i) =>
      TopHeld(s.workers[i], s.quit, p);
      HeldAfter(s.workers, i, TopStep(s.workers[i], s.quit), p);
    case WorkerParsed(i, failed) =>
      var w := s.workers[i];
      CountInBack(w.pending, Outcome(w.pc.job, failed), p);
      HeldAfter(s.workers, i, w.(pending := w.pending + [Outcome(w.pc.job, failed)], pc := Posting), p);
    case WorkerPost(i, full) =>
      PostHeld(s.workers[i], full, p);
      HeldAfter(s.workers, i, PostStep(s.workers[i], full), p);
    case WorkerFlush(i) =>
      var w := s.workers[i];
      CountInBack(s.pipe, w.buffer[0], p);
      HeldLess(s.workers, i, w.(buffer := w.buffer[1..]), w.buffer[0].job, p);
    case WorkerExit(i) =>
      HeldAfter(s.workers, i, s.workers[i].(pc := Dead), p);
    case Kill(i) =>
      KillHeld(s.workers[i], p);
      HeldAfter(s.workers, i, KillStep(s.workers[i]), p);
    case ConsumerStep => ConsumeKeepsJobs(s, toparse, order, p);
    case Drain =>
      CountInBack(s.drained, s.pipe[0], p);
    case SetQuit =>
  }

  // ---- chunkify shares the jobs out completely ----

  /** The count over the strides that start at k, k+1, ..., k+m-1. */
  ghost function Window(lst: seq<Job>, k: nat, m: nat, n: nat, p: Job -> bool): nat
    requires n > 0
    decreases m
  {
    if m == 0 then 0 else Count(Stride(lst, k, n), p) + Window(lst, k + 1, m - 1, n, p)
  }

  lemma {:induction false} WindowBack(lst: seq<Job>, k: nat, m: nat, n: nat, p: Job -> bool)
    requires n > 0
    ensures Window(lst, k, m + 1, n, p) == Window(lst, k, m, n, p) + Count(Stride(lst, k + m, n), p)
    decreases m
  {
    if m > 0 {
      WindowBack(lst, k + 1, m - 1, n, p);
    }
  }

  /** n neighbouring strides cover everything from the first of them on. */
  lemma {:induction false} WindowCovers(lst: seq<Job>, k: nat, n: nat, p: Job -> bool)
    requires n > 0
    ensures Window(lst, k, n, n, p) == if k < |lst| then Count(lst[k..], p) else 0
    decreases |lst| - k
  {
    if k >= |lst| {
      WindowPast(lst, k, n, n, p);
    } else {
      WindowCovers(lst, k + 1, n, p);
      WindowBack(lst, k + 1, n - 1, n, p);
      assert lst[k..][1..] == lst[k + 1..];
      assert Stride(lst, k, n)[1..] == Stride(lst, k + n, n);
      assert k + 1 == |lst| ==> lst[k + 1..] == [];
    }
  }

  lemma {:induction false} WindowPast(lst: seq<Job>, k: nat, m: nat, n: nat, p: Job -> bool)
    requires n > 0 && k >= |lst|
    ensures Window(lst, k, m, n, p) == 0
    decreases m
  {
    if m > 0 {
      WindowPast(lst, k + 1, m - 1, n, p);
    }
  }

  lemma {:induction false} NewWorkersHold(ws: seq<Worker>, lst: seq<Job>, k: nat, n: nat, p: Job -> bool)
    requires n > 0
    requires forall i :: 0 <= i < |ws| ==> ws[i] == Worker(Stride(lst, k + i, n), true, [], [], Top, false)
    ensures HeldByAll(ws, p) == Window(lst, k, |ws|, n, p)
    decreases |ws|
  {
    if ws != [] {
      NewWorkersHold(ws[1..], lst, k + 1, n, p);
    }
  }

  /** At the start every job of willparse is in some worker's list, and nothing else is anywhere. */
  lemma StartHoldsAll(willparse: seq<Job>, n: nat, p: Job -> bool)
    requires n > 0
    ensures Places(Start(willparse, n), p) == Count(willparse, p)
  {
    var ws := NewWorkers(Chunkify(willparse, n));
    NewWorkersHold(ws, willparse, 0, n, p);
    WindowCovers(willparse, 0, n, p);
    assert willparse[0..] == willparse;
  }

  // ---- the consumer gets everything ----

  /** What a worker that was not killed satisfies in every state. */
  ghost predicate WorkerOk(w: Worker, quit: bool) {
    && (w.killed ==> w.pc == Dead)
    && (!w.killed && !w.havejobs ==> w.jobs == [])
    && (!w.killed && !quit && (w.pc == Closing || w.pc == Dead) ==> w.jobs == [] && w.pending == [])
    && (!w.killed && w.pc == Dead ==> w.buffer == [])
  }

  ghost predicate Inv(s: State, order: Order) {
    && (forall i :: 0 <= i < |s.workers| ==> WorkerOk(s.workers[i], s.quit))
    && (forall i :: 0 <= i < |s.workers| && i !in s.processes ==> s.workers[i].pc == Dead)
    && (!Over(s.pc) ==> !s.quit && s.failures == [] && s.drained == [])
    && (s.pc == Finished || s.pc == NotAllParsed ==> s.failures == [])
    && (s.pc == Halted ==> s.failures != [])
    && (s.pc.Yielded? ==> !s.empty)
    && (order == ReapThenGet && s.processes == [] && s.empty && (s.pc == Loop || s.pc == TimedOut) ==> s.pipe == [])
  }

  ghost predicate NoneKilled(s: State) {
    forall i :: 0 <= i < |s.workers| ==> !s.workers[i].killed
  }

  lemma {:induction false} WithoutMembers(ps: seq<nat>, i: nat)
    ensures forall x :: x in ps && x != i ==> x in Without(ps, i)
  {
    if ps != [] {
      WithoutMembers(ps[1..], i);
    }
  }

  lemma {:induction false} AllDeadHold(ws: seq<Worker>, p: Job -> bool)
    requires forall i :: 0 <= i < |ws| ==> Held(ws[i], p) == 0
    ensures HeldByAll(ws, p) == 0
  {
    if ws != [] {
      assert forall i :: 0 <= i < |ws[1..]| ==> ws[1..][i] == ws[i + 1];
      AllDeadHold(ws[1..], p);
    }
  }

  /** A worker step keeps the invariant. */
  lemma WorkerKeepsInv(s: State, i: nat, w: Worker, pipe: seq<Outcome>, order: Order)
    requires Inv(s, order) && i < |s.workers| && s.workers[i].pc != Dead
    requires WorkerOk(w, s.quit)
    ensures Inv(s.(workers := s.workers[i := w], pipe := pipe), order)
  {
    assert i in s.processes;
  }

  lemma StepKeepsInv(s: State, e: Event, toparse: nat, order: Order)
    requires Inv(s, order) && Enabled(s, e)
    ensures Inv(Step(s, e, toparse, order), order)
  {
    hide Consume;
    var s' := Step(s, e, toparse, order);
    match e
    case WorkerTop(i) => WorkerKeepsInv(s, i, s'.workers[i], s.pipe, order);
    case WorkerParsed(i, failed) => WorkerKeepsInv(s, i, s'.workers[i], s.pipe, order);
    case WorkerPost(i, full) => WorkerKeepsInv(s, i, s'.workers[i], s.pipe, order);
    case WorkerFlush(i) => WorkerKeepsInv(s, i, s'.workers[i], s'.pipe, order);
    case WorkerExit(i) => WorkerKeepsInv(s, i, s'.workers[i], s.pipe, order);
    case Kill(i) => WorkerKeepsInv(s, i, s'.workers[i], s.pipe, order);
    case ConsumerStep => ConsumerKeepsInv(s, toparse, order);
    case Drain =>
    case SetQuit =>
  }

  lemma ConsumerKeepsInv(s: State, toparse: nat, order: Order)
    requires Inv(s, order) && !Over(s.pc)
    ensures Inv(Consume(s, toparse, order), order)
  {
    hide Without;
    if s.pc.Reaping? && s.pc.todo != [] {
      WithoutMembers(s.processes, s.pc.todo[0]);
    }
  }

  /**
   * At the end of the loop, with the queue found empty after the last worker was reaped: if nobody was
   * killed, everything has been consumed.
   */
  lemma NothingLeft(s: State, p: Job -> bool)
    requires Inv(s, ReapThenGet) && s.pc == Loop && s.processes == [] && s.empty && NoneKilled(s)
    ensures Places(s, p) == Count(s.consumed, p)
  {
    forall i | 0 <= i < |s.workers| ensures Held(s.workers[i], p) == 0 {
      assert WorkerOk(s.workers[i], s.quit) && s.workers[i].pc == Dead;
    }
    AllDeadHold(s.workers, p);
  }

  lemma {:induction false} CountAll(js: seq<Job>)
    ensures Count(js, (j: Job) => true) == |js|
  {
    if js != [] {
      CountAll(js[1..]);
    }
  }

  /** What holds in every state of a run with at least one worker. */
  ghost predicate Sound(s: State, willparse: seq<Job>) {
    && Inv(s, ReapThenGet)
    && (forall p: Job -> bool :: Places(s, p) == Count(willparse, p))
    && (s.pc == NotAllParsed ==> !NoneKilled(s))
    && (s.pc == Finished ==> |s.consumed| >= |willparse|)
  }

  lemma StepKeepsSound(s: State, e: Event, willparse: seq<Job>)
    requires Sound(s, willparse) && Enabled(s, e)
    ensures Sound(Step(s, e, |willparse|, ReapThenGet), willparse)
  {
    hide Places, Count;
    var s' := Step(s, e, |willparse|, ReapThenGet);
    StepKeepsInv(s, e, |willparse|, ReapThenGet);
    forall p: Job -> bool ensures Places(s', p) == Count(willparse, p) {
      StepKeepsJobs(s, e, |willparse|, ReapThenGet, p);
    }
    var all := (j: Job) => true;
    assert Places(s, all) == Count(willparse, all);
    CountAll(s.consumed);
    CountAll(willparse);
    if s.pc == Loop && s'.pc == NotAllParsed && NoneKilled(s) {
      NothingLeft(s, all);
      assert false;
    }
    if e.Kill? {
      assert s'.workers[e.i].killed;
    } else {
      assert NoneKilled(s') ==> NoneKilled(s) by { KillsStay(s, e, |willparse|, ReapThenGet); }
    }
  }

  lemma KillsStay(s: State, e: Event, toparse: nat, order: Order)
    requires Enabled(s, e)
    ensures NoneKilled(Step(s, e, toparse, order)) ==> NoneKilled(s)
    ensures NoneKilled(s) && !e.Kill? ==> NoneKilled(Step(s, e, toparse, order))
  {
    var s' := Step(s, e, toparse, order);
    assert |s'.workers| == |s.workers|;
    if NoneKilled(s') {
      forall i | 0 <= i < |s.workers| ensures !s.workers[i].killed {
        assert !s'.workers[i].killed;
      }
    }
  }

  lemma {:induction false} RunKeepsSound(s: State, es: seq<Event>, willparse: seq<Job>)
    requires Sound(s, willparse) && CanRun(s, es, |willparse|, ReapThenGet)
    ensures Sound(Run(s, es, |willparse|, ReapThenGet), willparse)
    decreases |es|
  {
    hide Sound, Step, Enabled;
    if es != [] {
      StepKeepsSound(s, es[0], willparse);
      RunKeepsSound(Step(s, es[0], |willparse|, ReapThenGet), es[1..], willparse);
    }
  }

  lemma StartSound(willparse: seq<Job>, n: nat)
    requires n > 0
    ensures Sound(Start(willparse, n), willparse)
  {
    var s := Start(willparse, n);
    forall p: Job -> bool ensures Places(s, p) == Count(willparse, p) {
      StartHoldsAll(willparse, n, p);
    }
    forall i | 0 <= i < |s.workers| ensures i in s.processes {
      assert s.processes[i] == i;
    }
  }

  lemma {:induction false} NoKillEvents(s: State, es: seq<Event>, toparse: nat, order: Order)
    requires CanRun(s, es, toparse, order) && NoneKilled(s) && forall i :: 0 <= i < |es| ==> !es[i].Kill?
    ensures NoneKilled(Run(s, es, toparse, order))
    decreases |es|
  {
    hide Step, Enabled;
    if es != [] {
      KillsStay(s, es[0], toparse, order);
      NoKillEvents(Step(s, es[0], toparse, order), es[1..], toparse, order);
    }
  }

  /**
   * In every interleaving from the start, with at least one worker: each job is in exactly one place,
   * as often as it was to be parsed.
   */
  lemma EachJobOnce(willparse: seq<Job>, n: nat, es: seq<Event>, j: Job)
    requires n > 0 && CanRun(Start(willparse, n), es, |willparse|, ReapThenGet)
    ensures Places(Run(Start(willparse, n), es, |willparse|, ReapThenGet), (x: Job) => x == j) == Count(willparse, (x: Job) => x == j)
  {
    hide Places, Count;
    StartSound(willparse, n);
    RunKeepsSound(Start(willparse, n), es, willparse);
    var p := (x: Job) => x == j;
    assert Places(Run(Start(willparse, n), es, |willparse|, ReapThenGet), p) == Count(willparse, p);
  }

  /**
   * With at least one worker and no worker killed, the consumer never ends with "Not all recipes
   * parsed": it ends early only on a failed parse, and otherwise with every job parsed.
   */
  lemma AllRecipesParsed(willparse: seq<Job>, n: nat, es: seq<Event>)
    requires n > 0 && CanRun(Start(willparse, n), es, |willparse|, ReapThenGet)
    requires forall i :: 0 <= i < |es| ==> !es[i].Kill?
    ensures var s := Run(Start(willparse, n), es, |willparse|, ReapThenGet);
            && s.pc != NotAllParsed && (s.pc == Halted ==> s.failures != [])
            && (s.pc == Finished ==> |s.consumed| == |willparse| && forall p: Job -> bool :: Count(s.consumed, p) == Count(willparse, p))
  {
    hide Count;
    var s := Run(Start(willparse, n), es, |willparse|, ReapThenGet);
    StartSound(willparse, n);
    RunKeepsSound(Start(willparse, n), es, willparse);
    NoKillEvents(Start(willparse, n), es, |willparse|, ReapThenGet);
    var all := (j: Job) => true;
    CountAll(s.consumed);
    CountAll(willparse);
    assert Places(s, all) == Count(willparse, all);
    forall p: Job -> bool ensures s.pc == Finished ==> Count(s.consumed, p) == Count(willparse, p) {
      var q := (j: Job) => !p(j);
      assert Places(s, p) == Count(willparse, p) && Places(s, q) == Count(willparse, q);
      Complement(s.consumed, p);
      Complement(willparse, p);
    }
  }

  lemma {:induction false} Complement(js: seq<Job>, p: Job -> bool)
    ensures Count(js, p) + Count(js, (j: Job) => !p(j)) == |js|
  {
    if js != [] {
      Complement(js[1..], p);
    }
  }

  // ---- what is taken for parsed was parsed ----

  /** In this run a worker ends the parsing of j, with an exception or without. */
  ghost predicate Ends(s: State, es: seq<Event>, toparse: nat, order: Order, j: Job, failed: bool)
    requires CanRun(s, es, toparse, order)
    decreases |es|
  {
    es != [] &&
    ((es[0].WorkerParsed? && es[0].failed == failed && s.workers[es[0].i].pc == Parsing(j))
     || Ends(Step(s, es[0], toparse, order), es[1..], toparse, order, j, failed))
  }

  ghost predicate AllFrom(rs: seq<Outcome>, known: iset<(Job, bool)>) {
    forall r :: r in rs ==> (r.job, r.failed) in known
  }

  /** All results, wherever they are, and all that was made of them, are among these. */
  ghost predicate From(s: State, known: iset<(Job, bool)>) {
    && (forall i :: 0 <= i < |s.workers| ==> AllFrom(s.workers[i].pending, known) && AllFrom(s.workers[i].buffer, known))
    && AllFrom(s.pipe, known) && AllFrom(s.drained, known) && (s.pc.Yielded? ==> (s.pc.got.job, s.pc.got.failed) in known)
    && (forall j: Job :: j in s.consumed ==> (j, false) in known) && (forall j: Job :: j in s.failures ==> (j, true) in known)
  }

  lemma WorkerFrom(s: State, i: nat, w: Worker, pipe: seq<Outcome>, known: iset<(Job, bool)>)
    requires From(s, known) && i < |s.workers| && AllFrom(w.pending, known) && AllFrom(w.buffer, known) && AllFrom(pipe, known)
    ensures From(s.(workers := s.workers[i := w], pipe := pipe), known)
  {
    hide AllFrom;
  }

  lemma StepFrom(s: State, e: Event, toparse: nat, order: Order, known: iset<(Job, bool)>)
    requires From(s, known) && Enabled(s, e)
    requires e.WorkerParsed? ==> (s.workers[e.i].pc.job, e.failed) in known
    ensures From(Step(s, e, toparse, order), known)
  {
    hide Consume;
    var s' := Step(s, e, toparse, order);
    match e
    case ConsumerStep => ConsumerFrom(s, toparse, order, known);
    case Drain =>
    case SetQuit =>
    case _ =>
      assert AllFrom(s.workers[e.i].pending, known) && AllFrom(s.workers[e.i].buffer, known);
      hide From;
      WorkerFrom(s, e.i, s'.workers[e.i], s'.pipe, known);
  }

  lemma ConsumerFrom(s: State, toparse: nat, order: Order, known: iset<(Job, bool)>)
    requires From(s, known)
    ensures From(Consume(s, toparse, order), known)
  {
    hide Without;
    if s.pc == Getting && s.pipe != [] {
      FirstAndRest(s.pipe, known);
    }
    hide AllFrom;
  }

  lemma FirstAndRest(rs: seq<Outcome>, known: iset<(Job, bool)>)
    requires AllFrom(rs, known) && rs != []
    ensures (rs[0].job, rs[0].failed) in known && AllFrom(rs[1..], known)
  {
  }

  lemma {:induction false} RunFrom(s: State, es: seq<Event>, toparse: nat, order: Order, known: iset<(Job, bool)>)
    requires From(s, known) && CanRun(s, es, toparse, order)
    requires forall j: Job, f :: Ends(s, es, toparse, order, j, f) ==> (j, f) in known
    ensures From(Run(s, es, toparse, order), known)
    decreases |es|
  {
    if es != [] {
      var e := es[0];
      if e.WorkerParsed? {
        assert Ends(s, es, toparse, order, s.workers[e.i].pc.job, e.failed);
      }
      StepFrom(s, e, toparse, order, known);
      hide Step, Enabled, From;
      RunFrom(Step(s, e, toparse, order), es[1..], toparse, order, known);
    }
  }

  /** In every interleaving: what was consumed was parsed without an exception, and what counts as failed with one. */
  lemma ConsumedWereParsed(willparse: seq<Job>, n: nat, es: seq<Event>, order: Order)
    requires CanRun(Start(willparse, n), es, |willparse|, order)
    ensures var s := Run(Start(willparse, n), es, |willparse|, order);
            && (forall j :: j in s.consumed ==> Ends(Start(willparse, n), es, |willparse|, order, j, false))
            && (forall j :: j in s.failures ==> Ends(Start(willparse, n), es, |willparse|, order, j, true))
  {
    var s0 := Start(willparse, n);
    var known := iset j: Job, f | Ends(s0, es, |willparse|, order, j, f) :: (j, f);
    assert From(s0, known);
    RunFrom(s0, es, |willparse|, order, known);
  }

  /** So that error means that a worker was killed. */
  lemma ErrorMeansKilled(willparse: seq<Job>, n: nat, es: seq<Event>)
    requires n > 0 && CanRun(Start(willparse, n), es, |willparse|, ReapThenGet)
    requires Run(Start(willparse, n), es, |willparse|, ReapThenGet).pc == NotAllParsed
    ensures exists i :: 0 <= i < |es| && es[i].Kill?
  {
    if forall i :: 0 <= i < |es| ==> !es[i].Kill? {
      AllRecipesParsed(willparse, n, es);
    }
  }

  // ---- why the conditions are needed ----

  /** One more event at the end of a run. */
  lemma {:induction false} Then(s0: State, es: seq<Event>, s: State, e: Event, toparse: nat, order: Order) returns (es': seq<Event>, s': State)
    requires CanRun(s0, es, toparse, order) && Run(s0, es, toparse, order) == s && Enabled(s, e)
    ensures es' == es + [e] && s' == Step(s, e, toparse, order)
    ensures CanRun(s0, es', toparse, order) && Run(s0, es', toparse, order) == s'
    decreases |es|
  {
    es', s' := es + [e], Step(s, e, toparse, order);
    if es == [] {
      assert es' == [e] && es'[1..] == [];
    } else {
      assert es'[1..] == es[1..] + [e];
      var _, _ := Then(Step(s0, es[0], toparse, order), es[1..], s, e, toparse, order);
    }
  }

  /** With the order as it is, one worker and one job: the job is parsed and consumed, and the end is a normal one. */
  lemma OneJobFinishes(j: Job) returns (es: seq<Event>)
    ensures CanRun(Start([j], 1), es, 1, ReapThenGet)
    ensures var s := Run(Start([j], 1), es, 1, ReapThenGet); s.pc == Finished && s.consumed == [j]
  {
    var s0 := Start([j], 1);
    assert Stride([j], 0, 1) == [j];
    assert s0.workers == [Worker([j], true, [], [], Top, false)] && s0.processes == [0];
    var s := s0;
    es := [];
    es, s := WorkerFinishes(s0, es, s, j, ReapThenGet);
    es, s := Then(s0, es, s, ConsumerStep, 1, ReapThenGet);
    es, s := Then(s0, es, s, ConsumerStep, 1, ReapThenGet);
    assert s.processes == [];
    es, s := Then(s0, es, s, ConsumerStep, 1, ReapThenGet);
    es, s := Then(s0, es, s, ConsumerStep, 1, ReapThenGet);
    es, s := Then(s0, es, s, ConsumerStep, 1, ReapThenGet);
    assert s.pc == Yielded(Outcome(j, false));
    es, s := Then(s0, es, s, ConsumerStep, 1, ReapThenGet);
    es, s := Then(s0, es, s, ConsumerStep, 1, ReapThenGet);
    es, s := Then(s0, es, s, ConsumerStep, 1, ReapThenGet);
    es, s := Then(s0, es, s, ConsumerStep, 1, ReapThenGet);
  }

  /**
   * If a round read the queue before reaping, one worker with one job would be enough to lose a result:
   * it is put, and the worker ends, between the read that times out and the reaping.
   */
  lemma SwappedOrderLosesResult(j: Job) returns (es: seq<Event>)
    ensures CanRun(Start([j], 1), es, 1, GetThenReap)
    ensures (forall i :: 0 <= i < |es| ==> !es[i].Kill?)
    ensures Run(Start([j], 1), es, 1, GetThenReap).pc == NotAllParsed
  {
    var s0 := Start([j], 1);
    assert Stride([j], 0, 1) == [j];
    assert s0.workers == [Worker([j], true, [], [], Top, false)];
    assert s0.processes == [0];
    var s := s0;
    es := [];
    es, s := Then(s0, es, s, ConsumerStep, 1, GetThenReap);
    es, s := Then(s0, es, s, ConsumerStep, 1, GetThenReap);
    assert s.pc == TimedOut && s.empty;
    es, s := WorkerFinishes(s0, es, s, j, GetThenReap);
    es, s := Then(s0, es, s, ConsumerStep, 1, GetThenReap);
    es, s := Then(s0, es, s, ConsumerStep, 1, GetThenReap);
    assert s.processes == [];
    es, s := Then(s0, es, s, ConsumerStep, 1, GetThenReap);
    es, s := Then(s0, es, s, ConsumerStep, 1, GetThenReap);
    es, s := Then(s0, es, s, ConsumerStep, 1, GetThenReap);
  }

  /** A worker with one job parses it, hands it to the pipe and ends. */
  lemma WorkerFinishes(s0: State, es: seq<Event>, s: State, j: Job, order: Order) returns (es': seq<Event>, s': State)
    requires CanRun(s0, es, 1, order) && Run(s0, es, 1, order) == s
    requires forall i :: 0 <= i < |es| ==> !es[i].Kill?
    requires s.workers == [Worker([j], true, [], [], Top, false)] && !s.quit
    ensures CanRun(s0, es', 1, order) && Run(s0, es', 1, order) == s'
    ensures forall i :: 0 <= i < |es'| ==> !es'[i].Kill?
    ensures s' == s.(workers := [Worker([], false, [], [], Dead, false)], pipe := s.pipe + [Outcome(j, false)])
  {
    hide CanRun, Run, Consume;
    es', s' := Then(s0, es, s, WorkerTop(0), 1, order);
    assert s'.workers[0] == Worker([], true, [], [], Parsing(j), false);
    es', s' := Then(s0, es', s', WorkerParsed(0, false), 1, order);
    es', s' := Then(s0, es', s', WorkerPost(0, false), 1, order);
    assert s'.workers[0] == Worker([], true, [], [Outcome(j, false)], Top, false);
    es', s' := Then(s0, es', s', WorkerTop(0), 1, order);
    es', s' := Then(s0, es', s', WorkerPost(0, false), 1, order);
    es', s' := Then(s0, es', s', WorkerTop(0), 1, order);
    es', s' := Then(s0, es', s', WorkerFlush(0), 1, order);
    assert s'.workers[0] == Worker([], false, [], [], Closing, false);
    es', s' := Then(s0, es', s', WorkerExit(0), 1, order);
  }

  /** The consumer, once it knows of no process and the queue stays empty. */
  lemma ConsumerGivesUp(s0: State, es: seq<Event>, s: State, toparse: nat) returns (es': seq<Event>, s': State)
    requires CanRun(s0, es, toparse, ReapThenGet) && Run(s0, es, toparse, ReapThenGet) == s
    requires s.pc == Check && s.processes == [] && s.pipe == [] && |s.consumed| < toparse
    ensures CanRun(s0, es', toparse, ReapThenGet) && Run(s0, es', toparse, ReapThenGet) == s' && s'.pc == NotAllParsed
    ensures |es'| == |es| + 4 && es' == es + [ConsumerStep, ConsumerStep, ConsumerStep, ConsumerStep]
  {
    hide CanRun, Run;
    es', s' := Then(s0, es, s, ConsumerStep, toparse, ReapThenGet);
    es', s' := Then(s0, es', s', ConsumerStep, toparse, ReapThenGet);
    es', s' := Then(s0, es', s', ConsumerStep, toparse, ReapThenGet);
    es', s' := Then(s0, es', s', ConsumerStep, toparse, ReapThenGet);
  }

  /** With no worker at all, nothing that is to be parsed ever is. */
  lemma NoWorkersNoParse(willparse: seq<Job>) returns (es: seq<Event>)
    requires willparse != []
    ensures CanRun(Start(willparse, 0), es, |willparse|, ReapThenGet)
    ensures (forall i :: 0 <= i < |es| ==> !es[i].Kill?)
    ensures Run(Start(willparse, 0), es, |willparse|, ReapThenGet).pc == NotAllParsed
  {
    var s0 := Start(willparse, 0);
    var s := s0;
    es := [];
    es, s := Then(s0, es, s, ConsumerStep, |willparse|, ReapThenGet);
    es, s := Then(s0, es, s, ConsumerStep, |willparse|, ReapThenGet);
    es, s := ConsumerGivesUp(s0, es, s, |willparse|);
  }

  /** A single worker that is killed at once is enough for the error. */
  lemma KilledWorkerGivesError(willparse: seq<Job>) returns (es: seq<Event>)
    requires willparse != []
    ensures CanRun(Start(willparse, 1), es, |willparse|, ReapThenGet)
    ensures Run(Start(willparse, 1), es, |willparse|, ReapThenGet).pc == NotAllParsed
  {
    var s0, n := Start(willparse, 1), |willparse|;
    assert s0.processes == [0];
    var s := s0;
    es := [];
    es, s := Then(s0, es, s, Kill(0), n, ReapThenGet);
    es, s := Then(s0, es, s, ConsumerStep, n, ReapThenGet);
    es, s := Then(s0, es, s, ConsumerStep, n, ReapThenGet);
    assert s.processes == [];
    es, s := Then(s0, es, s, ConsumerStep, n, ReapThenGet);
    es, s := ConsumerGivesUp(s0, es, s, n);
  }
}
