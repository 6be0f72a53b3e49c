/** The job scheduler: a FIFO queue behind a monitor with one writer, many workers, two flags and
    two condition variables. Each locked section is one step, and so is each queue operation. */
module Scheduler {
  import opened Words

  type Job = nat

  /** The main thread: between jobs, about to test enterWrite's guard, waiting on cond_write,
      holding the write flag, or holding it with the job inserted. */
  datatype Producer = Idle | Wants(job: Job) | ParkedWrite(job: Job) | Writing(job: Job) | Inserted

  /** A worker: about to test enterRead's guard, waiting on cond_read, holding the read flag,
      holding it with a job popped, or running the job. */
  datatype Worker = Ready | Parked | Reading | Popped(job: Job) | Working(job: Job) {
    predicate Holds() { Reading? || Popped? }
  }

  /** `inserted`, `popped` and `executed` record what has happened so far. */
  datatype State = State(writing: nat, reading: nat, queue: seq<Job>, producer: Producer, workers: seq<Worker>,
                         toSubmit: seq<Job>, inserted: seq<Job>, popped: seq<Job>, executed: seq<Job>)

  /** A signal wakes one waiting worker, any of them, if there is one. A waiting thread may also
      wake without a signal. */
  datatype Action =
    | Submit
    | EnterWrite
    | Insert
    | ExitWrite(wake: Option<nat>)
    | EnterRead(w: nat)
    | Pop(w: nat)
    | ExitRead(w: nat, wake: Option<nat>)
    | Finish(w: nat)
    | SpuriousWrite
    | SpuriousRead(w: nat)

  predicate IsSpurious(a: Action) {
    a.SpuriousWrite? || a.SpuriousRead?
  }

  predicate WakeOk(workers: seq<Worker>, wake: Option<nat>) {
    match wake
    case Some(v) => v < |workers| && workers[v].Parked?
    case None => forall v :: 0 <= v < |workers| ==> !workers[v].Parked?
  }

  function Wake(workers: seq<Worker>, wake: Option<nat>): (r: seq<Worker>)
    requires WakeOk(workers, wake)
    ensures |r| == |workers|
  {
    if wake.Some? then workers[wake.value := Ready] else workers
  }

  /** A signal on cond_write: the waiting producer will test its guard again. */
  function WakeProducer(p: Producer): Producer {
    if p.ParkedWrite? then Wants(p.job) else p
  }

  predicate Enabled(s: State, a: Action) {
    match a
    case Submit => s.producer.Idle? && s.toSubmit != []
    case EnterWrite => s.producer.Wants?
    case Insert => s.producer.Writing?
    case ExitWrite(wake) => s.producer.Inserted? && s.writing > 0 && WakeOk(s.workers, wake)
    case EnterRead(w) => w < |s.workers| && s.workers[w].Ready?
    case Pop(w) => w < |s.workers| && s.workers[w].Reading? && s.queue != []
    case ExitRead(w, wake) =>
      && w < |s.workers| && s.workers[w].Popped? && s.reading > 0
      && WakeOk(s.workers[w := Working(s.workers[w].job)], wake)
    case Finish(w) => w < |s.workers| && s.workers[w].Working?
    case SpuriousWrite => s.producer.ParkedWrite?
    case SpuriousRead(w) => w < |s.workers| && s.workers[w].Parked?
  }

  function Next(s: State, a: Action): State
    requires Enabled(s, a)
  {
    match a
    case Submit => s.(producer := Wants(s.toSubmit[0]), toSubmit := s.toSubmit[1..])
    case EnterWrite =>
      if s.writing > 0 || s.reading > 0 then s.(producer := ParkedWrite(s.producer.job))
      else s.(writing := s.writing + 1, producer := Writing(s.producer.job))
    case Insert =>
      s.(queue := s.queue + [s.producer.job], inserted := s.inserted + [s.producer.job], producer := Inserted)
    case ExitWrite(wake) =>
      s.(writing := s.writing - 1, producer := Idle, workers := Wake(s.workers, wake))
    case EnterRead(w) =>
      if s.writing > 0 || s.reading > 0 || s.queue == [] then
        s.(workers := s.workers[w := Parked],
           producer := if s.queue == [] then WakeProducer(s.producer) else s.producer)
      else
        s.(reading := s.reading + 1, workers := s.workers[w := Reading])
    case Pop(w) =>
      s.(queue := s.queue[1..], popped := s.popped + [s.queue[0]], workers := s.workers[w := Popped(s.queue[0])])
    case ExitRead(w, wake) =>
      s.(reading := s.reading - 1, producer := WakeProducer(s.producer),
         workers := Wake(s.workers[w := Working(s.workers[w].job)], wake))
    case Finish(w) =>
      s.(executed := s.executed + [s.workers[w].job], workers := s.workers[w := Ready])
    case SpuriousWrite => s.(producer := Wants(s.producer.job))
    case SpuriousRead(w) => s.(workers := s.workers[w := Ready])
  }

  predicate Init(s: State, jobs: seq<Job>) {
    && s.writing == s.reading == 0 && s.queue == s.inserted == s.popped == s.executed == []
    && s.producer.Idle? && s.toSubmit == jobs
    && |s.workers| > 0 && forall w :: 0 <= w < |s.workers| ==> s.workers[w].Ready?
  }

  /** A run: steps one after the other, by any thread that can take one. */
  predicate Executes(s: State, actions: seq<Action>, s': State)
    decreases |actions|
  {
    if actions == [] then s == s'
    else Enabled(s, actions[0]) && Executes(Next(s, actions[0]), actions[1..], s')
  }

  /* ----- the invariant ----- */

  /** How many workers hold the read flag. */
  function Holders(workers: seq<Worker>): nat {
    if workers == [] then 0
    else Holders(workers[..|workers| - 1]) + if workers[|workers| - 1].Holds() then 1 else 0
  }

  predicate Busy(w: Worker, job: Job) {
    (w.Popped? || w.Working?) && w.job == job
  }

  /** How many workers have taken this job and not finished it. */
  function InFlight(workers: seq<Worker>, job: Job): nat {
    if workers == [] then 0
    else InFlight(workers[..|workers| - 1], job) + if Busy(workers[|workers| - 1], job) then 1 else 0
  }

  /** The job that the producer has in hand, not yet inserted. */
  function InHand(p: Producer): seq<Job> {
    if p.Wants? || p.ParkedWrite? || p.Writing? then [p.job] else []
  }

  predicate SomeoneAwake(workers: seq<Worker>) {
    exists w :: 0 <= w < |workers| && !workers[w].Parked?
  }

  /** At most one thread is inside the monitor, the flags say which side it is on, and a worker
      about to pop never finds the queue empty. */
  predicate Flags(s: State) {
    && s.writing == (if s.producer.Writing? || s.producer.Inserted? then 1 else 0)
    && s.reading == Holders(s.workers)
    && s.writing + s.reading <= 1
    && forall w :: 0 <= w < |s.workers| && s.workers[w].Reading? ==> s.queue != []
  }

  /** No wakeup is lost: with nobody inside, a waiting job has an awake worker, and the producer
      waits only while someone reads. */
  predicate Wakeups(s: State) {
    && (s.writing == s.reading == 0 && s.queue != [] ==> SomeoneAwake(s.workers))
    && (s.producer.ParkedWrite? ==> s.reading == 1)
  }

  /** First in, first out, and every job is somewhere: queued, in hand, in flight or executed. */
  predicate Fifo(s: State, jobs: seq<Job>) {
    && s.inserted == s.popped + s.queue
    && s.inserted + InHand(s.producer) + s.toSubmit == jobs
  }

  ghost predicate Accounted(s: State) {
    forall job: Job :: multiset(s.popped)[job] == multiset(s.executed)[job] + InFlight(s.workers, job)
  }

  ghost predicate Inv(s: State, jobs: seq<Job>) {
    |s.workers| > 0 && Flags(s) && Wakeups(s) && Fifo(s, jobs) && Accounted(s)
  }

  lemma {:induction false} HoldersUpdate(workers: seq<Worker>, w: nat, x: Worker)
    requires w < |workers|
    ensures Holders(workers[w := x])
         == Holders(workers) + (if x.Holds() then 1 else 0) - (if workers[w].Holds() then 1 else 0)
  {
    var n := |workers| - 1;
    hide Worker.Holds;
    if w < n {
      assert workers[w := x][..n] == workers[..n][w := x];
      HoldersUpdate(workers[..n], w, x);
    } else {
      assert workers[w := x][..n] == workers[..n];
    }
  }

  lemma {:induction false} InFlightUpdate(workers: seq<Worker>, w: nat, x: Worker, job: Job)
    requires w < |workers|
    ensures InFlight(workers[w := x], job)
         == InFlight(workers, job) + (if Busy(x, job) then 1 else 0) - (if Busy(workers[w], job) then 1 else 0)
  {
    var n := |workers| - 1;
    hide Busy;
    if w < n {
      assert workers[w := x][..n] == workers[..n][w := x];
      InFlightUpdate(workers[..n], w, x, job);
    } else {
      assert workers[w := x][..n] == workers[..n];
    }
  }

  /** A signal changes neither who is inside nor which jobs are in flight. */
  lemma WakeKeeps(workers: seq<Worker>, wake: Option<nat>, job: Job)
    requires WakeOk(workers, wake)
    ensures Holders(Wake(workers, wake)) == Holders(workers)
    ensures InFlight(Wake(workers, wake), job) == InFlight(workers, job)
  {
    if wake.Some? {
      HoldersUpdate(workers, wake.value, Ready);
      InFlightUpdate(workers, wake.value, Ready, job);
      hide Holders, InFlight;
    }
  }

  /** After a signal on cond_read some worker is awake. */
  lemma WakeAwakens(workers: seq<Worker>, wake: Option<nat>)
    requires WakeOk(workers, wake) && |workers| > 0
    ensures SomeoneAwake(Wake(workers, wake))
  {
    if wake.Some? {
      assert !Wake(workers, wake)[wake.value].Parked?;
    } else {
      assert !workers[0].Parked?;
    }
  }

  lemma {:induction false} NoHolders(workers: seq<Worker>)
    ensures (forall w :: 0 <= w < |workers| ==> !workers[w].Holds()) <==> Holders(workers) == 0
  {
    var n := |workers| - 1;
    if workers != [] {
      NoHolders(workers[..n]);
      assert forall w :: 0 <= w < n ==> workers[..n][w] == workers[w];
    }
  }

  /** When one worker holds the read flag, no other does. */
  lemma {:induction false} OnlyHolder(workers: seq<Worker>, w: nat)
    requires w < |workers| && workers[w].Holds() && Holders(workers) <= 1
    ensures forall v :: 0 <= v < |workers| && v != w ==> !workers[v].Holds()
  {
    var n := |workers| - 1;
    if w < n {
      NoHolders(workers[..n]);
      assert !workers[n].Holds() by {
        assert workers[..n][w].Holds();
      }
      OnlyHolder(workers[..n], w);
    } else {
      NoHolders(workers[..n]);
      assert forall v :: 0 <= v < n ==> workers[..n][v] == workers[v];
    }
  }

  lemma InitInv(s: State, jobs: seq<Job>)
    requires Init(s, jobs)
    ensures Inv(s, jobs)
  {
    NoHolders(s.workers);
    forall job: Job
      ensures InFlight(s.workers, job) == 0
    {
      NobodyBusy(s.workers, job);
    }
  }

  lemma {:induction false} NobodyBusy(workers: seq<Worker>, job: Job)
    requires forall w :: 0 <= w < |workers| ==> workers[w].Ready? || workers[w].Parked?
    ensures InFlight(workers, job) == 0
  {
    if workers != [] {
      NobodyBusy(workers[..|workers| - 1], job);
    }
  }

  lemma EnterReadKeepsFlags(s: State, w: nat)
    requires Flags(s) && Enabled(s, EnterRead(w))
    ensures Flags(Next(s, EnterRead(w)))
  {
    HoldersUpdate(s.workers, w, Next(s, EnterRead(w)).workers[w]);
    hide Holders, InFlight;
  }

  lemma PopKeepsFlags(s: State, w: nat)
    requires Flags(s) && Enabled(s, Pop(w))
    ensures Flags(Next(s, Pop(w)))
  {
    HoldersUpdate(s.workers, w, Popped(s.queue[0]));
    hide Holders, InFlight;
    assert s.workers[w].Holds();
    OnlyHolder(s.workers, w);
  }

  lemma ExitReadKeepsFlags(s: State, w: nat, wake: Option<nat>)
    requires Flags(s) && Enabled(s, ExitRead(w, wake))
    ensures Flags(Next(s, ExitRead(w, wake)))
  {
    var busy := s.workers[w := Working(s.workers[w].job)];
    HoldersUpdate(s.workers, w, Working(s.workers[w].job));
    WakeKeeps(busy, wake, 0);
    hide Holders, InFlight;
  }

  lemma IdleKeepsFlags(s: State, a: Action)
    requires Flags(s) && Enabled(s, a) && (a.Finish? || a.SpuriousRead?)
    ensures Flags(Next(s, a))
  {
    HoldersUpdate(s.workers, a.w, Ready);
    hide Holders, InFlight;
  }

  lemma ProducerKeepsFlags(s: State, a: Action)
    requires Flags(s) && Enabled(s, a)
    requires a.Submit? || a.EnterWrite? || a.Insert? || a.ExitWrite? || a.SpuriousWrite?
    ensures Flags(Next(s, a))
  {
    hide Holders, InFlight;
    if a.ExitWrite? {
      WakeKeeps(s.workers, a.wake, 0);
    }
  }

  lemma StepKeepsFlags(s: State, a: Action)
    requires |s.workers| > 0 && Flags(s) && Enabled(s, a)
    ensures |Next(s, a).workers| > 0 && Flags(Next(s, a))
  {
    hide Flags;
    match a
    case EnterRead(w) => EnterReadKeepsFlags(s, w);
    case Pop(w) => PopKeepsFlags(s, w);
    case ExitRead(w, wake) => ExitReadKeepsFlags(s, w, wake);
    case Finish(_) => IdleKeepsFlags(s, a);
    case SpuriousRead(_) => IdleKeepsFlags(s, a);
    case _ => ProducerKeepsFlags(s, a);
  }

  lemma StepKeepsWakeups(s: State, a: Action)
    requires |s.workers| > 0 && Flags(s) && Wakeups(s) && Enabled(s, a)
    ensures Wakeups(Next(s, a))
  {
    var s' := Next(s, a);
    StepKeepsFlags(s, a);
    hide InFlight;
    match a
    case Submit =>
    case EnterWrite =>
    case Insert =>
    case ExitWrite(wake) =>
      WakeAwakens(s.workers, wake);
    case EnterRead(w) =>
    case Pop(w) =>
      assert s.workers[w].Holds();
      NoHolders(s.workers);
    case ExitRead(w, wake) =>
      WakeAwakens(s.workers[w := Working(s.workers[w].job)], wake);
    case Finish(w) =>
      assert !s'.workers[w].Parked?;
    case SpuriousWrite =>
    case SpuriousRead(w) =>
      assert !s'.workers[w].Parked?;
  }

  lemma StepKeepsFifo(s: State, a: Action, jobs: seq<Job>)
    requires Fifo(s, jobs) && Enabled(s, a)
    ensures Fifo(Next(s, a), jobs)
  {
    hide WakeOk, Wake, Holders, InFlight;
    match a
    case Submit =>
      assert s.inserted + [] + s.toSubmit == s.inserted + [s.toSubmit[0]] + s.toSubmit[1..];
    case EnterWrite =>
    case Insert =>
      assert s.popped + (s.queue + [s.producer.job]) == s.inserted + [s.producer.job];
      assert s.inserted + [s.producer.job] + [] == s.inserted + [s.producer.job];
    case ExitWrite(wake) =>
    case EnterRead(w) =>
    case Pop(w) =>
      assert s.popped + s.queue == s.popped + [s.queue[0]] + s.queue[1..];
    case ExitRead(w, wake) =>
    case Finish(w) =>
    case SpuriousWrite =>
    case SpuriousRead(w) =>
  }

  lemma StepKeepsAccounted(s: State, a: Action)
    requires Accounted(s) && Enabled(s, a)
    ensures Accounted(Next(s, a))
  {
    forall job: Job
      ensures multiset(Next(s, a).popped)[job] == multiset(Next(s, a).executed)[job] + InFlight(Next(s, a).workers, job)
    {
      AccountsFor(s, a, job);
    }
  }

  lemma CountSnoc(list: seq<Job>, x: Job, job: Job)
    ensures multiset(list + [x])[job] == multiset(list)[job] + (if x == job then 1 else 0)
  {
  }

  lemma PopAccounts(s: State, w: nat, job: Job)
    requires Enabled(s, Pop(w)) && multiset(s.popped)[job] == multiset(s.executed)[job] + InFlight(s.workers, job)
    ensures var s' := Next(s, Pop(w));
      multiset(s'.popped)[job] == multiset(s'.executed)[job] + InFlight(s'.workers, job)
  {
    InFlightUpdate(s.workers, w, Popped(s.queue[0]), job);
    CountSnoc(s.popped, s.queue[0], job);
    hide InFlight;
  }

  lemma FinishAccounts(s: State, w: nat, job: Job)
    requires Enabled(s, Finish(w)) && multiset(s.popped)[job] == multiset(s.executed)[job] + InFlight(s.workers, job)
    ensures var s' := Next(s, Finish(w));
      multiset(s'.popped)[job] == multiset(s'.executed)[job] + InFlight(s'.workers, job)
  {
    InFlightUpdate(s.workers, w, Ready, job);
    CountSnoc(s.executed, s.workers[w].job, job);
    hide InFlight;
  }

  lemma AccountsFor(s: State, a: Action, job: Job)
    requires multiset(s.popped)[job] == multiset(s.executed)[job] + InFlight(s.workers, job)
    requires Enabled(s, a)
    ensures multiset(Next(s, a).popped)[job] == multiset(Next(s, a).executed)[job] + InFlight(Next(s, a).workers, job)
  {
    hide InFlight, Next, Enabled;
    match a
    case Pop(w) => PopAccounts(s, w, job);
    case Finish(w) => FinishAccounts(s, w, job);
    case ExitRead(w, wake) => ExitReadAccounts(s, w, wake, job);
    case EnterRead(w) => EnterReadAccounts(s, w, job);
    case SpuriousRead(w) => SpuriousAccounts(s, w, job);
    case _ => ProducerAccounts(s, a, job);
  }

  /** The steps that take or finish no job leave its whereabouts alone. */
  predicate SameJobs(s: State, s': State, job: Job) {
    s'.popped == s.popped && s'.executed == s.executed && InFlight(s'.workers, job) == InFlight(s.workers, job)
  }

  lemma ExitReadAccounts(s: State, w: nat, wake: Option<nat>, job: Job)
    requires Enabled(s, ExitRead(w, wake))
    ensures SameJobs(s, Next(s, ExitRead(w, wake)), job)
  {
    hide Holders, InFlight, Wake;
    InFlightUpdate(s.workers, w, Working(s.workers[w].job), job);
    WakeKeeps(s.workers[w := Working(s.workers[w].job)], wake, job);
  }

  lemma EnterReadAccounts(s: State, w: nat, job: Job)
    requires Enabled(s, EnterRead(w))
    ensures SameJobs(s, Next(s, EnterRead(w)), job)
  {
    hide Holders, InFlight;
    InFlightUpdate(s.workers, w, Next(s, EnterRead(w)).workers[w], job);
  }

  lemma SpuriousAccounts(s: State, w: nat, job: Job)
    requires Enabled(s, SpuriousRead(w))
    ensures SameJobs(s, Next(s, SpuriousRead(w)), job)
  {
    hide Holders, InFlight;
    InFlightUpdate(s.workers, w, Ready, job);
  }

  lemma ProducerAccounts(s: State, a: Action, job: Job)
    requires Enabled(s, a)
    requires a.Submit? || a.EnterWrite? || a.Insert? || a.ExitWrite? || a.SpuriousWrite?
    ensures SameJobs(s, Next(s, a), job)
  {
    hide Holders, InFlight, Wake;
    if a.ExitWrite? {
      WakeKeeps(s.workers, a.wake, job);
    }
  }

  /** Every step keeps the invariant. */
  lemma StepKeepsInv(s: State, a: Action, jobs: seq<Job>)
    requires Inv(s, jobs) && Enabled(s, a)
    ensures Inv(Next(s, a), jobs)
  {
    hide Enabled, Next, Flags, Wakeups, Fifo, Accounted;
    StepKeepsFlags(s, a);
    StepKeepsWakeups(s, a);
    StepKeepsFifo(s, a, jobs);
    StepKeepsAccounted(s, a);
  }

  /** Every run from the start keeps it. */
  lemma {:induction false} RunKeepsInv(s: State, actions: seq<Action>, s': State, jobs: seq<Job>)
    requires Inv(s, jobs) && Executes(s, actions, s')
    ensures Inv(s', jobs)
    decreases |actions|
  {
    hide Inv, Enabled, Next;
    if actions != [] {
      StepKeepsInv(s, actions[0], jobs);
      RunKeepsInv(Next(s, actions[0]), actions[1..], s', jobs);
    }
  }

  /* ----- progress ----- */

  function ProducerWork(p: Producer): nat {
    match p
    case Idle => 0
    case Wants(_) => 12
    case ParkedWrite(_) => 11
    case Writing(_) => 11
    case Inserted => 3
  }

  function WorkerWork(w: Worker): nat {
    match w
    case Parked => 0
    case Ready => 2
    case Reading => 1
    case Popped(_) => 7
    case Working(_) => 3
  }

  function WorkersWork(workers: seq<Worker>): nat {
    if workers == [] then 0
    else WorkersWork(workers[..|workers| - 1]) + WorkerWork(workers[|workers| - 1])
  }

  /** A bound on the steps that are left when nobody wakes without a signal. */
  function StepsLeft(s: State): nat {
    13 * |s.toSubmit| + 7 * |s.queue| + ProducerWork(s.producer) + WorkersWork(s.workers)
  }

  lemma {:induction false} WorkUpdate(workers: seq<Worker>, w: nat, x: Worker)
    requires w < |workers|
    ensures WorkersWork(workers[w := x]) == WorkersWork(workers) + WorkerWork(x) - WorkerWork(workers[w])
  {
    var n := |workers| - 1;
    hide WorkerWork;
    if w < n {
      assert workers[w := x][..n] == workers[..n][w := x];
      WorkUpdate(workers[..n], w, x);
    } else {
      assert workers[w := x][..n] == workers[..n];
    }
  }

  lemma WakeWork(workers: seq<Worker>, wake: Option<nat>)
    requires WakeOk(workers, wake)
    ensures WorkersWork(Wake(workers, wake)) <= WorkersWork(workers) + 2
  {
    if wake.Some? {
      WorkUpdate(workers, wake.value, Ready);
      hide WorkersWork;
    }
  }

  /** Every step that is not a spurious wakeup uses up some of the bound. */
  lemma StepUsesWork(s: State, a: Action, jobs: seq<Job>)
    requires Inv(s, jobs) && Enabled(s, a) && !IsSpurious(a)
    ensures StepsLeft(Next(s, a)) < StepsLeft(s)
  {
    hide *;
    match a
    case EnterRead(w) => EnterReadUsesWork(s, w);
    case Pop(w) => WorkerUsesWork(s, a, w);
    case Finish(w) => WorkerUsesWork(s, a, w);
    case ExitRead(w, wake) => ExitReadUsesWork(s, w, wake);
    case _ => ProducerUsesWork(s, a);
  }

  lemma ProducerUsesWork(s: State, a: Action)
    requires Enabled(s, a) && !IsSpurious(a)
    requires !a.EnterRead? && !a.Pop? && !a.ExitRead? && !a.Finish?
    ensures StepsLeft(Next(s, a)) < StepsLeft(s)
  {
    hide WorkersWork, Wake;
    if a.ExitWrite? {
      WakeWork(s.workers, a.wake);
    }
  }

  lemma WorkerUsesWork(s: State, a: Action, w: nat)
    requires Enabled(s, a) && (a == Pop(w) || a == Finish(w))
    ensures StepsLeft(Next(s, a)) < StepsLeft(s)
  {
    hide WorkersWork;
    WorkUpdate(s.workers, w, Next(s, a).workers[w]);
  }

  lemma ExitReadUsesWork(s: State, w: nat, wake: Option<nat>)
    requires Enabled(s, ExitRead(w, wake))
    ensures StepsLeft(Next(s, ExitRead(w, wake))) < StepsLeft(s)
  {
    hide WorkersWork, Wake;
    WorkUpdate(s.workers, w, Working(s.workers[w].job));
    WakeWork(s.workers[w := Working(s.workers[w].job)], wake);
  }

  lemma EnterReadUsesWork(s: State, w: nat)
    requires Enabled(s, EnterRead(w))
    ensures StepsLeft(Next(s, EnterRead(w))) < StepsLeft(s)
  {
    var s' := Next(s, EnterRead(w));
    WorkUpdate(s.workers, w, s'.workers[w]);
    hide WorkersWork;
  }

  /** No run goes on for ever without spurious wakeups: such a run has at most as many steps as
      the bound says. */
  lemma {:induction false} RunsEnd(s: State, actions: seq<Action>, s': State, jobs: seq<Job>)
    requires Inv(s, jobs) && Executes(s, actions, s')
    requires forall i :: 0 <= i < |actions| ==> !IsSpurious(actions[i])
    ensures |actions| + StepsLeft(s') <= StepsLeft(s)
    decreases |actions|
  {
    hide Inv, Enabled, Next, StepsLeft, IsSpurious;
    if actions != [] {
      assert !IsSpurious(actions[0]);
      StepKeepsInv(s, actions[0], jobs);
      StepUsesWork(s, actions[0], jobs);
      RunsEnd(Next(s, actions[0]), actions[1..], s', jobs);
    }
  }

  /** No thread can move except by a spurious wakeup. */
  ghost predicate Stuck(s: State) {
    forall a :: Enabled(s, a) ==> IsSpurious(a)
  }

  predicate Quiet(s: State, jobs: seq<Job>) {
    && s.producer.Idle? && s.toSubmit == [] && s.queue == []
    && (forall w :: 0 <= w < |s.workers| ==> s.workers[w].Parked?)
    && s.inserted == s.popped == jobs
    && multiset(s.executed) == multiset(jobs)
  }

  /** A run stops only when every job has been executed, exactly once each: there is no deadlock
      and no job is stranded in the queue. */
  lemma StuckMeansDone(s: State, jobs: seq<Job>)
    requires Inv(s, jobs) && Stuck(s)
    ensures Quiet(s, jobs)
  {
    hide InFlight, Holders, Enabled;
    forall w: nat | w < |s.workers|
      ensures s.workers[w].Parked?
    {
      if !s.workers[w].Parked? {
        var a := WorkerCanMove(s, w);
        assert false;
      }
    }
    NoHolders(s.workers);
    assert s.reading == 0;
    if !(s.producer.Idle? && s.toSubmit == []) {
      var a := ProducerCanMove(s);
      assert false;
    }
    forall job: Job
      ensures multiset(s.popped)[job] == multiset(s.executed)[job]
    {
      NobodyBusy(s.workers, job);
    }
    assert s.inserted + [] + [] == s.inserted;
    assert s.popped + [] == s.popped;
  }

  /** A worker that is not waiting can take a step. */
  lemma WorkerCanMove(s: State, w: nat) returns (a: Action)
    requires Flags(s) && w < |s.workers| && !s.workers[w].Parked?
    ensures Enabled(s, a) && !IsSpurious(a)
  {
    hide InFlight;
    match s.workers[w]
    case Ready => a := EnterRead(w);
    case Reading => a := Pop(w);
    case Popped(job) =>
      assert s.workers[w].Holds();
      NoHolders(s.workers);
      var wake := SomeWake(s.workers[w := Working(job)]);
      a := ExitRead(w, wake);
    case Working(_) => a := Finish(w);
  }

  /** The producer, while it has something to submit, can take a step if nobody reads. */
  lemma ProducerCanMove(s: State) returns (a: Action)
    requires Flags(s) && Wakeups(s) && s.reading == 0
    requires !(s.producer.Idle? && s.toSubmit == [])
    ensures Enabled(s, a) && !IsSpurious(a)
  {
    hide InFlight, Holders;
    match s.producer
    case Idle => a := Submit;
    case Wants(_) => a := EnterWrite;
    case Writing(_) => a := Insert;
    case Inserted =>
      var wake := SomeWake(s.workers);
      a := ExitWrite(wake);
  }

  /** A signal always has an outcome. */
  lemma SomeWake(workers: seq<Worker>) returns (wake: Option<nat>)
    ensures WakeOk(workers, wake)
  {
    if v: nat :| v < |workers| && workers[v].Parked? {
      wake := Some(v);
    } else {
      wake := None;
    }
  }

  /** The whole story, for any number of workers and any list of jobs: whatever the threads do,
      jobs leave the queue in the order they were put in, and a run that can no longer move has
      executed each of them once. */
  lemma EveryRun(s: State, actions: seq<Action>, s': State, jobs: seq<Job>)
    requires Init(s, jobs) && Executes(s, actions, s')
    ensures Inv(s', jobs)
    ensures s'.popped <= s'.inserted <= jobs
    ensures multiset(s'.executed) <= multiset(s'.popped)
    ensures Stuck(s') ==> Quiet(s', jobs)
    ensures (forall i :: 0 <= i < |actions| ==> !IsSpurious(actions[i])) ==> |actions| <= 13 * |jobs| + 2 * |s.workers|
  {
    InitInv(s, jobs);
    RunKeepsInv(s, actions, s', jobs);
    hide Holders, InFlight, Executes, WakeOk, Enabled;
    assert s'.popped <= s'.inserted;
    assert s'.inserted <= jobs;
    forall job: Job
      ensures multiset(s'.executed)[job] <= multiset(s'.popped)[job]
    {
      assert multiset(s'.popped)[job] == multiset(s'.executed)[job] + InFlight(s'.workers, job);
    }
    if Stuck(s') {
      StuckMeansDone(s', jobs);
    }
    if forall i :: 0 <= i < |actions| ==> !IsSpurious(actions[i]) {
      RunsEnd(s, actions, s', jobs);
      ReadyWork(s.workers);
    }
  }

  lemma {:induction false} ReadyWork(workers: seq<Worker>)
    requires forall w :: 0 <= w < |workers| ==> workers[w].Ready?
    ensures WorkersWork(workers) == 2 * |workers|
  {
    if workers != [] {
      ReadyWork(workers[..|workers| - 1]);
    }
  }
}
