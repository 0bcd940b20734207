/**
 Common::ThreadPool and Common::Thread as a step system.  The main thread owns the two
 lists and the timers; each worker has a program point in Thread::run.  A critical section
 is one step; blocking calls (waitCondition.wait, QThread::wait) are states of their own.
 The queued "finished" events form a queue that only the main thread drains.  The slot
 runnableFinished is two steps, because the runnable's finished() may call the pool again.
 */
module ThreadPool {
  import opened Sequences

  type Tid = nat  // a Thread object
  type Rid = nat  // a runnable object

  /** Where a worker stands in Thread::run.  `held` is its strong reference on the runnable. */
  datatype Pc =
    | Top                           // about to lock the mutex
    | Waiting                       // blocked on the condition
    | Woken                         // notified, about to take the mutex back
    | Reading                       // about to upgrade the weak reference
    | Running(r: Rid)               // inside run() of r
    | Ended(held: Option<Rid>)      // about to clear `active`
    | Emitting(held: Option<Rid>)   // about to post the finished event
    | Releasing(held: Option<Rid>)  // end of the loop body, reference still held
    | Exited

  /** `job` and `ran` are history variables: the number of the last accepted call of
      setRunnable, and whether run() was entered for it. */
  datatype ThreadState = ThreadState(active: bool, toStop: bool, runnable: Option<Rid>, timerOn: bool,
                                     pc: Pc, job: nat, ran: bool)

  datatype Main =
    | Free
    | Blocked(t: Tid)   // in waitRunnableFinished, on t's condition
    | Notified(t: Tid)  // woken there, about to return
    | Joining(t: Tid)   // in ~Thread, waiting for the worker to exit

  datatype Kind = Init | Begin | End | Finished
  datatype Call = Call(job: nat, kind: Kind)

  datatype State = State(
    nbMin: int, threads: map<Tid, ThreadState>, activeL: seq<Tid>, inactiveL: seq<Tid>,
    queue: seq<Tid>, main: Main,
    callback: Option<Tid>,   // the thread whose finished event is being handled
    mainHeld: Option<Rid>,   // the strong reference that slot holds
    born: set<Rid>, owned: set<Rid>,
    nextTid: Tid, nextJob: nat, log: seq<Call>)

  datatype Action =
    | Run(r: Rid) | Wait(r: Rid) | WaitReturn
    | Deliver | FinishReturn
    | Expire(t: Tid) | JoinDone
    | Worker(t: Tid)
    | Create(r: Rid) | Drop(r: Rid)

  function Start(nbMin: int): State {
    State(nbMin, map[], [], [], [], Free, None, None, {}, {}, 0, 0, [])
  }

  function Held(pc: Pc): Option<Rid> {
    match pc
    case Running(r) => Some(r)
    case Ended(h) => h
    case Emitting(h) => h
    case Releasing(h) => h
    case _ => None
  }

  /** toStrongRef would succeed: an owner, a worker or the slot still holds the object. */
  predicate Alive(s: State, r: Rid) {
    r in s.owned || s.mainHeld == Some(r) ||
    exists t :: t in s.threads && Held(s.threads[t].pc) == Some(r)
  }

  predicate AliveRef(s: State, r: Option<Rid>) {
    r.Some? && Alive(s, r.value)
  }

  function Wake(pc: Pc): Pc {
    if pc == Waiting then Woken else pc
  }

  function SetThread(s: State, t: Tid, th: ThreadState): State {
    s.(threads := s.threads[t := th])
  }

  // ----- main thread -----

  function SetRunnable(s: State, t: Tid, r: Rid): State
    requires t in s.threads
  {
    var th := s.threads[t];
    if th.active || !Alive(s, r) then s
    else
      SetThread(s, t, th.(timerOn := false, runnable := Some(r), active := true,
                          pc := Wake(th.pc), job := s.nextJob, ran := false))
      .(nextJob := s.nextJob + 1, log := s.log + [Call(s.nextJob, Init)])
  }

  function PoolRun(s: State, r: Rid): State {
    if s.inactiveL != [] then
      var t := s.inactiveL[|s.inactiveL| - 1];
      if t !in s.threads then s  // excluded by the invariant
      else
        SetRunnable(s.(inactiveL := s.inactiveL[..|s.inactiveL| - 1], activeL := s.activeL + [t]), t, r)
    else
      var t := s.nextTid;
      SetRunnable(SetThread(s, t, ThreadState(false, false, None, false, Top, 0, false))
                  .(nextTid := t + 1, activeL := s.activeL + [t]), t, r)
  }

  /** The first listed thread that carries r. */
  function Lookup(s: State, list: seq<Tid>, r: Rid): Option<Tid> {
    if list == [] then None
    else if list[0] in s.threads && s.threads[list[0]].runnable == Some(r) then Some(list[0])
    else Lookup(s, list[1..], r)
  }

  predicate Blocks(s: State, r: Rid) {
    var t := Lookup(s, s.activeL, r);
    t.Some? && t.value in s.threads && s.threads[t.value].active
  }

  function PoolWait(s: State, r: Rid): State {
    if Blocks(s, r) then s.(main := Blocked(Lookup(s, s.activeL, r).value)) else s
  }

  /** runnableFinished up to and including the call of finished(). */
  function DeliverFinished(s: State): State
    requires s.queue != [] && s.queue[0] in s.threads
  {
    var t := s.queue[0];
    var th := s.threads[t];
    var s1 := s.(queue := s.queue[1..], callback := Some(t));
    if AliveRef(s, th.runnable)
    then s1.(mainHeld := th.runnable, log := s.log + [Call(th.job, Finished)])
    else s1
  }

  /** The rest of runnableFinished: the lists and startTimer. */
  function AfterFinished(s: State): State
    requires s.callback.Some? && s.callback.value in s.threads
  {
    var t := s.callback.value;
    SetThread(s, t, s.threads[t].(timerOn := true, runnable := None))
    .(activeL := RemoveOne(s.activeL, t), inactiveL := s.inactiveL + [t],
      callback := None, mainHeld := None)
  }

  /** threadTimeout, with the critical section of ~Thread when the thread is deleted. */
  function TimerExpires(s: State, t: Tid): State
    requires t in s.threads
  {
    var deleted := |s.activeL| + |s.inactiveL| > s.nbMin;
    var th := s.threads[t].(timerOn := false);
    s.(threads := s.threads[t := if deleted then th.(toStop := true, pc := Wake(th.pc)) else th],
       inactiveL := if deleted then RemoveOne(s.inactiveL, t) else s.inactiveL,
       main := if deleted then Joining(t) else s.main)
  }

  // ----- workers -----

  /** The worker's next program point; `alive` says whether the weak reference upgrades. */
  function Advance(th: ThreadState, alive: bool): ThreadState
    requires !th.pc.Waiting? && !th.pc.Exited? && (alive ==> th.runnable.Some?)
  {
    match th.pc
    case Top => th.(pc := if !th.active && !th.toStop then Waiting
                          else if th.toStop then Exited else Reading)
    case Woken => th.(pc := if th.toStop then Exited else Reading)
    case Reading => if alive then th.(pc := Running(th.runnable.value), ran := true)
                    else th.(pc := Ended(None))
    case Running(r) => th.(pc := Ended(Some(r)))
    case Ended(h) => th.(active := false, pc := Emitting(h))
    case Emitting(h) => th.(pc := Releasing(h))
    case Releasing(_) => th.(pc := Top)
  }

  /** The calls on the runnable that a step of the worker makes. */
  function Made(th: ThreadState, alive: bool): seq<Call> {
    if th.pc.Reading? && alive then [Call(th.job, Begin)]
    else if th.pc.Running? then [Call(th.job, End)]
    else []
  }

  function WorkerStep(s: State, t: Tid): State
    requires t in s.threads && !s.threads[t].pc.Waiting? && !s.threads[t].pc.Exited?
  {
    var th := s.threads[t];
    var alive := AliveRef(s, th.runnable);
    s.(threads := s.threads[t := Advance(th, alive)],
       queue := if th.pc.Emitting? then s.queue + [t] else s.queue,
       main := if th.pc.Ended? && s.main == Blocked(t) then Notified(t) else s.main,
       log := s.log + Made(th, alive))
  }

  // ----- steps and runs -----

  predicate Enabled(s: State, a: Action) {
    match a
    case Run(r) => s.main.Free? && r in s.born
    case Wait(_) => s.main.Free?
    case WaitReturn => s.main.Notified?
    case Deliver => s.main.Free? && s.callback.None? && s.queue != [] && s.queue[0] in s.threads
    case FinishReturn => s.main.Free? && s.callback.Some? && s.callback.value in s.threads
    case Expire(t) => s.main.Free? && s.callback.None? && t in s.threads && s.threads[t].timerOn
    case JoinDone => s.main.Joining? && s.main.t in s.threads && s.threads[s.main.t].pc.Exited?
    case Worker(t) => t in s.threads && !s.threads[t].pc.Waiting? && !s.threads[t].pc.Exited?
    case Create(r) => r !in s.born
    case Drop(r) => r in s.owned
  }

  function Do(s: State, a: Action): State
    requires Enabled(s, a)
  {
    match a
    case Run(r) => PoolRun(s, r)
    case Wait(r) => PoolWait(s, r)
    case WaitReturn => s.(main := Free)
    case Deliver => DeliverFinished(s)
    case FinishReturn => AfterFinished(s)
    case Expire(t) => TimerExpires(s, t)
    case JoinDone => s.(threads := s.threads - {s.main.t}, main := Free)
    case Worker(t) => WorkerStep(s, t)
    case Create(r) => s.(born := s.born + {r}, owned := s.owned + {r})
    case Drop(r) => s.(owned := s.owned - {r})
  }

  /** `acts` leads from s to s'. */
  predicate Steps(s: State, acts: seq<Action>, s': State)
    decreases |acts|
  {
    if acts == [] then s == s'
    else Enabled(s, acts[0]) && Steps(Do(s, acts[0]), acts[1..], s')
  }

  /** Every runnable is alive when it is given to ThreadPool::run. */
  predicate LiveRuns(s: State, acts: seq<Action>)
    decreases |acts|
  {
    acts == [] || (
      (acts[0].Run? ==> Alive(s, acts[0].r)) &&
      (Enabled(s, acts[0]) ==> LiveRuns(Do(s, acts[0]), acts[1..])))
  }

  // ----- the invariant -----

  predicate InFlight(s: State, t: Tid) {
    t in s.queue || s.callback == Some(t)
  }

  /** The two lists hold exactly the threads that are created and not being deleted. */
  ghost predicate ListsOk(s: State) {
    && NoDup(s.activeL) && NoDup(s.inactiveL)
    && (forall t :: t in s.activeL ==> t !in s.inactiveL)
    && (forall t :: t in s.threads <==> t in s.activeL || t in s.inactiveL || s.main == Joining(t))
    && (forall t :: s.main == Joining(t) ==> t !in s.activeL && t !in s.inactiveL)
    && (forall t :: t in s.threads ==> t < s.nextTid)
  }

  /** At most one finished event per thread, and only for threads of the active list. */
  ghost predicate QueueOk(s: State) {
    && NoDup(s.queue)
    && (forall t :: t in s.queue ==> t in s.activeL)
    && (s.callback.Some? ==> s.callback.value in s.activeL && s.callback.value !in s.queue)
  }

  predicate Between(pc: Pc) {
    pc.Releasing? || pc.Top? || pc.Waiting?
  }

  predicate ThreadOk(s: State, t: Tid)
    requires t in s.threads
  {
    var th := s.threads[t];
    && (th.pc.Waiting? ==> !th.active && !th.toStop)
    && (th.pc.Woken? ==> th.active || th.toStop)
    && (th.pc.Exited? ==> th.toStop)
    && (th.pc.Reading? || th.pc.Running? || th.pc.Ended? ==> th.active)
    && (th.pc.Emitting? ==> !th.active)
    && (th.toStop <==> s.main == Joining(t))
    && (th.timerOn ==> t in s.inactiveL)
    && (t in s.inactiveL ==> !th.active && Between(th.pc) && !InFlight(s, t))
    && (s.main == Joining(t) ==> !th.active && (th.pc.Releasing? || th.pc.Top? || th.pc.Woken? || th.pc.Exited?))
    && (t in s.activeL ==> th.runnable.Some?)
    && (t in s.activeL ==>
         if th.active then !InFlight(s, t)
         else if th.pc.Emitting? then !InFlight(s, t)
         else Between(th.pc) && InFlight(s, t))
    && (th.pc.Running? ==> th.runnable == Some(th.pc.r))
  }

  ghost predicate ThreadsOk(s: State) {
    forall t :: t in s.threads ==> ThreadOk(s, t)
  }

  ghost predicate MainOk(s: State) {
    && (s.main.Blocked? ==> s.main.t in s.activeL && s.main.t in s.threads && s.threads[s.main.t].active)
    && (s.main.Notified? ==> s.main.t in s.activeL && s.main.t in s.threads && !s.threads[s.main.t].active)
    && (s.main.Joining? ==> s.callback.None?)
    && (s.callback.None? ==> s.mainHeld.None?)
  }

  predicate RefsBorn(born: set<Rid>, th: ThreadState) {
    && (th.runnable.Some? ==> th.runnable.value in born)
    && (Held(th.pc).Some? ==> Held(th.pc).value in born)
  }

  ghost predicate BornOk(s: State) {
    && s.owned <= s.born
    && (s.mainHeld.Some? ==> s.mainHeld.value in s.born)
    && (forall t :: t in s.threads ==> RefsBorn(s.born, s.threads[t]))
  }

  /** The calls made on behalf of job k, in order. */
  function Calls(log: seq<Call>, k: nat): seq<Kind> {
    if log == [] then []
    else
      var last := log[|log| - 1];
      Calls(log[..|log| - 1], k) + (if last.job == k then [last.kind] else [])
  }

  /** The run() of the current job of an active-list thread lies behind it. */
  predicate Past(th: ThreadState) {
    !th.active || th.pc.Ended?
  }

  predicate JobOk(s: State, t: Tid)
    requires t in s.threads
  {
    var th := s.threads[t];
    var calls := Calls(s.log, th.job);
    && th.job < s.nextJob
    && (!th.ran ==> calls == [Init])
    && (th.ran && !Past(th) ==> th.pc.Running? && calls == [Init, Begin])
    && (th.ran && Past(th) ==> calls == [Init, Begin, End] ||
                               (s.callback == Some(t) && calls == [Init, Begin, End, Finished]))
    && (th.pc.Running? ==> th.ran)
    && (th.pc.Ended? ==> th.ran == th.pc.held.Some?)
    && (Past(th) && !th.ran ==> !AliveRef(s, th.runnable))
  }

  ghost predicate JobsOk(s: State) {
    && (forall t :: t in s.activeL && t in s.threads ==> JobOk(s, t))
    && (forall t, u :: t in s.activeL && u in s.activeL && t in s.threads && u in s.threads && t != u ==>
          s.threads[t].job != s.threads[u].job)
    && (forall k :: k >= s.nextJob ==> Calls(s.log, k) == [])
  }

  predicate Over(calls: seq<Kind>) {
    calls == [Init] || calls == [Init, Begin, End] || calls == [Init, Begin, End, Finished]
  }

  predicate Current(s: State, k: nat) {
    exists t :: t in s.activeL && t in s.threads && s.threads[t].job == k
  }

  /** A job no active-list thread carries any more has a complete, ordered history. */
  ghost predicate PastJobsOk(s: State) {
    forall k :: 0 <= k < s.nextJob ==> Current(s, k) || Over(Calls(s.log, k))
  }

  ghost predicate Inv(s: State) {
    ListsOk(s) && QueueOk(s) && MainOk(s) && BornOk(s) && ThreadsOk(s) && JobsOk(s) && PastJobsOk(s)
  }

  // ----- every step keeps the invariant -----

  /** Every reference held in s' is on an object that was alive in s. */
  ghost predicate NoNewHolder(s: State, s': State) {
    && (s'.mainHeld.Some? ==> Alive(s, s'.mainHeld.value))
    && (forall t :: t in s'.threads && Held(s'.threads[t].pc).Some? ==> Alive(s, Held(s'.threads[t].pc).value))
  }

  lemma DeadFrame(s: State, s': State, r: Rid)
    requires NoNewHolder(s, s') && (r in s'.owned ==> r in s.owned) && !Alive(s, r)
    ensures !Alive(s', r)
  {
  }

  lemma HoldersKeep(s: State)
    ensures NoNewHolder(s, s)
  {
  }

  lemma WorkerHolders(s: State, t: Tid)
    requires Enabled(s, Worker(t))
    ensures NoNewHolder(s, WorkerStep(s, t))
  {
    HoldersKeep(s);
    var s' := WorkerStep(s, t);
    forall u | u in s'.threads && Held(s'.threads[u].pc).Some?
      ensures Alive(s, Held(s'.threads[u].pc).value)
    {
      if u == t {
        assert (s'.threads[u].pc.Running? && s.threads[t].pc.Reading?) ||
               Held(s'.threads[u].pc) == Held(s.threads[u].pc);
      }
    }
  }

  lemma CallsAppend(log: seq<Call>, c: Call)
    ensures forall k :: Calls(log + [c], k) == Calls(log, k) + (if c.job == k then [c.kind] else [])
  {
    assert (log + [c])[..|log|] == log;
  }

  lemma CallsMade(log: seq<Call>, th: ThreadState, alive: bool)
    ensures forall k :: Calls(log + Made(th, alive), k) ==
              Calls(log, k) + (if Made(th, alive) != [] && k == th.job then [Made(th, alive)[0].kind] else [])
  {
    if Made(th, alive) == [] {
      assert log + Made(th, alive) == log;
    } else {
      CallsAppend(log, Made(th, alive)[0]);
    }
  }

  lemma WorkerKeepsLists(s: State, t: Tid)
    requires ListsOk(s) && Enabled(s, Worker(t))
    requires ThreadOk(s, t)
    ensures ListsOk(WorkerStep(s, t))
  {
    var s' := WorkerStep(s, t);
    assert s'.threads.Keys == s.threads.Keys;
  }

  lemma WorkerKeepsQueue(s: State, t: Tid)
    requires QueueOk(s) && ListsOk(s) && Enabled(s, Worker(t))
    requires ThreadOk(s, t)
    ensures QueueOk(WorkerStep(s, t))
  {
  }

  lemma WorkerKeepsMain(s: State, t: Tid)
    requires MainOk(s) && Enabled(s, Worker(t))
    requires ThreadOk(s, t)
    ensures MainOk(WorkerStep(s, t))
  {
  }

  lemma AdvanceBorn(born: set<Rid>, th: ThreadState, alive: bool)
    requires RefsBorn(born, th) && !th.pc.Waiting? && !th.pc.Exited? && (alive ==> th.runnable.Some?)
    ensures RefsBorn(born, Advance(th, alive))
  {
  }

  lemma WorkerKeepsBorn(s: State, t: Tid)
    requires BornOk(s) && Enabled(s, Worker(t))
    ensures BornOk(WorkerStep(s, t))
  {
    var s' := WorkerStep(s, t);
    AdvanceBorn(s.born, s.threads[t], AliveRef(s, s.threads[t].runnable));
    forall u | u in s'.threads ensures RefsBorn(s'.born, s'.threads[u]) {
      assert u != t ==> RefsBorn(s.born, s.threads[u]);
    }
  }

  lemma WorkerKeepsThread(s: State, t: Tid, u: Tid)
    requires Enabled(s, Worker(t)) && u in s.threads && ThreadOk(s, u) && ThreadOk(s, t)
    requires ListsOk(s)
    ensures ThreadOk(WorkerStep(s, t), u)
  {
  }

  lemma WorkerKeepsJob(s: State, t: Tid, u: Tid)
    requires Enabled(s, Worker(t)) && ThreadOk(s, t)
    requires u in s.activeL && u in s.threads && JobOk(s, u) && ThreadOk(s, u)
    requires t in s.activeL ==> JobOk(s, t)
    requires t != u && t in s.activeL ==> s.threads[t].job != s.threads[u].job
    requires ListsOk(s)
    ensures JobOk(WorkerStep(s, t), u)
  {
    var th := s.threads[t];
    CallsMade(s.log, th, AliveRef(s, th.runnable));
    if s.threads[u].runnable.Some? && !AliveRef(s, s.threads[u].runnable) {
      WorkerHolders(s, t);
      DeadFrame(s, WorkerStep(s, t), s.threads[u].runnable.value);
    }
  }

  lemma PastJobsFrame(s: State, s': State)
    requires PastJobsOk(s) && s'.nextJob == s.nextJob && s'.activeL == s.activeL
    requires forall t :: t in s.activeL && t in s.threads ==> t in s'.threads && s'.threads[t].job == s.threads[t].job
    requires forall k :: 0 <= k < s.nextJob && !Current(s, k) ==> Calls(s'.log, k) == Calls(s.log, k)
    ensures PastJobsOk(s')
  {
    forall k | 0 <= k < s.nextJob ensures Current(s', k) || Over(Calls(s'.log, k)) {
      if Current(s, k) {
        var t :| t in s.activeL && t in s.threads && s.threads[t].job == k;
        assert s'.threads[t].job == k;
      }
    }
  }

  lemma WorkerKeepsThreads(s: State, t: Tid)
    requires ListsOk(s) && ThreadsOk(s) && Enabled(s, Worker(t))
    ensures ThreadsOk(WorkerStep(s, t))
  {
    forall u | u in s.threads ensures ThreadOk(WorkerStep(s, t), u) {
      WorkerKeepsThread(s, t, u);
    }
  }

  /** A worker that makes a call has a job. */
  lemma CallerHasJob(s: State, t: Tid)
    requires ListsOk(s) && JobsOk(s) && t in s.threads && ThreadOk(s, t)
    requires s.threads[t].pc.Reading? || s.threads[t].pc.Running?
    ensures s.threads[t].job < s.nextJob
  {
    assert t in s.activeL && JobOk(s, t);
  }

  lemma WorkerKeepsNumbers(s: State, t: Tid)
    requires ListsOk(s) && JobsOk(s) && Enabled(s, Worker(t)) && ThreadOk(s, t)
    ensures var s' := WorkerStep(s, t);
            && (forall u :: u in s'.threads ==> u in s.threads && s'.threads[u].job == s.threads[u].job)
            && (forall k :: k >= s.nextJob ==> Calls(s'.log, k) == [])
  {
    var th := s.threads[t];
    CallsMade(s.log, th, AliveRef(s, th.runnable));
    if th.pc.Reading? || th.pc.Running? { CallerHasJob(s, t); }
  }

  lemma WorkerKeepsJobs(s: State, t: Tid)
    requires ListsOk(s) && ThreadsOk(s) && JobsOk(s) && Enabled(s, Worker(t))
    ensures JobsOk(WorkerStep(s, t))
  {
    var s' := WorkerStep(s, t);
    forall u | u in s'.activeL && u in s'.threads ensures JobOk(s', u) {
      WorkerKeepsJob(s, t, u);
    }
    WorkerKeepsNumbers(s, t);
  }

  lemma WorkerKeepsPast(s: State, t: Tid)
    requires ListsOk(s) && ThreadsOk(s) && PastJobsOk(s) && Enabled(s, Worker(t))
    ensures PastJobsOk(WorkerStep(s, t))
  {
    var th := s.threads[t];
    CallsMade(s.log, th, AliveRef(s, th.runnable));
    assert ThreadOk(s, t);
    assert th.pc.Reading? || th.pc.Running? ==> Current(s, th.job);
    PastJobsFrame(s, WorkerStep(s, t));
  }

  lemma WorkerKeeps(s: State, t: Tid)
    requires Inv(s) && Enabled(s, Worker(t))
    ensures Inv(WorkerStep(s, t))
  {
    assert ThreadOk(s, t);
    WorkerKeepsLists(s, t);
    WorkerKeepsQueue(s, t);
    WorkerKeepsMain(s, t);
    WorkerKeepsBorn(s, t);
    WorkerKeepsThreads(s, t);
    WorkerKeepsJobs(s, t);
    WorkerKeepsPast(s, t);
  }

  /** What ThreadPool::run does with a living runnable: thread t takes it over. */
  ghost predicate Accepted(s: State, s': State, t: Tid, r: Rid) {
    && t in s'.threads
    && var th := s'.threads[t];
    && th.active && !th.toStop && th.runnable == Some(r) && !th.timerOn && !th.ran && th.job == s.nextJob
    && (th.pc.Releasing? || th.pc.Top? || th.pc.Woken?)
    && (if s.inactiveL != []
        then t in s.inactiveL && t in s.threads && Held(th.pc) == Held(s.threads[t].pc)
             && s.inactiveL == s'.inactiveL + [t] && s'.nextTid == s.nextTid
        else t == s.nextTid && Held(th.pc) == None
             && s'.inactiveL == [] && s'.nextTid == t + 1)
    && s' == s.(threads := s.threads[t := th], activeL := s.activeL + [t], inactiveL := s'.inactiveL,
                nextTid := s'.nextTid, nextJob := s.nextJob + 1, log := s.log + [Call(s.nextJob, Init)])
  }

  lemma RunTakesIdle(s: State, r: Rid) returns (t: Tid)
    requires ListsOk(s) && ThreadsOk(s) && s.main.Free? && Alive(s, r) && s.inactiveL != []
    ensures Accepted(s, PoolRun(s, r), t, r)
  {
    t := s.inactiveL[|s.inactiveL| - 1];
    assert t in s.inactiveL;
    assert ThreadOk(s, t);
    var s1 := s.(inactiveL := s.inactiveL[..|s.inactiveL| - 1], activeL := s.activeL + [t]);
    assert Alive(s1, r);
  }

  lemma RunTakesNew(s: State, r: Rid) returns (t: Tid)
    requires ListsOk(s) && s.main.Free? && Alive(s, r) && s.inactiveL == []
    ensures Accepted(s, PoolRun(s, r), t, r)
  {
    t := s.nextTid;
    var s1 := SetThread(s, t, ThreadState(false, false, None, false, Top, 0, false))
              .(nextTid := t + 1, activeL := s.activeL + [t]);
    assert Alive(s1, r) by {
      if u :| u in s.threads && Held(s.threads[u].pc) == Some(r) {
        assert u in s1.threads && s1.threads[u] == s.threads[u];
      }
    }
  }

  lemma RunAccepts(s: State, r: Rid) returns (t: Tid)
    requires ListsOk(s) && ThreadsOk(s) && s.main.Free? && Alive(s, r)
    ensures Accepted(s, PoolRun(s, r), t, r)
  {
    if s.inactiveL != [] {
      t := RunTakesIdle(s, r);
    } else {
      t := RunTakesNew(s, r);
    }
  }

  lemma RunKeepsLists(s: State, s': State, t: Tid, r: Rid)
    requires ListsOk(s) && s.main.Free? && Accepted(s, s', t, r)
    ensures ListsOk(s') && t !in s.activeL
  {
    assert forall i :: 0 <= i < |s'.inactiveL| ==> s'.inactiveL[i] == s.inactiveL[i];
    assert s.inactiveL != [] ==> s.inactiveL[|s.inactiveL| - 1] == t;
    assert forall u :: u in s.inactiveL <==> u in s'.inactiveL || (s.inactiveL != [] && u == t);
    assert t !in s'.inactiveL;
  }

  lemma RunKeepsThreads(s: State, s': State, t: Tid, r: Rid)
    requires ListsOk(s) && QueueOk(s) && ThreadsOk(s) && s.main.Free? && Accepted(s, s', t, r)
    ensures ThreadsOk(s')
  {
    RunKeepsLists(s, s', t, r);
    assert !InFlight(s, t);
    forall u | u in s'.threads ensures ThreadOk(s', u) {
      if u != t {
        assert ThreadOk(s, u);
        assert u in s.inactiveL ==> u in s'.inactiveL;
      }
    }
  }

  lemma RunHolders(s: State, s': State, t: Tid, r: Rid)
    requires Accepted(s, s', t, r)
    ensures NoNewHolder(s, s')
  {
  }

  lemma RunKeepsJobs(s: State, s': State, t: Tid, r: Rid)
    requires ListsOk(s) && JobsOk(s) && s.main.Free? && Accepted(s, s', t, r) && BornOk(s)
    requires QueueOk(s)
    ensures JobsOk(s')
  {
    RunKeepsLists(s, s', t, r);
    CallsAppend(s.log, Call(s.nextJob, Init));
    RunHolders(s, s', t, r);
    forall u | u in s'.activeL && u in s'.threads ensures JobOk(s', u) {
      if u != t {
        assert JobOk(s, u);
        if s.threads[u].runnable.Some? && !AliveRef(s, s.threads[u].runnable) {
          DeadFrame(s, s', s.threads[u].runnable.value);
        }
      }
    }
  }

  lemma RunKeepsPast(s: State, s': State, t: Tid, r: Rid)
    requires ListsOk(s) && PastJobsOk(s) && s.main.Free? && Accepted(s, s', t, r)
    ensures PastJobsOk(s')
  {
    RunKeepsLists(s, s', t, r);
    CallsAppend(s.log, Call(s.nextJob, Init));
    forall k | 0 <= k < s'.nextJob ensures Current(s', k) || Over(Calls(s'.log, k)) {
      if k == s.nextJob {
        assert t in s'.activeL;
      } else if Current(s, k) {
        var u :| u in s.activeL && u in s.threads && s.threads[u].job == k;
        assert u in s'.activeL && s'.threads[u].job == k;
      }
    }
  }

  lemma RunKeepsRest(s: State, s': State, t: Tid, r: Rid)
    requires QueueOk(s) && MainOk(s) && BornOk(s) && s.main.Free? && Accepted(s, s', t, r) && r in s.born
    ensures QueueOk(s') && MainOk(s') && BornOk(s')
  {
    forall u | u in s'.threads ensures RefsBorn(s'.born, s'.threads[u]) {
      assert u in s.threads ==> RefsBorn(s.born, s.threads[u]);
    }
  }

  lemma RunKeeps(s: State, r: Rid)
    requires Inv(s) && Enabled(s, Run(r)) && Alive(s, r)
    ensures Inv(PoolRun(s, r))
  {
    var s' := PoolRun(s, r);
    var t := RunAccepts(s, r);
    RunKeepsLists(s, s', t, r);
    RunKeepsThreads(s, s', t, r);
    RunKeepsJobs(s, s', t, r);
    RunKeepsPast(s, s', t, r);
    RunKeepsRest(s, s', t, r);
  }

  /** Steps that touch neither the threads, the lists nor the log. */
  predicate Quiet(a: Action) {
    a.Wait? || a.WaitReturn? || a.Create? || a.Drop?
  }

  lemma QuietKeepsThreads(s: State, a: Action)
    requires ListsOk(s) && QueueOk(s) && ThreadsOk(s) && Enabled(s, a) && Quiet(a)
    ensures ListsOk(Do(s, a)) && QueueOk(Do(s, a)) && ThreadsOk(Do(s, a))
  {
    forall u | u in s.threads ensures ThreadOk(Do(s, a), u) { assert ThreadOk(s, u); }
  }

  lemma QuietKeepsBorn(s: State, a: Action)
    requires BornOk(s) && Enabled(s, a) && Quiet(a)
    ensures BornOk(Do(s, a))
  {
    forall u | u in s.threads ensures RefsBorn(Do(s, a).born, s.threads[u]) { assert RefsBorn(s.born, s.threads[u]); }
  }

  lemma {:induction false} LookupFinds(s: State, list: seq<Tid>, r: Rid)
    ensures match Lookup(s, list, r)
            case None => forall i :: 0 <= i < |list| ==> list[i] in s.threads ==> s.threads[list[i]].runnable != Some(r)
            case Some(t) => t in list && t in s.threads && s.threads[t].runnable == Some(r)
  {
    if list == [] {
    } else {
      LookupFinds(s, list[1..], r);
      assert list == [list[0]] + list[1..];
    }
  }

  lemma QuietKeepsMain(s: State, a: Action)
    requires ListsOk(s) && MainOk(s) && Enabled(s, a) && Quiet(a)
    ensures MainOk(Do(s, a))
  {
    if a.Wait? && Blocks(s, a.r) { LookupFinds(s, s.activeL, a.r); }
  }

  lemma QuietKeepsJobs(s: State, a: Action)
    requires JobsOk(s) && BornOk(s) && PastJobsOk(s) && Enabled(s, a) && Quiet(a)
    ensures JobsOk(Do(s, a)) && PastJobsOk(Do(s, a))
  {
    var s' := Do(s, a);
    forall u | u in s.activeL && u in s.threads ensures JobOk(s', u) {
      assert JobOk(s, u) && RefsBorn(s.born, s.threads[u]);
    }
    PastJobsFrame(s, s');
  }

  lemma QuietKeeps(s: State, a: Action)
    requires Inv(s) && Enabled(s, a) && Quiet(a)
    ensures Inv(Do(s, a))
  {
    QuietKeepsThreads(s, a);
    QuietKeepsBorn(s, a);
    QuietKeepsMain(s, a);
    QuietKeepsJobs(s, a);
  }

  // ----- delivery of the finished event -----

  lemma DeliverKeepsJob(s: State, u: Tid)
    requires ListsOk(s) && QueueOk(s) && ThreadsOk(s) && JobsOk(s) && Enabled(s, Deliver)
    requires u in s.activeL && u in s.threads
    ensures JobOk(DeliverFinished(s), u)
  {
    var s' := DeliverFinished(s);
    var t := s.queue[0];
    assert ThreadOk(s, t) && JobOk(s, t) && JobOk(s, u);
    CallsAppend(s.log, Call(s.threads[t].job, Finished));
    assert NoNewHolder(s, s');
    if s.threads[u].runnable.Some? && !AliveRef(s, s.threads[u].runnable) {
      DeadFrame(s, s', s.threads[u].runnable.value);
    }
  }

  lemma DeliverKeepsPast(s: State)
    requires QueueOk(s) && JobsOk(s) && PastJobsOk(s) && Enabled(s, Deliver)
    ensures PastJobsOk(DeliverFinished(s))
    ensures forall k :: k >= s.nextJob ==> Calls(DeliverFinished(s).log, k) == []
  {
    var t := s.queue[0];
    assert t in s.queue && JobOk(s, t);
    CallsAppend(s.log, Call(s.threads[t].job, Finished));
    assert Current(s, s.threads[t].job);
    PastJobsFrame(s, DeliverFinished(s));
  }

  lemma DeliverKeepsJobs(s: State)
    requires ListsOk(s) && QueueOk(s) && ThreadsOk(s) && JobsOk(s) && Enabled(s, Deliver)
    requires PastJobsOk(s)
    ensures JobsOk(DeliverFinished(s)) && PastJobsOk(DeliverFinished(s))
  {
    DeliverKeepsPast(s);
    forall u | u in s.activeL && u in s.threads ensures JobOk(DeliverFinished(s), u) { DeliverKeepsJob(s, u); }
  }

  lemma DeliverKeepsThreads(s: State)
    requires QueueOk(s) && ThreadsOk(s) && Enabled(s, Deliver)
    ensures ThreadsOk(DeliverFinished(s)) && QueueOk(DeliverFinished(s))
  {
    var s' := DeliverFinished(s);
    assert s.queue == [s.queue[0]] + s'.queue;
    forall u | u in s'.threads ensures ThreadOk(s', u) {
      assert ThreadOk(s, u);
      assert InFlight(s', u) == InFlight(s, u);
    }
  }

  lemma DeliverKeeps(s: State)
    requires Inv(s) && Enabled(s, Deliver)
    ensures Inv(DeliverFinished(s))
  {
    var t := s.queue[0];
    assert RefsBorn(s.born, s.threads[t]);
    DeliverKeepsThreads(s);
    DeliverKeepsJobs(s);
  }

  lemma ReturnKeepsLists(s: State)
    requires ListsOk(s) && QueueOk(s) && ThreadsOk(s) && Enabled(s, FinishReturn)
    ensures ListsOk(AfterFinished(s)) && QueueOk(AfterFinished(s)) && ThreadsOk(AfterFinished(s))
  {
    var s' := AfterFinished(s);
    var t := s.callback.value;
    RemoveOneNoDup(s.activeL, t);
    assert ThreadOk(s, t);
    forall u | u in s'.threads ensures ThreadOk(s', u) {
      assert ThreadOk(s, u);
    }
  }

  lemma ReturnKeepsJobs(s: State)
    requires ListsOk(s) && QueueOk(s) && ThreadsOk(s) && JobsOk(s) && PastJobsOk(s) && Enabled(s, FinishReturn)
    ensures JobsOk(AfterFinished(s)) && PastJobsOk(AfterFinished(s))
  {
    var s' := AfterFinished(s);
    var t := s.callback.value;
    RemoveOneNoDup(s.activeL, t);
    assert NoNewHolder(s, s');
    assert ThreadOk(s, t) && JobOk(s, t);
    forall u | u in s'.activeL && u in s'.threads ensures JobOk(s', u) {
      assert JobOk(s, u);
      if s.threads[u].runnable.Some? && !AliveRef(s, s.threads[u].runnable) {
        DeadFrame(s, s', s.threads[u].runnable.value);
      }
    }
    forall k | 0 <= k < s'.nextJob ensures Current(s', k) || Over(Calls(s'.log, k)) {
      if Current(s, k) && k != s.threads[t].job {
        var u :| u in s.activeL && u in s.threads && s.threads[u].job == k;
        assert u in s'.activeL && s'.threads[u].job == k;
      }
    }
  }

  lemma ReturnKeeps(s: State)
    requires Inv(s) && Enabled(s, FinishReturn)
    ensures Inv(AfterFinished(s))
  {
    var s' := AfterFinished(s);
    ReturnKeepsLists(s);
    ReturnKeepsJobs(s);
    assert BornOk(s') by {
      forall u | u in s'.threads ensures RefsBorn(s'.born, s'.threads[u]) {
        assert RefsBorn(s.born, s.threads[u]);
      }
    }
  }

  // ----- timer and deletion -----

  lemma ExpireKeepsLists(s: State, t: Tid)
    requires ListsOk(s) && QueueOk(s) && ThreadsOk(s) && Enabled(s, Expire(t))
    ensures ListsOk(TimerExpires(s, t)) && ThreadsOk(TimerExpires(s, t))
  {
    var s' := TimerExpires(s, t);
    RemoveOneNoDup(s.inactiveL, t);
    assert ThreadOk(s, t);
    forall u | u in s'.threads ensures ThreadOk(s', u) {
      assert ThreadOk(s, u);
    }
  }

  lemma ExpireKeepsJobs(s: State, t: Tid)
    requires ListsOk(s) && ThreadsOk(s) && JobsOk(s) && PastJobsOk(s) && Enabled(s, Expire(t))
    ensures JobsOk(TimerExpires(s, t)) && PastJobsOk(TimerExpires(s, t))
  {
    var s' := TimerExpires(s, t);
    assert ThreadOk(s, t);
    assert NoNewHolder(s, s');
    forall u | u in s'.activeL && u in s'.threads ensures JobOk(s', u) {
      assert JobOk(s, u) && u != t;
      if s.threads[u].runnable.Some? && !AliveRef(s, s.threads[u].runnable) {
        DeadFrame(s, s', s.threads[u].runnable.value);
      }
    }
    PastJobsFrame(s, s');
  }

  lemma ExpireKeeps(s: State, t: Tid)
    requires Inv(s) && Enabled(s, Expire(t))
    ensures Inv(TimerExpires(s, t))
  {
    var s' := TimerExpires(s, t);
    ExpireKeepsLists(s, t);
    ExpireKeepsJobs(s, t);
    assert BornOk(s') by {
      forall u | u in s'.threads ensures RefsBorn(s'.born, s'.threads[u]) {
        assert RefsBorn(s.born, s.threads[u]);
      }
    }
  }

  lemma JoinKeeps(s: State)
    requires Inv(s) && Enabled(s, JoinDone)
    ensures Inv(Do(s, JoinDone))
  {
    var s' := Do(s, JoinDone);
    assert ThreadsOk(s') by {
      forall u | u in s'.threads ensures ThreadOk(s', u) {
        assert ThreadOk(s, u);
      }
    }
    assert BornOk(s') by {
      forall u | u in s'.threads ensures RefsBorn(s'.born, s'.threads[u]) {
        assert RefsBorn(s.born, s.threads[u]);
      }
    }
    assert NoNewHolder(s, s');
    assert JobsOk(s') by {
      forall u | u in s'.activeL && u in s'.threads ensures JobOk(s', u) {
        assert JobOk(s, u);
        if s.threads[u].runnable.Some? && !AliveRef(s, s.threads[u].runnable) {
          DeadFrame(s, s', s.threads[u].runnable.value);
        }
      }
    }
    PastJobsFrame(s, s');
  }
}
