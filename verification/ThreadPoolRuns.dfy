/** What holds over every run of the thread pool. */
module ThreadPoolRuns {
  import opened Sequences
  import opened ThreadPool

  lemma StepKeeps(s: State, a: Action)
    requires Inv(s) && Enabled(s, a) && (a.Run? ==> Alive(s, a.r))
    ensures Inv(Do(s, a))
  {
    match a
    case Run(r) => RunKeeps(s, r);
    case Deliver => DeliverKeeps(s);
    case FinishReturn => ReturnKeeps(s);
    case Expire(t) => ExpireKeeps(s, t);
    case JoinDone => JoinKeeps(s);
    case Worker(t) => WorkerKeeps(s, t);
    case _ => QuietKeeps(s, a);
  }

  /** The invariant holds in every state that any interleaving reaches. */
  lemma {:induction false} RunsKeep(s: State, acts: seq<Action>, s': State)
    requires Inv(s) && LiveRuns(s, acts) && Steps(s, acts, s')
    ensures Inv(s')
    decreases |acts|
  {
    if acts == [] {
    } else {
      StepKeeps(s, acts[0]);
      RunsKeep(Do(s, acts[0]), acts[1..], s');
    }
  }

  ghost predicate Reached(nbMin: int, acts: seq<Action>, s: State) {
    LiveRuns(Start(nbMin), acts) && Steps(Start(nbMin), acts, s)
  }

  lemma ReachedInv(nbMin: int, acts: seq<Action>, s: State)
    requires Reached(nbMin, acts, s)
    ensures Inv(s)
  {
    RunsKeep(Start(nbMin), acts, s);
  }

  /** The lists hold exactly the threads not being deleted, once each; an inactive thread is
      idle with no event under way; an active-list thread is at work, about to emit, or has
      exactly one finished event under way. */
  lemma ListsAreExact(nbMin: int, acts: seq<Action>, s: State)
    requires Reached(nbMin, acts, s)
    ensures NoDup(s.activeL) && NoDup(s.inactiveL) && NoDup(s.queue)
    ensures forall t :: t in s.activeL ==> t !in s.inactiveL
    ensures forall t :: t in s.threads && s.main != Joining(t) <==> t in s.activeL || t in s.inactiveL
    ensures forall t :: t in s.inactiveL ==> t in s.threads && !s.threads[t].active && !InFlight(s, t)
    ensures forall t :: t in s.activeL ==>
              t in s.threads && (if s.threads[t].active || s.threads[t].pc.Emitting? then !InFlight(s, t)
                                 else (t in s.queue) != (s.callback == Some(t)))
  {
    ReachedInv(nbMin, acts, s);
    forall t | t in s.threads ensures ThreadOk(s, t) {}
  }

  /** Each accepted runnable gets init, run, the end of run and finished in that order, each
      at most once; once its thread leaves the active list it got init alone (it died before
      its run), init and one run, or all of them. */
  lemma CallsAreOrdered(nbMin: int, acts: seq<Action>, s: State, k: nat)
    requires Reached(nbMin, acts, s)
    ensures Calls(s.log, k) <= [Init, Begin, End, Finished]
    ensures Calls(s.log, k) != [] <==> k < s.nextJob
    ensures k < s.nextJob && !Current(s, k) ==> Over(Calls(s.log, k))
  {
    ReachedInv(nbMin, acts, s);
    if t :| t in s.activeL && t in s.threads && s.threads[t].job == k {
      assert JobOk(s, t);
    }
  }

  /** run() is entered for a job exactly when its runnable is still alive at the upgrade. */
  lemma EntersRunIffAlive(nbMin: int, acts: seq<Action>, s: State, t: Tid)
    requires Reached(nbMin, acts, s) && t in s.threads && s.threads[t].pc.Reading?
    ensures Calls(WorkerStep(s, t).log, s.threads[t].job) ==
            if AliveRef(s, s.threads[t].runnable) then [Init, Begin] else [Init]
  {
    ReachedInv(nbMin, acts, s);
    assert ThreadOk(s, t) && JobOk(s, t);
    CallsMade(s.log, s.threads[t], AliveRef(s, s.threads[t].runnable));
  }

  /** No step rewrites a thread's runnable, or hands it a new job, while its worker is
      between taking the work up and clearing `active`. */
  lemma RunnableIsStable(nbMin: int, acts: seq<Action>, s: State, a: Action, t: Tid)
    requires Reached(nbMin, acts, s) && Enabled(s, a) && (a.Run? ==> Alive(s, a.r))
    requires t in s.threads && t in Do(s, a).threads
    requires Do(s, a).threads[t].runnable != s.threads[t].runnable || Do(s, a).threads[t].job != s.threads[t].job
    ensures !s.threads[t].active && Between(s.threads[t].pc)
  {
    ReachedInv(nbMin, acts, s);
    assert ThreadOk(s, t);
    if a.Run? {
      var u := RunAccepts(s, a.r);
    }
  }

  // ----- waiting -----

  /** The awaited job is over when main is notified: its run has ended, or its runnable is dead
      and will never run. */
  lemma NotifiedIsOver(s: State)
    requires Inv(s) && s.main.Notified?
    ensures s.main.t in s.activeL && s.main.t in s.threads && !s.threads[s.main.t].active
    ensures var th := s.threads[s.main.t];
            Over(Calls(s.log, th.job)) && (Calls(s.log, th.job) == [Init] ==> !AliveRef(s, th.runnable))
  {
    assert JobOk(s, s.main.t);
  }

  /** Main waits for job k of r on thread t. */
  ghost predicate Awaits(s: State, t: Tid, r: Rid, k: nat) {
    && (s.main == Blocked(t) || s.main == Notified(t))
    && t in s.threads && s.threads[t].runnable == Some(r) && s.threads[t].job == k
  }

  lemma AwaitsStep(s: State, a: Action, t: Tid, r: Rid, k: nat)
    requires Awaits(s, t, r, k) && Enabled(s, a) && !a.WaitReturn?
    ensures Awaits(Do(s, a), t, r, k)
  {
  }

  lemma {:induction false} AwaitsOn(s: State, acts: seq<Action>, s': State, t: Tid, r: Rid, k: nat)
    requires Inv(s) && Awaits(s, t, r, k) && LiveRuns(s, acts) && Steps(s, acts, s')
    requires forall i :: 0 <= i < |acts| ==> !acts[i].WaitReturn?
    ensures Inv(s') && Awaits(s', t, r, k)
    decreases |acts|
  {
    if acts == [] {
      assert s' == s;
    } else {
      AwaitsStep(s, acts[0], t, r, k);
      StepKeeps(s, acts[0]);
      AwaitsOn(Do(s, acts[0]), acts[1..], s', t, r, k);
    }
  }

  /** A listed thread has yet to end the run of r. */
  predicate Busy(s: State, r: Rid) {
    exists i :: 0 <= i < |s.activeL| && s.activeL[i] in s.threads &&
      s.threads[s.activeL[i]].runnable == Some(r) && s.threads[s.activeL[i]].active
  }

  predicate Carries(s: State, t: Tid, r: Rid) {
    t in s.activeL && t in s.threads && s.threads[t].runnable == Some(r)
  }

  /** At most one listed thread is there for r. */
  ghost predicate Once(s: State, r: Rid) {
    forall t, u :: Carries(s, t, r) && Carries(s, u, r) ==> t == u
  }

  lemma OnlyIdle(s: State, t: Tid, r: Rid)
    requires Once(s, r) && Carries(s, t, r) && !s.threads[t].active
    ensures !Busy(s, r)
  {
    if Busy(s, r) {
      var i :| 0 <= i < |s.activeL| && s.activeL[i] in s.threads &&
        s.threads[s.activeL[i]].runnable == Some(r) && s.threads[s.activeL[i]].active;
      assert Carries(s, s.activeL[i], r);
    }
  }

  lemma WaitStarts(s: State, r: Rid)
    requires Inv(s) && s.main.Free? && Blocks(s, r)
    ensures var t := Lookup(s, s.activeL, r).value;
            && t in s.threads && s.threads[t].runnable == Some(r)
            && Inv(PoolWait(s, r)) && Awaits(PoolWait(s, r), t, r, s.threads[t].job)
    ensures Once(s, r) ==> Once(PoolWait(s, r), r)
  {
    LookupFinds(s, s.activeL, r);
    StepKeeps(s, Wait(r));
    assert forall t :: Carries(PoolWait(s, r), t, r) ==> Carries(s, t, r);
  }

  lemma AwaitedStays(s: State, r: Rid, acts: seq<Action>, s': State)
    requires Inv(s) && s.main.Free? && Blocks(s, r)
    requires LiveRuns(PoolWait(s, r), acts) && Steps(PoolWait(s, r), acts, s')
    requires forall i :: 0 <= i < |acts| ==> !acts[i].WaitReturn?
    ensures var t := Lookup(s, s.activeL, r).value;
            && t in s.threads && s.threads[t].runnable == Some(r) && Inv(PoolWait(s, r))
            && Awaits(PoolWait(s, r), t, r, s.threads[t].job)
            && Inv(s') && Awaits(s', t, r, s.threads[t].job)
  {
    WaitStarts(s, r);
    var t := Lookup(s, s.activeL, r).value;
    AwaitsOn(PoolWait(s, r), acts, s', t, r, s.threads[t].job);
  }

  /** When ThreadPool::wait(r) blocks it returns, whatever happens meanwhile, only once that very
      job of r is over: r was run to its end, or it died before its run. */
  lemma WaitReturnsAfterTheRun(s: State, r: Rid, acts: seq<Action>, s': State)
    requires Inv(s) && s.main.Free? && Blocks(s, r)
    requires LiveRuns(PoolWait(s, r), acts) && Steps(PoolWait(s, r), acts, s')
    requires (forall i :: 0 <= i < |acts| ==> !acts[i].WaitReturn?) && s'.main.Notified?
    ensures var t := Lookup(s, s.activeL, r).value;
            && t in s.threads && s'.main.t == t && t in s'.threads
            && s'.threads[t].runnable == Some(r) && s'.threads[t].job == s.threads[t].job && !s'.threads[t].active
            && Over(Calls(s'.log, s.threads[t].job))
            && (Calls(s'.log, s.threads[t].job) == [Init] ==> !Alive(s', r))
  {
    AwaitedStays(s, r, acts, s');
    NotifiedIsOver(s');
  }

  /** wait(r) blocks only while r is to end, and whenever it is unless two threads are listed
      for r. */
  lemma WaitBlocksIff(s: State, r: Rid)
    ensures Blocks(s, r) ==> Busy(s, r)
    ensures Once(s, r) ==> (Blocks(s, r) <==> Busy(s, r))
  {
    LookupFinds(s, s.activeL, r);
    if Blocks(s, r) {
      var t := Lookup(s, s.activeL, r).value;
      var i :| 0 <= i < |s.activeL| && s.activeL[i] == t;
      assert s.threads[s.activeL[i]].active;
    }
    if Busy(s, r) && Once(s, r) {
      var i :| 0 <= i < |s.activeL| && s.activeL[i] in s.threads &&
        s.threads[s.activeL[i]].runnable == Some(r) && s.threads[s.activeL[i]].active;
      assert Carries(s, s.activeL[i], r);
      assert Carries(s, Lookup(s, s.activeL, r).value, r);
    }
  }

  /** r is never given to run while a thread is still listed for it. */
  ghost predicate NotRepeated(s: State, acts: seq<Action>, r: Rid)
    decreases |acts|
  {
    acts == [] || (
      (acts[0] == Run(r) ==> forall t :: !Carries(s, t, r)) &&
      (Enabled(s, acts[0]) ==> NotRepeated(Do(s, acts[0]), acts[1..], r)))
  }

  lemma AcceptedCarry(s: State, s': State, u: Tid, q: Rid, r: Rid)
    requires Accepted(s, s', u, q)
    ensures forall t :: Carries(s', t, r) ==> Carries(s, t, r) || (t == u && q == r)
  {
  }

  lemma RetiredCarry(s: State, r: Rid)
    requires ListsOk(s) && Enabled(s, FinishReturn)
    ensures forall t :: Carries(AfterFinished(s), t, r) ==> Carries(s, t, r)
  {
    RemoveOneNoDup(s.activeL, s.callback.value);
  }

  lemma OthersCarry(s: State, a: Action, r: Rid)
    requires ListsOk(s) && Enabled(s, a) && !a.Run?
    ensures forall t :: Carries(Do(s, a), t, r) ==> Carries(s, t, r)
  {
    if a.FinishReturn? { RetiredCarry(s, r); }
  }

  /** Main runs nothing while it waits, so no thread gets r meanwhile. */
  lemma {:induction false} StaysOnce(s: State, acts: seq<Action>, s': State, t: Tid, r: Rid, k: nat)
    requires Inv(s) && Awaits(s, t, r, k) && Once(s, r) && LiveRuns(s, acts) && Steps(s, acts, s')
    requires forall i :: 0 <= i < |acts| ==> !acts[i].WaitReturn?
    ensures Inv(s') && Awaits(s', t, r, k) && Once(s', r)
    decreases |acts|
  {
    if acts == [] {
      assert s' == s;
    } else {
      AwaitsStep(s, acts[0], t, r, k);
      StepKeeps(s, acts[0]);
      OthersCarry(s, acts[0], r);
      StaysOnce(Do(s, acts[0]), acts[1..], s', t, r, k);
    }
  }

  lemma OnceStays(s: State, r: Rid, acts: seq<Action>, s': State)
    requires Inv(s) && s.main.Free? && Blocks(s, r) && Once(s, r)
    requires LiveRuns(PoolWait(s, r), acts) && Steps(PoolWait(s, r), acts, s')
    requires forall i :: 0 <= i < |acts| ==> !acts[i].WaitReturn?
    ensures Inv(s') && Once(s', r) && exists t, k :: Awaits(s', t, r, k)
  {
    WaitStarts(s, r);
    var t := Lookup(s, s.activeL, r).value;
    StaysOnce(PoolWait(s, r), acts, s', t, r, s.threads[t].job);
  }

  lemma IdleAtReturn(s: State, r: Rid)
    requires Inv(s) && s.main.Notified? && Once(s, r) && exists t, k :: Awaits(s, t, r, k)
    ensures !Busy(s, r)
  {
    NotifiedIsOver(s);
    OnlyIdle(s, s.main.t, r);
  }

  /** Unless two threads were listed for r, it is then not to end any more. */
  lemma WaitReturnsForGood(s: State, r: Rid, acts: seq<Action>, s': State)
    requires Inv(s) && s.main.Free? && Blocks(s, r) && Once(s, r)
    requires LiveRuns(PoolWait(s, r), acts) && Steps(PoolWait(s, r), acts, s')
    requires (forall i :: 0 <= i < |acts| ==> !acts[i].WaitReturn?) && s'.main.Notified?
    ensures !Busy(s', r)
  {
    OnceStays(s, r, acts, s');
    IdleAtReturn(s', r);
  }

  lemma OnceKeeps(s: State, a: Action, r: Rid)
    requires Inv(s) && Once(s, r) && Enabled(s, a) && (a.Run? ==> Alive(s, a.r))
    requires a == Run(r) ==> forall t :: !Carries(s, t, r)
    ensures Once(Do(s, a), r)
  {
    var s' := Do(s, a);
    if a.Run? {
      var u := RunAccepts(s, a.r);
      AcceptedCarry(s, s', u, a.r, r);
    } else {
      OthersCarry(s, a, r);
    }
  }

  lemma {:induction false} OnceRuns(s: State, acts: seq<Action>, s': State, r: Rid)
    requires Inv(s) && Once(s, r) && LiveRuns(s, acts) && Steps(s, acts, s') && NotRepeated(s, acts, r)
    ensures Once(s', r)
    decreases |acts|
  {
    if acts == [] {
      assert s' == s;
    } else {
      OnceKeeps(s, acts[0], r);
      StepKeeps(s, acts[0]);
      OnceRuns(Do(s, acts[0]), acts[1..], s', r);
    }
  }

  /** Over any run in which r is not given to run again before its finished event is handled,
      wait(r) blocks exactly while r is to end. */
  lemma WaitIsExact(nbMin: int, acts: seq<Action>, s: State, r: Rid)
    requires Reached(nbMin, acts, s) && NotRepeated(Start(nbMin), acts, r)
    ensures Blocks(s, r) <==> Busy(s, r)
  {
    OnceRuns(Start(nbMin), acts, s, r);
    WaitBlocksIff(s, r);
  }

  // ----- how long a runnable is held -----

  /** The worker is inside the loop body after its run. */
  predicate BehindRun(pc: Pc) {
    pc.Ended? || pc.Emitting? || pc.Releasing?
  }

  /** The worker of a listed thread that ran its runnable still has it in hand. */
  ghost predicate LoopHolds(s: State) {
    forall t :: t in s.activeL && t in s.threads && s.threads[t].ran && BehindRun(s.threads[t].pc) ==>
      s.threads[t].pc.held == s.threads[t].runnable
  }

  /** So has the slot that called finished(). */
  ghost predicate SlotHolds(s: State) {
    s.callback.Some? && s.callback.value in s.threads
    && Calls(s.log, s.threads[s.callback.value].job) == [Init, Begin, End, Finished] ==>
      s.mainHeld == s.threads[s.callback.value].runnable
  }

  ghost predicate Holding(s: State) {
    LoopHolds(s) && SlotHolds(s)
  }

  lemma WorkerKeepsLoop(s: State, t: Tid)
    requires ThreadsOk(s) && JobsOk(s) && LoopHolds(s) && Enabled(s, Worker(t))
    ensures LoopHolds(WorkerStep(s, t))
  {
    assert ThreadOk(s, t) && (t in s.activeL ==> JobOk(s, t));
  }

  lemma WorkerKeepsSlot(s: State, t: Tid)
    requires ListsOk(s) && QueueOk(s) && ThreadsOk(s) && JobsOk(s) && SlotHolds(s) && Enabled(s, Worker(t))
    ensures SlotHolds(WorkerStep(s, t))
  {
    var th := s.threads[t];
    assert ThreadOk(s, t) && (t in s.activeL ==> JobOk(s, t));
    if s.callback.Some? && s.callback.value in s.threads {
      assert ThreadOk(s, s.callback.value) && JobOk(s, s.callback.value);
      CallsMade(s.log, th, AliveRef(s, th.runnable));
    }
  }

  lemma WorkerKeepsHolding(s: State, t: Tid)
    requires Inv(s) && Holding(s) && Enabled(s, Worker(t))
    ensures Holding(WorkerStep(s, t))
  {
    WorkerKeepsLoop(s, t);
    WorkerKeepsSlot(s, t);
  }

  lemma RunKeepsHolding(s: State, r: Rid)
    requires Inv(s) && Holding(s) && Enabled(s, Run(r)) && Alive(s, r)
    ensures Holding(PoolRun(s, r))
  {
    var t := RunAccepts(s, r);
    RunKeepsLists(s, PoolRun(s, r), t, r);
    CallsAppend(s.log, Call(s.nextJob, Init));
    if s.callback.Some? && s.callback.value in s.threads {
      assert JobOk(s, s.callback.value);
    }
  }

  lemma DeliverKeepsHolding(s: State)
    requires Inv(s) && Holding(s) && Enabled(s, Deliver)
    ensures Holding(DeliverFinished(s))
  {
    var t := s.queue[0];
    assert t in s.queue && ThreadOk(s, t) && JobOk(s, t);
  }

  lemma ReturnKeepsHolding(s: State)
    requires Inv(s) && Holding(s) && Enabled(s, FinishReturn)
    ensures Holding(AfterFinished(s))
  {
    RemoveOneNoDup(s.activeL, s.callback.value);
  }

  lemma ExpireKeepsHolding(s: State, t: Tid)
    requires ListsOk(s) && ThreadsOk(s) && Holding(s) && Enabled(s, Expire(t))
    ensures Holding(TimerExpires(s, t))
  {
    assert ThreadOk(s, t);
  }

  lemma StepKeepsHolding(s: State, a: Action)
    requires Inv(s) && Holding(s) && Enabled(s, a) && (a.Run? ==> Alive(s, a.r))
    ensures Holding(Do(s, a))
  {
    match a
    case Run(r) => RunKeepsHolding(s, r);
    case Deliver => DeliverKeepsHolding(s);
    case FinishReturn => ReturnKeepsHolding(s);
    case Expire(t) => ExpireKeepsHolding(s, t);
    case Worker(t) => WorkerKeepsHolding(s, t);
    case _ =>
  }

  lemma {:induction false} HoldingRuns(s: State, acts: seq<Action>, s': State)
    requires Inv(s) && Holding(s) && LiveRuns(s, acts) && Steps(s, acts, s')
    ensures Inv(s') && Holding(s')
    decreases |acts|
  {
    if acts == [] {
      assert s' == s;
    } else {
      StepKeeps(s, acts[0]);
      StepKeepsHolding(s, acts[0]);
      HoldingRuns(Do(s, acts[0]), acts[1..], s');
    }
  }

  /** A runnable can be upgraded exactly while it has an owner, a worker has entered its run and
      not left the loop body, or the slot that upgraded it has not returned. */
  lemma AliveIff(s: State, r: Rid)
    ensures Alive(s, r) <==>
            r in s.owned || s.mainHeld == Some(r) ||
            exists t :: t in s.threads &&
              (s.threads[t].pc == Running(r) || s.threads[t].pc == Ended(Some(r))
               || s.threads[t].pc == Emitting(Some(r)) || s.threads[t].pc == Releasing(Some(r)))
  {
    if t :| t in s.threads && Held(s.threads[t].pc) == Some(r) {
      assert s.threads[t].pc == Running(r) || s.threads[t].pc == Ended(Some(r))
             || s.threads[t].pc == Emitting(Some(r)) || s.threads[t].pc == Releasing(Some(r));
    }
    if t :| t in s.threads && (s.threads[t].pc == Running(r) || s.threads[t].pc == Ended(Some(r))
                               || s.threads[t].pc == Emitting(Some(r)) || s.threads[t].pc == Releasing(Some(r))) {
      assert Held(s.threads[t].pc) == Some(r);
    }
  }

  lemma HeldInLoop(s: State, t: Tid)
    requires Inv(s) && Holding(s) && t in s.activeL && t in s.threads && Begin in Calls(s.log, s.threads[t].job)
    requires s.threads[t].pc.Running? || BehindRun(s.threads[t].pc)
    ensures AliveRef(s, s.threads[t].runnable)
  {
    assert ThreadOk(s, t) && JobOk(s, t);
    AliveIff(s, s.threads[t].runnable.value);
  }

  /** Whatever the owners do, the runnable of a listed thread whose worker entered run() for it can
      be upgraded until the worker is back at the top of its loop. */
  lemma HeldThroughTheLoop(nbMin: int, acts: seq<Action>, s: State, t: Tid)
    requires Reached(nbMin, acts, s) && t in s.activeL && t in s.threads && Begin in Calls(s.log, s.threads[t].job)
    requires var pc := s.threads[t].pc;
             pc.Running? || pc.Ended? || pc.Emitting? || pc.Releasing?
    ensures AliveRef(s, s.threads[t].runnable)
  {
    HoldingRuns(Start(nbMin), acts, s);
    HeldInLoop(s, t);
  }

  /** ... so when its event is handled before that, it gets finished. */
  lemma FinishedBeforeRelease(nbMin: int, acts: seq<Action>, s: State)
    requires Reached(nbMin, acts, s) && Enabled(s, Deliver)
    requires s.threads[s.queue[0]].pc.Releasing? && Begin in Calls(s.log, s.threads[s.queue[0]].job)
    ensures DeliverFinished(s).log == s.log + [Call(s.threads[s.queue[0]].job, Finished)]
  {
    ReachedInv(nbMin, acts, s);
    assert s.queue[0] in s.queue;
    HeldThroughTheLoop(nbMin, acts, s, s.queue[0]);
  }

  /** A runnable that was told finished can be upgraded until the slot returns. */
  lemma HeldThroughTheSlot(nbMin: int, acts: seq<Action>, s: State, t: Tid)
    requires Reached(nbMin, acts, s) && s.callback == Some(t)
    requires t in s.threads && Finished in Calls(s.log, s.threads[t].job)
    ensures AliveRef(s, s.threads[t].runnable)
  {
    HoldingRuns(Start(nbMin), acts, s);
    assert ThreadOk(s, t) && JobOk(s, t);
    AliveIff(s, s.threads[t].runnable.value);
  }

  // ----- progress -----

  /** A worker waits only when it has nothing to do: no notification is lost. */
  lemma NoLostWakeup(nbMin: int, acts: seq<Action>, s: State, t: Tid)
    requires Reached(nbMin, acts, s) && t in s.threads && (s.threads[t].active || s.threads[t].toStop)
    ensures !s.threads[t].pc.Waiting?
  {
    ReachedInv(nbMin, acts, s);
    assert ThreadOk(s, t);
  }

  lemma {:induction false} StepsSnoc(s: State, acts: seq<Action>, s': State, a: Action)
    requires Steps(s, acts, s') && Enabled(s', a)
    ensures Steps(s, acts + [a], Do(s', a))
    decreases |acts|
  {
    if acts == [] {
      assert (acts + [a])[1..] == [];
    } else {
      StepsSnoc(Do(s, acts[0]), acts[1..], s', a);
      assert (acts + [a])[1..] == acts[1..] + [a];
    }
  }

  /** How far a worker is from releasing the main thread that waits for it. */
  function Distance(pc: Pc): nat {
    match pc
    case Releasing(_) => 5
    case Top => 4
    case Woken => 4
    case Reading => 3
    case Running(_) => 2
    case Ended(_) => 1
    case _ => 0
  }

  /** The awaited worker can always move, and each move brings the end of the wait nearer. */
  lemma AwaitedWorkerMoves(s: State, t: Tid)
    requires ListsOk(s) && MainOk(s) && ThreadsOk(s)
    requires (s.main == Blocked(t) || s.main == Joining(t)) && !Enabled(s, JoinDone)
    ensures Enabled(s, Worker(t))
    ensures var s' := Do(s, Worker(t));
            s'.main == Notified(t) || (s'.main == s.main && (Distance(s'.threads[t].pc) < Distance(s.threads[t].pc)))
  {
    assert ThreadOk(s, t);
  }

  lemma {:induction false} Unblock(s: State, n: nat) returns (acts: seq<Action>, s': State)
    requires Inv(s)
    requires s.main.Blocked? || s.main.Joining? ==> s.main.t in s.threads && Distance(s.threads[s.main.t].pc) <= n
    ensures Steps(s, acts, s') && LiveRuns(s, acts) && s'.main.Free? && |acts| <= n + 2
    ensures forall i :: 0 <= i < |acts| ==> acts[i].Worker? || acts[i].WaitReturn? || acts[i].JoinDone?
    decreases n, if s.main.Notified? then 0 else 1
  {
    if s.main.Free? {
      acts, s' := [], s;
    } else if s.main.Notified? || Enabled(s, JoinDone) {
      var a := if s.main.Notified? then WaitReturn else JoinDone;
      acts, s' := [a], Do(s, a);
      assert acts[1..] == [];
    } else {
      var t := s.main.t;
      AwaitedWorkerMoves(s, t);
      var s1 := Do(s, Worker(t));
      StepKeeps(s, Worker(t));
      var rest;
      rest, s' := Unblock(s1, n - 1);
      acts := [Worker(t)] + rest;
      assert acts[1..] == rest;
    }
  }

  /** Whatever the state, at most seven steps let the main thread go on: neither wait nor the
      deletion of a thread can deadlock. */
  lemma MainIsNeverStuck(s: State) returns (acts: seq<Action>, s': State)
    requires Inv(s)
    ensures Steps(s, acts, s') && LiveRuns(s, acts) && s'.main.Free? && |acts| <= 7
    ensures forall i :: 0 <= i < |acts| ==> acts[i].Worker? || acts[i].WaitReturn? || acts[i].JoinDone?
  {
    acts, s' := Unblock(s, 5);
  }

  // ----- how many threads there are -----

  function Count(s: State): nat {
    |s.activeL| + |s.inactiveL|
  }

  /** A thread is made only when none is inactive, and deleted only while there are more than
      nbMinThread of them. */
  lemma ThreadCount(nbMin: int, acts: seq<Action>, s: State, a: Action)
    requires Reached(nbMin, acts, s) && Enabled(s, a)
    ensures Count(Do(s, a)) == Count(s) + (if a.Run? && s.inactiveL == [] then 1 else 0)
                                        - (if a.Expire? && Count(s) > s.nbMin then 1 else 0)
    ensures Count(Do(s, a)) < Count(s) ==> Count(Do(s, a)) >= s.nbMin
  {
    ReachedInv(nbMin, acts, s);
    if a.FinishReturn? {
      RemoveOneNoDup(s.activeL, s.callback.value);
    } else if a.Expire? {
      assert ThreadOk(s, a.t);
      RemoveOneNoDup(s.inactiveL, a.t);
    }
  }

  // ----- what a dead runnable does -----

  /** Giving run a runnable keeps the invariant if and only if the runnable is alive. */
  lemma RunKeepsInvariantIff(s: State, r: Rid)
    requires Inv(s) && Enabled(s, Run(r))
    ensures Inv(PoolRun(s, r)) <==> Alive(s, r)
  {
    if Alive(s, r) {
      RunKeeps(s, r);
    } else {
      var s' := PoolRun(s, r);
      var t := if s.inactiveL != [] then s.inactiveL[|s.inactiveL| - 1] else s.nextTid;
      assert t in s.inactiveL ==> ThreadOk(s, t);
      var s1 := if s.inactiveL != []
                then s.(inactiveL := s.inactiveL[..|s.inactiveL| - 1], activeL := s.activeL + [t])
                else SetThread(s, t, ThreadState(false, false, None, false, Top, 0, false))
                     .(nextTid := t + 1, activeL := s.activeL + [t]);
      DeadFrame(s, s1, r);
      assert s' == s1;
      assert t in s'.activeL && t in s'.threads && !ThreadOk(s', t);
    }
  }

  lemma {:induction false} LiveRunsSnoc(s: State, acts: seq<Action>, s': State, a: Action)
    requires Steps(s, acts, s') && LiveRuns(s, acts) && (a.Run? ==> Alive(s', a.r))
    ensures LiveRuns(s, acts + [a])
    decreases |acts|
  {
    if acts == [] {
      assert (acts + [a])[1..] == [];
    } else {
      LiveRunsSnoc(Do(s, acts[0]), acts[1..], s', a);
      assert (acts + [a])[1..] == acts[1..] + [a];
    }
  }

  lemma Extend(s0: State, acts: seq<Action>, s: State, a: Action) returns (acts': seq<Action>, s': State)
    requires Steps(s0, acts, s) && LiveRuns(s0, acts) && Enabled(s, a)
    ensures Steps(s0, acts', s') && s' == Do(s, a)
    ensures (a.Run? ==> Alive(s, a.r)) ==> LiveRuns(s0, acts')
    ensures acts' == acts + [a]
  {
    acts', s' := acts + [a], Do(s, a);
    StepsSnoc(s0, acts, s, a);
    if !a.Run? || Alive(s, a.r) {
      LiveRunsSnoc(s0, acts, s, a);
    }
  }

  /** A fresh pool up to the point where runnable 1 is running on thread 0. */
  lemma RunStarted() returns (acts: seq<Action>, s: State)
    ensures Steps(Start(0), acts, s) && LiveRuns(Start(0), acts)
    ensures s == State(0, map[0 := ThreadState(true, false, Some(1), false, Running(1), 0, true)],
                       [0], [], [], Free, None, None, {1}, {1}, 1, 1, [Call(0, Init), Call(0, Begin)])
  {
    var s0 := Start(0);
    acts, s := Extend(s0, [], s0, Create(1));
    acts, s := Extend(s0, acts, s, Run(1));
    assert s.threads == map[0 := ThreadState(true, false, Some(1), false, Top, 0, false)];
    acts, s := Extend(s0, acts, s, Worker(0));
    assert s.threads == map[0 := ThreadState(true, false, Some(1), false, Reading, 0, false)];
    acts, s := Extend(s0, acts, s, Worker(0));
  }

  /** ... and on, until that run is over. */
  lemma OneRun() returns (acts: seq<Action>, s: State)
    ensures Steps(Start(0), acts, s) && LiveRuns(Start(0), acts)
    ensures s == State(0, map[0 := ThreadState(false, false, Some(1), false, Emitting(Some(1)), 0, true)],
                       [0], [], [], Free, None, None, {1}, {1}, 1, 1,
                       [Call(0, Init), Call(0, Begin), Call(0, End)])
  {
    acts, s := RunStarted();
    acts, s := Extend(Start(0), acts, s, Worker(0));
    assert s.threads == map[0 := ThreadState(true, false, Some(1), false, Ended(Some(1)), 0, true)];
    acts, s := Extend(Start(0), acts, s, Worker(0));
  }

  /** ... and on, until thread 0 is inactive with its timer on. */
  lemma OneJob() returns (acts: seq<Action>, s: State)
    ensures Steps(Start(0), acts, s) && LiveRuns(Start(0), acts)
    ensures s.threads == map[0 := ThreadState(false, false, None, true, Top, 0, true)]
    ensures s.activeL == [] && s.inactiveL == [0] && s.main == Free && s.callback == None && s.mainHeld == None
    ensures s.born == {1} && s.owned == {1} && s.nbMin == 0
  {
    var s0 := Start(0);
    acts, s := OneRun();
    acts, s := Extend(s0, acts, s, Worker(0));
    acts, s := Extend(s0, acts, s, Worker(0));
    assert s.threads == map[0 := ThreadState(false, false, Some(1), false, Top, 0, true)];
    acts, s := Extend(s0, acts, s, Deliver);
    acts, s := Extend(s0, acts, s, FinishReturn);
  }

  /** ... and on: runnable 2 is dead when it is given to run, so thread 0 is only moved. */
  lemma DeadRun() returns (acts: seq<Action>, s: State)
    ensures Steps(Start(0), acts, s)
    ensures s.threads == map[0 := ThreadState(false, false, None, true, Top, 0, true)] && s.nbMin == 0
    ensures s.activeL == [0] && s.inactiveL == [] && s.main == Free && s.callback == None
  {
    acts, s := OneJob();
    var s0, before := Start(0), s;
    acts, s := Extend(s0, acts, s, Create(2));
    acts, s := Extend(s0, acts, s, Drop(2));
    assert s == before.(born := {1, 2}, owned := {1});
    assert !Alive(s, 2);
    acts, s := Extend(s0, acts, s, Run(2));
  }

  lemma ExpiryDeletes(s: State) returns (s': State)
    requires s.threads == map[0 := ThreadState(false, false, None, true, Top, 0, true)] && s.nbMin == 0
    requires s.activeL == [0] && s.inactiveL == [] && s.main == Free && s.callback == None
    ensures Steps(s, [Expire(0), Worker(0), JoinDone], s')
    ensures s'.main.Free? && s'.activeL == [0] && 0 !in s'.threads
  {
    var s1 := Do(s, Expire(0));
    assert s1.threads == map[0 := ThreadState(false, true, None, false, Top, 0, true)];
    var s2 := Do(s1, Worker(0));
    assert s2.threads[0].pc == Exited;
    s' := Do(s2, JoinDone);
    assert [Expire(0), Worker(0), JoinDone][1..] == [Worker(0), JoinDone];
    assert [Worker(0), JoinDone][1..] == [JoinDone];
    assert [JoinDone][1..] == [];
    assert Steps(s2, [JoinDone], s');
  }

  lemma {:induction false} StepsAppend(s: State, acts: seq<Action>, s': State, more: seq<Action>, s'': State)
    requires Steps(s, acts, s') && Steps(s', more, s'')
    ensures Steps(s, acts + more, s'')
    decreases |acts|
  {
    if acts == [] {
      assert acts + more == more;
    } else {
      StepsAppend(Do(s, acts[0]), acts[1..], s', more, s'');
      assert (acts + more)[1..] == acts[1..] + more;
    }
  }

  /** A runnable dies before a reused thread gets it: the timer of that thread is still on and
      deletes it, while the active list goes on naming it. */
  lemma DeadRunLeavesDanglingThread() returns (acts: seq<Action>, s: State)
    ensures Steps(Start(0), acts, s) && s.main.Free? && s.activeL == [0] && 0 !in s.threads
  {
    var first, mid := DeadRun();
    s := ExpiryDeletes(mid);
    StepsAppend(Start(0), first, mid, [Expire(0), Worker(0), JoinDone], s);
    acts := first + [Expire(0), Worker(0), JoinDone];
  }

  /** The same runnable is run again before its first finished event is handled: wait(r) then
      meets the idle thread first and returns although r is still to run. */
  lemma WaitMayReturnEarly() returns (acts: seq<Action>, s: State)
    ensures Steps(Start(0), acts, s) && LiveRuns(Start(0), acts)
    ensures s.main.Free? && Busy(s, 1) && !Blocks(s, 1) && PoolWait(s, 1).main.Free?
  {
    acts, s := OneRun();
    acts, s := Extend(Start(0), acts, s, Run(1));
    assert s.threads[1] == ThreadState(true, false, Some(1), false, Top, 1, false);
    assert s.activeL[1] == 1;
  }

  /** Runnable 1 is running on thread 0 and is up to be run on thread 1. */
  lemma TwoRuns() returns (acts: seq<Action>, s: State)
    ensures Steps(Start(0), acts, s) && LiveRuns(Start(0), acts)
    ensures s.threads == map[0 := ThreadState(true, false, Some(1), false, Running(1), 0, true),
                             1 := ThreadState(true, false, Some(1), false, Top, 1, false)]
    ensures s.activeL == [0, 1] && s.main.Free? && s.callback == None
  {
    acts, s := RunStarted();
    acts, s := Extend(Start(0), acts, s, Run(1));
  }

  /** The same runnable is run twice at a time: wait(r) blocks on the first thread, and returns
      although the second is still to run r. */
  lemma WaitReturnsWhileBusy() returns (acts: seq<Action>, s: State)
    ensures Steps(Start(0), acts, s) && LiveRuns(Start(0), acts) && |acts| > 0 && acts[|acts| - 1] == WaitReturn
    ensures s.main.Free? && Busy(s, 1)
  {
    var s0 := Start(0);
    acts, s := TwoRuns();
    var first := ThreadState(true, false, Some(1), false, Running(1), 0, true);
    var second := ThreadState(true, false, Some(1), false, Top, 1, false);
    acts, s := Extend(s0, acts, s, Wait(1));
    assert s.main == Blocked(0);
    acts, s := Extend(s0, acts, s, Worker(0));
    assert s.threads == map[0 := first.(pc := Ended(Some(1))), 1 := second];
    acts, s := Extend(s0, acts, s, Worker(0));
    assert s.main == Notified(0) && s.threads[1] == second;
    acts, s := Extend(s0, acts, s, WaitReturn);
    assert s.activeL[1] == 1;
  }

  /** The owner lets go during the run, and the worker goes on until its event is posted. */
  lemma RunDropped() returns (acts: seq<Action>, s: State)
    ensures Steps(Start(0), acts, s) && LiveRuns(Start(0), acts) && Drop(1) in acts
    ensures s.threads == map[0 := ThreadState(true, false, Some(1), false, Ended(Some(1)), 0, true)]
    ensures s.owned == {} && s.mainHeld == None && s.callback == None && s.queue == [] && s.main.Free?
    ensures s.log == [Call(0, Init), Call(0, Begin), Call(0, End)]
  {
    acts, s := RunStarted();
    acts, s := Extend(Start(0), acts, s, Drop(1));
    assert acts[|acts| - 1] == Drop(1);
    acts, s := Extend(Start(0), acts, s, Worker(0));
  }

  /** ... and that is handled before the worker is back at the top of its loop: the runnable gets
      finished all the same. */
  lemma FinishedAfterDrop() returns (acts: seq<Action>, s: State)
    ensures Steps(Start(0), acts, s) && LiveRuns(Start(0), acts) && Drop(1) in acts && s.owned == {}
    ensures s.threads.Keys == {0} && s.threads[0].pc.Releasing?
    ensures s.log == [Call(0, Init), Call(0, Begin), Call(0, End), Call(0, Finished)]
  {
    acts, s := RunDropped();
    acts, s := Extend(Start(0), acts, s, Worker(0));
    assert s.threads == map[0 := ThreadState(false, false, Some(1), false, Emitting(Some(1)), 0, true)];
    acts, s := Extend(Start(0), acts, s, Worker(0));
    assert s.threads == map[0 := ThreadState(false, false, Some(1), false, Releasing(Some(1)), 0, true)];
    AliveIff(s, 1);
    acts, s := Extend(Start(0), acts, s, Deliver);
  }
}
