/** The pool and its threads as objects.  The result of upgrading a weak reference is a
    parameter, `alive`.  A call is what happens between two scheduling points: a slot of the pool,
    or a stretch of Thread::run; the slot for the finished event is cut at the call of finished().
    `Now` is the state of the step system the objects stand for, so whatever ThreadPoolRuns says of
    runs holds of runs of these calls. */
module ThreadPoolObject {
  import opened Sequences
  import opened ThreadPool
  import opened ThreadPoolRuns

  class Thread {
    var active: bool
    var toStop: bool
    var runnable: Option<Rid>
    var timerOn: bool
    var pc: Pc                // where the worker stands
    ghost const id: Tid
    ghost var job: nat        // the number of its last accepted runnable
    ghost var ran: bool       // whether run() was entered for it

    ghost function View(): ThreadState
      reads this
    {
      ThreadState(active, toStop, runnable, timerOn, pc, job, ran)
    }

    constructor (ghost id: Tid)
      ensures this.id == id && View() == ThreadState(false, false, None, false, Top, 0, false)
    {
      active, toStop, runnable, timerOn, pc := false, false, None, false, Top;
      this.id, job, ran := id, 0, false;
    }

    /** An idle thread takes a living runnable, whose init() is then called. */
    method SetRunnable(runnable: Rid, alive: bool, ghost job: nat) returns (accepted: bool)
      modifies this
      ensures accepted == (alive && !old(active))
      ensures !accepted ==> View() == old(View())
      ensures accepted ==>
                && active && this.runnable == Some(runnable) && !timerOn && this.job == job && !ran
                && !pc.Waiting? && toStop == old(toStop)
                && View() == old(View()).(timerOn := false, runnable := Some(runnable), job := job, ran := false,
                                          active := true, pc := Wake(old(pc)))
    {
      if active { return false; }
      if !alive { return false; }
      timerOn := false;
      this.runnable := Some(runnable);
      this.job, ran := job, false;
      active := true;
      pc := Wake(pc);
      return true;
    }

    method StartTimer()
      modifies this
      ensures timerOn && runnable == None && View() == old(View()).(timerOn := true, runnable := None)
    {
      timerOn := true;
      runnable := None;
    }

    /** The destructor up to its wait for the worker. */
    method Stop()
      modifies this
      ensures toStop && !pc.Waiting? && View() == old(View()).(toStop := true, pc := Wake(old(pc)))
    {
      toStop := true;
      pc := Wake(pc);
    }

    /** The worker up to its next scheduling point. */
    method Advance(alive: bool)
      requires !pc.Waiting? && !pc.Exited? && (alive ==> runnable.Some?)
      modifies this
      ensures View() == ThreadPool.Advance(old(View()), alive)
    {
      match pc {
        case Top =>
          if !active && !toStop {
            pc := Waiting;
          } else if toStop {
            pc := Exited;
          } else {
            pc := Reading;
          }
        case Woken =>
          pc := if toStop then Exited else Reading;
        case Reading =>
          if alive {
            pc, ran := Running(runnable.value), true;
          } else {
            pc := Ended(None);
          }
        case Running(r) =>
          pc := Ended(Some(r));
        case Ended(h) =>
          active := false;
          pc := Emitting(h);
        case Emitting(h) =>
          pc := Releasing(h);
        case Releasing(h) =>
          pc := Top;
      }
    }
  }

  ghost function Ids(s: seq<Thread>): seq<Tid> {
    seq(|s|, i requires 0 <= i < |s| => s[i].id)
  }

  ghost function Views(threads: map<Tid, Thread>): map<Tid, ThreadState>
    reads threads.Values
  {
    map t | t in threads :: threads[t].View()
  }

  lemma ViewsAdded(threads: map<Tid, Thread>, t: Tid, before: map<Tid, ThreadState>)
    requires t in threads && threads.Keys == before.Keys + {t}
    requires forall u :: u in before && u != t ==> threads[u].View() == before[u]
    ensures Views(threads) == before[t := threads[t].View()]
  {
  }

  /** The objects of the list exist. */
  ghost predicate Listed(s: seq<Thread>, threads: map<Tid, Thread>) {
    forall i :: 0 <= i < |s| ==> s[i].id in threads && threads[s[i].id] == s[i]
  }

  // what the invariant says of a call

  lemma WaitMeans(s: State, r: Rid)
    requires s.main.Free?
    ensures var s' := PoolWait(s, r);
            && (s'.main.Free? || s'.main.Blocked?)
            && (s'.main.Blocked? ==> Busy(s', r))
            && (Once(s', r) ==> (s'.main.Blocked? <==> Busy(s', r)))
  {
    WaitBlocksIff(s, r);
  }

  lemma QueueHead(s: State)
    requires Inv(s) && s.queue != []
    ensures s.queue[0] in s.threads
  {
    assert s.queue[0] in s.queue;
  }

  lemma DeliverMeans(s: State)
    requires Inv(s) && Holding(s) && Enabled(s, Deliver)
    ensures var th := s.threads[s.queue[0]];
            th.pc.Releasing? && Begin in Calls(s.log, th.job) ==> AliveRef(s, th.runnable)
    ensures var t := s.queue[0];
            var th, log := s.threads[t], DeliverFinished(s).log;
            && !th.active
            && (if AliveRef(s, th.runnable) then Calls(log, th.job) == [Init, Begin, End, Finished]
                else Calls(log, th.job) == Calls(s.log, th.job) && Over(Calls(log, th.job)))
  {
    var t := s.queue[0];
    assert t in s.queue && ThreadOk(s, t) && JobOk(s, t);
    CallsAppend(s.log, Call(s.threads[t].job, Finished));
    if s.threads[t].pc.Releasing? && Begin in Calls(s.log, s.threads[t].job) { HeldInLoop(s, t); }
  }

  lemma ReturnMeans(s: State)
    requires Inv(s) && Enabled(s, FinishReturn)
    ensures var t := s.callback.value;
            && t in s.activeL && !s.threads[t].active && t !in AfterFinished(s).activeL
  {
    assert ThreadOk(s, s.callback.value);
    RemoveOneNoDup(s.activeL, s.callback.value);
  }

  lemma ExpireMeans(s: State, t: Tid)
    requires Inv(s) && Enabled(s, Expire(t))
    ensures t in s.inactiveL && !s.threads[t].active && !s.threads[t].toStop
    ensures t !in RemoveOne(s.inactiveL, t) && |RemoveOne(s.inactiveL, t)| == |s.inactiveL| - 1
  {
    assert ThreadOk(s, t);
    RemoveOneNoDup(s.inactiveL, t);
  }

  lemma JoinMeans(s: State)
    requires Inv(s) && s.main.Joining?
    ensures s.main.t !in s.activeL && s.main.t !in s.inactiveL && s.main.t !in s.queue
  {
  }

  lemma WorkerMeans(s: State, t: Tid)
    requires Inv(s) && Enabled(s, Worker(t))
    ensures var th := s.threads[t];
            var th', log := WorkerStep(s, t).threads[t], WorkerStep(s, t).log;
            Calls(log, th.job) ==
              if th'.pc.Running? then [Init, Begin]
              else if th.pc.Running? then [Init, Begin, End]
              else Calls(s.log, th.job)
  {
    var th := s.threads[t];
    assert ThreadOk(s, t);
    CallsMade(s.log, th, AliveRef(s, th.runnable));
    if th.pc.Reading? || th.pc.Running? { assert JobOk(s, t); }
  }

  /** A list of objects holds an object exactly when it holds its number. */
  lemma InList(s: seq<Thread>, x: Thread, threads: map<Tid, Thread>)
    requires Listed(s, threads) && x.id in threads && threads[x.id] == x
    ensures x in s <==> x.id in Ids(s)
  {
    if x in s {
      var i :| 0 <= i < |s| && s[i] == x;
      assert Ids(s)[i] == x.id;
    }
    if x.id in Ids(s) {
      var i :| 0 <= i < |s| && Ids(s)[i] == x.id;
      assert s[i] == x;
    }
  }

  lemma {:induction false} IndexOfIds(s: seq<Thread>, x: Thread, threads: map<Tid, Thread>)
    requires Listed(s, threads) && x.id in threads && threads[x.id] == x
    ensures IndexOf(Ids(s), x.id) == IndexOf(s, x)
  {
    if s == [] {
    } else {
      IndexOfIds(s[1..], x, threads);
      assert Ids(s)[1..] == Ids(s[1..]);
    }
  }

  lemma SetTwice(s: State, t: Tid, a: ThreadState, b: ThreadState)
    ensures SetThread(SetThread(s, t, a), t, b) == SetThread(s, t, b)
  {
  }

  lemma WithoutAtIds(s: seq<Thread>, k: nat)
    requires k < |s|
    ensures Ids(WithoutAt(s, k)) == WithoutAt(Ids(s), k)
  {
  }

  lemma RemoveOneIds(s: seq<Thread>, x: Thread, threads: map<Tid, Thread>)
    requires Listed(s, threads) && x.id in threads && threads[x.id] == x
    ensures Ids(RemoveOne(s, x)) == RemoveOne(Ids(s), x.id) && Listed(RemoveOne(s, x), threads)
  {
    IndexOfIds(s, x, threads);
    IndexOfFirst(s, x);
    IndexOfFirst(Ids(s), x.id);
    if x in s { WithoutAtIds(s, IndexOf(s, x)); }
  }

  lemma IdsEnds(s: seq<Thread>, list: seq<Thread>, x: Thread)
    requires s != [] && s[|s| - 1] == x
    ensures Ids(s[..|s| - 1]) == Ids(s)[..|s| - 1] && Ids(s)[|s| - 1] == x.id
    ensures Ids(list + [x]) == Ids(list) + [x.id]
  {
  }

  /** The thread that ThreadPool::run takes. */
  function NextThread(s: State): Tid {
    if s.inactiveL != [] then s.inactiveL[|s.inactiveL| - 1] else s.nextTid
  }

  lemma IdleNext(s: State)
    requires Inv(s) && s.inactiveL != []
    ensures NextThread(s) in s.threads && !s.threads[NextThread(s)].active
  {
    assert NextThread(s) in s.inactiveL && ThreadOk(s, NextThread(s));
  }

  /** The lists when thread t was taken. */
  function Taken(s: State, t: Tid): State {
    if s.inactiveL != [] then s.(inactiveL := s.inactiveL[..|s.inactiveL| - 1], activeL := s.activeL + [t])
    else
      SetThread(s, t, ThreadState(false, false, None, false, Top, 0, false))
      .(nextTid := t + 1, activeL := s.activeL + [t])
  }

  /** Taking a thread holds no reference. */
  lemma TakenAlive(s: State, t: Tid, r: Rid)
    requires s.inactiveL != [] || t !in s.threads
    ensures Alive(Taken(s, t), r) <==> Alive(s, r)
  {
    var s' := Taken(s, t);
    if u :| u in s.threads && Held(s.threads[u].pc) == Some(r) { assert s'.threads[u] == s.threads[u]; }
    if u :| u in s'.threads && Held(s'.threads[u].pc) == Some(r) { assert s'.threads[u] == s.threads[u]; }
  }

  lemma RunTakes(s: State, r: Rid)
    requires ListsOk(s)
    ensures var t := NextThread(s);
            t in Taken(s, t).threads && PoolRun(s, r) == ThreadPool.SetRunnable(Taken(s, t), t, r)
  {
    if s.inactiveL != [] { assert s.inactiveL[|s.inactiveL| - 1] in s.inactiveL; }
  }

  class Pool {
    const nbMinThread: int
    var activeThreads: seq<Thread>
    var inactiveThreads: seq<Thread>
    var queue: seq<Thread>               // the senders of the finished events under way
    ghost var threads: map<Tid, Thread>  // the threads that exist
    ghost var main: Main
    ghost var callback: Option<Tid>
    ghost var mainHeld: Option<Rid>
    ghost var born: set<Rid>
    ghost var owned: set<Rid>
    ghost var nextTid: Tid
    ghost var nextJob: nat
    ghost var log: seq<Call>

    ghost function Now(): State
      reads this, threads.Values
    {
      State(nbMinThread, Views(threads), Ids(activeThreads), Ids(inactiveThreads), Ids(queue), main, callback, mainHeld,
            born, owned, nextTid, nextJob, log)
    }

    ghost predicate Linked()
      reads this
    {
      && (forall t :: t in threads ==> threads[t].id == t)
      && Listed(activeThreads, threads) && Listed(inactiveThreads, threads) && Listed(queue, threads)
    }

    ghost predicate Valid()
      reads this, threads.Values
    {
      Linked() && Inv(Now()) && Holding(Now())
    }

    constructor (nbMinThread: int)
      ensures Valid() && Now() == Start(nbMinThread) && activeThreads == [] && inactiveThreads == []
    {
      this.nbMinThread := nbMinThread;
      activeThreads, inactiveThreads, threads, queue := [], [], map[], [];
      main, callback, mainHeld, born, owned := Free, None, None, {}, {};
      nextTid, nextJob, log := 0, 0, [];
      new;
      assert Views(threads) == map[];
    }

    /** One thread changed. */
    ghost predicate OnlyChanged(t: Tid, before: map<Tid, ThreadState>)
      reads this, threads.Values
    {
      t in threads && before.Keys == threads.Keys &&
      forall u :: u in threads && u != t ==> threads[u].View() == before[u]
    }

    lemma ViewsUpdate(t: Tid, before: map<Tid, ThreadState>)
      requires OnlyChanged(t, before)
      ensures Views(threads) == before[t := threads[t].View()]
    {
    }

    // what the calls do to the objects and to the state they stand for

    method Hand(thread: Thread, runnable: Rid, alive: bool)
      requires Linked() && thread in threads.Values && alive == Alive(Now(), runnable)
      modifies thread, this`log, this`nextJob
      ensures Linked() && Now() == ThreadPool.SetRunnable(old(Now()), thread.id, runnable)
      ensures alive && !old(thread.active) ==>
                && thread.active && thread.runnable == Some(runnable) && !thread.timerOn && !thread.pc.Waiting?
                && thread.job == old(nextJob) && log == old(log) + [Call(thread.job, Init)]
      ensures !alive ==> log == old(log) && thread.View() == old(thread.View())
    {
      ghost var before := Views(threads);
      var accepted := thread.SetRunnable(runnable, alive, nextJob);
      if accepted {
        log := log + [Call(nextJob, Init)];
        nextJob := nextJob + 1;
      }
      ViewsUpdate(thread.id, before);
      assert before[thread.id := before[thread.id]] == before;
    }

    method TakeInactive() returns (thread: Thread)
      requires Linked() && inactiveThreads != []
      modifies this`activeThreads, this`inactiveThreads
      ensures Linked() && thread in threads.Values
      ensures activeThreads == old(activeThreads) + [thread] && old(inactiveThreads) == inactiveThreads + [thread]
      ensures thread.id == NextThread(old(Now())) && Now() == Taken(old(Now()), thread.id)
    {
      thread := inactiveThreads[|inactiveThreads| - 1];
      assert threads[thread.id] == thread;
      inactiveThreads := inactiveThreads[..|inactiveThreads| - 1];
      activeThreads := activeThreads + [thread];
      IdsEnds(old(inactiveThreads), old(activeThreads), thread);
    }

    method Create() returns (thread: Thread)
      requires Linked() && nextTid !in threads
      modifies this`threads, this`nextTid
      ensures Linked() && thread in threads.Values && fresh(thread) && !thread.active && thread.id == old(nextTid)
      ensures Now() == SetThread(old(Now()), thread.id, ThreadState(false, false, None, false, Top, 0, false))
                       .(nextTid := thread.id + 1)
    {
      ghost var before := Views(threads);
      thread := new Thread(nextTid);
      threads := threads[nextTid := thread];
      assert threads[thread.id] == thread;
      ViewsAdded(threads, nextTid, before);
      nextTid := nextTid + 1;
    }

    method TakeNew() returns (thread: Thread)
      requires Linked() && nextTid !in threads && inactiveThreads == []
      modifies this`activeThreads, this`threads, this`nextTid
      ensures Linked() && thread in threads.Values && fresh(thread) && !thread.active
      ensures activeThreads == old(activeThreads) + [thread]
      ensures thread.id == NextThread(old(Now())) && Now() == Taken(old(Now()), thread.id)
    {
      thread := Create();
      assert threads[thread.id] == thread;
      activeThreads := activeThreads + [thread];
      IdsEnds([thread], old(activeThreads), thread);
    }

    method Assign(runnable: Rid, alive: bool)
      requires Linked() && ListsOk(Now()) && alive == Alive(Now(), runnable)
      requires inactiveThreads != [] ==> !inactiveThreads[|inactiveThreads| - 1].active
      modifies this, if inactiveThreads == [] then {} else {inactiveThreads[|inactiveThreads| - 1]}
      ensures Linked() && Now() == PoolRun(old(Now()), runnable)
      ensures |activeThreads| == |old(activeThreads)| + 1 && old(activeThreads) < activeThreads
      ensures var thread := activeThreads[|activeThreads| - 1];
              && (if old(inactiveThreads) == [] then fresh(thread) && inactiveThreads == []
                  else old(inactiveThreads) == inactiveThreads + [thread])
              && (thread.active <==> alive)
              && (alive ==> thread.runnable == Some(runnable) && !thread.timerOn && !thread.pc.Waiting?)
              && (alive ==> thread.job == old(nextJob) && log == old(log) + [Call(thread.job, Init)])
              && (!alive ==> log == old(log) && (old(inactiveThreads) != [] ==> thread.View() == old(thread.View())))
    {
      var thread;
      RunTakes(Now(), runnable);
      TakenAlive(Now(), NextThread(Now()), runnable);
      if inactiveThreads != [] {
        thread := TakeInactive();
      } else {
        assert nextTid !in Views(threads);
        thread := TakeNew();
      }
      Hand(thread, runnable, alive);
    }

    method Search(runnable: Rid)
      requires Linked()
      modifies this`main
      ensures Linked() && Now() == PoolWait(old(Now()), runnable)
    {
      var i := 0;
      assert Ids(activeThreads)[0..] == Ids(activeThreads);
      while i < |activeThreads|
        invariant 0 <= i <= |activeThreads|
        invariant Now() == old(Now())
        invariant Lookup(Now(), Ids(activeThreads), runnable) == Lookup(Now(), Ids(activeThreads)[i..], runnable)
      {
        var t := activeThreads[i];
        assert Ids(activeThreads)[i..][0] == t.id && t.id in Views(threads);
        if t.runnable == Some(runnable) {
          if t.active { main := Blocked(t.id); }
          return;
        }
        assert Ids(activeThreads)[i..][1..] == Ids(activeThreads)[i + 1..];
        i := i + 1;
      }
    }

    method Announce(alive: bool) returns (thread: Thread)
      requires Linked() && queue != [] && alive == AliveRef(Now(), queue[0].runnable)
      modifies this`queue, this`callback, this`mainHeld, this`log
      ensures Linked() && Now() == DeliverFinished(old(Now()))
      ensures [thread] + queue == old(queue) && callback == Some(thread.id) && thread.id == old(Now()).queue[0]
    {
      thread := queue[0];
      queue := queue[1..];
      assert Ids(queue) == Ids(old(queue))[1..];
      callback := Some(thread.id);
      if alive {
        mainHeld := thread.runnable;
        log := log + [Call(thread.job, Finished)];
      }
    }

    method MoveToInactive(thread: Thread)
      requires Linked() && thread in threads.Values
      modifies this`activeThreads, this`inactiveThreads
      ensures Linked()
      ensures Now() == old(Now()).(activeL := RemoveOne(old(Now()).activeL, thread.id),
                                   inactiveL := old(Now()).inactiveL + [thread.id])
      ensures activeThreads == RemoveOne(old(activeThreads), thread)
      ensures inactiveThreads == old(inactiveThreads) + [thread]
    {
      RemoveOneIds(activeThreads, thread, threads);
      activeThreads := RemoveOne(activeThreads, thread);
      inactiveThreads := inactiveThreads + [thread];
      IdsEnds([thread], old(inactiveThreads), thread);
    }

    method Rest(thread: Thread)
      requires Linked() && thread in threads.Values
      modifies thread
      ensures Linked() && thread.timerOn && thread.runnable == None && thread.active == old(thread.active)
      ensures Now() == SetThread(old(Now()), thread.id, old(thread.View()).(timerOn := true, runnable := None))
    {
      ghost var before := Views(threads);
      thread.StartTimer();
      ViewsUpdate(thread.id, before);
    }

    method Retire(thread: Thread)
      requires Linked() && thread in threads.Values && callback == Some(thread.id)
      modifies this`activeThreads, this`inactiveThreads, this`callback, this`mainHeld, thread
      ensures Linked() && Now() == AfterFinished(old(Now()))
      ensures activeThreads == RemoveOne(old(activeThreads), thread)
      ensures inactiveThreads == old(inactiveThreads) + [thread]
      ensures thread.timerOn && thread.runnable == None && thread.active == old(thread.active)
    {
      MoveToInactive(thread);
      Rest(thread);
      callback, mainHeld := None, None;
    }

    method TimerOff(thread: Thread)
      requires Linked() && thread in threads.Values
      modifies thread
      ensures Linked() && !thread.timerOn && thread.toStop == old(thread.toStop)
      ensures Now() == SetThread(old(Now()), thread.id, old(thread.View()).(timerOn := false))
    {
      ghost var before := Views(threads);
      thread.timerOn := false;
      ViewsUpdate(thread.id, before);
    }

    method Delete(thread: Thread)
      requires Linked() && thread in threads.Values
      modifies this`inactiveThreads, this`main, thread
      ensures Linked() && inactiveThreads == RemoveOne(old(inactiveThreads), thread)
      ensures main == Joining(thread.id) && thread.toStop && thread.timerOn == old(thread.timerOn)
      ensures Now() == SetThread(old(Now()), thread.id, old(thread.View()).(toStop := true, pc := Wake(old(thread.pc))))
                       .(inactiveL := RemoveOne(old(Now()).inactiveL, thread.id), main := Joining(thread.id))
    {
      ghost var before := Views(threads);
      RemoveOneIds(inactiveThreads, thread, threads);
      inactiveThreads := RemoveOne(inactiveThreads, thread);
      main := Joining(thread.id);
      thread.Stop();
      ViewsUpdate(thread.id, before);
    }

    method Lapse(thread: Thread)
      requires Linked() && thread in threads.Values
      modifies this`inactiveThreads, this`main, thread
      ensures Linked() && Now() == TimerExpires(old(Now()), thread.id)
      ensures if |activeThreads| + |old(inactiveThreads)| > nbMinThread
              then inactiveThreads == RemoveOne(old(inactiveThreads), thread)
                   && main == Joining(thread.id) && thread.toStop
              else inactiveThreads == old(inactiveThreads) && main == old(main) && thread.toStop == old(thread.toStop)
      ensures !thread.timerOn
    {
      ghost var s := Now();
      TimerOff(thread);
      SetTwice(s, thread.id, thread.View(), thread.View().(toStop := true, pc := Wake(thread.pc)));
      if |activeThreads| + |inactiveThreads| > nbMinThread { Delete(thread); }
    }

    method Work(thread: Thread, alive: bool)
      requires Linked() && thread in threads.Values && !thread.pc.Waiting? && !thread.pc.Exited?
      requires alive ==> thread.runnable.Some?
      modifies this`log, thread
      ensures Linked() && thread.View() == ThreadPool.Advance(old(thread.View()), alive)
      ensures Now() == old(Now()).(threads := old(Now()).threads[thread.id := thread.View()],
                                   log := old(log) + Made(old(thread.View()), alive))
    {
      ghost var before := Views(threads);
      log := log + Made(thread.View(), alive);
      thread.Advance(alive);
      ViewsUpdate(thread.id, before);
    }

    method Post(thread: Thread)
      requires Linked() && thread in threads.Values
      modifies this`queue
      ensures Linked() && queue == old(queue) + [thread]
      ensures Now() == old(Now()).(queue := old(Now()).queue + [thread.id])
    {
      queue := queue + [thread];
      IdsEnds([thread], old(queue), thread);
    }

    method Proceed(thread: Thread, alive: bool)
      requires Linked() && thread in threads.Values && !thread.pc.Waiting? && !thread.pc.Exited?
      requires alive == AliveRef(Now(), thread.runnable)
      modifies this`queue, this`main, this`log, thread
      ensures Linked() && Now() == WorkerStep(old(Now()), thread.id)
      ensures thread.View() == ThreadPool.Advance(old(thread.View()), alive)
      ensures queue == if old(thread.pc).Emitting? then old(queue) + [thread] else old(queue)
    {
      var pc := thread.pc;
      Work(thread, alive);
      if pc.Ended? && main == Blocked(thread.id) { main := Notified(thread.id); }
      if pc.Emitting? { Post(thread); }
    }

    method GoOn()
      requires Linked() && main.Notified?
      modifies this`main
      ensures Linked() && main.Free? && Now() == Do(old(Now()), WaitReturn)
    {
      main := Free;
    }

    method Forget(thread: Thread)
      requires Linked() && thread in threads.Values && main == Joining(thread.id) && thread.pc.Exited?
      requires thread !in activeThreads && thread !in inactiveThreads && thread !in queue
      modifies this`threads, this`main
      ensures Linked() && threads == old(threads) - {thread.id} && Now() == Do(old(Now()), JoinDone)
    {
      ghost var before := Views(threads);
      threads, main := threads - {thread.id}, Free;
      assert Views(threads) == before - {thread.id};
    }

    // the owners of the runnables

    ghost method Owners(born: set<Rid>, owned: set<Rid>)
      requires Linked()
      modifies this`born, this`owned
      ensures Linked() && Now() == old(Now()).(born := born, owned := owned)
    {
      this.born, this.owned := born, owned;
    }

    /** A runnable comes into being, with an owner. */
    ghost method Own(runnable: Rid)
      requires Valid() && runnable !in born
      modifies this`born, this`owned
      ensures Valid() && Alive(Now(), runnable) && Now() == Do(old(Now()), Action.Create(runnable))
    {
      QuietKeeps(Now(), Action.Create(runnable));
      StepKeepsHolding(Now(), Action.Create(runnable));
      Owners(born + {runnable}, owned + {runnable});
    }

    /** The owner lets go of it; it may still be held by a worker or by the slot. */
    ghost method Disown(runnable: Rid)
      requires Valid() && runnable in owned
      modifies this`born, this`owned
      ensures Valid() && Now() == Do(old(Now()), Action.Drop(runnable))
    {
      QuietKeeps(Now(), Action.Drop(runnable));
      StepKeepsHolding(Now(), Action.Drop(runnable));
      Owners(born, owned - {runnable});
    }

    // the calls

    /** The last inactive thread, or a new one, is listed as active and is given the runnable.  It
        runs it exactly when it was alive, and only then is the pool in order afterwards. */
    method Run(runnable: Rid, alive: bool)
      requires Valid() && main.Free? && runnable in born && alive == Alive(Now(), runnable)
      modifies this, if inactiveThreads == [] then {} else {inactiveThreads[|inactiveThreads| - 1]}
      ensures Linked() && (Valid() <==> alive)
      ensures |activeThreads| == |old(activeThreads)| + 1 && old(activeThreads) < activeThreads
      ensures var thread := activeThreads[|activeThreads| - 1];
              && (if old(inactiveThreads) == [] then fresh(thread) && inactiveThreads == []
                  else old(inactiveThreads) == inactiveThreads + [thread])
              && (thread.active <==> alive)
              && (alive ==> thread.runnable == Some(runnable) && !thread.timerOn && !thread.pc.Waiting?)
              && (alive ==> thread.job == old(nextJob) && log == old(log) + [Call(thread.job, Init)])
              && (!alive ==> log == old(log) && (old(inactiveThreads) != [] ==> thread.View() == old(thread.View())))
      ensures Now() == Do(old(Now()), Action.Run(runnable))
    {
      RunKeepsInvariantIff(Now(), runnable);
      if alive { RunKeepsHolding(Now(), runnable); }
      if inactiveThreads != [] { IdleNext(Now()); }
      Assign(runnable, alive);
    }

    /** Blocks only while the runnable is to end, and whenever it is unless two threads are listed
        for it. */
    method Wait(runnable: Rid)
      requires Valid() && main.Free?
      modifies this`main
      ensures Valid() && (main.Free? || main.Blocked?)
      ensures main.Blocked? ==> Busy(Now(), runnable)
      ensures Once(Now(), runnable) ==> (main.Blocked? <==> Busy(Now(), runnable))
      ensures Now() == Do(old(Now()), Action.Wait(runnable))
    {
      StepKeeps(Now(), Action.Wait(runnable));
      StepKeepsHolding(Now(), Action.Wait(runnable));
      WaitMeans(Now(), runnable);
      Search(runnable);
    }

    /** The slot for the finished event up to the return of finished(), which a runnable that is
        alive is given as its last call. */
    method RunnableFinished(alive: bool) returns (thread: Thread)
      requires Valid() && main.Free? && callback.None? && queue != []
      requires alive == AliveRef(Now(), queue[0].runnable)
      modifies this`queue, this`callback, this`mainHeld, this`log
      ensures Valid() && [thread] + queue == old(queue) && callback == Some(thread.id) && !thread.active
      ensures if alive then Calls(log, thread.job) == [Init, Begin, End, Finished]
              else Calls(log, thread.job) == Calls(old(log), thread.job) && Over(Calls(log, thread.job))
      ensures thread.pc.Releasing? && Begin in Calls(old(log), thread.job) ==> alive
      ensures Now() == Do(old(Now()), Deliver)
    {
      QueueHead(Now());
      StepKeeps(Now(), Deliver);
      StepKeepsHolding(Now(), Deliver);
      DeliverMeans(Now());
      thread := Announce(alive);
    }

    /** The rest of that slot: the thread becomes inactive and its timer starts. */
    method FinishedReturned(thread: Thread)
      requires Valid() && main.Free? && thread in threads.Values && callback == Some(thread.id)
      modifies this`activeThreads, this`inactiveThreads, this`callback, this`mainHeld, thread
      ensures Valid() && thread in old(activeThreads) && thread !in activeThreads
      ensures activeThreads == RemoveOne(old(activeThreads), thread)
      ensures inactiveThreads == old(inactiveThreads) + [thread]
      ensures thread.timerOn && thread.runnable == None && !thread.active
      ensures Now() == Do(old(Now()), FinishReturn)
    {
      StepKeeps(Now(), FinishReturn);
      StepKeepsHolding(Now(), FinishReturn);
      ReturnMeans(Now());
      InList(activeThreads, thread, threads);
      Retire(thread);
      InList(activeThreads, thread, threads);
    }

    /** The timer deletes an inactive thread, and only while there are more than nbMinThread. */
    method ThreadTimeout(thread: Thread)
      requires Valid() && main.Free? && callback.None? && thread in threads.Values && thread.timerOn
      modifies this`inactiveThreads, this`main, thread
      ensures Valid() && thread in old(inactiveThreads) && !thread.timerOn && !thread.active
      ensures if |activeThreads| + |old(inactiveThreads)| > nbMinThread
              then main == Joining(thread.id) && thread.toStop && thread !in inactiveThreads
                   && inactiveThreads == RemoveOne(old(inactiveThreads), thread)
                   && |activeThreads| + |inactiveThreads| >= nbMinThread
              else main.Free? && !thread.toStop && inactiveThreads == old(inactiveThreads)
      ensures Now() == Do(old(Now()), Expire(thread.id))
    {
      StepKeeps(Now(), Expire(thread.id));
      StepKeepsHolding(Now(), Expire(thread.id));
      ExpireMeans(Now(), thread.id);
      InList(inactiveThreads, thread, threads);
      Lapse(thread);
      InList(inactiveThreads, thread, threads);
    }

    /** The end of the deletion: the worker has left its loop. */
    method ThreadDeleted(thread: Thread)
      requires Valid() && thread in threads.Values && main == Joining(thread.id) && thread.pc.Exited?
      modifies this`threads, this`main
      ensures Valid() && main.Free? && threads == old(threads) - {thread.id}
      ensures thread !in activeThreads && thread !in inactiveThreads && thread !in queue
      ensures Now() == Do(old(Now()), JoinDone)
    {
      StepKeeps(Now(), JoinDone);
      StepKeepsHolding(Now(), JoinDone);
      JoinMeans(Now());
      InList(activeThreads, thread, threads);
      InList(inactiveThreads, thread, threads);
      InList(queue, thread, threads);
      Forget(thread);
    }

    /** The return of a blocked wait: the awaited job is over. */
    method WaitReturned(thread: Thread)
      requires Valid() && thread in threads.Values && main == Notified(thread.id)
      modifies this`main
      ensures Valid() && main.Free? && !thread.active && Over(Calls(log, thread.job))
      ensures Now() == Do(old(Now()), WaitReturn)
    {
      StepKeeps(Now(), WaitReturn);
      StepKeepsHolding(Now(), WaitReturn);
      NotifiedIsOver(Now());
      assert Now().threads[thread.id] == thread.View();
      GoOn();
    }

    /** One stretch of Thread::run. */
    method ThreadRun(thread: Thread, alive: bool)
      requires Valid() && thread in threads.Values && !thread.pc.Waiting? && !thread.pc.Exited?
      requires alive == AliveRef(Now(), thread.runnable)
      modifies this`queue, this`main, this`log, thread
      ensures Valid() && thread.active == (old(thread.active) && !old(thread.pc).Ended?)
      ensures thread.runnable == old(thread.runnable) && thread.job == old(thread.job)
              && thread.timerOn == old(thread.timerOn) && thread.toStop == old(thread.toStop)
      ensures thread.pc.Waiting? <==> old(thread.pc).Top? && !thread.active && !thread.toStop
      ensures thread.pc.Exited? <==> thread.toStop && (old(thread.pc).Top? || old(thread.pc).Woken?)
      ensures thread.pc.Running? <==> alive && old(thread.pc).Reading?
      ensures queue == if old(thread.pc).Emitting? then old(queue) + [thread] else old(queue)
      ensures main.Notified? && !old(main).Notified? <==> old(thread.pc).Ended? && old(main) == Blocked(thread.id)
      ensures Calls(log, thread.job) ==
                if thread.pc.Running? then [Init, Begin]
                else if old(thread.pc).Running? then [Init, Begin, End]
                else Calls(old(log), thread.job)
      ensures Now() == Do(old(Now()), Worker(thread.id))
    {
      StepKeeps(Now(), Worker(thread.id));
      StepKeepsHolding(Now(), Worker(thread.id));
      WorkerMeans(Now(), thread.id);
      Proceed(thread, alive);
    }
  }

  /** The first calls on a new pool: the runnable is up to be run on a thread of its own. */
  method FirstRun(runnable: Rid) returns (pool: Pool)
    ensures pool.Valid() && |pool.activeThreads| == 1 && pool.inactiveThreads == []
    ensures pool.activeThreads[0].active && pool.activeThreads[0].runnable == Some(runnable)
    ensures pool.log == [Call(pool.activeThreads[0].job, Init)]
  {
    pool := new Pool(0);
    pool.Own(runnable);
    pool.Run(runnable, true);
  }
}
