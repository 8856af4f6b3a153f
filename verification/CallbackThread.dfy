/** The callback thread as an object. Every method is one critical section or one stretch of
    worker code between two of them, and takes exactly the protocol's steps for it. */
module CallbackThread {
  import opened CallbackProtocol

  class CallbackThread {
    var tasks: seq<Entry>
    var mutex: Mutex
    var joinable: bool
    var stop: bool
    var life: Life
    var worker: Worker
    var submitted: nat // numbers the submissions
    ghost var workers: nat
    ghost var begun: seq<nat>
    ghost var ran: seq<Outcome>
    ghost var removed: seq<Entry>
    ghost var destroyed: seq<nat>
    ghost var fulfilled: seq<Outcome>

    ghost function View(): State
      reads this
    {
      State(tasks, mutex, joinable, stop, life, worker,
            submitted, workers, begun, ran, removed, destroyed, fulfilled)
    }

    constructor ()
      ensures View() == Init() && Reachable(View())
      ensures tasks == [] && submitted == 0 && mutex.Free? && life.Alive? && worker.NotStarted? && !joinable && !stop
    {
      tasks, mutex, joinable, stop, life, worker := [], Free, false, false, Alive, NotStarted;
      submitted, workers, begun, ran, removed, destroyed, fulfilled := 0, 0, [], [], [], [], [];
      LeadsToItself(Init());
    }

    method Notify()
      modifies this`worker
      ensures worker == NotifyOne(old(worker))
    {
      if worker.Asleep? {
        worker := Woken;
      }
    }

    /** Starts the worker unless there is one. */
    method EnsureWorkerThread()
      modifies this`worker, this`joinable, this`workers
      ensures joinable && worker == (if old(joinable) then old(worker) else Idle)
      ensures workers == if old(joinable) then old(workers) else old(workers) + 1
    {
      if !joinable {
        joinable, worker, workers := true, Idle, workers + 1;
      }
    }

    method EmplaceTask() returns (id: nat)
      modifies this`tasks, this`submitted
      ensures id == old(submitted) && submitted == id + 1 && tasks == old(tasks) + [Full(id)]
    {
      id := submitted;
      tasks := tasks + [Full(id)];
      submitted := submitted + 1;
    }

    /** The critical section of a submission. */
    method Enqueue(inTask: bool) returns (id: nat)
      requires mutex.Free? && MaySubmit(View(), inTask)
      modifies this
      ensures View() == AfterSubmit(old(View())) && id == old(submitted)
    {
      mutex := BySubmit(Entered, inTask);
      id := EmplaceTask();
      EnsureWorkerThread();
      Notify();
      mutex := Free;
    }

    /** Appends the task, starts the worker on the first submission, wakes it up otherwise. The
        result numbers the promise whose future the caller gets. */
    method Submit(inTask: bool) returns (id: nat)
      requires Reachable(View()) && mutex.Free?
      requires if inTask then (life.Alive? || life == Closing(false)) && (worker.Running? || worker.Popped?)
               else life.Alive?
      modifies this
      ensures Reachable(View()) && View() == AfterSubmit(old(View())) && id == old(submitted)
      ensures tasks == old(tasks) + [Full(id)] && submitted == id + 1 && joinable
    {
      SubmitReaches(View(), inTask);
      id := Enqueue(inTask);
    }

    method IsEmpty() returns (empty: bool)
      requires Reachable(View()) && mutex.Free?
      ensures empty <==> |removed| == submitted
      ensures empty ==> |ran| == submitted
    {
      EmptyMeansAllRan(View());
      empty := tasks == [];
    }

    /** The destructor's critical section. */
    method Close(inTask: bool)
      requires Reachable(View()) && mutex.Free? && life.Alive? && (inTask ==> worker.Running? || worker.Popped?)
      modifies this
      ensures Reachable(View()) && View() == AfterClose(old(View()), inTask)
    {
      CloseReaches(View(), inTask);
      life := Closing(inTask);
      mutex := ByDestructor(Arrived, inTask);
      stop := joinable;
      Notify();
      mutex := Free;
    }

    /** Joins, or detaches when running on the worker itself; there is nothing to do if no
        worker was ever started. After joining, all tasks are done. */
    method JoinOrLeave()
      requires Reachable(View()) && life.Closing? && !mutex.ByDestructor?
      requires !joinable || life.inTask || worker.Exited?
      modifies this`joinable, this`life
      ensures View() == Apply(old(View()), JoinOrDetach) && Reachable(View())
      ensures !old(life).inTask ==> |fulfilled| == submitted
    {
      NextReachable(View(), JoinOrDetach);
      ghost var after := Apply(View(), JoinOrDetach);
      if !life.inTask {
        JoinedMeansDrained(after);
      }
      if joinable {
        joinable := false;
      }
      life := Closed(life.inTask);
    }

    /** The worker's first critical section: sleeps without a reason to be awake, takes the
        front task if there is one, ends otherwise. */
    method TakeTask() returns (taken: bool)
      requires Reachable(View()) && mutex.Free? && (worker.Idle? || worker.Woken?)
      modifies this
      ensures Reachable(View()) && View() == AfterCheck(old(View())) && (taken <==> old(tasks) != [])
    {
      CheckReaches(View());
      mutex := ByWorker;
      worker := Checking;
      taken := false;
      if !stop && tasks == [] {
        worker := Asleep;
      } else if stop && tasks == [] {
        worker := Exited;
      } else {
        var id := tasks[0].id;
        tasks := tasks[0 := Emptied(id)];
        begun := begun + [id];
        worker := Running(id);
        taken := true;
      }
      mutex := Free;
    }

    method RunTask(threw: bool)
      requires Reachable(View()) && worker.Running? && !Calling(View())
      modifies this`worker, this`ran
      ensures Reachable(View()) && View() == Apply(old(View()), FinishTask(threw))
    {
      NextReachable(View(), FinishTask(threw));
      ran := ran + [Outcome(worker.id, threw)];
      worker := Ran(worker.id, threw);
    }

    /** The second critical section removes the shell of the task that has just run. */
    method PopTask()
      requires Reachable(View()) && mutex.Free? && worker.Ran?
      modifies this
      ensures old(tasks) != [] && old(tasks)[0] == Emptied(old(worker).id)
      ensures Reachable(View()) && View() == AfterPop(old(View()))
    {
      PopReaches(View());
      mutex := ByWorker;
      worker := Popping(worker.id, worker.threw);
      removed := removed + [tasks[0]];
      tasks := tasks[1..];
      worker := Popped(worker.id, worker.threw);
      mutex := Free;
    }

    /** The task is destroyed first, its promise is set afterwards. */
    method Settle()
      requires Reachable(View()) && worker.Popped? && !Calling(View())
      modifies this`worker, this`destroyed, this`fulfilled
      ensures Reachable(View()) && View() == AfterSettle(old(View()))
    {
      SettleReaches(View());
      destroyed := destroyed + [worker.id];
      worker := Destroyed(worker.id, worker.threw);
      fulfilled := fulfilled + [Outcome(worker.id, worker.threw)];
      worker := Idle;
    }

    /** One task from its start to its promise, nobody else calling meanwhile. */
    method Process(threw: bool)
      requires Reachable(View()) && mutex.Free? && worker.Running? && !Calling(View())
      modifies this
      ensures Reachable(View()) && mutex.Free? && worker.Idle?
      ensures stop == old(stop) && life == old(life) && submitted == old(submitted)
      ensures fulfilled == old(fulfilled) + [Outcome(old(worker).id, threw)]
    {
      RunTask(threw);
      PopTask();
      Settle();
    }

    /** One round of the worker's loop after stop was requested, nobody else calling. */
    method Round(throws: nat -> bool) returns (going: bool)
      requires Reachable(View()) && mutex.Free? && stop && (worker.Idle? || worker.Woken?) && !Calling(View())
      modifies this
      ensures Reachable(View()) && mutex.Free? && !Calling(View())
      ensures stop && life == old(life) && submitted == old(submitted)
      ensures going ==> worker.Idle? && |old(fulfilled)| < submitted
      ensures !going ==> worker.Exited? && tasks == [] && |old(fulfilled)| == submitted
      ensures going ==> fulfilled == old(fulfilled) + [Outcome(|old(fulfilled)|, throws(|old(fulfilled)|))]
      ensures !going ==> fulfilled == old(fulfilled)
    {
      CheckReaches(View());
      going := TakeTask();
      if going {
        Process(throws(worker.id));
      }
    }

    /** The worker's loop once stop is requested and nobody else calls: it runs whatever is
        queued, in order, and only then ends. `throws` tells how each task will end. */
    method WorkUntilStopped(throws: nat -> bool)
      requires Reachable(View()) && mutex.Free? && stop && (worker.Idle? || worker.Woken?) && !Calling(View())
      modifies this
      ensures Reachable(View()) && worker.Exited? && tasks == [] && submitted == old(submitted)
      ensures fulfilled == old(fulfilled) + Outcomes(throws, |old(fulfilled)|, submitted)
    {
      var going := true;
      while going
        invariant Reachable(View()) && mutex.Free? && stop && !Calling(View())
        invariant submitted == old(submitted) && life == old(life)
        invariant if going then worker.Idle? || worker.Woken? else worker.Exited? && tasks == []
        invariant |old(fulfilled)| <= |fulfilled| && (!going ==> |fulfilled| == submitted)
        invariant fulfilled == old(fulfilled) + Outcomes(throws, |old(fulfilled)|, |fulfilled|)
        decreases going, submitted - |fulfilled|
      {
        going := Round(throws);
      }
    }
  }
}
