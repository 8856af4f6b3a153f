/** The callback thread as a transition system: any number of submitters, the destructor and
    one worker, interleaved at the granularity of their accesses to shared state. A step of
    `Step` is one such access; a run is any sequence of enabled steps. */
module CallbackProtocol {

  /** A queue entry: task and promise, or the empty shell left once both were moved out.
      The number is the position in submission order; the program does not store it. */
  datatype Entry = Full(id: nat) | Emptied(id: nat)

  datatype Outcome = Outcome(id: nat, threw: bool)

  /** Where the worker thread is in its loop. */
  datatype Worker =
    | NotStarted
    | Idle // top of the loop, about to lock the mutex
    | Checking // holds the mutex, about to evaluate the wait predicate
    | Asleep // waits on the condition variable, mutex released
    | Woken // notified or woken spuriously, about to lock the mutex again
    | Running(id: nat)
    | Ran(id: nat, threw: bool) // about to lock the mutex for the pop
    | Popping(id: nat, threw: bool) // holds the mutex
    | Popped(id: nat, threw: bool) // about to destroy the task, or destroying it
    | Destroyed(id: nat, threw: bool) // about to set the promise
    | Exited

  datatype SubmitStage = Entered | Emplaced | Launched | Notified

  datatype DestroyStage = Arrived | Requested | Announced

  /** Who holds the mutex, and how far inside its critical section. `inTask` tells a call made
      on the worker thread itself, by the running task or while the task is destroyed. */
  datatype Mutex =
    | Free
    | ByWorker
    | BySubmit(submitStage: SubmitStage, inTask: bool)
    | ByDestructor(destroyStage: DestroyStage, inTask: bool)

  datatype Life = Alive | Closing(inTask: bool) | Closed(inTask: bool)

  datatype State = State(
    tasks: seq<Entry>,
    mutex: Mutex,
    joinable: bool,
    stop: bool,
    life: Life,
    worker: Worker,
    // history: what happened so far
    submitted: nat,
    workers: nat,
    begun: seq<nat>,
    ran: seq<Outcome>,
    removed: seq<Entry>,
    destroyed: seq<nat>,
    fulfilled: seq<Outcome>)

  datatype Step =
    | BeginSubmit(inTask: bool)
    | Emplace
    | Launch
    | NotifyFromSubmit
    | EndSubmit
    | BeginDestroy(inTask: bool)
    | RequestStop
    | NotifyFromDestructor
    | UnlockDestructor
    | JoinOrDetach
    | SpuriousWake
    | LockForWait
    | Decide
    | FinishTask(threw: bool)
    | LockForPop
    | Pop
    | DestroyTask
    | Fulfil

  function Init(): State {
    State([], Free, false, false, Alive, NotStarted, 0, 0, [], [], [], [], [])
  }

  predicate WaitPredicate(s: State) {
    s.stop || s.tasks != []
  }

  /** The worker thread is inside user code: the task, or the destruction of its captures. */
  predicate InUserCode(s: State) {
    s.worker.Running? || s.worker.Popped?
  }

  /** That user code is itself inside a call on the callback thread. */
  predicate Calling(s: State) {
    || (s.mutex.BySubmit? && s.mutex.inTask)
    || (s.life.Closing? && s.life.inTask)
  }

  /** The object may be used while it is alive; a destructor on another thread still waits for
      the worker, so until then a task may go on submitting. */
  predicate MaySubmit(s: State, inTask: bool) {
    if inTask then !s.life.Closed? && InUserCode(s) && !Calling(s) else s.life.Alive?
  }

  predicate Enabled(s: State, step: Step) {
    match step
    case BeginSubmit(inTask) => s.mutex.Free? && MaySubmit(s, inTask)
    case Emplace => s.mutex.BySubmit? && s.mutex.submitStage.Entered?
    case Launch => s.mutex.BySubmit? && s.mutex.submitStage.Emplaced?
    case NotifyFromSubmit => s.mutex.BySubmit? && s.mutex.submitStage.Launched?
    case EndSubmit => s.mutex.BySubmit? && s.mutex.submitStage.Notified?
    case BeginDestroy(inTask) => s.mutex.Free? && s.life.Alive? && (inTask ==> InUserCode(s))
    case RequestStop => s.mutex.ByDestructor? && s.mutex.destroyStage.Arrived?
    case NotifyFromDestructor => s.mutex.ByDestructor? && s.mutex.destroyStage.Requested?
    case UnlockDestructor => s.mutex.ByDestructor? && s.mutex.destroyStage.Announced?
    case JoinOrDetach =>
      s.life.Closing? && !s.mutex.ByDestructor? && (!s.joinable || s.life.inTask || s.worker.Exited?)
    case SpuriousWake => s.worker.Asleep?
    case LockForWait => s.mutex.Free? && (s.worker.Idle? || s.worker.Woken?)
    case Decide => s.worker.Checking?
    case FinishTask(_) => s.worker.Running? && !Calling(s)
    case LockForPop => s.mutex.Free? && s.worker.Ran?
    case Pop => s.worker.Popping?
    case DestroyTask => s.worker.Popped? && !Calling(s)
    case Fulfil => s.worker.Destroyed?
  }

  /** `notify_one` reaches the worker exactly when it sleeps. */
  function NotifyOne(worker: Worker): Worker {
    if worker.Asleep? then Woken else worker
  }

  /** What the worker does with the mutex held once its wait predicate is evaluated. */
  function AfterCheck(s: State): State {
    if !WaitPredicate(s) then s.(mutex := Free, worker := Asleep)
    else if s.tasks == [] then s.(mutex := Free, worker := Exited)
    else
      var id := s.tasks[0].id;
      s.(mutex := Free, worker := Running(id), tasks := s.tasks[0 := Emptied(id)], begun := s.begun + [id])
  }

  function Apply(s: State, step: Step): State
    requires Enabled(s, step)
  {
    match step
    case BeginSubmit(inTask) => s.(mutex := BySubmit(Entered, inTask))
    case Emplace =>
      s.(tasks := s.tasks + [Full(s.submitted)], submitted := s.submitted + 1,
         mutex := BySubmit(Emplaced, s.mutex.inTask))
    case Launch =>
      var t := s.(mutex := BySubmit(Launched, s.mutex.inTask));
      if s.joinable then t else t.(joinable := true, worker := Idle, workers := s.workers + 1)
    case NotifyFromSubmit => s.(worker := NotifyOne(s.worker), mutex := BySubmit(Notified, s.mutex.inTask))
    case EndSubmit => s.(mutex := Free)
    case BeginDestroy(inTask) => s.(mutex := ByDestructor(Arrived, inTask), life := Closing(inTask))
    case RequestStop => s.(stop := s.joinable, mutex := ByDestructor(Requested, s.mutex.inTask))
    case NotifyFromDestructor => s.(worker := NotifyOne(s.worker), mutex := ByDestructor(Announced, s.mutex.inTask))
    case UnlockDestructor => s.(mutex := Free)
    case JoinOrDetach => s.(joinable := false, life := Closed(s.life.inTask))
    case SpuriousWake => s.(worker := Woken)
    case LockForWait => s.(mutex := ByWorker, worker := Checking)
    case Decide => AfterCheck(s)
    case FinishTask(threw) =>
      s.(worker := Ran(s.worker.id, threw), ran := s.ran + [Outcome(s.worker.id, threw)])
    case LockForPop => s.(mutex := ByWorker, worker := Popping(s.worker.id, s.worker.threw))
    case Pop =>
      s.(mutex := Free, worker := Popped(s.worker.id, s.worker.threw),
         removed := s.removed + s.tasks[..if s.tasks == [] then 0 else 1],
         tasks := if s.tasks == [] then [] else s.tasks[1..])
    case DestroyTask =>
      s.(worker := Destroyed(s.worker.id, s.worker.threw), destroyed := s.destroyed + [s.worker.id])
    case Fulfil =>
      s.(worker := Idle, fulfilled := s.fulfilled + [Outcome(s.worker.id, s.worker.threw)])
  }

  /** A run of the protocol from s to t. */
  predicate Run(s: State, steps: seq<Step>, t: State)
    decreases |steps|
  {
    if steps == [] then s == t
    else Enabled(s, steps[0]) && Run(Apply(s, steps[0]), steps[1..], t)
  }

  ghost predicate Leads(s: State, t: State) {
    exists steps :: Run(s, steps, t)
  }

  ghost predicate Reachable(s: State) {
    Leads(Init(), s)
  }

  // ---- The invariant ----

  /** The five logs list the tasks in submission order. */
  ghost predicate InOrder(s: State) {
    && (forall i :: 0 <= i < |s.begun| ==> s.begun[i] == i)
    && (forall i :: 0 <= i < |s.ran| ==> s.ran[i].id == i)
    && (forall i :: 0 <= i < |s.removed| ==> s.removed[i] == Emptied(i))
    && (forall i :: 0 <= i < |s.destroyed| ==> s.destroyed[i] == i)
    && s.fulfilled <= s.ran
  }

  /** The queue holds the tasks not yet removed, of which those begun are empty shells. */
  ghost predicate QueueIs(s: State) {
    Queued(s.tasks, |s.removed|, |s.begun|, s.submitted)
  }

  ghost predicate Queued(tasks: seq<Entry>, removed: nat, begun: nat, submitted: nat) {
    && |tasks| + removed == submitted && begun <= submitted
    && forall j :: 0 <= j < |tasks| ==> tasks[j] == EntryAt(removed + j, begun)
  }

  function EntryAt(id: nat, begun: nat): Entry {
    if id < begun then Emptied(id) else Full(id)
  }

  /** How far the current task has come: every log has as many entries as the worker's place says. */
  ghost predicate Counted(s: State) {
    match s.worker
    case Running(id) => |s.begun| == id + 1 && |s.ran| == |s.removed| == |s.destroyed| == |s.fulfilled| == id
    case Ran(id, threw) => InPop(s, id, threw)
    case Popping(id, threw) => InPop(s, id, threw)
    case Popped(id, threw) =>
      |s.begun| == |s.ran| == |s.removed| == id + 1 && |s.destroyed| == |s.fulfilled| == id && s.ran[id].threw == threw
    case Destroyed(id, threw) =>
      |s.begun| == |s.ran| == |s.removed| == |s.destroyed| == id + 1 && |s.fulfilled| == id && s.ran[id].threw == threw
    case _ => |s.begun| == |s.ran| == |s.removed| == |s.destroyed| == |s.fulfilled|
  }

  ghost predicate InPop(s: State, id: nat, threw: bool) {
    |s.begun| == |s.ran| == id + 1 && |s.removed| == |s.destroyed| == |s.fulfilled| == id && s.ran[id].threw == threw
  }

  /** Mutex, thread handle and destructor agree with the threads' places. */
  ghost predicate Consistent(s: State) {
    HoldersAgree(s) && HandlesAgree(s)
  }

  ghost predicate HoldersAgree(s: State) {
    && (s.mutex.ByWorker? <==> s.worker.Checking? || s.worker.Popping?)
    && (Calling(s) ==> InUserCode(s))
    && (s.mutex.BySubmit? ==> s.life.Alive? || (s.mutex.inTask && s.life == Closing(false)))
    && (s.mutex.ByDestructor? ==> s.life == Closing(s.mutex.inTask))
  }

  ghost predicate HandlesAgree(s: State) {
    && (s.worker.NotStarted? <==> s.workers == 0) && s.workers <= 1
    && (s.joinable <==> s.workers == 1 && !s.life.Closed?)
    && (s.stop <==> s.workers == 1 && !s.life.Alive? && !(s.mutex.ByDestructor? && s.mutex.destroyStage.Arrived?))
    && (s.life == Closed(false) && s.workers == 1 ==> s.worker.Exited?)
  }

  /** Before the worker starts nothing was submitted, except inside the very first submission. */
  ghost predicate StartsInTime(s: State) {
    && (s.worker.NotStarted? && s.submitted > 0 ==> (s.mutex.BySubmit? && s.mutex.submitStage.Emplaced?))
    && (s.mutex.BySubmit? && !s.mutex.submitStage.Entered? ==> s.submitted > 0)
  }

  predicate AboutToNotify(s: State) {
    || (s.mutex.BySubmit? && (s.mutex.submitStage.Emplaced? || s.mutex.submitStage.Launched?))
    || (s.mutex.ByDestructor? && s.mutex.destroyStage.Requested?)
  }

  /** A sleeping worker that has a reason to be awake is about to be notified. */
  ghost predicate NoLostWakeup(s: State) {
    s.worker.Asleep? && WaitPredicate(s) ==> AboutToNotify(s)
  }

  ghost predicate ExitsDrained(s: State) {
    s.worker.Exited? ==> (s.stop && s.tasks == [] && !s.mutex.BySubmit?)
  }

  ghost predicate Inv(s: State) {
    InOrder(s) && QueueIs(s) && Counted(s) && Consistent(s) && StartsInTime(s) && NoLostWakeup(s) && ExitsDrained(s)
  }

  lemma InvInit()
    ensures Inv(Init())
  {
  }

  lemma StepKeepsOrder(s: State, step: Step)
    requires Inv(s) && Enabled(s, step)
    ensures InOrder(Apply(s, step))
  {
  }

  lemma DecideKeepsCounts(s: State)
    requires Inv(s) && Enabled(s, Decide)
    ensures Counted(Apply(s, Decide))
  {
    if s.tasks != [] {
      assert s.tasks[0].id == |s.removed|;
    }
  }

  lemma PopKeepsCounts(s: State)
    requires Inv(s) && Enabled(s, Pop)
    ensures Counted(Apply(s, Pop))
  {
    assert |s.tasks| > 0 && |s.tasks[..1]| == 1;
  }

  lemma LogStepKeepsCounts(s: State, step: Step)
    requires Inv(s) && Enabled(s, step) && (step.FinishTask? || step.DestroyTask? || step.Fulfil?)
    ensures Counted(Apply(s, step))
  {
  }

  lemma StepKeepsCounts(s: State, step: Step)
    requires Inv(s) && Enabled(s, step)
    ensures Counted(Apply(s, step))
  {
    match step
    case Decide => DecideKeepsCounts(s);
    case Pop => PopKeepsCounts(s);
    case FinishTask(_) => LogStepKeepsCounts(s, step);
    case DestroyTask => LogStepKeepsCounts(s, step);
    case Fulfil => LogStepKeepsCounts(s, step);
    case _ =>
  }

  ghost predicate SameQueue(s: State, t: State) {
    s.tasks == t.tasks && |s.removed| == |t.removed| && |s.begun| == |t.begun| && s.submitted == t.submitted
  }

  lemma PopKeepsQueue(s: State)
    requires Inv(s) && Enabled(s, Pop)
    ensures QueueIs(Apply(s, Pop))
  {
    assert s.tasks != [] && s.tasks[..1] == [s.tasks[0]];
  }

  lemma StepKeepsQueue(s: State, step: Step)
    requires Inv(s) && Enabled(s, step)
    ensures QueueIs(Apply(s, step))
  {
    match step
    case Emplace =>
    case Decide =>
    case Pop => PopKeepsQueue(s);
    case _ => assert SameQueue(s, Apply(s, step));
  }

  lemma StepKeepsControl(s: State, step: Step)
    requires Inv(s) && Enabled(s, step)
    ensures Consistent(Apply(s, step))
  {
    StepKeepsHolders(s, step);
    StepKeepsHandles(s, step);
  }

  lemma StepKeepsHolders(s: State, step: Step)
    requires Inv(s) && Enabled(s, step)
    ensures HoldersAgree(Apply(s, step))
  {
  }

  lemma StepKeepsHandles(s: State, step: Step)
    requires Inv(s) && Enabled(s, step)
    ensures HandlesAgree(Apply(s, step))
  {
  }

  lemma StepKeepsStart(s: State, step: Step)
    requires Inv(s) && Enabled(s, step)
    ensures StartsInTime(Apply(s, step))
  {
  }

  lemma StepKeepsWakeups(s: State, step: Step)
    requires Inv(s) && Enabled(s, step)
    ensures NoLostWakeup(Apply(s, step)) && ExitsDrained(Apply(s, step))
  {
  }

  lemma StepKeepsInv(s: State, step: Step)
    requires Inv(s) && Enabled(s, step)
    ensures Inv(Apply(s, step))
  {
    StepKeepsOrder(s, step);
    StepKeepsCounts(s, step);
    StepKeepsQueue(s, step);
    StepKeepsControl(s, step);
    StepKeepsStart(s, step);
    StepKeepsWakeups(s, step);
  }

  lemma {:induction false} RunKeepsInv(s: State, steps: seq<Step>, t: State)
    requires Inv(s) && Run(s, steps, t)
    ensures Inv(t)
    decreases |steps|
  {
    if steps != [] {
      StepKeepsInv(s, steps[0]);
      RunKeepsInv(Apply(s, steps[0]), steps[1..], t);
    }
  }

  lemma ReachableInv(s: State)
    requires Reachable(s)
    ensures Inv(s)
  {
    var steps :| Run(Init(), steps, s);
    InvInit();
    RunKeepsInv(Init(), steps, s);
  }

  // ---- Safety over every run ----

  /** Each task is begun, run, popped and destroyed once, in submission order; there is never a
      second worker, and the entry popped is the shell of the task that just ran. */
  lemma ExactlyOnceInOrder(s: State)
    requires Reachable(s)
    ensures s.workers <= 1
    ensures s.submitted >= |s.begun| >= |s.ran| >= |s.removed| >= |s.destroyed| >= |s.fulfilled| >= |s.begun| - 1
    ensures forall i :: 0 <= i < |s.begun| ==> s.begun[i] == i
    ensures forall i :: 0 <= i < |s.ran| ==> s.ran[i].id == i
    ensures forall i :: 0 <= i < |s.removed| ==> s.removed[i] == Emptied(i)
    ensures forall i :: 0 <= i < |s.destroyed| ==> s.destroyed[i] == i
  {
    ReachableInv(s);
  }

  /** A promise that is set belongs to a task that has run, been popped and been destroyed, and
      says how that task ended. */
  lemma PromiseComesLast(s: State, i: nat)
    requires Reachable(s) && i < |s.fulfilled|
    ensures i < |s.ran| && i < |s.removed| && i < |s.destroyed|
    ensures s.fulfilled[i] == s.ran[i] && s.ran[i].id == i
    ensures s.removed[i] == Emptied(i) && s.destroyed[i] == i
  {
    ReachableInv(s);
  }

  ghost predicate LogsGrow(s: State, t: State) {
    && s.begun <= t.begun && s.ran <= t.ran && s.removed <= t.removed
    && s.destroyed <= t.destroyed && s.fulfilled <= t.fulfilled && s.submitted <= t.submitted
  }

  lemma StepOnlyAppends(s: State, step: Step)
    requires Enabled(s, step)
    ensures LogsGrow(s, Apply(s, step))
  {
  }

  /** What happened is never revised, so the order in which the logs grow is the order of events. */
  lemma {:induction false} RunsOnlyAppend(s: State, steps: seq<Step>, t: State)
    requires Run(s, steps, t)
    ensures s.begun <= t.begun && s.ran <= t.ran && s.removed <= t.removed
    ensures s.destroyed <= t.destroyed && s.fulfilled <= t.fulfilled && s.submitted <= t.submitted
    decreases |steps|
  {
    if steps != [] {
      StepOnlyAppends(s, steps[0]);
      RunsOnlyAppend(Apply(s, steps[0]), steps[1..], t);
    }
  }

  /** `isEmpty` holds exactly when everything submitted so far was popped, and then it has run;
      at most the last promise is still to be set. */
  lemma EmptyMeansAllRan(s: State)
    requires Reachable(s)
    ensures s.tasks == [] <==> |s.removed| == s.submitted
    ensures s.tasks == [] ==> |s.ran| == s.submitted && |s.fulfilled| >= s.submitted - 1
    ensures s.tasks == [] ==> (|s.fulfilled| == s.submitted <==> !s.worker.Popped? && !s.worker.Destroyed?)
    ensures InUserCode(s) && s.worker.Running? ==> s.tasks != []
  {
    ReachableInv(s);
  }

  lemma NoSleepThroughWork(s: State)
    requires Reachable(s) && s.worker.Asleep? && WaitPredicate(s)
    ensures !s.mutex.Free? && AboutToNotify(s)
  {
    ReachableInv(s);
  }

  /** A destructor that returns on another thread leaves no task behind. */
  lemma JoinedMeansDrained(s: State)
    requires Reachable(s) && s.life == Closed(false)
    ensures |s.fulfilled| == |s.destroyed| == |s.ran| == s.submitted && s.tasks == []
    ensures s.worker.Exited? || (s.worker.NotStarted? && s.submitted == 0)
  {
    ReachableInv(s);
  }

  // ---- Every run comes to rest, and at rest everything is done ----

  /** Steps that finish something already begun; the others are a client's decision,
      or a wake-up without a cause. */
  predicate Settles(step: Step) {
    !step.BeginSubmit? && !step.BeginDestroy? && !step.SpuriousWake?
  }

  /** No thread can go on, short of new calls and idle spurious wake-ups. */
  ghost predicate AtRest(s: State) {
    forall step :: Settles(step) ==> !Enabled(s, step)
  }

  function WorkerRank(s: State): nat {
    match s.worker
    case NotStarted => 0
    case Exited => 0
    case Asleep => if s.stop then 12 else 0
    case Idle => 11
    case Woken => 11
    case Checking => 10
    case Running(_) => 9
    case Ran(_, _) => 8
    case Popping(_, _) => 7
    case Popped(_, _) => 6
    case Destroyed(_, _) => 5
  }

  function MutexRank(s: State): nat {
    match s.mutex
    case Free => 0
    case ByWorker => 0
    case BySubmit(stage, _) => (
      match stage
      case Entered => 36
      case Emplaced => 25
      case Launched => 13
      case Notified => 1)
    case ByDestructor(stage, _) => (
      match stage
      case Arrived => 15
      case Requested => 2
      case Announced => 1)
  }

  /** Steps left, at most, if nobody makes a new call. */
  function Remaining(s: State): int {
    10 * (s.submitted - |s.fulfilled|) + WorkerRank(s) + MutexRank(s) + if s.life.Closing? then 1 else 0
  }

  predicate MakesProgress(s: State, step: Step) {
    Settles(step) || (step.SpuriousWake? && s.stop)
  }

  lemma RemainingIsNat(s: State)
    requires Inv(s)
    ensures Remaining(s) >= 0
  {
  }

  predicate OfWorker(step: Step) {
    || step.SpuriousWake? || step.LockForWait? || step.Decide? || step.FinishTask?
    || step.LockForPop? || step.Pop? || step.DestroyTask? || step.Fulfil?
  }

  lemma WorkerMakesProgress(s: State, step: Step)
    requires Inv(s) && Enabled(s, step) && MakesProgress(s, step) && OfWorker(step)
    ensures Remaining(Apply(s, step)) < Remaining(s)
  {
  }

  lemma CallerMakesProgress(s: State, step: Step)
    requires Inv(s) && Enabled(s, step) && MakesProgress(s, step) && !OfWorker(step)
    ensures Remaining(Apply(s, step)) < Remaining(s)
  {
  }

  lemma StepMakesProgress(s: State, step: Step)
    requires Inv(s) && Enabled(s, step) && MakesProgress(s, step)
    ensures Remaining(Apply(s, step)) < Remaining(s)
  {
    if OfWorker(step) {
      WorkerMakesProgress(s, step);
    } else {
      CallerMakesProgress(s, step);
    }
  }

  ghost predicate AllProgress(s: State, steps: seq<Step>) {
    forall k :: 0 <= k < |steps| ==> MakesProgress(s, steps[k])
  }

  /** Between two calls the threads take a bounded number of steps, at most ten for every promise
      still to be set; once stop is requested the bound covers spurious wake-ups as well. */
  lemma RunsAreBounded(s: State, steps: seq<Step>, t: State)
    requires Inv(s) && Run(s, steps, t)
    requires forall k :: 0 <= k < |steps| ==>
      !steps[k].BeginSubmit? && !steps[k].BeginDestroy? && (steps[k].SpuriousWake? ==> s.stop)
    ensures |steps| <= 10 * (s.submitted - |s.fulfilled|) + 49
  {
    assert AllProgress(s, steps);
    ProgressIsBounded(s, steps, t);
    assert Remaining(s) <= 10 * (s.submitted - |s.fulfilled|) + 49;
  }

  lemma {:induction false} ProgressIsBounded(s: State, steps: seq<Step>, t: State)
    requires Inv(s) && Run(s, steps, t) && AllProgress(s, steps)
    ensures |steps| + Remaining(t) <= Remaining(s) && Remaining(t) >= 0
    decreases |steps|
  {
    if steps == [] {
      RemainingIsNat(s);
    } else {
      var u := Apply(s, steps[0]);
      assert MakesProgress(s, steps[0]);
      StepMakesProgress(s, steps[0]);
      StepKeepsInv(s, steps[0]);
      assert AllProgress(u, steps[1..]) by {
        forall k | 0 <= k < |steps[1..]| ensures MakesProgress(u, steps[1..][k]) {
          assert steps[1..][k] == steps[k + 1] && MakesProgress(s, steps[k + 1]);
        }
      }
      ProgressIsBounded(u, steps[1..], t);
    }
  }

  lemma MutexFreeAtRest(s: State)
    requires Inv(s) && AtRest(s)
    ensures s.mutex.Free?
  {
    assert !Enabled(s, Emplace) && !Enabled(s, Launch) && !Enabled(s, NotifyFromSubmit) && !Enabled(s, EndSubmit);
    assert !Enabled(s, RequestStop) && !Enabled(s, NotifyFromDestructor) && !Enabled(s, UnlockDestructor);
    assert !Enabled(s, Decide) && !Enabled(s, Pop);
  }

  /** No deadlock: where nothing moves, every submitted task has run and its promise is set, and
      a destructor that began has returned with the worker gone. */
  lemma AtRestMeansDone(s: State)
    requires Inv(s) && AtRest(s)
    ensures |s.fulfilled| == |s.ran| == s.submitted && s.tasks == []
    ensures s.worker.NotStarted? || s.worker.Exited? || (s.worker.Asleep? && s.life.Alive?)
    ensures !s.life.Closing? && (s.life.Closed? && s.workers == 1 ==> s.worker.Exited?)
  {
    MutexFreeAtRest(s);
    assert !Enabled(s, LockForWait) && !Enabled(s, LockForPop) && !Enabled(s, Fulfil);
    assert !Enabled(s, FinishTask(false)) && !Enabled(s, DestroyTask) && !Enabled(s, JoinOrDetach);
  }

  lemma NotAtRest(s: State) returns (step: Step)
    requires Inv(s) && !AtRest(s)
    ensures Settles(step) && Enabled(s, step) && Inv(Apply(s, step))
    ensures Remaining(Apply(s, step)) < Remaining(s)
  {
    step :| Settles(step) && Enabled(s, step);
    StepMakesProgress(s, step);
    StepKeepsInv(s, step);
  }

  /** Every state can be brought to rest without further calls: the runs above do end. */
  lemma {:induction false} ComesToRest(s: State) returns (steps: seq<Step>, t: State)
    requires Inv(s)
    ensures Run(s, steps, t) && AtRest(t)
    ensures forall k :: 0 <= k < |steps| ==> Settles(steps[k])
    decreases Remaining(s)
  {
    RemainingIsNat(s);
    if AtRest(s) {
      steps, t := [], s;
    } else {
      var step := NotAtRest(s);
      var rest;
      rest, t := ComesToRest(Apply(s, step));
      steps := [step] + rest;
      assert steps[1..] == rest;
    }
  }

  /** Once the destructor has begun, whether joining, detaching or without a worker, every way
      of going on to the end runs all tasks, sets all promises and ends the worker. */
  lemma DestructionDrains(s: State, steps: seq<Step>, t: State)
    requires Reachable(s) && !s.life.Alive? && Run(s, steps, t) && AtRest(t)
    ensures |t.fulfilled| == |t.ran| == t.submitted && t.tasks == [] && t.life.Closed?
    ensures t.worker.Exited? || (t.worker.NotStarted? && t.submitted == 0)
    ensures s.submitted <= t.submitted
  {
    ReachableInv(s);
    RunKeepsInv(s, steps, t);
    AtRestMeansDone(t);
    RunsOnlyAppend(s, steps, t);
    StaysDestroyed(s, steps, t);
  }

  lemma {:induction false} StaysDestroyed(s: State, steps: seq<Step>, t: State)
    requires !s.life.Alive? && Run(s, steps, t)
    ensures !t.life.Alive?
    decreases |steps|
  {
    if steps != [] {
      StaysDestroyed(Apply(s, steps[0]), steps[1..], t);
    }
  }

  lemma {:induction false} RunAppend(s: State, steps: seq<Step>, t: State, step: Step)
    requires Run(s, steps, t) && Enabled(t, step)
    ensures Run(s, steps + [step], Apply(t, step))
    decreases |steps|
  {
    if steps == [] {
      assert ([step] + [])[1..] == [] && steps + [step] == [step];
    } else {
      RunAppend(Apply(s, steps[0]), steps[1..], t, step);
      assert (steps + [step])[1..] == steps[1..] + [step];
    }
  }

  lemma NextReachable(s: State, step: Step)
    requires Reachable(s) && Enabled(s, step)
    ensures Reachable(Apply(s, step))
  {
    var steps :| Run(Init(), steps, s);
    RunAppend(Init(), steps, s, step);
  }

  lemma OneSubmitted() returns (s: State)
    ensures Reachable(s)
    ensures s == Init().(tasks := [Full(0)], submitted := 1, joinable := true, worker := Idle, workers := 1)
  {
    assert Run(Init(), [], Init());
    s := Take(Init(), BeginSubmit(false));
    s := Take(s, Emplace);
    s := Take(s, Launch);
    s := Take(s, NotifyFromSubmit);
    s := Take(s, EndSubmit);
  }

  /** `isEmpty` may answer true before the last promise is set: the bound above is exact. */
  lemma EmptyBeforePromise() returns (s: State)
    ensures Reachable(s) && s.mutex.Free? && s.tasks == []
    ensures s.submitted == 1 && s.fulfilled == []
  {
    s := OneSubmitted();
    s := Take(s, LockForWait);
    s := Take(s, Decide);
    s := Take(s, FinishTask(false));
    s := Take(s, LockForPop);
    s := Take(s, Pop);
  }

  lemma Take(s: State, step: Step) returns (t: State)
    requires Reachable(s) && Enabled(s, step)
    ensures t == Apply(s, step) && Reachable(t)
  {
    NextReachable(s, step);
    t := Apply(s, step);
  }

  // ---- Critical sections as runs ----

  lemma {:induction false} RunJoin(s: State, first: seq<Step>, t: State, second: seq<Step>, u: State)
    requires Run(s, first, t) && Run(t, second, u)
    ensures Run(s, first + second, u)
    decreases |first|
  {
    if first == [] {
      assert first + second == second;
    } else {
      RunJoin(Apply(s, first[0]), first[1..], t, second, u);
      assert (first + second)[1..] == first[1..] + second;
    }
  }

  lemma LeadsOn(s: State, t: State, u: State)
    requires Leads(s, t) && Leads(t, u)
    ensures Leads(s, u)
  {
    var first :| Run(s, first, t);
    var second :| Run(t, second, u);
    RunJoin(s, first, t, second, u);
  }

  lemma LeadsByStep(s: State, t: State, step: Step) returns (u: State)
    requires Leads(s, t) && Enabled(t, step)
    ensures u == Apply(t, step) && Leads(s, u)
  {
    var steps :| Run(s, steps, t);
    RunAppend(s, steps, t, step);
    u := Apply(t, step);
  }

  lemma LeadsToItself(s: State)
    ensures Leads(s, s)
  {
    assert Run(s, [], s);
  }

  function AfterSubmit(s: State): State {
    s.(tasks := s.tasks + [Full(s.submitted)], submitted := s.submitted + 1, joinable := true,
       worker := if s.joinable then NotifyOne(s.worker) else Idle,
       workers := if s.joinable then s.workers else s.workers + 1)
  }

  function AfterClose(s: State, inTask: bool): State {
    s.(stop := s.joinable, life := Closing(inTask), worker := NotifyOne(s.worker))
  }

  function AfterPop(s: State): State
    requires s.worker.Ran? && s.tasks != []
  {
    s.(tasks := s.tasks[1..], removed := s.removed + [s.tasks[0]], worker := Popped(s.worker.id, s.worker.threw))
  }

  function AfterSettle(s: State): State
    requires s.worker.Popped?
  {
    s.(worker := Idle, destroyed := s.destroyed + [s.worker.id],
       fulfilled := s.fulfilled + [Outcome(s.worker.id, s.worker.threw)])
  }

  lemma SubmitIsRun(s: State, inTask: bool)
    requires Enabled(s, BeginSubmit(inTask))
    ensures Leads(s, AfterSubmit(s))
  {
    LeadsToItself(s);
    var t := LeadsByStep(s, s, BeginSubmit(inTask));
    t := LeadsByStep(s, t, Emplace);
    t := LeadsByStep(s, t, Launch);
    t := LeadsByStep(s, t, NotifyFromSubmit);
    t := LeadsByStep(s, t, EndSubmit);
  }

  lemma CloseIsRun(s: State, inTask: bool)
    requires Enabled(s, BeginDestroy(inTask))
    ensures Leads(s, AfterClose(s, inTask))
  {
    LeadsToItself(s);
    var t := LeadsByStep(s, s, BeginDestroy(inTask));
    t := LeadsByStep(s, t, RequestStop);
    t := LeadsByStep(s, t, NotifyFromDestructor);
    t := LeadsByStep(s, t, UnlockDestructor);
  }

  lemma CheckIsRun(s: State)
    requires Reachable(s) && Enabled(s, LockForWait)
    ensures Leads(s, AfterCheck(s))
    ensures s.tasks != [] ==> s.tasks[0] == Full(|s.fulfilled|)
    ensures |s.fulfilled| + |s.tasks| == s.submitted
  {
    ReachableInv(s);
    LeadsToItself(s);
    var t := LeadsByStep(s, s, LockForWait);
    t := LeadsByStep(s, t, Decide);
  }

  lemma PopIsRun(s: State)
    requires Reachable(s) && Enabled(s, LockForPop)
    ensures s.tasks != [] && s.tasks[0] == Emptied(s.worker.id)
    ensures Leads(s, AfterPop(s))
  {
    ReachableInv(s);
    assert s.tasks != [] && s.tasks[..1] == [s.tasks[0]];
    LeadsToItself(s);
    var t := LeadsByStep(s, s, LockForPop);
    t := LeadsByStep(s, t, Pop);
  }

  lemma SettleIsRun(s: State)
    requires Enabled(s, DestroyTask)
    ensures Leads(s, AfterSettle(s))
  {
    LeadsToItself(s);
    var t := LeadsByStep(s, s, DestroyTask);
    t := LeadsByStep(s, t, Fulfil);
  }

  lemma SubmitReaches(s: State, inTask: bool)
    requires Reachable(s) && Enabled(s, BeginSubmit(inTask))
    ensures Reachable(AfterSubmit(s))
  {
    SubmitIsRun(s, inTask);
    LeadsOn(Init(), s, AfterSubmit(s));
  }

  lemma CloseReaches(s: State, inTask: bool)
    requires Reachable(s) && Enabled(s, BeginDestroy(inTask))
    ensures Reachable(AfterClose(s, inTask))
  {
    CloseIsRun(s, inTask);
    LeadsOn(Init(), s, AfterClose(s, inTask));
  }

  lemma CheckReaches(s: State)
    requires Reachable(s) && Enabled(s, LockForWait)
    ensures Reachable(AfterCheck(s))
    ensures s.tasks != [] ==> s.tasks[0] == Full(|s.fulfilled|)
    ensures |s.fulfilled| + |s.tasks| == s.submitted
  {
    CheckIsRun(s);
    LeadsOn(Init(), s, AfterCheck(s));
  }

  lemma PopReaches(s: State)
    requires Reachable(s) && Enabled(s, LockForPop)
    ensures s.tasks != [] && s.tasks[0] == Emptied(s.worker.id)
    ensures Reachable(AfterPop(s))
  {
    PopIsRun(s);
    LeadsOn(Init(), s, AfterPop(s));
  }

  lemma SettleReaches(s: State)
    requires Reachable(s) && Enabled(s, DestroyTask)
    ensures Reachable(AfterSettle(s))
  {
    SettleIsRun(s);
    LeadsOn(Init(), s, AfterSettle(s));
  }

  // ---- The calls a program may make are always possible ----

  function Woke(worker: Worker): Worker {
    if worker.Asleep? then Woken else worker
  }

  /** While the object is alive and nobody holds the mutex, any thread can submit, however many
      tasks were submitted before and are still queued. */
  lemma CanSubmit(s: State) returns (t: State)
    requires Reachable(s) && s.mutex.Free? && s.life.Alive?
    ensures Reachable(t) && Leads(s, t)
    ensures t == s.(tasks := s.tasks + [Full(s.submitted)], submitted := s.submitted + 1, joinable := true,
                    workers := 1, worker := if s.joinable then Woke(s.worker) else Idle)
  {
    ReachableInv(s);
    t := AfterSubmit(s);
    SubmitIsRun(s, false);
    SubmitReaches(s, false);
  }

  /** So can a task that runs or is being destroyed, also while a destructor on another thread
      waits for the worker. */
  lemma TaskCanSubmit(s: State) returns (t: State)
    requires Reachable(s) && s.mutex.Free? && (s.worker.Running? || s.worker.Popped?)
    requires s.life.Alive? || s.life == Closing(false)
    ensures Reachable(t) && Leads(s, t)
    ensures t == s.(tasks := s.tasks + [Full(s.submitted)], submitted := s.submitted + 1)
  {
    ReachableInv(s);
    t := AfterSubmit(s);
    SubmitIsRun(s, true);
    SubmitReaches(s, true);
  }

  /** The destructor can begin over any queue, on another thread, */
  lemma CanClose(s: State) returns (t: State)
    requires Reachable(s) && s.mutex.Free? && s.life.Alive?
    ensures Reachable(t) && Leads(s, t)
    ensures t == s.(life := Closing(false), stop := s.joinable, worker := Woke(s.worker))
  {
    t := AfterClose(s, false);
    CloseIsRun(s, false);
    CloseReaches(s, false);
  }

  /** or by the running task, or by its destruction. */
  lemma TaskCanClose(s: State) returns (t: State)
    requires Reachable(s) && s.mutex.Free? && s.life.Alive? && (s.worker.Running? || s.worker.Popped?)
    ensures Reachable(t) && Leads(s, t)
    ensures t == s.(life := Closing(true), stop := s.joinable)
  {
    t := AfterClose(s, true);
    CloseIsRun(s, true);
    CloseReaches(s, true);
  }

  function Queue(n: nat): (tasks: seq<Entry>)
    ensures |tasks| == n && forall i :: 0 <= i < n ==> tasks[i] == Full(i)
  {
    seq(n, i requires 0 <= i => Full(i))
  }

  /** Any number of tasks can be queued before the first one begins, and then the destructor can. */
  lemma {:induction false} AnyNumberQueued(n: nat) returns (s: State, closed: State)
    ensures Reachable(s) && s.mutex.Free? && s.life.Alive?
    ensures s.submitted == n && s.tasks == Queue(n) && s.begun == []
    ensures Reachable(closed) && closed.mutex.Free? && closed.life == Closing(false)
    ensures closed.submitted == n && closed.tasks == Queue(n) && closed.begun == []
  {
    if n == 0 {
      LeadsToItself(Init());
      s := Init();
    } else {
      var before, _ := AnyNumberQueued(n - 1);
      s := CanSubmit(before);
    }
    closed := CanClose(s);
  }

  /** A task may end either way, once no call it made is under way. */
  lemma TaskEndsEitherWay(s: State, threw: bool) returns (step: Step, t: State)
    requires s.worker.Running? && !(s.mutex.BySubmit? && s.mutex.inTask) && s.life != Closing(true)
    ensures Run(s, [step], t)
    ensures t == s.(worker := Ran(s.worker.id, threw), ran := s.ran + [Outcome(s.worker.id, threw)])
  {
    step := FinishTask(threw);
    t := Apply(s, step);
    OneStep(s, step);
  }

  lemma OneStep(s: State, step: Step)
    requires Enabled(s, step)
    ensures Run(s, [step], Apply(s, step))
  {
    assert [step][1..] == [] && Run(Apply(s, step), [], Apply(s, step));
  }

  /** A sleeping worker may wake up at any time. */
  lemma SleeperMayWake(s: State) returns (step: Step, t: State)
    requires s.worker.Asleep?
    ensures Run(s, [step], t) && t == s.(worker := Woken)
  {
    step := SpuriousWake;
    t := Apply(s, step);
    OneStep(s, step);
  }

  /** The worker waits for nothing but the mutex, a notification, and calls its own task makes. */
  lemma WorkerGoesOn(s: State) returns (step: Step, t: State)
    requires !s.worker.NotStarted? && !s.worker.Asleep? && !s.worker.Exited?
    requires s.worker.Idle? || s.worker.Woken? || s.worker.Ran? ==> s.mutex.Free?
    requires s.worker.Running? || s.worker.Popped? ==>
      !(s.mutex.BySubmit? && s.mutex.inTask) && s.life != Closing(true)
    ensures Run(s, [step], t) && t.worker != s.worker
  {
    step := match s.worker
      case Checking => Decide
      case Running(_) => FinishTask(false)
      case Ran(_, _) => LockForPop
      case Popping(_, _) => Pop
      case Popped(_, _) => DestroyTask
      case Destroyed(_, _) => Fulfil
      case _ => LockForWait;
    t := Apply(s, step);
    OneStep(s, step);
  }

  /** Who holds the mutex waits for nothing. */
  lemma HolderGoesOn(s: State) returns (step: Step, t: State)
    requires Reachable(s) && !s.mutex.Free?
    ensures Run(s, [step], t) && t.mutex != s.mutex
  {
    ReachableInv(s);
    step := match s.mutex
      case BySubmit(stage, _) => (
        match stage
        case Entered => Emplace
        case Emplaced => Launch
        case Launched => NotifyFromSubmit
        case Notified => EndSubmit)
      case ByDestructor(stage, _) => (
        match stage
        case Arrived => RequestStop
        case Requested => NotifyFromDestructor
        case Announced => UnlockDestructor)
      case _ => if s.worker.Checking? then Decide else Pop;
    t := Apply(s, step);
    OneStep(s, step);
  }

  /** The destructor waits for the worker only, and not when it runs on the worker's thread. */
  lemma DestructorReturns(s: State) returns (step: Step, t: State)
    requires s.life.Closing? && !s.mutex.ByDestructor? && (!s.joinable || s.life.inTask || s.worker.Exited?)
    ensures Run(s, [step], t) && t == s.(joinable := false, life := Closed(s.life.inTask))
  {
    step := JoinOrDetach;
    t := Apply(s, step);
    OneStep(s, step);
  }

  /** The outcomes of tasks lo to hi - 1 when `throws` says which of them end in an exception. */
  function Outcomes(throws: nat -> bool, lo: nat, hi: nat): (r: seq<Outcome>)
    ensures |r| == if lo <= hi then hi - lo else 0
    ensures forall k :: 0 <= k < |r| ==> r[k] == Outcome(lo + k, throws(lo + k))
  {
    if lo <= hi then seq(hi - lo, k requires 0 <= k => Outcome(lo + k, throws(lo + k))) else []
  }
}
