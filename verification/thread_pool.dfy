/** The thread pool: any number of threads calling `append` and the worker threads that `append`
  creates, as a state machine. Each locked section and each semaphore operation is one step. */
module ThreadPools {

  datatype Task = NullTask | Task(id: nat)

  datatype WorkerPc =
    | Top            // about to test stop_
    | Ready          // about to post free_thread_stat_
    | Waiting        // in task_queue_stat_.wait()
    | Woken          // has taken a permit and is about to pop
    | Running(task: Task)
    | Gone

  datatype AppenderPc =
    | Idle
    | Trying         // has pushed its task and is about to try free_thread_stat_
    | Checking       // found no free thread: about to compare created_thread_num_ with the cap
    | Creating       // about to create a thread
    | Counting       // has created a thread that created_thread_num_ does not count yet
    | Posting        // about to post task_queue_stat_

  /** What happened so far. `abandoned` counts the appends that left by an exception after their push,
      `uncounted` the threads whose creation ended so, `breaks` the appends that met the cap. */
  datatype History = History(appended: seq<Task>, popped: seq<Task>, breaks: nat, abandoned: nat, uncounted: nat)

  datatype Pool = Pool(maxThreads: int, maxTasks: int, queue: seq<Task>, taskSem: nat, freeSem: nat,
                       created: nat, stop: bool, workers: seq<WorkerPc>, appenders: seq<AppenderPc>,
                       history: History)

  datatype Creation = Started | NotCreated | NotDetached

  datatype Action =
    | Push(i: nat, task: Task)
    | TryFree(i: nat)
    | CheckCap(i: nat)
    | CreateThread(i: nat, outcome: Creation)
    | CountThread(i: nat)
    | PostTask(i: nat)
    | TestStop(j: nat)
    | PostFree(j: nat)
    | WaitTask(j: nat)
    | Pop(j: nat)
    | RunTask(j: nat)
    | Stop

  /// ## Steps

  predicate AppenderAt(s: Pool, i: nat, pc: AppenderPc) {
    i < |s.appenders| && s.appenders[i] == pc
  }

  predicate WorkerAt(s: Pool, j: nat, pc: WorkerPc) {
    j < |s.workers| && s.workers[j] == pc
  }

  predicate Enabled(s: Pool, a: Action) {
    match a
    case Push(i, _) => AppenderAt(s, i, Idle)
    case TryFree(i) => AppenderAt(s, i, Trying)
    case CheckCap(i) => AppenderAt(s, i, Checking)
    case CreateThread(i, _) => AppenderAt(s, i, Creating)
    case CountThread(i) => AppenderAt(s, i, Counting)
    case PostTask(i) => AppenderAt(s, i, Posting)
    case TestStop(j) => WorkerAt(s, j, Top)
    case PostFree(j) => WorkerAt(s, j, Ready)
    case WaitTask(j) => WorkerAt(s, j, Waiting) && s.taskSem > 0
    case Pop(j) => WorkerAt(s, j, Woken)
    case RunTask(j) => j < |s.workers| && s.workers[j].Running?
    case Stop => true
  }

  function At(s: Pool, i: nat, pc: AppenderPc): Pool
    requires i < |s.appenders|
  {
    s.(appenders := s.appenders[i := pc])
  }

  function WorkerTo(s: Pool, j: nat, pc: WorkerPc): Pool
    requires j < |s.workers|
  {
    s.(workers := s.workers[j := pc])
  }

  /** The locked section of `append`; a full queue makes it return false. */
  function DoPush(s: Pool, i: nat, task: Task): Pool
    requires i < |s.appenders|
  {
    if |s.queue| > s.maxTasks then s
    else At(s, i, Trying).(queue := s.queue + [task],
                           history := s.history.(appended := s.history.appended + [task]))
  }

  function DoCheck(s: Pool, i: nat): Pool
    requires i < |s.appenders|
  {
    if s.maxThreads > 0 && s.created >= s.maxThreads
    then At(s, i, Posting).(history := s.history.(breaks := s.history.breaks + 1))
    else At(s, i, Creating)
  }

  function DoCreate(s: Pool, i: nat, outcome: Creation): Pool
    requires i < |s.appenders|
  {
    match outcome
    case Started => At(s, i, Counting).(workers := s.workers + [Top])
    case NotCreated => At(s, i, Idle).(history := s.history.(abandoned := s.history.abandoned + 1))
    case NotDetached =>
      At(s, i, Idle).(workers := s.workers + [Top],
                      history := s.history.(abandoned := s.history.abandoned + 1,
                                            uncounted := s.history.uncounted + 1))
  }

  /** The locked section of `run`; a null task is dropped. */
  function DoPop(s: Pool, j: nat): Pool
    requires j < |s.workers|
  {
    if s.queue == [] then WorkerTo(s, j, Top)
    else
      var task := s.queue[0];
      WorkerTo(s, j, if task.NullTask? then Top else Running(task))
      .(queue := s.queue[1..], history := s.history.(popped := s.history.popped + [task]))
  }

  function Do(s: Pool, a: Action): Pool
    requires Enabled(s, a)
  {
    match a
    case Push(i, task) => DoPush(s, i, task)
    case TryFree(i) => if s.freeSem > 0 then At(s, i, Posting).(freeSem := s.freeSem - 1) else At(s, i, Checking)
    case CheckCap(i) => DoCheck(s, i)
    case CreateThread(i, outcome) => DoCreate(s, i, outcome)
    case CountThread(i) => At(s, i, Trying).(created := s.created + 1)
    case PostTask(i) => At(s, i, Idle).(taskSem := s.taskSem + 1)
    case TestStop(j) => WorkerTo(s, j, if s.stop then Gone else Ready)
    case PostFree(j) => WorkerTo(s, j, Waiting).(freeSem := s.freeSem + 1)
    case WaitTask(j) => WorkerTo(s, j, Woken).(taskSem := s.taskSem - 1)
    case Pop(j) => DoPop(s, j)
    case RunTask(j) => WorkerTo(s, j, Top)
    case Stop => s.(stop := true)
  }

  predicate Init(s: Pool) {
    && s.maxThreads >= 0 && s.maxTasks > 0
    && s.queue == [] && s.taskSem == 0 && s.freeSem == 0 && s.created == 0 && !s.stop && s.workers == []
    && (forall i :: 0 <= i < |s.appenders| ==> s.appenders[i] == Idle)
    && s.history == History([], [], 0, 0, 0)
  }

  /** A run of the pool, its threads interleaved in any way. */
  predicate Run(trace: seq<Pool>, actions: seq<Action>) {
    && |trace| == |actions| + 1 && Init(trace[0])
    && forall k :: 0 <= k < |actions| ==> Enabled(trace[k], actions[k]) && trace[k + 1] == Do(trace[k], actions[k])
  }

  /// ## Counting threads

  function Count<P(!new)>(s: seq<P>, f: P -> bool): nat {
    if s == [] then 0 else Count(s[..|s| - 1], f) + (if f(s[|s| - 1]) then 1 else 0)
  }

  lemma {:induction false} CountUpdate<P(!new)>(s: seq<P>, i: nat, x: P, f: P -> bool)
    requires i < |s|
    ensures Count(s[i := x], f) == Count(s, f) - (if f(s[i]) then 1 else 0) + (if f(x) then 1 else 0)
  {
    var front := s[..|s| - 1];
    if i == |s| - 1 {
      assert s[i := x][..i] == front;
    } else {
      CountUpdate(front, i, x, f);
      assert s[i := x][..|s| - 1] == front[i := x];
    }
  }

  lemma CountPush<P(!new)>(s: seq<P>, x: P, f: P -> bool)
    ensures Count(s + [x], f) == Count(s, f) + (if f(x) then 1 else 0)
  {
    assert (s + [x])[..|s|] == s;
  }

  lemma {:induction false} CountNone<P(!new)>(s: seq<P>, f: P -> bool)
    requires forall i :: 0 <= i < |s| ==> !f(s[i])
    ensures Count(s, f) == 0
  {
    if s != [] {
      CountNone(s[..|s| - 1], f);
    }
  }

  lemma {:induction false} CountLess<P(!new)>(s: seq<P>, f: P -> bool, g: P -> bool)
    requires forall p :: f(p) ==> g(p)
    ensures Count(s, f) <= Count(s, g) <= |s|
  {
    if s != [] {
      CountLess(s[..|s| - 1], f, g);
    }
  }

  /** A member that satisfies `g` and not `f` is counted by `g` alone. */
  lemma {:induction false} CountStrictlyLess<P(!new)>(s: seq<P>, i: nat, f: P -> bool, g: P -> bool)
    requires i < |s| && !f(s[i]) && g(s[i]) && forall p :: f(p) ==> g(p)
    ensures Count(s, f) < Count(s, g)
  {
    var front := s[..|s| - 1];
    if i < |s| - 1 {
      CountStrictlyLess(front, i, f, g);
    } else {
      CountLess(front, f, g);
    }
  }

  predicate IsWaiting(pc: WorkerPc) { pc.Waiting? }

  predicate IsWoken(pc: WorkerPc) { pc.Woken? }

  predicate IsPosting(pc: AppenderPc) { pc.Posting? }

  /** Its task is in the queue and not yet posted. */
  predicate IsBusy(pc: AppenderPc) { !pc.Idle? }

  /** Has passed the test of the cap for a thread that is not counted yet. */
  predicate IsStarting(pc: AppenderPc) { pc.Creating? || pc.Counting? }

  predicate IsCounting(pc: AppenderPc) { pc.Counting? }

  predicate OfAppender(a: Action) {
    a.Push? || a.TryFree? || a.CheckCap? || a.CreateThread? || a.CountThread? || a.PostTask?
  }

  /// ## The laws of the two semaphores

  /** Tasks leave in the order they came, and every queued task is posted, about to be posted,
      abandoned before its post, or claimed by a worker that is about to pop. */
  predicate Conserved(s: Pool) {
    && s.history.appended == s.history.popped + s.queue
    && |s.queue| == s.taskSem + Count(s.appenders, IsBusy) + s.history.abandoned + Count(s.workers, IsWoken)
  }

  /** Permits for tasks and permits for threads balance the waiting workers. */
  predicate Balanced(s: Pool) {
    && s.taskSem + s.freeSem + Count(s.appenders, IsPosting) == Count(s.workers, IsWaiting) + s.history.breaks
    && (s.history.breaks > 0 ==> 0 < s.maxThreads <= s.created)
  }

  predicate Sized(s: Pool) {
    && s.maxThreads >= 0 && s.maxTasks > 0 && |s.queue| <= s.maxTasks + 1
    && |s.workers| == s.created + Count(s.appenders, IsCounting) + s.history.uncounted
  }

  lemma PushConserves(s: Pool, i: nat, task: Task)
    requires Conserved(s) && AppenderAt(s, i, Idle)
    ensures Conserved(DoPush(s, i, task))
  {
    CountUpdate(s.appenders, i, Trying, IsBusy);
    assert s.history.popped + s.queue + [task] == s.history.popped + (s.queue + [task]);
  }

  lemma PopConserves(s: Pool, j: nat)
    requires Conserved(s) && WorkerAt(s, j, Woken)
    ensures s.queue != [] && Conserved(DoPop(s, j))
  {
    CountUpdate(s.workers, j, Top, IsWoken);
    assert s.queue != [];
    CountUpdate(s.workers, j, Running(s.queue[0]), IsWoken);
    assert s.history.popped + s.queue == s.history.popped + [s.queue[0]] + s.queue[1..];
  }

  lemma CreateConserves(s: Pool, i: nat, outcome: Creation)
    requires Conserved(s) && AppenderAt(s, i, Creating)
    ensures Conserved(DoCreate(s, i, outcome))
  {
    CountUpdate(s.appenders, i, if outcome.Started? then Counting else Idle, IsBusy);
    CountPush(s.workers, Top, IsWoken);
  }

  lemma AppenderConserves(s: Pool, a: Action)
    requires Conserved(s) && Enabled(s, a) && OfAppender(a)
    ensures Conserved(Do(s, a))
  {
    match a
    case Push(i, task) => PushConserves(s, i, task);
    case TryFree(i) => CountUpdate(s.appenders, i, if s.freeSem > 0 then Posting else Checking, IsBusy);
    case CheckCap(i) => CountUpdate(s.appenders, i, DoCheck(s, i).appenders[i], IsBusy);
    case CreateThread(i, outcome) => CreateConserves(s, i, outcome);
    case CountThread(i) => CountUpdate(s.appenders, i, Trying, IsBusy);
    case PostTask(i) => CountUpdate(s.appenders, i, Idle, IsBusy);
    case _ =>
  }

  lemma WorkerConserves(s: Pool, a: Action)
    requires Conserved(s) && Enabled(s, a) && !OfAppender(a)
    ensures Conserved(Do(s, a))
  {
    match a
    case TestStop(j) => CountUpdate(s.workers, j, if s.stop then Gone else Ready, IsWoken);
    case PostFree(j) => CountUpdate(s.workers, j, Waiting, IsWoken);
    case WaitTask(j) => CountUpdate(s.workers, j, Woken, IsWoken);
    case Pop(j) => PopConserves(s, j);
    case RunTask(j) => CountUpdate(s.workers, j, Top, IsWoken);
    case _ =>
  }

  lemma PopBalances(s: Pool, j: nat)
    requires Balanced(s) && WorkerAt(s, j, Woken)
    ensures Balanced(DoPop(s, j))
  {
    CountUpdate(s.workers, j, Top, IsWaiting);
    if s.queue != [] {
      CountUpdate(s.workers, j, Running(s.queue[0]), IsWaiting);
    }
  }

  lemma CreateBalances(s: Pool, i: nat, outcome: Creation)
    requires Balanced(s) && AppenderAt(s, i, Creating)
    ensures Balanced(DoCreate(s, i, outcome))
  {
    CountUpdate(s.appenders, i, if outcome.Started? then Counting else Idle, IsPosting);
    CountPush(s.workers, Top, IsWaiting);
  }

  lemma AppenderBalances(s: Pool, a: Action)
    requires Balanced(s) && Enabled(s, a) && OfAppender(a)
    ensures Balanced(Do(s, a))
  {
    match a
    case Push(i, _) => CountUpdate(s.appenders, i, Trying, IsPosting);
    case TryFree(i) => CountUpdate(s.appenders, i, if s.freeSem > 0 then Posting else Checking, IsPosting);
    case CheckCap(i) => CountUpdate(s.appenders, i, DoCheck(s, i).appenders[i], IsPosting);
    case CreateThread(i, outcome) => CreateBalances(s, i, outcome);
    case CountThread(i) => CountUpdate(s.appenders, i, Trying, IsPosting);
    case PostTask(i) => CountUpdate(s.appenders, i, Idle, IsPosting);
    case _ =>
  }

  lemma WorkerBalances(s: Pool, a: Action)
    requires Balanced(s) && Enabled(s, a) && !OfAppender(a)
    ensures Balanced(Do(s, a))
  {
    match a
    case TestStop(j) => CountUpdate(s.workers, j, if s.stop then Gone else Ready, IsWaiting);
    case PostFree(j) => CountUpdate(s.workers, j, Waiting, IsWaiting);
    case WaitTask(j) => CountUpdate(s.workers, j, Woken, IsWaiting);
    case Pop(j) => PopBalances(s, j);
    case RunTask(j) => CountUpdate(s.workers, j, Top, IsWaiting);
    case _ =>
  }

  lemma StepSizes(s: Pool, a: Action)
    requires Sized(s) && Enabled(s, a)
    ensures Sized(Do(s, a))
  {
    match a
    case Push(i, _) => CountUpdate(s.appenders, i, Trying, IsCounting);
    case TryFree(i) => CountUpdate(s.appenders, i, if s.freeSem > 0 then Posting else Checking, IsCounting);
    case CheckCap(i) => CountUpdate(s.appenders, i, DoCheck(s, i).appenders[i], IsCounting);
    case CreateThread(i, outcome) =>
      CountUpdate(s.appenders, i, if outcome.Started? then Counting else Idle, IsCounting);
    case CountThread(i) => CountUpdate(s.appenders, i, Trying, IsCounting);
    case PostTask(i) => CountUpdate(s.appenders, i, Idle, IsCounting);
    case _ =>
  }

  /** A worker leaves only when the pool is stopped. */
  predicate GoneOnlyIfStopped(s: Pool) {
    !s.stop ==> forall j :: 0 <= j < |s.workers| ==> !s.workers[j].Gone?
  }

  lemma StepGone(s: Pool, a: Action)
    requires GoneOnlyIfStopped(s) && Enabled(s, a)
    ensures GoneOnlyIfStopped(Do(s, a))
  {
  }

  /** Both semaphore laws, and the bounds, hold in every state of every run. */
  lemma {:induction false} RunKeepsLaws(trace: seq<Pool>, actions: seq<Action>, n: nat)
    requires Run(trace, actions) && n < |trace|
    ensures Conserved(trace[n]) && Balanced(trace[n]) && Sized(trace[n]) && GoneOnlyIfStopped(trace[n])
  {
    if n == 0 {
      CountNone(trace[0].appenders, IsBusy);
      CountNone(trace[0].appenders, IsPosting);
      CountNone(trace[0].appenders, IsCounting);
    } else {
      RunKeepsLaws(trace, actions, n - 1);
      if OfAppender(actions[n - 1]) {
        AppenderConserves(trace[n - 1], actions[n - 1]);
        AppenderBalances(trace[n - 1], actions[n - 1]);
      } else {
        WorkerConserves(trace[n - 1], actions[n - 1]);
        WorkerBalances(trace[n - 1], actions[n - 1]);
      }
      StepSizes(trace[n - 1], actions[n - 1]);
      StepGone(trace[n - 1], actions[n - 1]);
    }
  }

  /// ## What follows for every run

  /** A worker that has taken a task permit never finds the queue empty. */
  lemma PopFindsTask(trace: seq<Pool>, actions: seq<Action>, n: nat)
    requires Run(trace, actions) && n < |actions| && actions[n].Pop?
    ensures trace[n].queue != [] && trace[n + 1].history.popped == trace[n].history.popped + [trace[n].queue[0]]
  {
    RunKeepsLaws(trace, actions, n);
    PopConserves(trace[n], actions[n].j);
  }

  lemma {:induction false} HistoryGrows(trace: seq<Pool>, actions: seq<Action>, m: nat, n: nat)
    requires Run(trace, actions) && m <= n < |trace|
    ensures trace[m].history.appended <= trace[n].history.appended
    ensures trace[m].history.popped <= trace[n].history.popped
  {
    if m < n {
      HistoryGrows(trace, actions, m, n - 1);
      assert trace[n] == Do(trace[n - 1], actions[n - 1]);
    }
  }

  /** The k-th task popped is, at that time and ever after, the k-th task appended. */
  lemma PoppedInAppendOrder(trace: seq<Pool>, actions: seq<Action>, m: nat, n: nat, k: nat)
    requires Run(trace, actions) && m <= n < |trace| && k < |trace[m].history.popped|
    ensures k < |trace[n].history.appended| && trace[m].history.popped[k] == trace[n].history.appended[k]
  {
    RunKeepsLaws(trace, actions, m);
    HistoryGrows(trace, actions, m, n);
  }

  /** No worker can take a step. */
  predicate WorkersStuck(s: Pool) {
    forall j: nat :: j < |s.workers| ==>
      !Enabled(s, TestStop(j)) && !Enabled(s, PostFree(j)) && !Enabled(s, WaitTask(j)) && !Enabled(s, Pop(j))
      && !Enabled(s, RunTask(j))
  }

  lemma StuckIsWaiting(s: Pool, j: nat)
    requires WorkersStuck(s) && GoneOnlyIfStopped(s) && !s.stop && j < |s.workers|
    ensures s.workers[j] == Waiting && s.taskSem == 0
  {
    assert !Enabled(s, TestStop(j)) && !Enabled(s, PostFree(j)) && !Enabled(s, WaitTask(j)) && !Enabled(s, Pop(j))
        && !Enabled(s, RunTask(j));
  }

  /** No lost wake-up: in a pool that is not stopped, once every append has returned, none by an
      exception, the workers get stuck only when every appended task has been popped. */
  lemma QuietPoolIsEmpty(trace: seq<Pool>, actions: seq<Action>, n: nat)
    requires Run(trace, actions) && n < |trace|
    requires forall i :: 0 <= i < |trace[n].appenders| ==> trace[n].appenders[i] == Idle
    requires !trace[n].stop && trace[n].history.abandoned == 0 && WorkersStuck(trace[n])
    ensures trace[n].history.popped == trace[n].history.appended
  {
    var s := trace[n];
    RunKeepsLaws(trace, actions, n);
    CountNone(s.appenders, IsBusy);
    CountNone(s.appenders, IsPosting);
    CountNone(s.appenders, IsCounting);
    forall j | 0 <= j < |s.workers|
      ensures s.workers[j] == Waiting && s.taskSem == 0
    {
      StuckIsWaiting(s, j);
    }
    CountNone(s.workers, IsWoken);
    if s.workers == [] {
      CountNone(s.workers, IsWaiting);
    }
    assert s.taskSem == 0;
  }

  /** Until the cap forces a break, every posted task has a waiting worker of its own: the permits for
      tasks, those about to be posted and the free threads are together the waiting workers. No break
      is forced while the cap is not reached. */
  lemma WorkerForEveryTask(trace: seq<Pool>, actions: seq<Action>, n: nat)
    requires Run(trace, actions) && n < |trace| && trace[n].history.breaks == 0
    ensures trace[n].taskSem + Count(trace[n].appenders, IsPosting) + trace[n].freeSem
         == Count(trace[n].workers, IsWaiting)
  {
    RunKeepsLaws(trace, actions, n);
  }

  lemma BreaksOnlyAtCap(trace: seq<Pool>, actions: seq<Action>, n: nat)
    requires Run(trace, actions) && n < |trace|
    ensures trace[n].maxThreads == 0 || trace[n].created < trace[n].maxThreads ==> trace[n].history.breaks == 0
  {
    RunKeepsLaws(trace, actions, n);
  }

  /// ## The cap on threads

  predicate Capped(s: Pool, overlap: nat) {
    s.maxThreads > 0 ==> s.created + Count(s.appenders, IsStarting) < s.maxThreads + overlap
  }

  lemma CheckCaps(s: Pool, i: nat, overlap: nat)
    requires Capped(s, overlap) && AppenderAt(s, i, Checking) && Count(s.appenders, IsBusy) <= overlap
    ensures Capped(DoCheck(s, i), overlap)
  {
    CountUpdate(s.appenders, i, DoCheck(s, i).appenders[i], IsStarting);
    CountStrictlyLess(s.appenders, i, IsStarting, IsBusy);
  }

  lemma StepCaps(s: Pool, a: Action, overlap: nat)
    requires Capped(s, overlap) && Enabled(s, a) && Count(s.appenders, IsBusy) <= overlap
    ensures Capped(Do(s, a), overlap)
  {
    match a
    case Push(i, _) => CountUpdate(s.appenders, i, Trying, IsStarting);
    case TryFree(i) => CountUpdate(s.appenders, i, if s.freeSem > 0 then Posting else Checking, IsStarting);
    case CheckCap(i) => CheckCaps(s, i, overlap);
    case CreateThread(i, outcome) =>
      CountUpdate(s.appenders, i, if outcome.Started? then Counting else Idle, IsStarting);
    case CountThread(i) => CountUpdate(s.appenders, i, Trying, IsStarting);
    case PostTask(i) => CountUpdate(s.appenders, i, Idle, IsStarting);
    case _ =>
  }

  lemma {:induction false} RunCaps(trace: seq<Pool>, actions: seq<Action>, overlap: nat, n: nat)
    requires Run(trace, actions) && n < |trace| && overlap > 0
    requires forall k :: 0 <= k < n ==> Count(trace[k].appenders, IsBusy) <= overlap
    ensures Capped(trace[n], overlap) && trace[n].maxThreads == trace[0].maxThreads
  {
    if n == 0 {
      CountNone(trace[0].appenders, IsStarting);
    } else {
      RunCaps(trace, actions, overlap, n - 1);
      StepCaps(trace[n - 1], actions[n - 1], overlap);
    }
  }

  /** Never more than `overlap` appends are in progress at a time. */
  predicate Overlaps(trace: seq<Pool>, overlap: nat) {
    forall k :: 0 <= k < |trace| ==> Count(trace[k].appenders, IsBusy) <= overlap
  }

  /** With at most `overlap` appends at a time, at most `overlap - 1` threads above the cap are created,
      apart from those that are not counted because they could not be detached. */
  lemma ThreadCap(trace: seq<Pool>, actions: seq<Action>, overlap: nat)
    requires Run(trace, actions) && Overlaps(trace, overlap) && overlap > 0 && trace[0].maxThreads > 0
    ensures var end := trace[|actions|];
            |end.workers| <= trace[0].maxThreads + overlap - 1 + end.history.uncounted
  {
    var n := |actions|;
    RunCaps(trace, actions, overlap, n);
    RunKeepsLaws(trace, actions, n);
    CountLess(trace[n].appenders, IsCounting, IsStarting);
  }

  /// ## The bound is attained

  /** A run that has got to `s`. */
  predicate Reaches(trace: seq<Pool>, actions: seq<Action>, s: Pool) {
    Run(trace, actions) && trace[|actions|] == s
  }

  lemma Further(trace: seq<Pool>, actions: seq<Action>, s: Pool, a: Action)
    requires Reaches(trace, actions, s) && Enabled(s, a)
    ensures Reaches(trace + [Do(s, a)], actions + [a], Do(s, a))
    ensures (trace + [Do(s, a)])[0] == trace[0]
  {
    var more, steps := trace + [Do(s, a)], actions + [a];
    forall k | 0 <= k < |steps|
      ensures Enabled(more[k], steps[k]) && more[k + 1] == Do(more[k], steps[k])
    {
      assert more[k] == trace[k];
    }
  }

  /** A pool for `overlap` appends, in which no thread is free and all threads are detached. */
  predicate Crowd(s: Pool, cap: nat, overlap: nat) {
    && s.maxThreads == cap && s.maxTasks == overlap && |s.appenders| == overlap
    && s.freeSem == 0 && s.history.uncounted == 0
  }

  function Fresh(cap: nat, overlap: nat): Pool {
    Pool(cap, overlap, [], 0, 0, 0, false, [], seq(overlap, i => Idle), History([], [], 0, 0, 0))
  }

  /** The first `k` appends push their tasks. */
  lemma {:induction false} AllPush(cap: nat, overlap: nat, k: nat)
    returns (trace: seq<Pool>, actions: seq<Action>, s: Pool)
    requires cap > 0 && 0 < overlap && k <= overlap
    ensures Reaches(trace, actions, s) && trace[0] == Fresh(cap, overlap)
    ensures Crowd(s, cap, overlap) && s.workers == [] && s.created == 0 && |s.queue| == k
    ensures forall i :: 0 <= i < overlap ==> s.appenders[i] == if i < k then Trying else Idle
  {
    if k == 0 {
      s := Fresh(cap, overlap);
      trace, actions := [s], [];
    } else {
      trace, actions, s := AllPush(cap, overlap, k - 1);
      var a := Push(k - 1, NullTask);
      Further(trace, actions, s, a);
      trace, actions, s := trace + [Do(s, a)], actions + [a], Do(s, a);
    }
  }

  /** One append creates threads until one more would reach the cap. */
  lemma {:induction false} OneCreates(cap: nat, overlap: nat, c: nat)
    returns (trace: seq<Pool>, actions: seq<Action>, s: Pool)
    requires 0 < overlap && c < cap
    ensures Reaches(trace, actions, s) && trace[0] == Fresh(cap, overlap)
    ensures Crowd(s, cap, overlap) && |s.workers| == s.created == c
    ensures forall i :: 0 <= i < overlap ==> s.appenders[i] == Trying
  {
    if c == 0 {
      trace, actions, s := AllPush(cap, overlap, overlap);
    } else {
      trace, actions, s := OneCreates(cap, overlap, c - 1);
      trace, actions, s := Checked(trace, actions, s, cap, overlap, 0);
      trace, actions, s := Created(trace, actions, s, cap, overlap, 0);
      var a := CountThread(0);
      Further(trace, actions, s, a);
      trace, actions, s := trace + [Do(s, a)], actions + [a], Do(s, a);
    }
  }

  /** Append `i` finds no free thread and the cap not reached. */
  lemma Checked(trace: seq<Pool>, actions: seq<Action>, s: Pool, cap: nat, overlap: nat, i: nat)
    returns (trace': seq<Pool>, actions': seq<Action>, s': Pool)
    requires Reaches(trace, actions, s) && Crowd(s, cap, overlap) && s.created < cap
    requires AppenderAt(s, i, Trying)
    ensures Reaches(trace', actions', s') && trace'[0] == trace[0] && s' == At(s, i, Creating)
  {
    var a, b := TryFree(i), CheckCap(i);
    Further(trace, actions, s, a);
    var t := Do(s, a);
    Further(trace + [t], actions + [a], t, b);
    s' := Do(t, b);
    assert s'.appenders == s.appenders[i := Creating];
    trace', actions' := trace + [t] + [s'], actions + [a] + [b];
  }

  lemma Created(trace: seq<Pool>, actions: seq<Action>, s: Pool, cap: nat, overlap: nat, i: nat)
    returns (trace': seq<Pool>, actions': seq<Action>, s': Pool)
    requires Reaches(trace, actions, s) && Crowd(s, cap, overlap) && AppenderAt(s, i, Creating)
    ensures Reaches(trace', actions', s') && trace'[0] == trace[0]
    ensures s' == At(s, i, Counting).(workers := s.workers + [Top])
  {
    var a := CreateThread(i, Started);
    Further(trace, actions, s, a);
    trace', actions', s' := trace + [Do(s, a)], actions + [a], Do(s, a);
  }

  /** Below the cap by one, the first `k` appends all pass the test before any counts its thread. */
  lemma {:induction false} AllPass(cap: nat, overlap: nat, k: nat)
    returns (trace: seq<Pool>, actions: seq<Action>, s: Pool)
    requires cap > 0 && 0 < overlap && k <= overlap
    ensures Reaches(trace, actions, s) && trace[0] == Fresh(cap, overlap)
    ensures Crowd(s, cap, overlap) && |s.workers| == s.created == cap - 1
    ensures forall i :: 0 <= i < overlap ==> s.appenders[i] == if i < k then Creating else Trying
  {
    if k == 0 {
      trace, actions, s := OneCreates(cap, overlap, cap - 1);
    } else {
      trace, actions, s := AllPass(cap, overlap, k - 1);
      trace, actions, s := Checked(trace, actions, s, cap, overlap, k - 1);
    }
  }

  lemma {:induction false} AllCreate(cap: nat, overlap: nat, k: nat)
    returns (trace: seq<Pool>, actions: seq<Action>, s: Pool)
    requires cap > 0 && 0 < overlap && k <= overlap
    ensures Reaches(trace, actions, s) && trace[0] == Fresh(cap, overlap)
    ensures Crowd(s, cap, overlap) && |s.workers| == cap - 1 + k
    ensures forall i :: k <= i < overlap ==> s.appenders[i] == Creating
  {
    if k == 0 {
      trace, actions, s := AllPass(cap, overlap, overlap);
    } else {
      trace, actions, s := AllCreate(cap, overlap, k - 1);
      trace, actions, s := Created(trace, actions, s, cap, overlap, k - 1);
    }
  }

  /** For every cap and every number of overlapping appends there is a run that attains the bound. */
  lemma CapAttained(cap: nat, overlap: nat) returns (trace: seq<Pool>, actions: seq<Action>)
    requires cap > 0 && overlap > 0
    ensures Run(trace, actions) && Overlaps(trace, overlap) && trace[0].maxThreads == cap
    ensures trace[|actions|].history.uncounted == 0 && |trace[|actions|].workers| == cap + overlap - 1
  {
    var s;
    trace, actions, s := AllCreate(cap, overlap, overlap);
    forall k | 0 <= k < |trace|
      ensures Count(trace[k].appenders, IsBusy) <= overlap
    {
      SameAppenders(trace, actions, k);
      CountLess(trace[k].appenders, IsBusy, IsBusy);
    }
  }

  lemma {:induction false} SameAppenders(trace: seq<Pool>, actions: seq<Action>, k: nat)
    requires Run(trace, actions) && k < |trace|
    ensures |trace[k].appenders| == |trace[0].appenders|
  {
    if k > 0 {
      SameAppenders(trace, actions, k - 1);
      assert trace[k] == Do(trace[k - 1], actions[k - 1]);
    }
  }

  /** The run keeps its cap, as far as its threads are counted. */
  predicate KeepsCap(trace: seq<Pool>, actions: seq<Action>) {
    |trace| == |actions| + 1
    && |trace[|actions|].workers| <= trace[0].maxThreads + trace[|actions|].history.uncounted
  }

  /** For every cap: all runs with at most `overlap` appends at a time keep it if and only if appends
      do not overlap. */
  lemma CapKeptIff(cap: nat, overlap: nat)
    requires cap > 0
    ensures (forall trace: seq<Pool>, actions: seq<Action> ::
               Run(trace, actions) && Overlaps(trace, overlap) && trace[0].maxThreads == cap
               ==> KeepsCap(trace, actions))
       <==> overlap <= 1
  {
    if overlap <= 1 {
      forall trace: seq<Pool>, actions: seq<Action> |
        Run(trace, actions) && Overlaps(trace, overlap) && trace[0].maxThreads == cap
        ensures KeepsCap(trace, actions)
      {
        assert Overlaps(trace, 1);
        ThreadCap(trace, actions, 1);
      }
    } else {
      var trace, actions := CapAttained(cap, overlap);
      assert !KeepsCap(trace, actions);
    }
  }

  /// ## How long the queue gets

  /** The pool after `k` of the appends have pushed their tasks, with none of them going on. */
  function Pushed(maxTasks: nat, k: nat, n: nat): Pool
    requires k <= n
  {
    var tasks := seq(k, j => NullTask);
    Pool(0, maxTasks, tasks, 0, 0, 0, false, [], seq(n, j => if j < k then Trying else Idle),
         History(tasks, [], 0, 0, 0))
  }

  lemma PushNext(maxTasks: nat, k: nat, n: nat)
    requires k < n && k <= maxTasks
    ensures Enabled(Pushed(maxTasks, k, n), Push(k, NullTask))
    ensures Do(Pushed(maxTasks, k, n), Push(k, NullTask)) == Pushed(maxTasks, k + 1, n)
  {
    var s, t := Pushed(maxTasks, k, n), Pushed(maxTasks, k + 1, n);
    assert s.queue + [NullTask] == t.queue && s.history.appended + [NullTask] == t.history.appended;
    assert s.appenders[k := Trying] == t.appenders;
  }

  /** For every limit some run has one task more than the limit in the queue. */
  lemma LimitPassed(maxTasks: nat) returns (trace: seq<Pool>, actions: seq<Action>)
    requires maxTasks > 0
    ensures Run(trace, actions) && trace[0].maxTasks == maxTasks && |trace[|actions|].queue| == maxTasks + 1
  {
    var n := maxTasks + 1;
    trace := seq(n + 1, k requires 0 <= k <= n => Pushed(maxTasks, k, n));
    actions := seq(n, k requires 0 <= k < n => Push(k, NullTask));
    forall k | 0 <= k < n
      ensures Enabled(trace[k], actions[k]) && trace[k + 1] == Do(trace[k], actions[k])
    {
      PushNext(maxTasks, k, n);
    }
  }

  lemma {:induction false} SameLimit(trace: seq<Pool>, actions: seq<Action>, k: nat)
    requires Run(trace, actions) && k < |trace|
    ensures trace[k].maxTasks == trace[0].maxTasks
  {
    if k > 0 {
      SameLimit(trace, actions, k - 1);
      assert trace[k] == Do(trace[k - 1], actions[k - 1]);
    }
  }

  /** The queue never holds more than `b` tasks, in any run with this limit. */
  ghost predicate QueueWithin(maxTasks: nat, b: nat) {
    forall trace: seq<Pool>, actions: seq<Action> ::
      Run(trace, actions) && trace[0].maxTasks == maxTasks ==>
      forall k :: 0 <= k < |trace| ==> |trace[k].queue| <= b
  }

  /** The queue can grow past max_task_num_ by one task, and by no more. */
  lemma QueueWithinIff(maxTasks: nat, b: nat)
    requires maxTasks > 0
    ensures QueueWithin(maxTasks, b) <==> b > maxTasks
  {
    if b > maxTasks {
      forall trace: seq<Pool>, actions: seq<Action>, k: nat |
          Run(trace, actions) && trace[0].maxTasks == maxTasks && k < |trace|
        ensures |trace[k].queue| <= b
      {
        RunKeepsLaws(trace, actions, k);
        SameLimit(trace, actions, k);
      }
    } else {
      var trace, actions := LimitPassed(maxTasks);
      assert |trace[|actions|].queue| > b;
    }
  }
}
