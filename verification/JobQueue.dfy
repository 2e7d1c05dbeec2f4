/** weexion.cpp, DrainJobQueue and the callbacks beside it: promise jobs and asynchronous tasks.

    A state machine: the main thread runs scripts, jobs and the finish functions of tasks, any of
    which may enqueue jobs, start tasks and call DrainJobQueue again; helper threads finish tasks
    at any moment. Appending to a list may fail.
 */
module JobQueues {
  import opened Options

  /** What the innermost call of DrainJobQueue is doing. due are the tasks started before the call;
      todo those it took over and has not come to; current the one whose finish function runs. */
  datatype Call =
    | NoCall
    | Waiting(due: set<nat>)
    | Taking(due: set<nat>)
    | Delivering(due: set<nat>, todo: seq<nat>, current: Option<nat>)
    | Running(due: set<nat>, i: nat, inJob: bool)

  /** A call in one of whose finish functions DrainJobQueue was called again. */
  datatype Outer = Outer(due: set<nat>, todo: seq<nat>, current: nat)

  /** The asynchronous tasks: those of the ShellContext in the first line, then where tasks are that
      are not on its list, and all that were ever started. */
  datatype Tasks = Tasks(
    outstanding: nat, finished: seq<nat>,
    working: set<nat>, delivered: seq<nat>, lost: seq<nat>, started: set<nat>)

  /** The queue of jobs, and all that were ever enqueued and run. */
  datatype Jobs = Jobs(queue: seq<Option<nat>>, draining: bool, enqueued: seq<nat>, ran: seq<nat>)

  datatype State = State(tasks: Tasks, jobs: Jobs, outer: seq<Outer>, call: Call)

  const INITIAL := State(Tasks(0, [], {}, [], [], {}), Jobs([], false, [], []), [], NoCall)

  datatype Event =
    | Enqueue(job: nat, ok: bool)
    | StartTask(task: nat)
    | FinishTask(task: nat, ok: bool)
    | CallDrain
    | StopWaiting
    | TakeFinished
    | BeginFinish(task: nat)
    | EndFinish(task: nat)
    | BeginJobs
    | BeginJob(job: nat)
    | EndJob
    | Return

  /** Script code is running: outside any drain, in a task's finish function, or in a job. */
  predicate InScript(c: Call) {
    match c
    case NoCall => true
    case Delivering(_, _, current) => current.Some?
    case Running(_, _, inJob) => inJob
    case _ => false
  }

  /** ShellStartAsyncTaskCallback. */
  function Started(t: Tasks, task: nat): Tasks {
    t.(outstanding := t.outstanding + 1, working := t.working + {task}, started := t.started + {task})
  }

  /** ShellFinishAsyncTaskCallback, on a helper thread; ok tells whether the append succeeds. */
  function Finished(t: Tasks, task: nat, ok: bool): Tasks
    requires t.outstanding > 0
  {
    Tasks(t.outstanding - 1, if ok then t.finished + [task] else t.finished,
          t.working - {task}, t.delivered, if ok then t.lost else t.lost + [task], t.started)
  }

  /** Whether a step can happen. */
  predicate Enabled(s: State, e: Event) {
    var c := s.call;
    match e
    case Enqueue(_, _) => InScript(c)
    case StartTask(task) => InScript(c) && task !in s.tasks.started
    case FinishTask(task, _) => task in s.tasks.working && s.tasks.outstanding > 0
    case CallDrain => InScript(c)
    case StopWaiting => c.Waiting? && s.tasks.outstanding == 0
    case TakeFinished => c.Taking?
    case BeginFinish(task) => c.Delivering? && c.current.None? && c.todo != [] && c.todo[0] == task
    case EndFinish(task) => c.Delivering? && c.current == Some(task)
    case BeginJobs => c.Delivering? && c.current.None? && c.todo == []
    case BeginJob(job) => c.Running? && !c.inJob && c.i < |s.jobs.queue| && s.jobs.queue[c.i] == Some(job)
    case EndJob => c.Running? && c.inJob && c.i < |s.jobs.queue|
    case Return => c.Running? && !c.inJob && c.i >= |s.jobs.queue|
  }

  /** A step of the tasks. */
  function StepTasks(s: State, e: Event): Tasks
    requires Enabled(s, e)
  {
    match e
    case StartTask(task) => Started(s.tasks, task)
    case FinishTask(task, ok) => Finished(s.tasks, task, ok)
    case TakeFinished => s.tasks.(finished := [])
    case EndFinish(task) => s.tasks.(delivered := s.tasks.delivered + [task])
    case _ => s.tasks
  }

  /** A step of the jobs. */
  function StepJobs(s: State, e: Event): Jobs
    requires Enabled(s, e)
  {
    var j := s.jobs;
    match e
    case Enqueue(job, ok) =>
      // ShellEnqueuePromiseJobCallback
      if ok then j.(queue := j.queue + [Some(job)], enqueued := j.enqueued + [job]) else j
    case BeginJobs => j.(draining := true)
    case BeginJob(job) => j.(ran := j.ran + [job])
    case EndJob => j.(queue := j.queue[s.call.i := None])
    case Return => j.(queue := [], draining := false)
    case _ => j
  }

  /** The outer call goes on in the finish function. */
  function Resumed(o: Outer): Call {
    Delivering(o.due, o.todo, Some(o.current))
  }

  /** A step of the calls. A call in a job comes back at once. */
  function StepCall(s: State, e: Event): Call
    requires Enabled(s, e)
  {
    var c := s.call;
    match e
    case CallDrain => if s.jobs.draining then c else Waiting(s.tasks.started)
    case StopWaiting => Taking(c.due)
    case TakeFinished => Delivering(c.due, s.tasks.finished, None)
    case BeginFinish(task) => Delivering(c.due, c.todo[1..], Some(task))
    case EndFinish(_) => Delivering(c.due, c.todo, None)
    case BeginJobs => Running(c.due, 0, false)
    case BeginJob(_) => Running(c.due, c.i, true)
    case EndJob => Running(c.due, c.i + 1, false)
    case Return =>
      if s.outer == [] then NoCall
      else
        Resumed(s.outer[|s.outer| - 1])
    case _ => c
  }

  function StepOuter(s: State, e: Event): seq<Outer>
    requires Enabled(s, e)
  {
    match e
    case CallDrain =>
      if s.jobs.draining || !s.call.Delivering? then s.outer
      else s.outer + [Outer(s.call.due, s.call.todo, s.call.current.value)]
    case Return => if s.outer == [] then [] else s.outer[..|s.outer| - 1]
    case _ => s.outer
  }

  /** What happens in one step; None if it cannot happen now. */
  function Step(s: State, e: Event): Option<State> {
    if Enabled(s, e) then Some(State(StepTasks(s, e), StepJobs(s, e), StepOuter(s, e), StepCall(s, e))) else None
  }

  /** A whole run, from the start. */
  function Run(es: seq<Event>): Option<State> {
    if es == [] then Some(INITIAL)
    else
      match Run(es[..|es| - 1])
      case None => None
      case Some(s) => Step(s, es[|es| - 1])
  }

  // What a run shows from outside: what was enqueued, run, started, finished, begun, delivered and lost, in
  // the order of the events.

  function EnqueuedBy(es: seq<Event>): seq<nat> {
    if es == [] then []
    else EnqueuedBy(es[..|es| - 1]) + match es[|es| - 1] case Enqueue(job, ok) => (if ok then [job] else []) case _ => []
  }

  function RanBy(es: seq<Event>): seq<nat> {
    if es == [] then []
    else RanBy(es[..|es| - 1]) + match es[|es| - 1] case BeginJob(job) => [job] case _ => []
  }

  function StartedBy(es: seq<Event>): set<nat> {
    if es == [] then {}
    else StartedBy(es[..|es| - 1]) + match es[|es| - 1] case StartTask(task) => {task} case _ => {}
  }

  function FinishedBy(es: seq<Event>): seq<nat> {
    if es == [] then []
    else FinishedBy(es[..|es| - 1]) + match es[|es| - 1] case FinishTask(task, ok) => (if ok then [task] else []) case _ => []
  }

  function LostBy(es: seq<Event>): seq<nat> {
    if es == [] then []
    else LostBy(es[..|es| - 1]) + match es[|es| - 1] case FinishTask(task, ok) => (if ok then [] else [task]) case _ => []
  }

  function BegunBy(es: seq<Event>): seq<nat> {
    if es == [] then []
    else BegunBy(es[..|es| - 1]) + match es[|es| - 1] case BeginFinish(task) => [task] case _ => []
  }

  function DeliveredBy(es: seq<Event>): seq<nat> {
    if es == [] then []
    else DeliveredBy(es[..|es| - 1]) + match es[|es| - 1] case EndFinish(task) => [task] case _ => []
  }

  /** The state tells what the events were. */
  lemma Tallies(es: seq<Event>)
    requires Run(es).Some?
    ensures var s := Run(es).value;
            && s.jobs.enqueued == EnqueuedBy(es) && s.jobs.ran == RanBy(es)
            && s.tasks.started == StartedBy(es) && s.tasks.delivered == DeliveredBy(es) && s.tasks.lost == LostBy(es)
  {
    JobTallies(es);
    TaskTallies(es);
  }

  lemma {:induction false} JobTallies(es: seq<Event>)
    requires Run(es).Some?
    ensures Run(es).value.jobs.enqueued == EnqueuedBy(es) && Run(es).value.jobs.ran == RanBy(es)
  {
    hide StepTasks;
    hide StepOuter;
    if es != [] {
      JobTallies(es[..|es| - 1]);
    }
  }

  lemma {:induction false} TaskTallies(es: seq<Event>)
    requires Run(es).Some?
    ensures var t := Run(es).value.tasks;
            t.started == StartedBy(es) && t.delivered == DeliveredBy(es) && t.lost == LostBy(es)
  {
    hide StepJobs;
    hide StepOuter;
    if es != [] {
      TaskTallies(es[..|es| - 1]);
    }
  }

  /** The tasks a call has taken over and not delivered yet. */
  function Held(c: Call): multiset<nat> {
    if !c.Delivering? then multiset{}
    else if c.current.Some? then multiset{c.current.value} + multiset(c.todo)
    else multiset(c.todo)
  }

  function HeldOuter(outer: seq<Outer>): multiset<nat> {
    if outer == [] then multiset{}
    else
      var o := outer[|outer| - 1];
      HeldOuter(outer[..|outer| - 1]) + (multiset{o.current} + multiset(o.todo))
  }

  /** Every task that was started is in one place, once. */
  ghost predicate Accounted(t: Tasks, held: multiset<nat>) {
    && t.outstanding == |t.working|
    && multiset(t.started) == multiset(t.working) + multiset(t.finished) + held + multiset(t.delivered) + multiset(t.lost)
  }

  /** The flag says that jobs are being run, and nothing can be started once waiting is over. */
  ghost predicate FlagRight(draining: bool, c: Call, outstanding: nat) {
    (draining <==> c.Running?) && (c.Taking? ==> outstanding == 0)
  }

  /** Where the jobs begin that have not been run. */
  function FirstPending(c: Call): nat {
    if c.Running? then (if c.inJob then c.i + 1 else c.i) else 0
  }

  /** The jobs that ran, and then those that wait, are all that were enqueued, in that order. */
  ghost predicate JobsInOrder(j: Jobs, p: nat) {
    && p <= |j.queue| && |j.ran| + (|j.queue| - p) == |j.enqueued| && j.ran <= j.enqueued
    && forall k :: p <= k < |j.queue| ==> j.queue[k] == Some(j.enqueued[|j.ran| + k - p])
  }

  /** None of these tasks is still to be finished, or finished and not taken. */
  ghost predicate AllTaken(due: set<nat>, t: Tasks) {
    due <= t.started && forall x :: x in due ==> x !in t.working && x !in t.finished
  }

  /** A call that is past waiting has taken all the tasks that were started before it. */
  ghost predicate DueTaken(c: Call, outer: seq<Outer>, t: Tasks) {
    && (c.Waiting? || c.Taking? ==> c.due <= t.started)
    && (c.Delivering? || c.Running? ==> AllTaken(c.due, t))
    && forall k :: 0 <= k < |outer| ==> AllTaken(outer[k].due, t)
  }

  ghost predicate Inv(s: State) {
    && Accounted(s.tasks, HeldOuter(s.outer) + Held(s.call))
    && FlagRight(s.jobs.draining, s.call, s.tasks.outstanding)
    && JobsInOrder(s.jobs, FirstPending(s.call))
    && DueTaken(s.call, s.outer, s.tasks)
  }

  lemma KeepsFlag(s: State, e: Event)
    requires Enabled(s, e) && FlagRight(s.jobs.draining, s.call, s.tasks.outstanding)
    ensures FlagRight(StepJobs(s, e).draining, StepCall(s, e), StepTasks(s, e).outstanding)
  {
  }

  lemma KeepsOrder(s: State, e: Event)
    requires Enabled(s, e) && FlagRight(s.jobs.draining, s.call, s.tasks.outstanding)
    requires JobsInOrder(s.jobs, FirstPending(s.call))
    ensures JobsInOrder(StepJobs(s, e), FirstPending(StepCall(s, e)))
  {
    hide StepTasks;
    hide StepOuter;
  }

  lemma StillTaken(s: State, e: Event, due: set<nat>)
    requires Enabled(s, e) && AllTaken(due, s.tasks)
    ensures AllTaken(due, StepTasks(s, e))
  {
  }

  lemma KeepsDue(s: State, e: Event)
    requires Enabled(s, e) && FlagRight(s.jobs.draining, s.call, s.tasks.outstanding)
    requires s.tasks.outstanding == |s.tasks.working| && DueTaken(s.call, s.outer, s.tasks)
    ensures DueTaken(StepCall(s, e), StepOuter(s, e), StepTasks(s, e))
  {
    hide StepJobs;
    forall k | 0 <= k < |s.outer| ensures AllTaken(s.outer[k].due, StepTasks(s, e)) {
      StillTaken(s, e, s.outer[k].due);
    }
    if s.call.Delivering? || s.call.Running? {
      StillTaken(s, e, s.call.due);
      hide AllTaken;
      hide StepTasks;
    } else if e.TakeFinished? {
      assert s.tasks.working == {};
    }
  }

  lemma HeldPush(outer: seq<Outer>, o: Outer)
    ensures HeldOuter(outer + [o]) == HeldOuter(outer) + Held(Resumed(o))
  {
    assert (outer + [o])[..|outer|] == outer;
  }

  lemma HeldPop(outer: seq<Outer>)
    requires outer != []
    ensures HeldOuter(outer) == HeldOuter(outer[..|outer| - 1]) + Held(Resumed(outer[|outer| - 1]))
  {
  }

  lemma NothingHeld(h: multiset<nat>)
    ensures h + multiset{} == h && multiset{} + h == h
  {
  }

  /** A nested call, and the return from it, move what the outer call holds back and forth. */
  lemma CallHeld(s: State)
    requires Enabled(s, CallDrain) && FlagRight(s.jobs.draining, s.call, s.tasks.outstanding)
    ensures HeldOuter(StepOuter(s, CallDrain)) + Held(StepCall(s, CallDrain)) == HeldOuter(s.outer) + Held(s.call)
  {
    hide HeldOuter;
    hide StepTasks;
    hide StepJobs;
    if s.call.Delivering? {
      HeldPush(s.outer, Outer(s.call.due, s.call.todo, s.call.current.value));
      NothingHeld(HeldOuter(s.outer) + Held(s.call));
    }
  }

  lemma ReturnHeld(s: State)
    requires Enabled(s, Return)
    ensures HeldOuter(StepOuter(s, Return)) + Held(StepCall(s, Return)) == HeldOuter(s.outer) + Held(s.call)
  {
    hide HeldOuter;
    hide StepTasks;
    hide StepJobs;
    NothingHeld(HeldOuter(s.outer));
    if s.outer != [] {
      HeldPop(s.outer);
    }
  }

  lemma KeepsHeld(s: State, e: Event)
    requires Enabled(s, e) && !e.CallDrain? && !e.Return? && !e.TakeFinished? && !e.EndFinish?
    ensures StepOuter(s, e) == s.outer && Held(StepCall(s, e)) == Held(s.call)
  {
    if e.BeginFinish? {
      assert s.call.todo == [s.call.todo[0]] + s.call.todo[1..];
    }
  }

  lemma KeepsTasks(s: State, e: Event)
    requires Enabled(s, e) && FlagRight(s.jobs.draining, s.call, s.tasks.outstanding)
    requires Accounted(s.tasks, HeldOuter(s.outer) + Held(s.call))
    ensures Accounted(StepTasks(s, e), HeldOuter(StepOuter(s, e)) + Held(StepCall(s, e)))
  {
    hide HeldOuter;
    hide StepJobs;
    hide Accounted;
    if e.TakeFinished? {
      TakeAccounted(s.tasks, HeldOuter(s.outer));
    } else if e.EndFinish? {
      DeliverAccounted(s.tasks, HeldOuter(s.outer), e.task, s.call.todo);
    } else {
      if e.CallDrain? {
        CallHeld(s);
      } else if e.Return? {
        ReturnHeld(s);
      } else {
        KeepsHeld(s, e);
      }
      hide Held;
      hide StepCall;
      hide StepOuter;
      match e
      case StartTask(task) =>
        StartAccounted(s.tasks, task, HeldOuter(s.outer) + Held(s.call));
      case FinishTask(task, ok) =>
        FinishAccounted(s.tasks, task, ok, HeldOuter(s.outer) + Held(s.call));
      case _ =>
    }
  }

  lemma TakeAccounted(t: Tasks, h: multiset<nat>)
    requires Accounted(t, h + multiset{})
    ensures Accounted(t.(finished := []), h + multiset(t.finished))
  {
  }

  lemma DeliverAccounted(t: Tasks, h: multiset<nat>, x: nat, todo: seq<nat>)
    requires Accounted(t, h + (multiset{x} + multiset(todo)))
    ensures Accounted(t.(delivered := t.delivered + [x]), h + multiset(todo))
  {
  }

  lemma StartAccounted(t: Tasks, task: nat, held: multiset<nat>)
    requires Accounted(t, held) && task !in t.started
    ensures Accounted(Started(t, task), held)
  {
    assert task !in t.working by {
      assert task in multiset(t.working) ==> task in multiset(t.started);
    }
    assert multiset(t.started + {task}) == multiset(t.started) + multiset{task};
    assert multiset(t.working + {task}) == multiset(t.working) + multiset{task};
  }

  lemma FinishAccounted(t: Tasks, task: nat, ok: bool, held: multiset<nat>)
    requires Accounted(t, held) && task in t.working && t.outstanding > 0
    ensures Accounted(Finished(t, task, ok), held)
  {
    assert multiset(t.working) == multiset(t.working - {task}) + multiset{task};
  }

  /** What holds in every state of every run. */
  lemma {:induction false} Always(es: seq<Event>)
    requires Run(es).Some?
    ensures Inv(Run(es).value)
  {
    if es != [] {
      Always(es[..|es| - 1]);
      var s, e := Run(es[..|es| - 1]).value, es[|es| - 1];
      hide Accounted;
      hide JobsInOrder;
      hide DueTaken;
      hide FlagRight;
      hide StepTasks;
      hide StepJobs;
      hide StepCall;
      hide StepOuter;
      KeepsTasks(s, e);
      KeepsFlag(s, e);
      KeepsOrder(s, e);
      KeepsDue(s, e);
    }
  }

  /** A drain is never stuck: some step of its own, or the end of a task that it waits for, can happen. */
  lemma Progress(es: seq<Event>) returns (e: Event)
    requires Run(es).Some? && !Run(es).value.call.NoCall?
    ensures Enabled(Run(es).value, e) && !e.Enqueue? && !e.StartTask? && !e.CallDrain?
  {
    Always(es);
    var s := Run(es).value;
    match s.call
    case Waiting(_) =>
      if s.tasks.outstanding == 0 {
        e := StopWaiting;
      } else {
        var task :| task in s.tasks.working;
        e := FinishTask(task, true);
      }
    case Taking(_) => e := TakeFinished;
    case Delivering(_, todo, current) =>
      e := if current.Some? then EndFinish(current.value) else if todo == [] then BeginJobs else BeginFinish(todo[0]);
    case Running(_, i, inJob) =>
      e := if inJob then EndJob else if i < |s.jobs.queue| then BeginJob(s.jobs.queue[i].value) else Return;
  }

  /** In how many places a task is. */
  ghost function Places(s: State, x: nat): nat {
    (if x in s.tasks.working then 1 else 0) + multiset(s.tasks.finished)[x] + (HeldOuter(s.outer) + Held(s.call))[x]
    + multiset(s.tasks.delivered)[x] + multiset(s.tasks.lost)[x]
  }

  /** A task that was started is outstanding, finished, being delivered, delivered or lost, but only
      one of these, and once: it is never delivered twice. */
  lemma OnePlace(es: seq<Event>, x: nat)
    requires Run(es).Some?
    ensures Places(Run(es).value, x) == if x in Run(es).value.tasks.started then 1 else 0
    ensures multiset(Run(es).value.tasks.delivered)[x] <= 1
  {
    Always(es);
    var t := Run(es).value.tasks;
    assert multiset(t.started)[x] == if x in t.started then 1 else 0;
    assert multiset(t.working)[x] == if x in t.working then 1 else 0;
  }

  /** The assertion in ShellFinishAsyncTaskCallback never fails. */
  lemma NeverUnderflows(es: seq<Event>, x: nat)
    requires Run(es).Some? && x in Run(es).value.tasks.working
    ensures Run(es).value.tasks.outstanding > 0
  {
    Always(es);
  }

  /** Jobs run in the order they were enqueued in, each once. */
  lemma JobsRunInOrder(es: seq<Event>)
    requires Run(es).Some?
    ensures RanBy(es) <= EnqueuedBy(es)
  {
    Always(es);
    Tallies(es);
  }

  /** The events before the drain that is going on, the outermost one if there are several; all events, if
      there is none. */
  function BeforeDrain(es: seq<Event>): seq<Event>
    requires Run(es).Some?
  {
    if Run(es).value.call.NoCall? then es
    else if Run(es[..|es| - 1]).value.call.NoCall? then es[..|es| - 1]
    else BeforeDrain(es[..|es| - 1])
  }

  /** What the outermost drain has to wait for. */
  function OutermostDue(s: State): set<nat>
    requires !s.call.NoCall?
  {
    if s.outer == [] then s.call.due else s.outer[0].due
  }

  lemma KeepsOutermost(s: State, e: Event)
    requires Enabled(s, e) && FlagRight(s.jobs.draining, s.call, s.tasks.outstanding)
    requires !s.call.NoCall? && !StepCall(s, e).NoCall?
    ensures OutermostDue(Step(s, e).value) == OutermostDue(s)
  {
  }

  /** It waits for what was started before it. */
  lemma {:induction false} DueIsStarted(es: seq<Event>)
    requires Run(es).Some? && !Run(es).value.call.NoCall?
    ensures OutermostDue(Run(es).value) == StartedBy(BeforeDrain(es))
  {
    var pre, e := es[..|es| - 1], es[|es| - 1];
    var s := Run(pre).value;
    if s.call.NoCall? {
      Tallies(pre);
      OutsideAlone(pre);
    } else {
      DueIsStarted(pre);
      Always(pre);
      KeepsOutermost(s, e);
    }
  }

  lemma {:induction false} OutsideAlone(es: seq<Event>)
    requires Run(es).Some? && Run(es).value.call.NoCall?
    ensures Run(es).value.outer == []
  {
    if es != [] {
      var pre := es[..|es| - 1];
      if Run(pre).value.call.NoCall? {
        OutsideAlone(pre);
      }
    }
  }

  /** When a drain has come to its end, all jobs have run that were enqueued by then, also the ones
      enqueued by jobs; the queue is empty and the flag is down. When it is the outermost one, all
      tasks that were started before it are delivered or lost. */
  lemma DrainCompletes(es: seq<Event>, s: State)
    requires Run(es) == Some(s) && Enabled(s, Return)
    ensures RanBy(es) == EnqueuedBy(es)
    ensures var t := Step(s, Return).value;
            && t.jobs.queue == [] && !t.jobs.draining && (s.outer == [] <==> t.call.NoCall?)
    ensures s.outer == [] ==> forall x :: x in StartedBy(BeforeDrain(es)) ==> x in DeliveredBy(es) || x in LostBy(es)
  {
    Always(es);
    Tallies(es);
    if s.outer == [] {
      DueIsStarted(es);
      forall x | x in s.call.due ensures x in s.tasks.delivered || x in s.tasks.lost {
        OnePlace(es, x);
        assert x !in s.tasks.working && x !in s.tasks.finished;
      }
    }
  }

  // ------------------------------------------------------------- order of delivery

  /** The tasks that have been finished and not begun: those of the outer calls, those of the innermost one,
      and those that no call has taken over. */
  function Pending(s: State): seq<nat> {
    PendingOuter(s.outer) + (if s.call.Delivering? then s.call.todo else []) + s.tasks.finished
  }

  function PendingOuter(outer: seq<Outer>): seq<nat> {
    if outer == [] then [] else PendingOuter(outer[..|outer| - 1]) + outer[|outer| - 1].todo
  }

  /** s without the element at i. */
  function Cut(s: seq<nat>, i: nat): seq<nat>
    requires i < |s|
  {
    s[..i] + s[i + 1..]
  }

  lemma PendingAround(outer: seq<Outer>, o: Outer)
    ensures PendingOuter(outer + [o]) == PendingOuter(outer) + o.todo
  {
    assert (outer + [o])[..|outer|] == outer;
  }

  lemma CallPending(s: State)
    requires Enabled(s, CallDrain)
    ensures Pending(Step(s, CallDrain).value) == Pending(s)
  {
    if s.call.Delivering? {
      PendingAround(s.outer, Outer(s.call.due, s.call.todo, s.call.current.value));
    }
    hide PendingOuter;
  }

  lemma ReturnPending(s: State)
    requires Enabled(s, Return)
    ensures Pending(Step(s, Return).value) == Pending(s)
  {
  }

  /** They wait in the order they were finished in. A step appends the one that it finishes; or it takes away
      the first one of the innermost call, when its finish function begins; or it leaves them as they are. */
  lemma PendingInOrder(s: State, e: Event)
    requires Enabled(s, e)
    ensures var t := Step(s, e).value;
            match e
            case FinishTask(task, ok) => Pending(t) == Pending(s) + if ok then [task] else []
            case BeginFinish(task) =>
              var i := |PendingOuter(s.outer)|;
              i < |Pending(s)| && Pending(s)[i] == task && Pending(t) == Cut(Pending(s), i)
            case _ => Pending(t) == Pending(s)
  {
    hide StepJobs;
    hide PendingOuter;
    match e
    case CallDrain => CallPending(s);
    case Return => ReturnPending(s);
    case _ =>
  }

  /** No drain has been called in the finish function of a task. */
  predicate Unnested(es: seq<Event>)
    requires Run(es).Some?
  {
    es == [] || (Unnested(es[..|es| - 1]) && Run(es).value.outer == [])
  }

  /** Then tasks are delivered in the order they were finished in. */
  lemma {:induction false} DeliveredInOrder(es: seq<Event>)
    requires Run(es).Some? && Unnested(es)
    ensures FinishedBy(es) == BegunBy(es) + Pending(Run(es).value) && BegunBy(es) <= FinishedBy(es)
    ensures DeliveredBy(es) <= BegunBy(es)
  {
    DeliveredAsBegun(es);
    if es != [] {
      var pre := es[..|es| - 1];
      DeliveredInOrder(pre);
      PendingInOrder(Run(pre).value, es[|es| - 1]);
      assert PendingOuter(Run(pre).value.outer) == [];
      hide Pending;
      hide Enabled;
      hide StepTasks;
      hide StepJobs;
      hide StepCall;
      hide StepOuter;
      hide DeliveredBy;
      Moves(FinishedBy(pre), BegunBy(pre), Pending(Run(pre).value), es[|es| - 1]);
    }
  }

  /** What a step does to f == b + p. */
  lemma Moves(f: seq<nat>, b: seq<nat>, p: seq<nat>, e: Event)
    requires f == b + p
    ensures e.FinishTask? ==> f + [e.task] == b + (p + [e.task]) && b <= f + [e.task]
    ensures e.BeginFinish? && p != [] && p[0] == e.task ==> f == (b + [e.task]) + Cut(p, 0) && b + [e.task] <= f
    ensures b <= f && f + [] == f && b + [] == b && p + [] == p
  {
    if e.BeginFinish? && p != [] && p[0] == e.task {
      assert p == [e.task] + Cut(p, 0);
    }
  }

  lemma {:induction false} DeliveredAsBegun(es: seq<Event>)
    requires Run(es).Some? && Unnested(es)
    ensures var c := Run(es).value.call;
            BegunBy(es) == DeliveredBy(es) + if c.Delivering? && c.current.Some? then [c.current.value] else []
  {
    if es != [] {
      DeliveredAsBegun(es[..|es| - 1]);
    }
  }

  /** How often appending a finished task failed. */
  function Failures(es: seq<Event>): nat {
    if es == [] then 0
    else Failures(es[..|es| - 1]) + if es[|es| - 1].FinishTask? && !es[|es| - 1].ok then 1 else 0
  }

  /** Tasks get lost exactly by such failures: their count has gone down already. */
  lemma {:induction false} LostByFailure(es: seq<Event>)
    requires Run(es).Some?
    ensures |Run(es).value.tasks.lost| == Failures(es) == |LostBy(es)|
  {
    if es != [] {
      LostByFailure(es[..|es| - 1]);
    }
  }

  /** So without one the outermost drain delivers every task that was started before it. */
  lemma AllDelivered(es: seq<Event>, s: State, x: nat)
    requires Run(es) == Some(s) && Enabled(s, Return) && s.outer == [] && x in StartedBy(BeforeDrain(es))
    ensures Failures(es) == 0 ==> x in DeliveredBy(es)
  {
    DrainCompletes(es, s);
    LostByFailure(es);
    Tallies(es);
  }

  /** One failure is enough to lose a task for good. */
  lemma LostForGood() returns (es: seq<Event>, s: State)
    ensures Run(es) == Some(s) && Enabled(s, Return) && s.outer == []
    ensures 7 in StartedBy(BeforeDrain(es)) && 7 !in DeliveredBy(es) && Failures(es) == 1
  {
    es, s := [], INITIAL;
    es, s := OneMore(es, s, StartTask(7));
    es, s := OneMore(es, s, FinishTask(7, false));
    es, s := OneMore(es, s, CallDrain);
    es, s := OneMore(es, s, StopWaiting);
    es, s := OneMore(es, s, TakeFinished);
    es, s := OneMore(es, s, BeginJobs);
    Tallies(es);
    DueIsStarted(es);
  }

  /** A job that enqueues another one, and calls for a drain: the call is ignored, and the other job runs in
      the same drain. Script that runs may do all that. */
  lemma LateJobRuns(x: nat, y: nat) returns (es: seq<Event>, s: State)
    ensures Run(es) == Some(s) && s.call.NoCall? && s.jobs.queue == []
    ensures EnqueuedBy(es) == RanBy(es) == [x, y]
  {
    hide EnqueuedBy;
    hide RanBy;
    es, s := JobsBegin(x);
    es, s := OneMore(es, s, BeginJob(x));
    es, s := OneMore(es, s, Enqueue(y, true));
    es, s := OneMore(es, s, CallDrain);
    es, s := OneMore(es, s, EndJob);
    es, s := LastJob(es, s, y);
    Tallies(es);
  }

  lemma JobsBegin(x: nat) returns (es: seq<Event>, s: State)
    ensures Run(es) == Some(s) && s.outer == [] && s.call == Running({}, 0, false)
    ensures s.jobs == Jobs([Some(x)], true, [x], [])
  {
    es, s := [], INITIAL;
    es, s := OneMore(es, s, Enqueue(x, true));
    es, s := OneMore(es, s, CallDrain);
    es, s := OneMore(es, s, StopWaiting);
    es, s := OneMore(es, s, TakeFinished);
    es, s := OneMore(es, s, BeginJobs);
  }

  lemma LastJob(before: seq<Event>, was: State, y: nat) returns (es: seq<Event>, s: State)
    requires Run(before) == Some(was) && was.outer == [] && was.call.Running? && !was.call.inJob
    requires |was.jobs.queue| == was.call.i + 1 && was.jobs.queue[was.call.i] == Some(y)
    ensures Run(es) == Some(s) && s.call.NoCall?
    ensures s.jobs == was.jobs.(queue := [], draining := false, ran := was.jobs.ran + [y])
  {
    es, s := OneMore(before, was, BeginJob(y));
    es, s := OneMore(es, s, EndJob);
    es, s := OneMore(es, s, Return);
  }

  lemma OneMore(es: seq<Event>, s: State, e: Event) returns (fs: seq<Event>, t: State)
    requires Run(es) == Some(s) && Enabled(s, e)
    ensures Run(fs) == Some(t) && Step(s, e) == Some(t)
    ensures Failures(fs) == Failures(es) + if e.FinishTask? && !e.ok then 1 else 0
  {
    fs, t := es + [e], Step(s, e).value;
    assert fs[..|es|] == es;
  }
}
