/**
 The background job queue of bio.c.  There is one queue, lock, condition variable and worker thread for each
 type of job, and nothing is shared between types; this is the queue of one type.  Every step below is what
 one thread does between two points at which another thread can run.
 */
module Bio {

  type Job = nat

  /** A node of the list `bio_jobs[type]`; `id` stands for its address. */
  datatype Node = Node(id: nat, job: Job)

  type Thread = nat

  datatype Owner = Free | ByWorker | ByClient(thread: Thread)

  /** Where a thread is in `bioCreateBackgroundJob` or `bioPendingJobsOfType`. */
  datatype Client =
    | Idle
    | Submitting(job: Job)
    | Adding(job: Job)
    | Counting
    | Signalling
    | Leaving
    | Asking
    | Reading
    | Answering(val: int, seen: nat)
    | Answered(val: int, seen: nat)

  /** Where the worker is in `bioProcessBackgroundJobs`. */
  datatype Worker =
    | Starting
    | Top
    | Asleep
    | Waking
    | Holding(node: Node)
    | Working(node: Node)
    | Done(node: Node)
    | Deleting(node: Node)
    | Dropping

  /** `submitted` and `completed` are histories: nodes in the order they were linked, and jobs carried out. */
  datatype State = State(
    owner: Owner,
    jobs: seq<Node>,
    pending: int,
    worker: Worker,
    clients: map<Thread, Client>,
    submitted: seq<Node>,
    completed: seq<Node>)

  datatype Step =
    | Call(thread: Thread, job: Job)
    | Ask(thread: Thread)
    | Run(thread: Thread)
    | Work
    | Spurious

  predicate Init(s: State) {
    s == State(Free, [], 0, Starting, map[], [], [])
  }

  function At(s: State, t: Thread): Client {
    if t in s.clients then s.clients[t] else Idle
  }

  function Move(s: State, t: Thread, c: Client): State {
    s.(clients := s.clients[t := c])
  }

  /** `listDelNode`: the node is unlinked wherever it is. */
  function DelNode(jobs: seq<Node>, node: Node): seq<Node> {
    if jobs == [] then []
    else if jobs[0].id == node.id then jobs[1..]
    else [jobs[0]] + DelNode(jobs[1..], node)
  }

  function ClientStep(s: State, t: Thread): State {
    match At(s, t)
    case Idle => s
    case Submitting(job) =>
      if s.owner.Free? then Move(s, t, Adding(job)).(owner := ByClient(t)) else s
    case Adding(job) =>
      var node := Node(|s.submitted|, job);
      Move(s, t, Counting).(jobs := s.jobs + [node], submitted := s.submitted + [node])
    case Counting => Move(s, t, Signalling).(pending := s.pending + 1)
    case Signalling =>
      Move(s, t, Leaving).(worker := if s.worker.Asleep? then Waking else s.worker)
    case Leaving => Move(s, t, Idle).(owner := Free)
    case Asking =>
      if s.owner.Free? then Move(s, t, Reading).(owner := ByClient(t)) else s
    case Reading => Move(s, t, Answering(s.pending, |s.submitted|))
    case Answering(val, seen) => Move(s, t, Answered(val, seen)).(owner := Free)
    case Answered(_, _) => Move(s, t, Idle)
  }

  function WorkerStep(s: State): State {
    match s.worker
    case Starting => if s.owner.Free? then s.(worker := Top, owner := ByWorker) else s
    case Top =>
      if s.jobs == [] then s.(worker := Asleep, owner := Free) else s.(worker := Holding(s.jobs[0]))
    case Asleep => s
    case Waking => if s.owner.Free? then s.(worker := Top, owner := ByWorker) else s
    case Holding(node) => s.(worker := Working(node), owner := Free)
    case Working(node) => s.(worker := Done(node), completed := s.completed + [node])
    case Done(node) => if s.owner.Free? then s.(worker := Deleting(node), owner := ByWorker) else s
    case Deleting(node) => s.(worker := Dropping, jobs := DelNode(s.jobs, node))
    case Dropping => s.(worker := Top, pending := s.pending - 1)
  }

  /** A step that cannot be taken, such as locking a lock that is held, leaves the state as it is. */
  function Next(s: State, step: Step): State {
    match step
    case Call(t, job) => if At(s, t).Idle? then Move(s, t, Submitting(job)) else s
    case Ask(t) => if At(s, t).Idle? then Move(s, t, Asking) else s
    case Run(t) => ClientStep(s, t)
    case Work => WorkerStep(s)
    case Spurious => if s.worker.Asleep? then s.(worker := Waking) else s
  }

  function Execute(s: State, steps: seq<Step>): State {
    if steps == [] then s else Next(Execute(s, steps[..|steps| - 1]), steps[|steps| - 1])
  }

  // ---------- the invariant ----------

  predicate Inside(c: Client) {
    c.Adding? || c.Counting? || c.Signalling? || c.Leaving? || c.Reading? || c.Answering?
  }

  /** One holder at a time. */
  ghost predicate LockInv(s: State) {
    && (s.owner.ByWorker? <==> s.worker.Top? || s.worker.Holding? || s.worker.Deleting? || s.worker.Dropping?)
    && forall t: Thread :: Inside(At(s, t)) <==> s.owner == ByClient(t)
  }

  predicate InHand(w: Worker) {
    w.Holding? || w.Working? || w.Done? || w.Deleting?
  }

  /** The list is what was submitted and not yet removed, and the worker's node is its head. */
  ghost predicate QueueInv(s: State) {
    && |s.jobs| <= |s.submitted|
    && var r := |s.submitted| - |s.jobs|;
    && s.jobs == s.submitted[r..]
    && (forall i | 0 <= i < |s.submitted| :: s.submitted[i].id == i)
    && (InHand(s.worker) ==> s.jobs != [] && s.jobs[0] == s.worker.node)
    && s.completed == s.submitted[..r + if s.worker.Done? || s.worker.Deleting? then 1 else 0]
  }

  function MustCount(s: State): int {
    if s.owner.ByClient? && At(s, s.owner.thread).Counting? then 1 else 0
  }

  ghost predicate PendingInv(s: State) {
    s.pending == |s.jobs| + (if s.worker.Dropping? then 1 else 0) - MustCount(s)
  }

  /** A worker that sleeps over a job is about to be signalled. */
  ghost predicate WakeInv(s: State) {
    s.worker.Asleep? && s.jobs != [] ==>
      s.owner.ByClient? && (At(s, s.owner.thread).Counting? || At(s, s.owner.thread).Signalling?)
  }

  predicate Answer(c: Client) {
    c.Answering? || c.Answered?
  }

  /** Of the jobs submitted when a count was read, all but that many are completed. */
  ghost predicate AnswerInv(s: State) {
    forall t: Thread | Answer(At(s, t)) ::
      0 <= At(s, t).val <= At(s, t).seen && At(s, t).seen - At(s, t).val <= |s.completed|
  }

  ghost predicate Inv(s: State) {
    LockInv(s) && QueueInv(s) && PendingInv(s) && WakeInv(s) && AnswerInv(s)
  }

  lemma ClientKeepsLock(s: State, t: Thread)
    requires LockInv(s)
    ensures LockInv(ClientStep(s, t))
  {
    var u := ClientStep(s, t);
    forall x: Thread
      ensures Inside(At(u, x)) <==> u.owner == ByClient(x)
    {
      assert Inside(At(s, x)) <==> s.owner == ByClient(x);
      assert Inside(At(s, t)) <==> s.owner == ByClient(t);
    }
  }

  lemma AddKeepsQueue(s: State, t: Thread)
    requires QueueInv(s) && At(s, t).Adding?
    ensures QueueInv(ClientStep(s, t))
  {
    var u := ClientStep(s, t);
    var r := |s.submitted| - |s.jobs|;
    assert u.submitted[r..] == s.submitted[r..] + [u.submitted[|s.submitted|]];
  }

  lemma SameQueue(s: State, u: State)
    requires QueueInv(s) && u.jobs == s.jobs && u.submitted == s.submitted && u.completed == s.completed
    requires InHand(u.worker) ==> u.jobs != [] && u.jobs[0] == u.worker.node
    requires (u.worker.Done? || u.worker.Deleting?) == (s.worker.Done? || s.worker.Deleting?)
    ensures QueueInv(u)
  {
  }

  lemma HeadInHand(s: State)
    requires QueueInv(s)
    ensures InHand(s.worker) ==> s.jobs != [] && s.jobs[0] == s.worker.node
  {
  }

  lemma ClientKeepsQueue(s: State, t: Thread)
    requires QueueInv(s)
    ensures QueueInv(ClientStep(s, t))
  {
    hide QueueInv;
    if At(s, t).Adding? {
      AddKeepsQueue(s, t);
    } else {
      HeadInHand(s);
      SameQueue(s, ClientStep(s, t));
    }
  }

  lemma ClientKeepsCounts(s: State, t: Thread)
    requires LockInv(s) && PendingInv(s) && WakeInv(s)
    ensures PendingInv(ClientStep(s, t)) && WakeInv(ClientStep(s, t))
  {
    assert Inside(At(s, t)) <==> s.owner == ByClient(t);
  }

  lemma ClientKeepsAnswers(s: State, t: Thread)
    requires LockInv(s) && QueueInv(s) && PendingInv(s) && AnswerInv(s)
    ensures AnswerInv(ClientStep(s, t))
  {
    var u := ClientStep(s, t);
    assert Inside(At(s, t)) <==> s.owner == ByClient(t);
    forall x: Thread | Answer(At(u, x))
      ensures 0 <= At(u, x).val <= At(u, x).seen && At(u, x).seen - At(u, x).val <= |u.completed|
    {
      assert x != t ==> At(u, x) == At(s, x);
    }
  }

  lemma WorkKeepsQueue(s: State)
    requires QueueInv(s) && s.worker.Working?
    ensures QueueInv(WorkerStep(s))
  {
    var r := |s.submitted| - |s.jobs|;
    assert s.submitted[..r + 1] == s.submitted[..r] + [s.submitted[r]];
  }

  lemma DeleteKeepsQueue(s: State)
    requires QueueInv(s) && s.worker.Deleting?
    ensures QueueInv(WorkerStep(s))
  {
    var r := |s.submitted| - |s.jobs|;
    assert s.submitted[r..][1..] == s.submitted[r + 1..];
  }

  lemma OtherKeepsQueue(s: State)
    requires QueueInv(s) && !s.worker.Working? && !s.worker.Deleting?
    ensures QueueInv(WorkerStep(s))
  {
    hide QueueInv;
    HeadInHand(s);
    SameQueue(s, WorkerStep(s));
  }

  lemma WorkerKeepsQueue(s: State)
    requires QueueInv(s)
    ensures QueueInv(WorkerStep(s))
  {
    hide QueueInv, WorkerStep;
    if s.worker.Working? {
      WorkKeepsQueue(s);
    } else if s.worker.Deleting? {
      DeleteKeepsQueue(s);
    } else {
      OtherKeepsQueue(s);
    }
  }

  lemma WorkerKeepsRest(s: State)
    requires Inv(s)
    ensures var u := WorkerStep(s); LockInv(u) && PendingInv(u) && WakeInv(u) && AnswerInv(u)
  {
    var u := WorkerStep(s);
    assert forall x: Thread :: At(u, x) == At(s, x);
  }

  /** Entering a call, or waking without a signal. */
  lemma OtherKeepsInv(s: State, step: Step)
    requires Inv(s) && (step.Call? || step.Ask? || step.Spurious?)
    ensures Inv(Next(s, step))
  {
    hide QueueInv;
    var u := Next(s, step);
    HeadInHand(s);
    SameQueue(s, u);
    if !step.Spurious? {
      assert At(s, step.thread).Idle? ==> s.owner != ByClient(step.thread);
    }
    forall x: Thread
      ensures Inside(At(u, x)) == Inside(At(s, x)) && (Answer(At(u, x)) ==> At(u, x) == At(s, x))
      ensures Inside(At(s, x)) ==> At(u, x) == At(s, x)
    {
    }
  }

  lemma StepKeepsInv(s: State, step: Step)
    requires Inv(s)
    ensures Inv(Next(s, step))
  {
    match step
    case Run(t) =>
      hide LockInv, QueueInv, PendingInv, WakeInv, AnswerInv, ClientStep;
      ClientKeepsLock(s, t);
      ClientKeepsQueue(s, t);
      ClientKeepsCounts(s, t);
      ClientKeepsAnswers(s, t);
    case Work =>
      hide LockInv, QueueInv, PendingInv, WakeInv, AnswerInv, WorkerStep;
      WorkerKeepsQueue(s);
      WorkerKeepsRest(s);
    case _ =>
      hide Inv;
      OtherKeepsInv(s, step);
  }

  lemma {:induction false} RunInv(s: State, steps: seq<Step>)
    requires Init(s)
    ensures Inv(Execute(s, steps))
  {
    hide Inv, Next;
    if steps == [] {
      InitInv(s);
    } else {
      RunInv(s, steps[..|steps| - 1]);
      StepKeepsInv(Execute(s, steps[..|steps| - 1]), steps[|steps| - 1]);
    }
  }

  lemma InitInv(s: State)
    requires Init(s)
    ensures Inv(s)
  {
  }

  // ---------- what callers rely on ----------

  /** In every run, jobs complete in the order of their submission, none twice and none left out. */
  lemma CompletedInOrder(s: State, steps: seq<Step>)
    requires Init(s)
    ensures var u := Execute(s, steps);
            && u.completed <= u.submitted
            && forall i, j | 0 <= i < j < |u.completed| :: u.completed[i].id != u.completed[j].id
  {
    hide Execute;
    RunInv(s, steps);
  }

  /** In every run, whenever the lock is free the counter is the length of the queue. */
  lemma CounterWhenFree(s: State, steps: seq<Step>)
    requires Init(s)
    ensures var u := Execute(s, steps);
            u.owner.Free? ==> u.pending == |u.jobs|
  {
    hide Execute;
    RunInv(s, steps);
  }

  /** In every run, a thread that was told 0 can rely on the jobs submitted before it was told. */
  lemma ZeroMeansCompleted(s: State, steps: seq<Step>, t: Thread)
    requires Init(s)
    ensures var u := Execute(s, steps);
            var c := At(u, t);
            c.Answered? && c.val == 0 ==> c.seen <= |u.completed|
  {
    hide Execute;
    RunInv(s, steps);
  }

  /** In every run, whatever number a thread was told, all but so many of the jobs submitted by then are completed. */
  lemma AnswerMeans(s: State, steps: seq<Step>, t: Thread)
    requires Init(s)
    ensures var u := Execute(s, steps);
            var c := At(u, t);
            c.Answered? ==> 0 <= c.val <= c.seen && c.seen - c.val <= |u.completed|
  {
    hide Execute;
    RunInv(s, steps);
  }

  /** In every run, the number read is that of the jobs not completed, and one more if a completed one is still listed. */
  lemma CountRead(s: State, steps: seq<Step>, t: Thread)
    requires Init(s) && At(Execute(s, steps), t).Reading?
    ensures var u := Execute(s, steps);
            At(Next(u, Run(t)), t) ==
              Answering(|u.submitted| - |u.completed| + (if u.worker.Done? then 1 else 0), |u.submitted|)
  {
    hide Execute;
    RunInv(s, steps);
    var u := Execute(s, steps);
    assert Inside(At(u, t)) <==> u.owner == ByClient(t);
  }

  /** In every run, the worker does not sleep over a job once the lock is free. */
  lemma NoLostWakeup(s: State, steps: seq<Step>)
    requires Init(s)
    ensures var u := Execute(s, steps);
            u.owner.Free? && u.worker.Asleep? ==> u.jobs == [] && u.completed == u.submitted
  {
    hide Execute;
    RunInv(s, steps);
  }

  // ---------- progress ----------

  /** `n` steps of the worker. */
  function Worked(s: State, n: nat): State
    decreases n
  {
    if n == 0 then s else Worked(WorkerStep(s), n - 1)
  }

  function Rank(w: Worker): nat {
    match w
    case Starting => 7
    case Top => 6
    case Asleep => 0
    case Waking => 7
    case Holding(_) => 5
    case Working(_) => 4
    case Done(_) => 3
    case Deleting(_) => 2
    case Dropping => 8
  }

  function Measure(s: State): nat {
    10 * |s.jobs| + Rank(s.worker)
  }

  lemma WorkerAdvances(s: State)
    requires Inv(s) && !s.owner.ByClient? && s.completed != s.submitted
    ensures var u := WorkerStep(s);
            Measure(u) < Measure(s) && !u.owner.ByClient? && u.submitted == s.submitted
  {
  }

  /** Once no client holds the lock, steps of the worker alone complete every job that was submitted. */
  lemma {:induction false} WorkerFinishes(s: State) returns (n: nat)
    requires Inv(s) && !s.owner.ByClient?
    ensures Worked(s, n).completed == s.submitted
    decreases Measure(s)
  {
    hide Inv, WorkerStep, Measure;
    if s.completed == s.submitted {
      n := 0;
    } else {
      WorkerAdvances(s);
      NextIsWork(s);
      StepKeepsInv(s, Work);
      var rest := WorkerFinishes(WorkerStep(s));
      n := rest + 1;
    }
  }

  lemma NextIsWork(s: State)
    ensures Next(s, Work) == WorkerStep(s)
  {
  }

  /** `n` steps of a thread. */
  function Ran(s: State, t: Thread, n: nat): State {
    if n == 0 then s else ClientStep(Ran(s, t, n - 1), t)
  }

  /** A call that finds the lock free queues its job, counts it, wakes the worker and returns. */
  lemma CallSubmits(s: State, t: Thread, job: Job)
    requires Inv(s) && s.owner.Free? && At(s, t).Idle?
    ensures var u, node := Ran(Next(s, Call(t, job)), t, 5), Node(|s.submitted|, job);
            && u.submitted == s.submitted + [node] && u.jobs == s.jobs + [node] && u.pending == s.pending + 1
            && u.owner.Free? && At(u, t).Idle? && !u.worker.Asleep? && u.completed == s.completed && Inv(u)
  {
    hide Inv;
    var s0 := Next(s, Call(t, job));
    StepKeepsInv(s, Call(t, job));
    var s1 := OneMore(s0, s0, t, 0);
    var s2 := OneMore(s0, s1, t, 1);
    var s3 := OneMore(s0, s2, t, 2);
    var s4 := OneMore(s0, s3, t, 3);
    var s5 := OneMore(s0, s4, t, 4);
  }

  lemma OneMore(s: State, u: State, t: Thread, n: nat) returns (w: State)
    requires Inv(u) && Ran(s, t, n) == u
    ensures w == ClientStep(u, t) == Ran(s, t, n + 1) && Inv(w)
  {
    hide Inv, ClientStep;
    w := Next(u, Run(t));
    StepKeepsInv(u, Run(t));
  }

  /** Then the worker alone carries it out, after those before it. */
  lemma CallCompletes(s: State, t: Thread, job: Job) returns (n: nat)
    requires Inv(s) && s.owner.Free? && At(s, t).Idle?
    ensures Worked(Ran(Next(s, Call(t, job)), t, 5), n).completed == s.submitted + [Node(|s.submitted|, job)]
  {
    hide Inv, Ran, Next;
    CallSubmits(s, t, job);
    n := WorkerFinishes(Ran(Next(s, Call(t, job)), t, 5));
  }

  /** A question that finds the lock free is answered with the length of the queue. */
  lemma AskAnswers(s: State, t: Thread)
    requires Inv(s) && s.owner.Free? && At(s, t).Idle?
    ensures var u := Ran(Next(s, Ask(t)), t, 3);
            At(u, t) == Answered(|s.jobs|, |s.submitted|) && u.owner.Free? && u.jobs == s.jobs && u.submitted == s.submitted
  {
    hide Inv;
    var s0 := Next(s, Ask(t));
    StepKeepsInv(s, Ask(t));
    var s1 := OneMore(s0, s0, t, 0);
    var s2 := OneMore(s0, s1, t, 1);
    var s3 := OneMore(s0, s2, t, 2);
    CountsQueue(s);
  }

  lemma CountsQueue(s: State)
    requires Inv(s) && s.owner.Free?
    ensures s.pending == |s.jobs|
  {
  }
}
