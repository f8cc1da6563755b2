/** The worker pool of test.py: one main thread, P worker threads, two unbounded FIFO
    queues and an interrupt flag that a signal handler may set at any moment.

    Every interleaving is a sequence of `Action`s.  A state is what the threads share
    plus each thread's program position.  A worker thread dies when running a job raises an
    exception; the job is then lost. */
module WorkerPool {

  /** A dispatched job; `example` covers the C++ and the Python examples. */
  datatype Job = Job(example: bool, skip: bool)

  datatype Config = Config(jobs: seq<Job>, processors: int)
  {
    /** The loop that starts the threads does nothing for a count that is not positive. */
    function Workers(): nat { if processors < 0 then 0 else processors }
  }

  datatype Message = Work(id: nat) | Break

  /** The result file of a test suite: it is not there or is not valid UTF-8, it parses and its
      first result is PASS or SKIP, or it is any other text. */
  datatype Xml = Unreadable | Passed | NotPassed

  /** What a worker puts into the output queue. */
  datatype Outcome = Interrupted | Skipped | Ran(returncode: int, xml: Xml)

  datatype Result = Result(id: nat, outcome: Outcome)

  datatype Worker = Idle | Checking(id: nat) | Running(id: nat) | Exited | Dead

  datatype State = State(
    dispatched: nat,
    breaksSent: nat,
    input: seq<Message>,
    workers: seq<Worker>,
    output: seq<Result>,
    collected: seq<Result>,
    joined: nat,
    interrupted: bool,
    lost: seq<nat>)

  datatype Action =
    | Dispatch | SendBreak | Collect | Join
    | Take(w: nat) | Check(w: nat) | Finish(w: nat, returncode: int, xml: Xml) | Die(w: nat)
    | Interrupt

  function Init(c: Config): State {
    State(0, 0, [], seq(c.Workers(), i => Idle), [], [], 0, false, [])
  }

  /** The thread has ended, by a break or by an exception. */
  predicate Ended(w: Worker) { w.Exited? || w.Dead? }

  /** The main thread dispatches all jobs, then one break per worker, then collects as many
      results as it dispatched jobs, then joins the workers in order.  `Collect`, `Join` and
      `Take` block while there is nothing to get or wait for. */
  predicate Enabled(c: Config, s: State, a: Action) {
    match a
    case Dispatch => s.dispatched < |c.jobs|
    case SendBreak => s.dispatched == |c.jobs| && s.breaksSent < c.Workers()
    case Collect =>
      s.dispatched == |c.jobs| && s.breaksSent == c.Workers() && |s.collected| < |c.jobs| && s.output != []
    case Join =>
      s.dispatched == |c.jobs| && s.breaksSent == c.Workers() && |s.collected| == |c.jobs|
      && s.joined < |s.workers| && Ended(s.workers[s.joined])
    case Take(w) => w < |s.workers| && s.workers[w].Idle? && s.input != []
    case Check(w) => w < |s.workers| && s.workers[w].Checking? && s.workers[w].id < |c.jobs|
    case Finish(w, _, _) => w < |s.workers| && s.workers[w].Running?
    case Die(w) => w < |s.workers| && s.workers[w].Running?
    case Interrupt => !s.interrupted
  }

  function Apply(c: Config, s: State, a: Action): State
    requires Enabled(c, s, a)
  {
    match a
    case Dispatch => s.(input := s.input + [Work(s.dispatched)], dispatched := s.dispatched + 1)
    case SendBreak => s.(input := s.input + [Break], breaksSent := s.breaksSent + 1)
    case Collect => s.(collected := s.collected + [s.output[0]], output := s.output[1..])
    case Join => s.(joined := s.joined + 1)
    case Take(w) =>
      var next := match s.input[0] case Work(id) => Checking(id) case Break => Exited;
      s.(input := s.input[1..], workers := s.workers[w := next])
    case Check(w) =>
      var id := s.workers[w].id;
      if s.interrupted then s.(workers := s.workers[w := Idle], output := s.output + [Result(id, Interrupted)])
      else if c.jobs[id].skip then s.(workers := s.workers[w := Idle], output := s.output + [Result(id, Skipped)])
      else s.(workers := s.workers[w := Running(id)])
    case Finish(w, returncode, xml) =>
      s.(workers := s.workers[w := Idle],
         output := s.output + [Result(s.workers[w].id, Ran(returncode, xml))])
    case Die(w) => s.(workers := s.workers[w := Dead], lost := s.lost + [s.workers[w].id])
    case Interrupt => s.(interrupted := true)
  }

  /** The main thread has collected every result and joined every worker. */
  predicate Done(c: Config, s: State) {
    s.dispatched == |c.jobs| && s.breaksSent == c.Workers() && |s.collected| == |c.jobs| && s.joined == c.Workers()
  }

  // ---------- Runs ----------

  ghost predicate IsRun(c: Config, s: State, run: seq<Action>)
    decreases |run|
  {
    run == [] || (Enabled(c, s, run[0]) && IsRun(c, Apply(c, s, run[0]), run[1..]))
  }

  ghost function After(c: Config, s: State, run: seq<Action>): State
    requires IsRun(c, s, run)
    decreases |run|
  {
    if run == [] then s else After(c, Apply(c, s, run[0]), run[1..])
  }

  ghost predicate Reachable(c: Config, s: State) {
    exists run :: IsRun(c, Init(c), run) && After(c, Init(c), run) == s
  }

  /** No thread can move; only the signal handler might still run. */
  ghost predicate Stuck(c: Config, s: State) {
    forall a :: Enabled(c, s, a) ==> a == Interrupt
  }

  // ---------- Counting ----------

  /** The sum of a weight over a sequence: all counts below are sums of this kind. */
  function Sum<T>(xs: seq<T>, weight: T -> nat): nat {
    if xs == [] then 0 else weight(xs[0]) + Sum(xs[1..], weight)
  }

  function IsBreak(m: Message): nat { if m.Break? then 1 else 0 }
  function IsWork(m: Message): nat { if m.Work? then 1 else 0 }
  function IsExited(w: Worker): nat { if w.Exited? then 1 else 0 }
  function IsDead(w: Worker): nat { if w.Dead? then 1 else 0 }
  function IsBusy(w: Worker): nat { if w.Checking? || w.Running? then 1 else 0 }
  function Nothing<T>(x: T): nat { 0 }
  function Each<T>(x: T): nat { 1 }

  function Queues(id: nat): Message -> nat { (m: Message) => if m == Work(id) then 1 else 0 }
  function Holds(id: nat): Worker -> nat { (w: Worker) => if w == Checking(id) || w == Running(id) then 1 else 0 }
  function Reports(id: nat): Result -> nat { (r: Result) => if r.id == id then 1 else 0 }
  function Equals(id: nat): nat -> nat { (x: nat) => if x == id then 1 else 0 }

  /** A weight for each of the four places a job passes through, and for where it is lost. */
  datatype Weights = Weights(
    queued: Message -> nat, held: Worker -> nat, reported: Result -> nat, collected: Result -> nat, lost: nat -> nat)

  function Load(s: State, f: Weights): nat {
    Sum(s.input, f.queued) + Sum(s.workers, f.held) + Sum(s.output, f.reported) + Sum(s.collected, f.collected)
    + Sum(s.lost, f.lost)
  }

  /** How often a job occurs, in all places together. */
  function JobWeights(id: nat): Weights { Weights(Queues(id), Holds(id), Reports(id), Reports(id), Equals(id)) }

  /** How many jobs there are, in all places together. */
  const ALL_JOBS := Weights(IsWork, IsBusy, Each<Result>, Each<Result>, Each<nat>)

  const SENTINELS := Weights(IsBreak, IsExited, Nothing<Result>, Nothing<Result>, Nothing<nat>)

  const DEATHS := Weights(Nothing<Message>, IsDead, Nothing<Result>, Nothing<Result>, Nothing<nat>)

  /** The change of a load by a step. */
  function Change(c: Config, s: State, a: Action, f: Weights): int
    requires Enabled(c, s, a)
  {
    var t := Apply(c, s, a);
    match a
    case Dispatch => f.queued(Work(s.dispatched))
    case SendBreak => f.queued(Break)
    case Collect => f.collected(s.output[0]) - f.reported(s.output[0])
    case Take(w) => f.held(t.workers[w]) - f.held(s.workers[w]) - f.queued(s.input[0])
    case Check(w) =>
      f.held(t.workers[w]) - f.held(s.workers[w])
      + if t.output == s.output then 0 else f.reported(t.output[|s.output|])
    case Finish(w, _, _) => f.held(t.workers[w]) - f.held(s.workers[w]) + f.reported(t.output[|s.output|])
    case Die(w) => f.held(Dead) - f.held(s.workers[w]) + f.lost(s.workers[w].id)
    case _ => 0
  }

  lemma {:induction false} SumAppend<T>(xs: seq<T>, x: T, weight: T -> nat)
    ensures Sum(xs + [x], weight) == Sum(xs, weight) + weight(x)
  {
    if xs == [] {
      assert xs + [x] == [x];
    } else {
      assert (xs + [x])[1..] == xs[1..] + [x];
      SumAppend(xs[1..], x, weight);
    }
  }

  lemma {:induction false} SumReplace<T>(xs: seq<T>, i: nat, x: T, weight: T -> nat)
    requires i < |xs|
    ensures Sum(xs[i := x], weight) == Sum(xs, weight) - weight(xs[i]) + weight(x)
  {
    if i == 0 {
      assert xs[i := x][1..] == xs[1..];
    } else {
      assert xs[i := x][1..] == xs[1..][i - 1 := x];
      SumReplace(xs[1..], i - 1, x, weight);
    }
  }

  lemma {:induction false} SumZero<T>(xs: seq<T>, weight: T -> nat)
    requires forall i | 0 <= i < |xs| :: weight(xs[i]) == 0
    ensures Sum(xs, weight) == 0
  {
    if xs != [] {
      forall i | 0 <= i < |xs[1..]| ensures weight(xs[1..][i]) == 0 { assert xs[1..][i] == xs[i + 1]; }
      SumZero(xs[1..], weight);
    }
  }

  lemma {:induction false} SumIsLength<T>(xs: seq<T>, weight: T -> nat)
    requires forall i | 0 <= i < |xs| :: weight(xs[i]) == 1
    ensures Sum(xs, weight) == |xs|
  {
    if xs != [] {
      forall i | 0 <= i < |xs[1..]| ensures weight(xs[1..][i]) == 1 { assert xs[1..][i] == xs[i + 1]; }
      SumIsLength(xs[1..], weight);
    }
  }

  lemma {:induction false} SumBelowLength<T>(xs: seq<T>, i: nat, weight: T -> nat)
    requires forall j | 0 <= j < |xs| :: weight(xs[j]) <= 1
    requires i < |xs| && weight(xs[i]) == 0
    ensures Sum(xs, weight) < |xs|
  {
    SumReplaceBound(xs, weight);
    var rest := xs[1..];
    forall j | 0 <= j < |rest| ensures weight(rest[j]) <= 1 { assert rest[j] == xs[j + 1]; }
    if i > 0 { SumBelowLength(rest, i - 1, weight); } else { SumReplaceBound(rest, weight); }
  }

  lemma {:induction false} SumReplaceBound<T>(xs: seq<T>, weight: T -> nat)
    requires forall j | 0 <= j < |xs| :: weight(xs[j]) <= 1
    ensures Sum(xs, weight) <= |xs|
  {
    if xs != [] {
      forall j | 0 <= j < |xs[1..]| ensures weight(xs[1..][j]) <= 1 { assert xs[1..][j] == xs[j + 1]; }
      SumReplaceBound(xs[1..], weight);
    }
  }

  lemma {:induction false} StepLoad(c: Config, s: State, a: Action, f: Weights)
    requires Enabled(c, s, a)
    ensures Load(Apply(c, s, a), f) == Load(s, f) + Change(c, s, a, f)
  {
    match a {
      case Dispatch => SumAppend(s.input, Work(s.dispatched), f.queued);
      case SendBreak => SumAppend(s.input, Break, f.queued);
      case Collect => SumAppend(s.collected, s.output[0], f.collected);
      case Take(w) => SumReplace(s.workers, w, Apply(c, s, a).workers[w], f.held);
      case Check(w) => CheckLoad(c, s, w, f);
      case Finish(w, rc, xml) =>
        SumReplace(s.workers, w, Idle, f.held);
        SumAppend(s.output, Result(s.workers[w].id, Ran(rc, xml)), f.reported);
      case Die(w) =>
        SumReplace(s.workers, w, Dead, f.held);
        SumAppend(s.lost, s.workers[w].id, f.lost);
      case _ =>
    }
  }

  lemma CheckLoad(c: Config, s: State, w: nat, f: Weights)
    requires Enabled(c, s, Check(w))
    ensures Load(Apply(c, s, Check(w)), f) == Load(s, f) + Change(c, s, Check(w), f)
  {
    var id := s.workers[w].id;
    SumReplace(s.workers, w, Idle, f.held);
    SumReplace(s.workers, w, Running(id), f.held);
    SumAppend(s.output, Result(id, Interrupted), f.reported);
    SumAppend(s.output, Result(id, Skipped), f.reported);
  }

  // ---------- The invariant ----------

  /** No real job behind a break. */
  ghost predicate BreaksLast(q: seq<Message>) {
    forall i, j | 0 <= i < j < |q| && q[i].Break? :: q[j].Break?
  }

  /** The outcome that a worker may report for a job. */
  ghost predicate Legitimate(c: Config, interrupted: bool, r: Result) {
    r.id < |c.jobs|
    && (r.outcome.Interrupted? ==> interrupted)
    && (r.outcome.Skipped? ==> c.jobs[r.id].skip)
    && (r.outcome.Ran? ==> !c.jobs[r.id].skip)
  }

  ghost predicate Phases(c: Config, s: State) {
    && s.dispatched <= |c.jobs| && s.breaksSent <= c.Workers()
    && |s.collected| <= |c.jobs| && s.joined <= c.Workers() == |s.workers|
    && (s.breaksSent > 0 ==> s.dispatched == |c.jobs|)
    && (s.collected != [] ==> s.dispatched == |c.jobs| && s.breaksSent == c.Workers())
    && (s.joined > 0 ==> |s.collected| == |c.jobs|)
    && (forall i | 0 <= i < s.joined :: Ended(s.workers[i]))
    && (c.Workers() == 0 ==> s.output == s.collected == [] && s.lost == [])
    && (s.lost == [] ==> forall w | w in s.workers :: !w.Dead?)
  }

  ghost predicate Order(s: State) {
    && BreaksLast(s.input)
    && (s.breaksSent == 0 ==> forall m | m in s.input :: m.Work?)
    && ((exists w :: w in s.workers && w.Exited?) ==> s.breaksSent > 0 && forall m | m in s.input :: m.Break?)
  }

  ghost predicate Outcomes(c: Config, s: State) {
    && (forall m | m in s.input && m.Work? :: m.id < |c.jobs|)
    && (forall w | w in s.workers && (w.Checking? || w.Running?) ::
          w.id < |c.jobs| && (w.Running? ==> !c.jobs[w.id].skip))
    && (forall id | id in s.lost :: id < |c.jobs| && !c.jobs[id].skip)
    && (forall r | r in s.output :: Legitimate(c, s.interrupted, r))
    && (forall r | r in s.collected :: Legitimate(c, s.interrupted, r))
  }

  ghost predicate Conserved(s: State) {
    && Load(s, SENTINELS) == s.breaksSent
    && Load(s, ALL_JOBS) == s.dispatched
    && Load(s, DEATHS) == |s.lost|
    && forall id: nat :: Load(s, JobWeights(id)) == if id < s.dispatched then 1 else 0
  }

  ghost predicate Inv(c: Config, s: State) {
    Phases(c, s) && Order(s) && Outcomes(c, s) && Conserved(s)
  }

  lemma InitInv(c: Config)
    ensures Inv(c, Init(c))
  {
    var s := Init(c);
    SumZero(s.workers, IsExited);
    SumZero(s.workers, IsBusy);
    SumZero(s.workers, IsDead);
    forall id: nat ensures Load(s, JobWeights(id)) == 0 {
      SumZero(s.workers, Holds(id));
    }
  }

  lemma {:induction false} StepPhases(c: Config, s: State, a: Action)
    requires Phases(c, s) && Enabled(c, s, a)
    ensures Phases(c, Apply(c, s, a))
  {
  }

  lemma {:induction false} StepOrder(c: Config, s: State, a: Action)
    requires Phases(c, s) && Order(s) && Enabled(c, s, a)
    ensures Order(Apply(c, s, a))
  {
    var t := Apply(c, s, a);
    match a {
      case Dispatch => assert forall i | 0 <= i < |s.input| :: s.input[i] in s.input;
      case Take(w) => TakeOrder(c, s, w);
      case Check(w) => OneReplaced(s.workers, w, t.workers[w]);
      case Finish(w, _, _) => OneReplaced(s.workers, w, t.workers[w]);
      case Die(w) => OneReplaced(s.workers, w, t.workers[w]);
      case _ =>
    }
  }

  lemma OneReplaced(ws: seq<Worker>, w: nat, x: Worker)
    requires w < |ws|
    ensures forall y | y in ws[w := x] :: y == x || y in ws
  {
  }

  lemma TakeOrder(c: Config, s: State, w: nat)
    requires Order(s) && Enabled(c, s, Take(w))
    ensures Order(Apply(c, s, Take(w)))
  {
    var t := Apply(c, s, Take(w));
    OneReplaced(s.workers, w, t.workers[w]);
    assert s.input[0] in s.input;
    assert forall m | m in t.input :: m in s.input;
    forall i, j | 0 <= i < j < |t.input| && t.input[i].Break? ensures t.input[j].Break? {
      assert s.input[i + 1].Break? && s.input[j + 1].Break?;
    }
    if s.input[0].Break? {
      forall m | m in t.input ensures m.Break? {
        var i :| 0 <= i < |t.input| && t.input[i] == m;
        assert s.input[i + 1] == m;
      }
    }
  }

  lemma {:induction false} StepOutcomes(c: Config, s: State, a: Action)
    requires Phases(c, s) && Outcomes(c, s) && Enabled(c, s, a)
    ensures Outcomes(c, Apply(c, s, a))
  {
    var t := Apply(c, s, a);
    match a {
      case Take(w) =>
        assert s.input[0] in s.input;
        assert forall m | m in t.input :: m in s.input;
        OneReplaced(s.workers, w, t.workers[w]);
      case Check(w) =>
        assert s.workers[w] in s.workers;
        OneReplaced(s.workers, w, t.workers[w]);
      case Finish(w, _, _) =>
        assert s.workers[w] in s.workers;
        OneReplaced(s.workers, w, t.workers[w]);
      case Die(w) =>
        assert s.workers[w] in s.workers;
        OneReplaced(s.workers, w, t.workers[w]);
      case Collect =>
        assert s.output[0] in s.output;
        assert forall r | r in t.output :: r in s.output;
      case _ =>
    }
  }

  lemma {:induction false} StepConserved(c: Config, s: State, a: Action)
    requires Conserved(s) && Enabled(c, s, a)
    ensures Conserved(Apply(c, s, a))
  {
    SentinelsChange(c, s, a);
    StepLoad(c, s, a, SENTINELS);
    AllJobsChange(c, s, a);
    StepLoad(c, s, a, ALL_JOBS);
    DeathsChange(c, s, a);
    StepLoad(c, s, a, DEATHS);
    forall id: nat
      ensures Load(Apply(c, s, a), JobWeights(id)) == if id < Apply(c, s, a).dispatched then 1 else 0
    {
      JobChange(c, s, a, id);
      StepLoad(c, s, a, JobWeights(id));
    }
  }

  lemma SentinelsChange(c: Config, s: State, a: Action)
    requires Enabled(c, s, a)
    ensures Change(c, s, a, SENTINELS) == Apply(c, s, a).breaksSent - s.breaksSent
  {
  }

  lemma AllJobsChange(c: Config, s: State, a: Action)
    requires Enabled(c, s, a)
    ensures Change(c, s, a, ALL_JOBS) == Apply(c, s, a).dispatched - s.dispatched
  {
  }

  lemma DeathsChange(c: Config, s: State, a: Action)
    requires Enabled(c, s, a)
    ensures Change(c, s, a, DEATHS) == |Apply(c, s, a).lost| - |s.lost|
  {
  }

  /** Only the dispatch of a job changes how often it occurs. */
  lemma JobChange(c: Config, s: State, a: Action, id: nat)
    requires Enabled(c, s, a)
    ensures Change(c, s, a, JobWeights(id)) == if a.Dispatch? && id == s.dispatched then 1 else 0
  {
  }

  lemma StepInv(c: Config, s: State, a: Action)
    requires Inv(c, s) && Enabled(c, s, a)
    ensures Inv(c, Apply(c, s, a))
  {
    StepPhases(c, s, a);
    StepOrder(c, s, a);
    StepOutcomes(c, s, a);
    StepConserved(c, s, a);
  }

  lemma {:induction false} RunInv(c: Config, s: State, run: seq<Action>)
    requires Inv(c, s) && IsRun(c, s, run)
    ensures Inv(c, After(c, s, run))
    decreases |run|
  {
    if run != [] {
      StepInv(c, s, run[0]);
      RunInv(c, Apply(c, s, run[0]), run[1..]);
    }
  }

  lemma ReachableInv(c: Config, s: State)
    requires Reachable(c, s)
    ensures Inv(c, s)
  {
    var run :| IsRun(c, Init(c), run) && After(c, Init(c), run) == s;
    InitInv(c);
    RunInv(c, Init(c), run);
  }

  // ---------- Main results ----------

  /** Every dispatched job is in exactly one place, once, and no other job is anywhere. */
  lemma JobsAreConserved(c: Config, s: State, id: nat)
    requires Reachable(c, s)
    ensures Sum(s.input, Queues(id)) + Sum(s.workers, Holds(id))
            + Sum(s.output, Reports(id)) + Sum(s.collected, Reports(id)) + Sum(s.lost, Equals(id))
         == if id < s.dispatched then 1 else 0
  {
    ReachableInv(c, s);
    assert Load(s, JobWeights(id)) == if id < s.dispatched then 1 else 0;
  }

  /** Real jobs come before the breaks; the breaks sent are queued or have retired a worker,
      so once all are sent there is one for each worker that no break has retired, dead ones
      included; and while a real job is queued no break has retired a worker. */
  lemma SentinelsMatchLiveWorkers(c: Config, s: State)
    requires Reachable(c, s)
    ensures forall i, j | 0 <= i < j < |s.input| && s.input[j].Work? :: s.input[i].Work?
    ensures Sum(s.input, IsBreak) + Sum(s.workers, IsExited) == s.breaksSent
    ensures s.breaksSent == c.Workers() ==> Sum(s.input, IsBreak) == |s.workers| - Sum(s.workers, IsExited)
    ensures forall m, w | m in s.input && m.Work? && w in s.workers :: !w.Exited?
  {
    ReachableInv(c, s);
    SumZero(s.output, Nothing<Result>);
    SumZero(s.collected, Nothing<Result>);
    SumZero(s.lost, Nothing<nat>);
  }

  /** With a worker and no job lost, some thread can always move until the main thread is done. */
  lemma SomeThreadCanMove(c: Config, s: State) returns (a: Action)
    requires Inv(c, s) && !Done(c, s) && s.lost == []
    requires c.Workers() > 0 || c.jobs == []
    ensures Enabled(c, s, a) && a != Interrupt
  {
    if s.dispatched < |c.jobs| { return Dispatch; }
    if s.breaksSent < c.Workers() { return SendBreak; }
    if w :| 0 <= w < |s.workers| && s.workers[w].Running? { return Finish(w, 0, Passed); }
    if w :| 0 <= w < |s.workers| && s.workers[w].Checking? {
      assert s.workers[w] in s.workers;
      return Check(w);
    }
    if |s.collected| < |c.jobs| && s.output != [] { return Collect; }
    a := IdlePoolCanMove(c, s);
  }

  /** All workers are idle or gone and there is no result to collect. */
  lemma IdlePoolCanMove(c: Config, s: State) returns (a: Action)
    requires Inv(c, s) && !Done(c, s) && s.lost == [] && (c.Workers() > 0 || c.jobs == [])
    requires s.dispatched == |c.jobs| && s.breaksSent == c.Workers()
    requires forall w | 0 <= w < |s.workers| :: s.workers[w].Idle? || s.workers[w].Exited?
    requires |s.collected| < |c.jobs| ==> s.output == []
    ensures Enabled(c, s, a) && a != Interrupt
  {
    SumZero(s.workers, IsBusy);
    SumIsLength(s.collected, Each<Result>);
    if |s.collected| < |c.jobs| {
      // An uncollected job can only be queued, so no worker has exited.
      if s.input == [] || s.input[0].Break? {
        SumZero(s.input, IsWork);
      }
      assert s.input[0] in s.input && s.workers[0] in s.workers;
      return Take(0);
    }
    if s.workers[s.joined].Exited? { return Join; }
    // The worker waited for is idle, and a break for it is queued.
    SumZero(s.output, Nothing<Result>);
    SumZero(s.collected, Nothing<Result>);
    SumBelowLength(s.workers, s.joined, IsExited);
    return Take(s.joined);
  }

  /** Where no thread can move the main thread is done exactly if no job was lost and there
      was a worker for the jobs. */
  lemma StuckIsDoneExactlyIfNothingIsLost(c: Config, s: State)
    requires Reachable(c, s) && Stuck(c, s)
    ensures Done(c, s) <==> s.lost == [] && (c.Workers() > 0 || c.jobs == [])
  {
    ReachableInv(c, s);
    if s.lost == [] && (c.Workers() > 0 || c.jobs == []) && !Done(c, s) {
      var a := SomeThreadCanMove(c, s);
    }
    if Done(c, s) {
      DoneIsClean(c, s);
    }
  }

  /** Whether the pool can get stuck before it is done: it can with jobs and no worker, and
      whenever some job is really to be run, since that may raise an exception. */
  lemma PoolCanGetStuck(c: Config)
    ensures (exists s :: Reachable(c, s) && !Done(c, s) && Stuck(c, s))
       <==> c.jobs != [] && (c.Workers() == 0 || exists j :: j in c.jobs && !j.skip)
  {
    if s :| Reachable(c, s) && !Done(c, s) && Stuck(c, s) {
      StuckIsDoneExactlyIfNothingIsLost(c, s);
      ReachableInv(c, s);
      if s.lost != [] { assert s.lost[0] in s.lost && c.jobs[s.lost[0]] in c.jobs; }
    }
    if c.jobs != [] && c.Workers() == 0 {
      var run, s := DispatchAll(c, |c.jobs|);
      assert Reachable(c, s) && !Done(c, s) && Stuck(c, s);
    } else if j :| j in c.jobs && !j.skip {
      var first := FirstToRun(c, 0);
      var s := SkipTo(c, first);
      s := LoseNext(c, s);
      s := RunUntilStuck(c, s);
      StuckIsDoneExactlyIfNothingIsLost(c, s);
    }
  }

  lemma FirstToRun(c: Config, n: nat) returns (first: nat)
    requires n <= |c.jobs| && (forall i | 0 <= i < n :: c.jobs[i].skip) && exists j :: j in c.jobs && !j.skip
    ensures first < |c.jobs| && !c.jobs[first].skip && forall i | 0 <= i < first :: c.jobs[i].skip
    decreases |c.jobs| - n
  {
    if n < |c.jobs| && c.jobs[n].skip {
      first := FirstToRun(c, n + 1);
    } else {
      first := n;
    }
  }

  lemma ReachableStep(c: Config, s: State, a: Action)
    requires Reachable(c, s) && Enabled(c, s, a)
    ensures Reachable(c, Apply(c, s, a))
  {
    var run :| IsRun(c, Init(c), run) && After(c, Init(c), run) == s;
    AppendAction(c, Init(c), run, a);
  }

  /** One worker takes the next job as soon as it is dispatched, and looks whether to skip it. */
  lemma CheckNext(c: Config, s: State) returns (t: State)
    requires Reachable(c, s) && s.dispatched < |c.jobs| && s.input == [] && !s.interrupted
    requires |s.workers| > 0 && s.workers[0].Idle?
    ensures var id := s.dispatched;
      Reachable(c, t)
      && t == if c.jobs[id].skip then s.(dispatched := id + 1, output := s.output + [Result(id, Skipped)])
              else s.(dispatched := id + 1, workers := s.workers[0 := Running(id)])
  {
    ReachableStep(c, s, Dispatch);
    t := Apply(c, s, Dispatch);
    ReachableStep(c, t, Take(0));
    t := Apply(c, t, Take(0));
    ReachableStep(c, t, Check(0));
    t := Apply(c, t, Check(0));
    assert t.input == [] && s.workers[0 := Checking(s.dispatched)][0 := Idle] == s.workers;
  }

  lemma {:induction false} SkipTo(c: Config, n: nat) returns (s: State)
    requires c.Workers() > 0 && n <= |c.jobs| && forall i | 0 <= i < n :: c.jobs[i].skip
    ensures Reachable(c, s) && s == Init(c).(dispatched := n, output := s.output)
  {
    if n == 0 {
      s := Init(c);
      assert IsRun(c, Init(c), []) && After(c, Init(c), []) == s;
    } else {
      s := SkipTo(c, n - 1);
      s := CheckNext(c, s);
    }
  }

  lemma LoseNext(c: Config, s: State) returns (t: State)
    requires Reachable(c, s) && s.dispatched < |c.jobs| && s.input == [] && !s.interrupted
    requires |s.workers| > 0 && s.workers[0].Idle? && !c.jobs[s.dispatched].skip
    ensures Reachable(c, t) && t.lost != []
  {
    t := CheckNext(c, s);
    ReachableStep(c, t, Die(0));
    t := Apply(c, t, Die(0));
  }

  /** Any run can be continued until no thread can move; what is lost stays lost. */
  lemma {:induction false} RunUntilStuck(c: Config, s: State) returns (t: State)
    requires Reachable(c, s)
    ensures Reachable(c, t) && Stuck(c, t) && (s.lost != [] ==> t.lost != [])
    decreases Bound(c, s)
  {
    if Stuck(c, s) {
      t := s;
    } else {
      var next := OneMoreStep(c, s);
      t := RunUntilStuck(c, next);
    }
  }

  lemma OneMoreStep(c: Config, s: State) returns (t: State)
    requires Reachable(c, s) && !Stuck(c, s)
    ensures Reachable(c, t) && Bound(c, t) < Bound(c, s) && |s.lost| <= |t.lost|
  {
    var a :| Enabled(c, s, a) && a != Interrupt;
    ReachableInv(c, s);
    EveryStepDecreases(c, s, a);
    ReachableStep(c, s, a);
    t := Apply(c, s, a);
  }

  lemma {:induction false} DispatchAll(c: Config, n: nat) returns (run: seq<Action>, s: State)
    requires n <= |c.jobs|
    ensures IsRun(c, Init(c), run) && After(c, Init(c), run) == s
    ensures s == Init(c).(dispatched := n, input := s.input)
  {
    if n == 0 {
      run, s := [], Init(c);
    } else {
      run, s := DispatchAll(c, n - 1);
      AppendAction(c, Init(c), run, Dispatch);
      run, s := run + [Dispatch], Apply(c, s, Dispatch);
    }
  }

  lemma {:induction false} AppendAction(c: Config, s: State, run: seq<Action>, a: Action)
    requires IsRun(c, s, run) && Enabled(c, After(c, s, run), a)
    ensures IsRun(c, s, run + [a]) && After(c, s, run + [a]) == Apply(c, After(c, s, run), a)
    decreases |run|
  {
    if run == [] {
      assert run + [a] == [a];
    } else {
      assert (run + [a])[0] == run[0] && (run + [a])[1..] == run[1..] + [a];
      AppendAction(c, Apply(c, s, run[0]), run[1..], a);
    }
  }

  // ---------- Termination ----------

  function QueueEffort(m: Message): nat { if m.Work? then 4 else 1 }
  function WorkerEffort(w: Worker): nat { if w.Checking? then 3 else if w.Running? then 2 else 0 }

  const EFFORT := Weights(QueueEffort, WorkerEffort, Each<Result>, Nothing<Result>, Nothing<nat>)

  /** An upper bound on the number of steps still to come, the interrupt included. */
  function Measure(c: Config, s: State): int {
    5 * (|c.jobs| - s.dispatched) + 2 * (c.Workers() - s.breaksSent) + Load(s, EFFORT)
    + (c.Workers() - s.joined) + (if s.interrupted then 0 else 1)
  }

  ghost function Bound(c: Config, s: State): nat { if Measure(c, s) < 0 then 0 else Measure(c, s) }

  lemma EveryStepDecreases(c: Config, s: State, a: Action)
    requires Phases(c, s) && Enabled(c, s, a)
    ensures 0 <= Measure(c, Apply(c, s, a)) < Measure(c, s)
  {
    StepPhases(c, s, a);
    StepLoad(c, s, a, EFFORT);
  }

  lemma {:induction false} RunLength(c: Config, s: State, run: seq<Action>)
    requires Phases(c, s) && IsRun(c, s, run)
    ensures |run| <= Measure(c, s)
    decreases |run|
  {
    if run != [] {
      EveryStepDecreases(c, s, run[0]);
      StepPhases(c, s, run[0]);
      RunLength(c, Apply(c, s, run[0]), run[1..]);
    }
  }

  /** Every run is finite, whatever the interleaving and whenever the interrupt comes; and a
      run after which no thread can move has collected the result of every job exactly once,
      emptied both queues and let every worker exit, exactly if no job was lost and there was a
      worker for the jobs. */
  lemma EveryRunFinishes(c: Config, run: seq<Action>)
    requires IsRun(c, Init(c), run)
    ensures |run| <= 5 * |c.jobs| + 3 * c.Workers() + 1
    ensures var s := After(c, Init(c), run);
      Stuck(c, s) && s.lost == [] && (c.Workers() > 0 || c.jobs == []) ==> Done(c, s) && CleanedUp(c, s)
    ensures var s := After(c, Init(c), run);
      Stuck(c, s) && !(s.lost == [] && (c.Workers() > 0 || c.jobs == [])) ==> |s.collected| < |c.jobs|
  {
    var s := After(c, Init(c), run);
    InitInv(c);
    SumZero(Init(c).workers, WorkerEffort);
    RunLength(c, Init(c), run);
    assert Reachable(c, s);
    ReachableInv(c, s);
    if Stuck(c, s) {
      StuckIsDoneExactlyIfNothingIsLost(c, s);
      if Done(c, s) {
        DoneIsClean(c, s);
      }
      SumIsLength(s.collected, Each<Result>);
      SumIsLength(s.lost, Each<nat>);
    }
  }

  /** Both queues are empty, every worker has exited by a break, and each job has been
      collected once. */
  ghost predicate CleanedUp(c: Config, s: State) {
    s.input == [] && s.output == [] && (forall w | w in s.workers :: w.Exited?)
    && forall id: nat :: Sum(s.collected, Reports(id)) == if id < |c.jobs| then 1 else 0
  }

  lemma EveryDeathLosesOneJob(c: Config, s: State)
    requires Reachable(c, s)
    ensures Sum(s.workers, IsDead) == |s.lost|
  {
    ReachableInv(c, s);
    SumZero(s.input, Nothing<Message>);
    SumZero(s.output, Nothing<Result>);
    SumZero(s.collected, Nothing<Result>);
    SumZero(s.lost, Nothing<nat>);
  }

  /** As long as one worker survives, a run that can go no further has collected every job that
      was not lost: each job is in one of these two places, once, and the lost ones number the
      dead workers. */
  lemma SurvivorsFinishTheRest(c: Config, s: State, w: nat)
    requires Reachable(c, s) && Stuck(c, s) && w < |s.workers| && !s.workers[w].Dead?
    ensures forall id: nat | id < |c.jobs| :: Sum(s.collected, Reports(id)) + Sum(s.lost, Equals(id)) == 1
    ensures |s.collected| + Sum(s.workers, IsDead) == |c.jobs|
  {
    ReachableInv(c, s);
    EveryDeathLosesOneJob(c, s);
    NobodyIsBusy(c, s);
    NothingIsQueued(c, s, w);
    NothingIsReported(c, s);
    SumZero(s.workers, IsBusy);
    SumZero(s.input, IsWork);
    SumIsLength(s.collected, Each<Result>);
    SumIsLength(s.lost, Each<nat>);
    forall id: nat | id < |c.jobs| ensures Sum(s.collected, Reports(id)) + Sum(s.lost, Equals(id)) == 1 {
      SumZero(s.workers, Holds(id));
      SumZero(s.input, Queues(id));
      assert Load(s, JobWeights(id)) == 1;
    }
  }

  /** All is sent, and no worker has a job. */
  lemma NobodyIsBusy(c: Config, s: State)
    requires Inv(c, s) && Stuck(c, s)
    ensures s.dispatched == |c.jobs| && s.breaksSent == c.Workers()
    ensures forall v | 0 <= v < |s.workers| :: !s.workers[v].Checking? && !s.workers[v].Running?
  {
    assert !Enabled(c, s, Dispatch) && !Enabled(c, s, SendBreak);
    forall v | 0 <= v < |s.workers| ensures !s.workers[v].Checking? && !s.workers[v].Running? {
      assert s.workers[v] in s.workers;
      assert !Enabled(c, s, Check(v)) && !Enabled(c, s, Finish(v, 0, Passed));
    }
  }

  lemma NothingIsQueued(c: Config, s: State, w: nat)
    requires Inv(c, s) && Stuck(c, s) && w < |s.workers| && !s.workers[w].Dead?
    ensures forall i | 0 <= i < |s.input| :: s.input[i].Break?
  {
    NobodyIsBusy(c, s);
    assert !Enabled(c, s, Take(w)) && s.workers[w] in s.workers;
    assert forall i | 0 <= i < |s.input| :: s.input[i] in s.input;
  }

  lemma NothingIsReported(c: Config, s: State)
    requires Inv(c, s) && Stuck(c, s)
    ensures s.output == []
  {
    NobodyIsBusy(c, s);
    assert !Enabled(c, s, Collect);
    SumIsLength(s.collected, Each<Result>);
    SumIsLength(s.output, Each<Result>);
  }

  lemma DoneIsClean(c: Config, s: State)
    requires Inv(c, s) && Done(c, s)
    ensures s.lost == [] && CleanedUp(c, s)
  {
    SumIsLength(s.collected, Each<Result>);
    SumIsLength(s.lost, Each<nat>);
    SumIsLength(s.output, Each<Result>);
    SumIsLength(s.workers, IsExited);
    forall id: nat ensures Sum(s.collected, Reports(id)) == if id < |c.jobs| then 1 else 0 {
      assert Load(s, JobWeights(id)) == if id < |c.jobs| then 1 else 0;
      SumZero(s.workers, Holds(id));
    }
  }

  /** Without an interrupt every job that is not to be skipped has really been run and the
      others are reported as skipped; with one, every other outcome is still the truth. */
  lemma OutcomesAreGenuine(c: Config, s: State, r: Result)
    requires Reachable(c, s) && r in s.collected
    ensures r.id < |c.jobs|
    ensures !s.interrupted ==> (r.outcome.Skipped? <==> c.jobs[r.id].skip) && (r.outcome.Ran? <==> !c.jobs[r.id].skip)
    ensures r.outcome.Skipped? ==> c.jobs[r.id].skip
    ensures r.outcome.Ran? ==> !c.jobs[r.id].skip
  {
    ReachableInv(c, s);
  }

  // ---------- The interrupt ----------

  /** Every worker that is running a job now was already running it then. */
  ghost predicate NothingStarted(s: State, t: State) {
    |t.workers| == |s.workers|
    && forall w | 0 <= w < |t.workers| && t.workers[w].Running? :: t.workers[w] == s.workers[w]
  }

  /** Every job that has been run had been run, or was running, then. */
  ghost predicate OnlyOldRuns(s: State, t: State) {
    forall r | r in t.output + t.collected && r.outcome.Ran? ::
      r in s.output + s.collected || Running(r.id) in s.workers
  }

  /** After an interrupt no worker starts a job any more; what is running may finish. */
  lemma {:induction false} NothingStartsAfterInterrupt(c: Config, s: State, run: seq<Action>)
    requires s.interrupted && IsRun(c, s, run)
    ensures var t := After(c, s, run);
      t.interrupted && NothingStarted(s, t) && OnlyOldRuns(s, t)
    decreases |run|
  {
    if run != [] {
      var next := Apply(c, s, run[0]);
      StepStartsNothing(c, s, run[0]);
      NothingStartsAfterInterrupt(c, next, run[1..]);
      var t := After(c, s, run);
      forall r | r in t.output + t.collected && r.outcome.Ran?
        ensures r in s.output + s.collected || Running(r.id) in s.workers
      {
        if r !in next.output + next.collected {
          var w :| 0 <= w < |next.workers| && next.workers[w] == Running(r.id);
          assert s.workers[w] in s.workers;
        }
      }
    }
  }

  lemma StepStartsNothing(c: Config, s: State, a: Action)
    requires s.interrupted && Enabled(c, s, a)
    ensures var t := Apply(c, s, a);
      t.interrupted && NothingStarted(s, t) && OnlyOldRuns(s, t)
  {
  }

  /** No worker is running the job, and no result but an interruption is reported for it. */
  ghost predicate NotRun(s: State, id: nat) {
    Running(id) !in s.workers && forall r | r in s.output + s.collected && r.id == id :: r.outcome.Interrupted?
  }

  /** The job is yet to be dispatched, or queued, or taken but not looked at. */
  ghost predicate Waiting(s: State, id: nat) {
    id >= s.dispatched || Work(id) in s.input || Checking(id) in s.workers
  }

  lemma StepKeepsNotRun(c: Config, s: State, a: Action, id: nat)
    requires s.interrupted && Enabled(c, s, a) && NotRun(s, id)
    ensures NotRun(Apply(c, s, a), id)
  {
    StepStartsNothing(c, s, a);
  }

  lemma {:induction false} RunKeepsNotRun(c: Config, s: State, run: seq<Action>, id: nat)
    requires s.interrupted && IsRun(c, s, run) && NotRun(s, id)
    ensures NotRun(After(c, s, run), id)
    decreases |run|
  {
    if run != [] {
      StepKeepsNotRun(c, s, run[0], id);
      RunKeepsNotRun(c, Apply(c, s, run[0]), run[1..], id);
    }
  }

  lemma {:induction false} SumOfMember<T>(xs: seq<T>, x: T, weight: T -> nat)
    requires x in xs
    ensures Sum(xs, weight) >= weight(x)
  {
    if x != xs[0] { SumOfMember(xs[1..], x, weight); }
  }

  lemma WaitingIsNotRun(c: Config, s: State, id: nat)
    requires Reachable(c, s) && Waiting(s, id)
    ensures NotRun(s, id)
  {
    JobsAreConserved(c, s, id);
    if Work(id) in s.input { SumOfMember(s.input, Work(id), Queues(id)); }
    if Checking(id) in s.workers && Running(id) in s.workers {
      TwoMembers(s.workers, Checking(id), Running(id), Holds(id));
    } else if Checking(id) in s.workers {
      SumOfMember(s.workers, Checking(id), Holds(id));
    } else if Running(id) in s.workers {
      SumOfMember(s.workers, Running(id), Holds(id));
    }
    forall r | r in s.output + s.collected ensures r.id != id {
      if r in s.output { SumOfMember(s.output, r, Reports(id)); } else { SumOfMember(s.collected, r, Reports(id)); }
    }
  }

  lemma {:induction false} TwoMembers<T>(xs: seq<T>, x: T, y: T, weight: T -> nat)
    requires x in xs && y in xs && x != y
    ensures Sum(xs, weight) >= weight(x) + weight(y)
  {
    if xs[0] == x {
      SumOfMember(xs[1..], y, weight);
    } else if xs[0] == y {
      SumOfMember(xs[1..], x, weight);
    } else {
      TwoMembers(xs[1..], x, y, weight);
    }
  }

  /** A job that is still waiting at an interrupt, to be skipped or not, is never run or
      skipped after it: it can only be reported as interrupted. */
  lemma WaitingJobsAreInterrupted(c: Config, s: State, run: seq<Action>, id: nat, r: Result)
    requires Reachable(c, s) && s.interrupted && IsRun(c, s, run) && Waiting(s, id)
    requires r in After(c, s, run).output + After(c, s, run).collected && r.id == id
    ensures r.outcome.Interrupted?
  {
    WaitingIsNotRun(c, s, id);
    RunKeepsNotRun(c, s, run, id);
  }
}
