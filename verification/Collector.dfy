/** The collection loop of test.py: the main thread classifies one result per dispatched job,
    keeps the list of jobs whose output is to be shown, and derives the exit code. */
module Collector {
  import opened Common
  import opened WorkerPool

  /** The counters of the loop; `failedJobs` names the jobs in the order of the list. */
  datatype Summary = Summary(
    passed: nat, failed: nat, valgrind: nat, crashed: nat, skipped: nat,
    failedJobs: seq<nat>, exitCode: int)

  predicate Returned(r: Result, code: int) { r.outcome.Ran? && r.outcome.returncode == code }

  function Passes(r: Result): nat { if Returned(r, 0) then 1 else 0 }
  function Fails(r: Result): nat { if Returned(r, 1) then 1 else 0 }
  function Valgrinds(r: Result): nat { if Returned(r, 2) then 1 else 0 }
  function Crashes(r: Result): nat { if r.outcome.Ran? && !(0 <= r.outcome.returncode <= 2) then 1 else 0 }
  function Skips(r: Result): nat { if r.outcome.Skipped? then 1 else 0 }
  function Interrupts(r: Result): nat { if r.outcome.Interrupted? then 1 else 0 }

  /** How often a result leaves its job in the list: an example once when its return code is
      not zero; a test suite once for that, and once more unless its result file could be
      used and says PASS or SKIP. */
  function Listings(jobs: seq<Job>, r: Result): nat {
    if !r.outcome.Ran? || r.id >= |jobs| then 0
    else
      (if r.outcome.returncode != 0 then 1 else 0)
      + if jobs[r.id].example || (0 <= r.outcome.returncode <= 2 && r.outcome.xml.Passed?) then 0 else 1
  }

  /** Nothing was interrupted, failed, crashed or reported by valgrind. */
  ghost predicate Clean(results: seq<Result>) {
    forall r | r in results :: r.outcome.Skipped? || Returned(r, 0)
  }

  /** The exception that ends the loop: the result file that a test suite should have written is
      opened and decoded outside the `try` block. */
  predicate Aborts(jobs: seq<Job>, r: Result) {
    r.id < |jobs| && !jobs[r.id].example && r.outcome.Ran? && 0 <= r.outcome.returncode <= 2 && r.outcome.xml.Unreadable?
  }

  function Occurrences(ids: seq<nat>, id: nat): nat {
    if ids == [] then 0 else (if ids[0] == id then 1 else 0) + Occurrences(ids[1..], id)
  }

  /** The counters are the sizes of the classes of results, and with the interrupted ones they
      make up all jobs; the exit code is zero exactly for clean results. */
  ghost predicate IsSummary(jobs: seq<Job>, results: seq<Result>, s: Summary) {
    && s.passed == Sum(results, Passes) && s.failed == Sum(results, Fails)
    && s.valgrind == Sum(results, Valgrinds) && s.crashed == Sum(results, Crashes)
    && s.skipped == Sum(results, Skips)
    && s.passed + s.failed + s.valgrind + s.crashed + s.skipped + Sum(results, Interrupts) == |jobs|
    && (s.exitCode == 0 <==> Clean(results)) && s.exitCode in {0, 1}
    && forall id: nat :: Occurrences(s.failedJobs, id) == Sum(results, ListingsOf(jobs, id))
  }

  function ListingsOf(jobs: seq<Job>, id: nat): Result -> nat {
    (r: Result) => if r.id == id then Listings(jobs, r) else 0
  }

  /** The loop is over exactly the results that were collected; it gives nothing if it is ended
      by an exception. */
  method Collect(jobs: seq<Job>, results: seq<Result>) returns (summary: Option<Summary>)
    requires |results| == |jobs| && forall r | r in results :: r.id < |jobs|
    ensures summary.None? <==> exists r :: r in results && Aborts(jobs, r)
    ensures summary.Some? ==> IsSummary(jobs, results, summary.value)
  {
    var passed, failed, valgrind, crashed, skipped := 0, 0, 0, 0, 0;
    var failedJobs: seq<nat> := [];
    assert results[..|results|] == results;
    for i := 0 to |jobs|
      invariant passed == Sum(results[..i], Passes) && failed == Sum(results[..i], Fails)
      invariant valgrind == Sum(results[..i], Valgrinds) && crashed == Sum(results[..i], Crashes)
      invariant skipped == Sum(results[..i], Skips)
      invariant forall k | 0 <= k < i :: !Aborts(jobs, results[k])
      invariant forall id: nat :: Occurrences(failedJobs, id) == Sum(results[..i], ListingsOf(jobs, id))
    {
      var r := results[i];
      assert r in results;
      Advance(jobs, results, i);
      match r.outcome {
        case Interrupted =>
        case Skipped => skipped := skipped + 1;
        case Ran(returncode, xml) =>
          ghost var before := failedJobs;
          failedJobs := failedJobs + [r.id];
          if returncode == 0 {
            passed := passed + 1;
            failedJobs := failedJobs[..|failedJobs| - 1];
          } else if returncode == 1 {
            failed := failed + 1;
          } else if returncode == 2 {
            valgrind := valgrind + 1;
          } else {
            crashed := crashed + 1;
          }
          assert failedJobs == before + Copies(r.id, if returncode == 0 then 0 else 1);
          if !jobs[r.id].example {
            failedJobs := failedJobs + [r.id];
            if returncode == 0 || returncode == 1 || returncode == 2 {
              if xml.Unreadable? {
                return None;
              }
              if xml.Passed? {
                failedJobs := failedJobs[..|failedJobs| - 1];
              }
            }
          }
          assert failedJobs == before + Copies(r.id, Listings(jobs, r));
          Appended(before, r.id, Listings(jobs, r));
      }
    }
    Partition(results);
    NeitherPassedNorSkipped(results);
    return Some(Summary(passed, failed, valgrind, crashed, skipped, failedJobs,
                        if passed + skipped == |jobs| then 0 else 1));
  }

  function Copies(id: nat, n: nat): (ids: seq<nat>)
    ensures |ids| == n && forall i | 0 <= i < n :: ids[i] == id
  {
    seq(n, i => id)
  }

  lemma {:induction false} Appended(ids: seq<nat>, id: nat, n: nat)
    requires n <= 2
    ensures forall x: nat :: Occurrences(ids + Copies(id, n), x) == Occurrences(ids, x) + if x == id then n else 0
  {
    if n == 0 {
      assert ids + Copies(id, n) == ids;
    } else {
      Appended(ids, id, n - 1);
      var shorter := ids + Copies(id, n - 1);
      assert ids + Copies(id, n) == shorter + [id];
      forall x: nat ensures Occurrences(shorter + [id], x) == Occurrences(shorter, x) + if x == id then 1 else 0 {
        AppendedOne(shorter, id, x);
      }
    }
  }

  lemma {:induction false} AppendedOne(ids: seq<nat>, id: nat, x: nat)
    ensures Occurrences(ids + [id], x) == Occurrences(ids, x) + if x == id then 1 else 0
  {
    if ids == [] {
      assert ids + [id] == [id];
    } else {
      assert (ids + [id])[1..] == ids[1..] + [id];
      AppendedOne(ids[1..], id, x);
    }
  }

  lemma Advance(jobs: seq<Job>, results: seq<Result>, i: nat)
    requires i < |results|
    ensures Sum(results[..i + 1], Passes) == Sum(results[..i], Passes) + Passes(results[i])
    ensures Sum(results[..i + 1], Fails) == Sum(results[..i], Fails) + Fails(results[i])
    ensures Sum(results[..i + 1], Valgrinds) == Sum(results[..i], Valgrinds) + Valgrinds(results[i])
    ensures Sum(results[..i + 1], Crashes) == Sum(results[..i], Crashes) + Crashes(results[i])
    ensures Sum(results[..i + 1], Skips) == Sum(results[..i], Skips) + Skips(results[i])
    ensures forall id: nat ::
      Sum(results[..i + 1], ListingsOf(jobs, id))
      == Sum(results[..i], ListingsOf(jobs, id)) + ListingsOf(jobs, id)(results[i])
  {
    assert results[..i + 1] == results[..i] + [results[i]];
    SumAppend(results[..i], results[i], Passes);
    SumAppend(results[..i], results[i], Fails);
    SumAppend(results[..i], results[i], Valgrinds);
    SumAppend(results[..i], results[i], Crashes);
    SumAppend(results[..i], results[i], Skips);
    forall id: nat
      ensures Sum(results[..i + 1], ListingsOf(jobs, id))
           == Sum(results[..i], ListingsOf(jobs, id)) + ListingsOf(jobs, id)(results[i])
    {
      SumAppend(results[..i], results[i], ListingsOf(jobs, id));
    }
  }

  /** Every result falls into exactly one of the six classes. */
  lemma {:induction false} Partition(results: seq<Result>)
    ensures Sum(results, Passes) + Sum(results, Fails) + Sum(results, Valgrinds)
            + Sum(results, Crashes) + Sum(results, Skips) + Sum(results, Interrupts) == |results|
  {
    if results != [] { Partition(results[1..]); }
  }

  lemma {:induction false} NeitherPassedNorSkipped(results: seq<Result>)
    ensures Sum(results, Passes) + Sum(results, Skips) <= |results|
    ensures Sum(results, Passes) + Sum(results, Skips) == |results|
       <==> Clean(results)
  {
    if results != [] {
      NeitherPassedNorSkipped(results[1..]);
      assert forall r :: r in results <==> r == results[0] || r in results[1..];
    }
  }

  // ---------- Over whole runs of the pool ----------

  /** The job has a result, and it is the one wanted: skipped, or run with return code 0. */
  ghost predicate Succeeded(c: Config, results: seq<Result>, id: nat)
    requires id < |c.jobs|
  {
    exists r :: r in results && r.id == id && (if c.jobs[id].skip then r.outcome.Skipped? else Returned(r, 0))
  }

  /** After a complete run of the pool the exit code, zero exactly for clean results, speaks
      for every job that was dispatched. */
  lemma CleanMeansEveryJobSucceeded(c: Config, s: State)
    requires Reachable(c, s) && Done(c, s)
    ensures |s.collected| == |c.jobs| && forall r | r in s.collected :: r.id < |c.jobs|
    ensures Clean(s.collected) <==> forall id: nat | id < |c.jobs| :: Succeeded(c, s.collected, id)
  {
    ReachableInv(c, s);
    DoneIsClean(c, s);
    if Clean(s.collected) {
      forall id: nat | id < |c.jobs| ensures Succeeded(c, s.collected, id) {
        OnlyReport(s.collected, id);
        var r :| r in s.collected && r.id == id;
        assert Legitimate(c, s.interrupted, r);
      }
    }
    if forall id: nat | id < |c.jobs| :: Succeeded(c, s.collected, id) {
      forall r | r in s.collected ensures r.outcome.Skipped? || Returned(r, 0) {
        assert Legitimate(c, s.interrupted, r) && Succeeded(c, s.collected, r.id);
        OnlyReport(s.collected, r.id);
      }
    }
  }

  /** A job that is reported once has one result. */
  lemma {:induction false} OnlyReport(results: seq<Result>, id: nat)
    requires Sum(results, Reports(id)) <= 1
    ensures Sum(results, Reports(id)) == 1 ==> exists r :: r in results && r.id == id
    ensures Sum(results, Reports(id)) == 0 ==> forall r | r in results :: r.id != id
    ensures forall r, q | r in results && q in results && r.id == q.id == id :: r == q
  {
    if results != [] {
      OnlyReport(results[1..], id);
      assert results[0] in results;
      assert forall r :: r in results <==> r == results[0] || r in results[1..];
    }
  }

  /** How often a job is in the final list, by its one result. */
  lemma {:induction false} ListedByItsResult(jobs: seq<Job>, results: seq<Result>, r: Result)
    requires r in results && Sum(results, Reports(r.id)) == 1
    ensures Sum(results, ListingsOf(jobs, r.id)) == Listings(jobs, r)
  {
    OnlyReport(results, r.id);
    if results[0].id == r.id {
      NotListed(jobs, results[1..], r.id);
    } else {
      assert r in results[1..];
      ListedByItsResult(jobs, results[1..], r);
    }
  }

  lemma {:induction false} NotListed(jobs: seq<Job>, results: seq<Result>, id: nat)
    requires Sum(results, Reports(id)) == 0
    ensures Sum(results, ListingsOf(jobs, id)) == 0
  {
    if results != [] { NotListed(jobs, results[1..], id); }
  }

  /** After an interrupt that finds a job waiting the exit code is not zero. */
  lemma InterruptFailsTheRun(c: Config, s: State, run: seq<Action>, id: nat)
    requires Reachable(c, s) && s.interrupted && IsRun(c, s, run) && Waiting(s, id) && id < |c.jobs|
    requires Reachable(c, After(c, s, run)) && Done(c, After(c, s, run))
    ensures !Clean(After(c, s, run).collected)
  {
    var t := After(c, s, run);
    ReachableInv(c, t);
    DoneIsClean(c, t);
    assert Sum(t.collected, Reports(id)) == 1;
    OnlyReport(t.collected, id);
    var r :| r in t.collected && r.id == id;
    WaitingJobsAreInterrupted(c, s, run, id, r);
  }

  // ---------- The summary in terms of return codes and result files ----------

  /** The codes that jobs returned. */
  function Codes(results: seq<Result>): multiset<int> {
    if results == [] then multiset{}
    else (if results[0].outcome.Ran? then multiset{results[0].outcome.returncode} else multiset{}) + Codes(results[1..])
  }

  lemma {:induction false} SumsByCode(results: seq<Result>)
    ensures var codes := Codes(results);
      Sum(results, Passes) == codes[0] && Sum(results, Fails) == codes[1] && Sum(results, Valgrinds) == codes[2]
      && Sum(results, Crashes) == |codes| - codes[0] - codes[1] - codes[2]
  {
    if results != [] { SumsByCode(results[1..]); }
  }

  /** The counters by return codes: 0 for passed, 1 for failed, 2 for valgrind errors, and any
      other for crashed. */
  lemma CountersByReturnCode(jobs: seq<Job>, results: seq<Result>, s: Summary)
    requires IsSummary(jobs, results, s)
    ensures var codes := Codes(results);
      s.passed == codes[0] && s.failed == codes[1] && s.valgrind == codes[2]
      && s.crashed == |codes| - codes[0] - codes[1] - codes[2]
  {
    SumsByCode(results);
  }

  /** How often a job is in the final list, by its one result: an example once if it returned
      something else than 0; a suite for that, and again if its code is none of 0, 1 and 2 or
      its file says neither PASS nor SKIP; a job that was not run never. */
  lemma FailedJobsByResult(jobs: seq<Job>, results: seq<Result>, s: Summary, r: Result)
    requires IsSummary(jobs, results, s) && r in results && r.id < |jobs| && Sum(results, Reports(r.id)) == 1
    ensures var n := Occurrences(s.failedJobs, r.id);
      match r.outcome
      case Ran(code, xml) =>
        if jobs[r.id].example then n == (if code != 0 then 1 else 0)
        else if code == 0 then n == (if xml == Passed then 0 else 1)
        else if code == 1 || code == 2 then n == (if xml == Passed then 1 else 2)
        else n == 2
      case _ => n == 0
  {
    ListedByItsResult(jobs, results, r);
    assert Occurrences(s.failedJobs, r.id) == Sum(results, ListingsOf(jobs, r.id));
  }
}
