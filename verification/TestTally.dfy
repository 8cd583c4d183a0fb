/** The collector of test.py: what the main thread makes of the results it takes from the
    output queue, and the exit status of the whole run.
 */
module TestTally {
  import opened WorkerPool

  datatype Verdict = Interrupted | Skip | Pass | Fail | Valgrind | Crash

  function VerdictOf(job: Job): Verdict {
    if job.isBreak then Interrupted
    else if job.isSkip then Skip
    else if job.returncode == 0 then Pass
    else if job.returncode == 1 then Fail
    else if job.returncode == 2 then Valgrind
    else Crash
  }

  /** The results with a given verdict, in the order in which they came back. */
  function Select(v: Verdict, results: seq<Job>): seq<Job> {
    if results == [] then []
    else
      var i := |results| - 1;
      Select(v, results[..i]) + (if VerdictOf(results[i]) == v then [results[i]] else [])
  }

  function Names(jobs: seq<Job>): seq<string> {
    seq(|jobs|, i requires 0 <= i < |jobs| => jobs[i].name)
  }

  function NamesAndReasons(jobs: seq<Job>): seq<string> {
    seq(|jobs|, i requires 0 <= i < |jobs| => jobs[i].name + " (" + jobs[i].skipReason + ")")
  }

  /** The results of programs that were run and returned one of `codes`, or none of them. */
  function Returned(results: seq<Job>, codes: set<int>, oneOf: bool): seq<Job> {
    if results == [] then []
    else
      var i, job := |results| - 1, results[|results| - 1];
      Returned(results[..i], codes, oneOf)
      + (if !job.isBreak && !job.isSkip && (job.returncode in codes) == oneOf then [job] else [])
  }

  /** The results of jobs that were skipped. */
  function Skipped(results: seq<Job>): seq<Job> {
    if results == [] then []
    else
      var i, job := |results| - 1, results[|results| - 1];
      Skipped(results[..i]) + (if !job.isBreak && job.isSkip then [job] else [])
  }

  /** What the verdicts stand for: the return codes 0, 1 and 2 and all others, of jobs that were
      neither interrupted nor skipped. */
  lemma {:induction false} VerdictsByCode(results: seq<Job>)
    ensures Select(Pass, results) == Returned(results, {0}, true)
    ensures Select(Fail, results) == Returned(results, {1}, true)
    ensures Select(Valgrind, results) == Returned(results, {2}, true)
    ensures Select(Crash, results) == Returned(results, {0, 1, 2}, false)
    ensures Select(Skip, results) == Skipped(results)
  {
    if results == [] {
    } else {
      VerdictsByCode(results[..|results| - 1]);
    }
  }

  /** How often a result is on `failed_jobs` in the end: once for a verdict other than PASS,
      and once more for a test suite whose report is missing or holds another verdict than
      PASS or SKIP. */
  function FailedEntries(job: Job): nat {
    if job.isBreak || job.isSkip then 0
    else
      Bit(VerdictOf(job) != Pass) + Bit(job.kind == Suite && !(job.xmlPassed && 0 <= job.returncode <= 2))
  }

  function Repeat(job: Job, n: nat): seq<Job> { seq(n, i => job) }

  function FailedJobs(results: seq<Job>): seq<Job> {
    if results == [] then []
    else
      var i := |results| - 1;
      FailedJobs(results[..i]) + Repeat(results[i], FailedEntries(results[i]))
  }

  /** The counters and lists of the collector loop, and one turn of the loop. */
  class Collector {
    var passed: nat
    var failed: nat
    var crashed: nat
    var valgrind: nat
    var skipped: nat
    var skippedNames: seq<string>
    var failedNames: seq<string>
    var crashedNames: seq<string>
    var valgrindNames: seq<string>
    var failedJobs: seq<Job>

    constructor ()
      ensures Describes([])
    {
      passed, failed, crashed, valgrind, skipped := 0, 0, 0, 0, 0;
      skippedNames, failedNames, crashedNames, valgrindNames := [], [], [], [];
      failedJobs := [];
    }

    /** The collector has seen exactly `results`. */
    ghost predicate Describes(results: seq<Job>)
      reads this
    {
      && passed == |Select(Pass, results)|
      && failed == |Select(Fail, results)|
      && crashed == |Select(Crash, results)|
      && valgrind == |Select(Valgrind, results)|
      && skipped == |Select(Skip, results)|
      && skippedNames == NamesAndReasons(Select(Skip, results))
      && failedNames == Names(Select(Fail, results))
      && crashedNames == Names(Select(Crash, results))
      && valgrindNames == Names(Select(Valgrind, results))
      && failedJobs == FailedJobs(results)
    }

    /** One turn of the loop, for a job that was not interrupted or skipped: its verdict. */
    method CountVerdict(job: Job)
      requires !job.isBreak && !job.isSkip
      modifies `passed, `failed, `crashed, `valgrind, `failedNames, `crashedNames, `valgrindNames
      ensures passed == old(passed) + Bit(VerdictOf(job) == Pass)
      ensures failed == old(failed) + Bit(VerdictOf(job) == Fail)
      ensures crashed == old(crashed) + Bit(VerdictOf(job) == Crash)
      ensures valgrind == old(valgrind) + Bit(VerdictOf(job) == Valgrind)
      ensures failedNames == old(failedNames) + (if VerdictOf(job) == Fail then [job.name] else [])
      ensures crashedNames == old(crashedNames) + (if VerdictOf(job) == Crash then [job.name] else [])
      ensures valgrindNames == old(valgrindNames) + (if VerdictOf(job) == Valgrind then [job.name] else [])
    {
      if job.returncode == 0 {
        passed := passed + 1;
      } else if job.returncode == 1 {
        failed := failed + 1;
        failedNames := failedNames + [job.name];
      } else if job.returncode == 2 {
        valgrind := valgrind + 1;
        valgrindNames := valgrindNames + [job.name];
      } else {
        crashed := crashed + 1;
        crashedNames := crashedNames + [job.name];
      }
    }

    /** What becomes of the list of failed jobs; a pop always removes the entry of this very job. */
    method ListFailed(job: Job)
      requires !job.isBreak && !job.isSkip
      modifies `failedJobs
      ensures failedJobs == old(failedJobs)
              + (match FailedEntries(job) case 0 => [] case 1 => [job] case _ => [job, job])
    {
      failedJobs := failedJobs + [job];
      if job.returncode == 0 {
        failedJobs := failedJobs[..|failedJobs| - 1];
      }
      if job.kind == Suite {
        failedJobs := failedJobs + [job];
        if (job.returncode == 0 || job.returncode == 1 || job.returncode == 2) && job.xmlPassed {
          failedJobs := failedJobs[..|failedJobs| - 1];
        }
      }
    }

    /** One turn of the loop. */
    method Collect(job: Job)
      modifies this
      ensures passed == old(passed) + Bit(VerdictOf(job) == Pass)
      ensures failed == old(failed) + Bit(VerdictOf(job) == Fail)
      ensures crashed == old(crashed) + Bit(VerdictOf(job) == Crash)
      ensures valgrind == old(valgrind) + Bit(VerdictOf(job) == Valgrind)
      ensures skipped == old(skipped) + Bit(VerdictOf(job) == Skip)
      ensures skippedNames == old(skippedNames)
              + (if VerdictOf(job) == Skip then [job.name + " (" + job.skipReason + ")"] else [])
      ensures failedNames == old(failedNames) + (if VerdictOf(job) == Fail then [job.name] else [])
      ensures crashedNames == old(crashedNames) + (if VerdictOf(job) == Crash then [job.name] else [])
      ensures valgrindNames == old(valgrindNames) + (if VerdictOf(job) == Valgrind then [job.name] else [])
      ensures failedJobs == old(failedJobs)
              + (match FailedEntries(job) case 0 => [] case 1 => [job] case _ => [job, job])
      ensures var ran := !job.isBreak && !job.isSkip;
        && (passed > old(passed) <==> ran && job.returncode == 0)
        && (failed > old(failed) <==> ran && job.returncode == 1)
        && (valgrind > old(valgrind) <==> ran && job.returncode == 2)
        && (crashed > old(crashed) <==> ran && job.returncode !in {0, 1, 2})
        && (skipped > old(skipped) <==> !job.isBreak && job.isSkip)
    {
      if job.isBreak {
        return;
      }
      if job.isSkip {
        skipped := skipped + 1;
        skippedNames := skippedNames + [job.name + " (" + job.skipReason + ")"];
      } else {
        CountVerdict(job);
        ListFailed(job);
      }
    }

    /** The value run_tests returns. */
    method ExitStatus(totalTests: nat) returns (status: int)
      ensures status == if passed + skipped == totalTests then 0 else 1
    {
      status := if passed + skipped == totalTests then 0 else 1;
    }
  }

  /** The whole loop, over the results in the order in which they came back. */
  method CollectResults(results: seq<Job>) returns (collector: Collector, status: int)
    ensures fresh(collector) && collector.Describes(results)
    ensures collector.passed == |Returned(results, {0}, true)|
    ensures collector.failed == |Returned(results, {1}, true)|
    ensures collector.valgrind == |Returned(results, {2}, true)|
    ensures collector.crashed == |Returned(results, {0, 1, 2}, false)|
    ensures collector.skipped == |Skipped(results)|
    ensures collector.failedNames == Names(Returned(results, {1}, true))
    ensures collector.valgrindNames == Names(Returned(results, {2}, true))
    ensures collector.crashedNames == Names(Returned(results, {0, 1, 2}, false))
    ensures collector.skippedNames == NamesAndReasons(Skipped(results))
    ensures status == 0 <==> forall i :: 0 <= i < |results| ==> VerdictOf(results[i]) in {Pass, Skip}
  {
    collector := new Collector();
    for i := 0 to |results|
      invariant fresh(collector) && collector.Describes(results[..i])
    {
      assert results[..i + 1] == results[..i] + [results[i]];
      TallyStep(results[..i], results[i], results[..i + 1]);
      collector.Collect(results[i]);
    }
    assert results[..|results|] == results;
    ExitZeroIff(results);
    VerdictsByCode(results);
    status := collector.ExitStatus(|results|);
  }

  /** What one more result adds to each list. */
  lemma TallyStep(seen: seq<Job>, job: Job, next: seq<Job>)
    requires next == seen + [job]
    ensures forall v :: |Select(v, next)| == |Select(v, seen)| + Bit(VerdictOf(job) == v)
    ensures Names(Select(Fail, next)) == Names(Select(Fail, seen)) + (if VerdictOf(job) == Fail then [job.name] else [])
    ensures Names(Select(Crash, next))
            == Names(Select(Crash, seen)) + (if VerdictOf(job) == Crash then [job.name] else [])
    ensures Names(Select(Valgrind, next))
         == Names(Select(Valgrind, seen)) + (if VerdictOf(job) == Valgrind then [job.name] else [])
    ensures NamesAndReasons(Select(Skip, next))
         == NamesAndReasons(Select(Skip, seen))
            + (if VerdictOf(job) == Skip then [job.name + " (" + job.skipReason + ")"] else [])
    ensures FailedJobs(next) == FailedJobs(seen)
            + (match FailedEntries(job) case 0 => [] case 1 => [job] case _ => [job, job])
  {
    assert next[..|seen|] == seen;
    assert Repeat(job, 0) == [] && Repeat(job, 1) == [job] && Repeat(job, 2) == [job, job];
  }

  /** Every result is counted under exactly one verdict. */
  lemma {:induction false} EveryResultCounted(results: seq<Job>)
    ensures |Select(Pass, results)| + |Select(Fail, results)| + |Select(Crash, results)|
            + |Select(Valgrind, results)| + |Select(Skip, results)| + |Select(Interrupted, results)| == |results|
  {
    if results == [] {
    } else {
      EveryResultCounted(results[..|results| - 1]);
    }
  }

  lemma {:induction false} ExitZeroIff(results: seq<Job>)
    ensures |Select(Pass, results)| + |Select(Skip, results)| <= |results|
    ensures |Select(Pass, results)| + |Select(Skip, results)| == |results| <==>
            forall i :: 0 <= i < |results| ==> VerdictOf(results[i]) in {Pass, Skip}
  {
    if results == [] {
    } else {
      ExitZeroIff(results[..|results| - 1]);
    }
  }

  /** The counters do not depend on the order in which the workers happened to finish. */
  lemma {:induction false} OrderIndependent(v: Verdict, a: seq<Job>, b: seq<Job>)
    requires multiset(a) == multiset(b)
    ensures |Select(v, a)| == |Select(v, b)|
  {
    if a == [] {
      assert |b| == |multiset(b)| == |multiset(a)| == 0;
    } else {
      var last := |a| - 1;
      var i := FindEqual(a, b);
      OrderIndependent(v, a[..last], b[..i] + b[i + 1..]);
      SelectWithout(v, b, i);
    }
  }

  lemma FindEqual(a: seq<Job>, b: seq<Job>) returns (i: nat)
    requires a != [] && multiset(a) == multiset(b)
    ensures i < |b| && b[i] == a[|a| - 1]
    ensures multiset(a[..|a| - 1]) == multiset(b[..i] + b[i + 1..])
  {
    var last := |a| - 1;
    assert a[last] in multiset(b);
    i :| 0 <= i < |b| && b[i] == a[last];
    Without(a, last);
    Without(b, i);
    assert a[..last] + a[last + 1..] == a[..last];
  }

  lemma Without<T>(s: seq<T>, i: nat)
    requires i < |s|
    ensures multiset(s[..i] + s[i + 1..]) == multiset(s) - multiset{s[i]}
  {
    assert s == s[..i] + ([s[i]] + s[i + 1..]);
  }

  lemma SelectWithout(v: Verdict, b: seq<Job>, i: nat)
    requires i < |b|
    ensures |Select(v, b)| == |Select(v, b[..i] + b[i + 1..])| + Bit(VerdictOf(b[i]) == v)
  {
    assert b == b[..i] + [b[i]] + b[i + 1..];
    SelectAppend(v, b[..i] + [b[i]], b[i + 1..]);
    SelectAppend(v, b[..i], [b[i]]);
    SelectAppend(v, b[..i], b[i + 1..]);
  }

  lemma {:induction false} SelectAppend(v: Verdict, a: seq<Job>, b: seq<Job>)
    ensures Select(v, a + b) == Select(v, a) + Select(v, b)
  {
    if b == [] {
      assert a + b == a;
    } else {
      var i := |b| - 1;
      assert (a + b)[..|a| + i] == a + b[..i];
      SelectAppend(v, a, b[..i]);
    }
  }

  /** On the list of failed jobs, whose output --verbose-failed prints: a failed, crashed or
      valgrind result appears once or twice, a passed one at most once, and then it is a test
      suite whose report says otherwise; skipped and interrupted results never appear. */
  lemma FailedJobEntries(results: seq<Job>, i: nat)
    requires i < |results|
    requires forall j :: 0 <= j < |results| && j != i ==> results[j].id != results[i].id
    ensures var n, v := Copies(results[i].id, FailedJobs(results)), VerdictOf(results[i]);
      && (v in {Fail, Valgrind, Crash} ==> 1 <= n <= 2)
      && (v in {Interrupted, Skip} ==> n == 0)
      && (v == Pass ==> n <= 1 && (n == 1 <==> results[i].kind == Suite && !results[i].xmlPassed))
      && (v == Crash ==> (n == 2 <==> results[i].kind == Suite))
      && (v in {Fail, Valgrind} ==> (n == 2 <==> results[i].kind == Suite && !results[i].xmlPassed))
  {
    FailedCopies(results, i);
  }

  lemma {:induction false} FailedCopies(results: seq<Job>, i: nat)
    requires i < |results|
    requires forall j :: 0 <= j < |results| && j != i ==> results[j].id != results[i].id
    ensures Copies(results[i].id, FailedJobs(results)) == FailedEntries(results[i])
  {
    hide FailedEntries, Copies;
    var id, last := results[i].id, |results| - 1;
    var front, tail := FailedJobs(results[..last]), Repeat(results[last], FailedEntries(results[last]));
    CopiesAppend(id, front, tail);
    RepeatCopies(id, results[last], FailedEntries(results[last]));
    if i == last {
      NoFailedCopies(results[..last], id);
    } else {
      FailedCopies(results[..last], i);
    }
  }

  lemma {:induction false} NoFailedCopies(results: seq<Job>, id: nat)
    requires forall j :: 0 <= j < |results| ==> results[j].id != id
    ensures Copies(id, FailedJobs(results)) == 0
  {
    if results == [] {
    } else {
      var last := |results| - 1;
      NoFailedCopies(results[..last], id);
      CopiesAppend(id, FailedJobs(results[..last]), Repeat(results[last], FailedEntries(results[last])));
      RepeatCopies(id, results[last], FailedEntries(results[last]));
    }
  }

  lemma {:induction false} RepeatCopies(id: nat, job: Job, n: nat)
    ensures Copies(id, Repeat(job, n)) == if job.id == id then n else 0
  {
    if n == 0 {
    } else {
      assert Repeat(job, n)[1..] == Repeat(job, n - 1);
      RepeatCopies(id, job, n - 1);
    }
  }

  /** The result of job `id` is in and does not count against the run. */
  ghost predicate CameBackClean(c: Config, results: seq<Job>, id: nat)
    requires id < |c.jobs|
  {
    exists i :: 0 <= i < |results| && results[i].id == id && !results[i].isBreak
                && (c.jobs[id].isSkip || results[i].returncode == 0)
  }

  /** The exit status of a whole run, in terms of the jobs that were dispatched: success
      exactly when no job was interrupted and each was to be skipped or returned 0. */
  lemma RunSucceedsIff(c: Config, s: State)
    requires Reachable(c, s) && Final(c, s)
    ensures |Select(Pass, s.collected)| + |Select(Skip, s.collected)| == |c.jobs| <==>
            forall id :: 0 <= id < |c.jobs| ==> CameBackClean(c, s.collected, id)
  {
    CleanShutdown(c, s);
    ReachableInv(c, s);
    ExitZeroIff(s.collected);
    forall i | 0 <= i < |s.collected|
      ensures VerdictOf(s.collected[i]) in {Pass, Skip} <==> CameBackClean(c, s.collected, s.collected[i].id)
    {
      CleanIff(c, s, i);
    }
    if forall i :: 0 <= i < |s.collected| ==> VerdictOf(s.collected[i]) in {Pass, Skip} {
      forall id: nat | id < |c.jobs| ensures CameBackClean(c, s.collected, id) {
        var i := FindCopy(id, s.collected);
        assert CameBackClean(c, s.collected, s.collected[i].id);
      }
    }
  }

  lemma CleanIff(c: Config, s: State, i: nat)
    requires i < |s.collected| && IsResult(c, s.threadExit, s.collected[i])
    requires Copies(s.collected[i].id, s.collected) == 1
    requires ValidConfig(c)
    ensures VerdictOf(s.collected[i]) in {Pass, Skip} <==> CameBackClean(c, s.collected, s.collected[i].id)
  {
    var id := s.collected[i].id;
    if CameBackClean(c, s.collected, id) {
      var j :| 0 <= j < |s.collected| && s.collected[j].id == id && !s.collected[j].isBreak
               && (c.jobs[id].isSkip || s.collected[j].returncode == 0);
      OneCopy(id, s.collected, i, j);
    }
  }

  lemma {:induction false} FindCopy(id: nat, jobs: seq<Job>) returns (i: nat)
    requires Copies(id, jobs) > 0
    ensures i < |jobs| && jobs[i].id == id
  {
    if jobs[0].id == id { return 0; }
    i := FindCopy(id, jobs[1..]);
    i := i + 1;
  }

  lemma {:induction false} OneCopy(id: nat, jobs: seq<Job>, i: nat, j: nat)
    requires Copies(id, jobs) == 1
    requires i < |jobs| && j < |jobs| && jobs[i].id == id && jobs[j].id == id
    ensures i == j
  {
    if jobs[0].id == id {
      if i > 0 { assert jobs[i] == jobs[1..][i - 1]; CopyCounts(id, jobs[1..], i - 1); }
      if j > 0 { assert jobs[j] == jobs[1..][j - 1]; CopyCounts(id, jobs[1..], j - 1); }
    } else {
      OneCopy(id, jobs[1..], i - 1, j - 1);
    }
  }

  lemma {:induction false} CopyCounts(id: nat, jobs: seq<Job>, i: nat)
    requires i < |jobs| && jobs[i].id == id
    ensures Copies(id, jobs) > 0
  {
    if i == 0 {
    } else {
      CopyCounts(id, jobs[1..], i - 1);
    }
  }
}
