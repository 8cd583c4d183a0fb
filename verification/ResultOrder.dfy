/** The order of what happens in the worker pool of test.py: results are collected first in, first
    out, the phases of the main thread follow each other, and an interrupt is seen by every worker
    that has not tested the flag yet.
 */
module ResultOrder {
  import opened WorkerPool

  // ----- the output queue

  /** The jobs that the workers put on the output queue, in the order in which they did. */
  function Puts(c: Config, s: State, steps: seq<Step>, t: State): seq<Job>
    requires Executes(c, s, steps, t)
    decreases |steps|
  {
    if steps == [] then []
    else (if steps[0].Put? then [s.workers[steps[0].w].job] else []) + Puts(c, Next(c, s, steps[0]), steps[1..], t)
  }

  /** Results are collected in the order in which they were put, whichever workers they come from. */
  lemma {:induction false} ResultsInOrder(c: Config, s: State, steps: seq<Step>, t: State)
    requires Executes(c, s, steps, t)
    ensures t.collected + t.outputQueue == s.collected + s.outputQueue + Puts(c, s, steps, t)
    decreases |steps|
  {
    if steps == [] {
    } else {
      hide Next, Enabled;
      var u := Next(c, s, steps[0]);
      ResultsInOrder(c, u, steps[1..], t);
      StepInOrder(c, s, steps[0]);
    }
  }

  lemma StepInOrder(c: Config, s: State, step: Step)
    requires Enabled(c, s, step)
    ensures var u := Next(c, s, step);
      u.collected + u.outputQueue
      == s.collected + s.outputQueue + (if step.Put? then [s.workers[step.w].job] else [])
  {
  }

  /** With one worker: what has been taken so far is collected, queued for that, or in its hands. */
  function InLine(s: State): seq<Job>
    requires |s.workers| == 1
  {
    s.collected + s.outputQueue + (if s.workers[0].Waiting? then [] else [s.workers[0].job])
  }

  ghost predicate OneByOne(c: Config, s: State) {
    && |s.workers| == 1 && |InLine(s)| == TakenCount(c, s)
    && forall i :: 0 <= i < |InLine(s)| ==> InLine(s)[i].id == i
  }

  lemma OneByOneStep(c: Config, s: State, step: Step)
    requires ValidConfig(c) && QueueInv(c, s) && OneByOne(c, s) && Enabled(c, s, step)
    ensures OneByOne(c, Next(c, s, step))
  {
    var t := Next(c, s, step);
    if step.Take? {
      TakeHead(c, s);
      assert InLine(t) == InLine(s) + [s.inputQueue[0]];
    } else {
      SameLine(c, s, step);
    }
  }

  lemma SameLine(c: Config, s: State, step: Step)
    requires Enabled(c, s, step) && !step.Take? && |s.workers| == 1
    ensures var t := Next(c, s, step);
      && |t.workers| == 1 && |InLine(t)| == |InLine(s)| && |t.inputQueue| + |t.todo| == |s.inputQueue| + |s.todo|
      && forall i :: 0 <= i < |InLine(s)| ==> InLine(t)[i].id == InLine(s)[i].id
  {
    var t := Next(c, s, step);
    if step.Put? || step.Collect? {
      assert InLine(t) == InLine(s);
    }
  }

  lemma {:induction false} OneByOneRun(c: Config, s: State, steps: seq<Step>, t: State)
    requires ValidConfig(c) && QueueInv(c, s) && OneByOne(c, s) && Executes(c, s, steps, t)
    ensures OneByOne(c, t)
    decreases |steps|
  {
    hide OneByOne, QueueInv;
    if steps == [] {
    } else {
      OneByOneStep(c, s, steps[0]);
      StepQueue(c, s, steps[0]);
      OneByOneRun(c, Next(c, s, steps[0]), steps[1..], t);
    }
  }

  /** A single worker returns the jobs in the order in which they were dispatched. */
  lemma OneWorkerKeepsOrder(c: Config, s: State)
    requires c.processors == 1 && Reachable(c, s)
    ensures forall i :: 0 <= i < |s.collected| ==> s.collected[i].id == i
  {
    InitInv(c);
    var steps: seq<Step> :| Executes(c, Init(c), steps, s);
    OneByOneRun(c, Init(c), steps, s);
    hide Init, Executes, QueueInv;
    assert forall i :: 0 <= i < |s.collected| ==> InLine(s)[i] == s.collected[i];
  }

  // ----- the main thread

  /** It collects nothing before everything is dispatched, and joins no worker before it has
      collected one result for every job. */
  ghost predicate PhasesInOrder(c: Config, s: State) {
    && (s.collected != [] ==> s.todo == [])
    && (s.joined > 0 ==> s.todo == [] && |s.collected| >= |c.jobs|)
    && |s.collected| <= |c.jobs|
  }

  lemma {:induction false} PhasesRun(c: Config, s: State, steps: seq<Step>, t: State)
    requires PhasesInOrder(c, s) && Executes(c, s, steps, t)
    ensures PhasesInOrder(c, t)
    decreases |steps|
  {
    if steps == [] {
    } else {
      PhasesRun(c, Next(c, s, steps[0]), steps[1..], t);
    }
  }

  lemma PhasesFollow(c: Config, s: State)
    requires Reachable(c, s)
    ensures PhasesInOrder(c, s)
  {
    var steps :| Executes(c, Init(c), steps, s);
    PhasesRun(c, Init(c), steps, s);
  }

  // ----- the interrupt

  /** Some worker has job `id` and has already tested the flag, or is done with it. */
  predicate Behind(s: State, id: nat) {
    || (exists w :: 0 <= w < |s.workers| && (s.workers[w].Cleared? || s.workers[w].Finished?)
                    && s.workers[w].job.id == id)
    || (exists i :: 0 <= i < |s.outputQueue| && s.outputQueue[i].id == id)
    || (exists i :: 0 <= i < |s.collected| && s.collected[i].id == id)
  }

  /** Job `id` is not about to run, and comes back marked if at all. */
  ghost predicate SentBack(s: State, id: nat) {
    && (forall w :: 0 <= w < |s.workers| && s.workers[w].Cleared? ==> s.workers[w].job.id != id)
    && (forall w :: 0 <= w < |s.workers| && s.workers[w].Finished? && s.workers[w].job.id == id ==>
          s.workers[w].job.isBreak)
    && (forall i :: 0 <= i < |s.outputQueue| && s.outputQueue[i].id == id ==> s.outputQueue[i].isBreak)
    && (forall i :: 0 <= i < |s.collected| && s.collected[i].id == id ==> s.collected[i].isBreak)
  }

  lemma {:induction false} SentBackRun(c: Config, s: State, steps: seq<Step>, t: State, id: nat)
    requires s.threadExit && SentBack(s, id) && Executes(c, s, steps, t)
    ensures SentBack(t, id)
    decreases |steps|
  {
    if steps == [] {
    } else {
      SentBackStep(c, s, steps[0], id);
      hide SentBack;
      SentBackRun(c, Next(c, s, steps[0]), steps[1..], t, id);
    }
  }

  lemma SentBackStep(c: Config, s: State, step: Step, id: nat)
    requires s.threadExit && SentBack(s, id) && Enabled(c, s, step)
    ensures SentBack(Next(c, s, step), id) && Next(c, s, step).threadExit
  {
  }

  /** An interrupt at any moment: a job whose worker has not tested the flag by then is not run,
      and comes back marked as interrupted. */
  lemma InterruptSendsBack(c: Config, s: State, after: seq<Step>, t: State, id: nat) returns (i: nat)
    requires Reachable(c, s) && Executes(c, s, [Interrupt] + after, t) && Final(c, t)
    requires id < |c.jobs| && !Behind(s, id)
    ensures i < |t.collected| && t.collected[i].id == id && t.collected[i].isBreak
  {
    assert ([Interrupt] + after)[1..] == after;
    SentBackRun(c, s.(threadExit := true), after, t, id);
    var steps: seq<Step> :| Executes(c, Init(c), steps, s);
    ExecutesConcat(c, Init(c), steps, s, [Interrupt] + after, t);
    assert Reachable(c, t);
    CleanShutdown(c, t);
    i := OneRunCopy(t.collected, id, Any);
  }

  lemma {:induction false} ExecutesConcat(c: Config, s: State, a: seq<Step>, t: State, b: seq<Step>, u: State)
    requires Executes(c, s, a, t) && Executes(c, t, b, u)
    ensures Executes(c, s, a + b, u)
    decreases |a|
  {
    if a == [] {
      assert a + b == b;
    } else {
      assert (a + b)[1..] == a[1..] + b;
      ExecutesConcat(c, Next(c, s, a[0]), a[1..], t, b, u);
    }
  }
}
