/**
 Which runs of the range scheduler there are: the combinator neither holds a job back nor orders the
 jobs in flight, and a job may be interrupted, retried or fail at any moment.
 */
module RangeRuns {
  import opened Prelude
  import opened RangeScheduler

  lemma {:induction false} RunConcat(setup: Setup, s: State, a: seq<Event>, b: seq<Event>)
    requires Fits(setup) && |s.file| == |setup.source| && Legal(setup, s, a)
    ensures |After(setup, s, a).file| == |setup.source|
    ensures Legal(setup, After(setup, s, a), b) ==>
              Legal(setup, s, a + b) && After(setup, s, a + b) == After(setup, After(setup, s, a), b)
    decreases |a|
  {
    if a == [] {
      assert a + b == b;
    } else {
      assert (a + b)[1..] == a[1..] + b;
      RunConcat(setup, Apply(setup, s, a[0]), a[1..], b);
    }
  }

  lemma {:induction false} OneEvent(setup: Setup, s: State, e: Event)
    requires Fits(setup) && |s.file| == |setup.source|
    ensures Legal(setup, s, [e]) <==> Enabled(setup, s, e)
    ensures Legal(setup, s, [e]) ==>
              After(setup, s, [e]) == Apply(setup, s, e) && |After(setup, s, [e]).file| == |setup.source|
  {
    assert [e][1..] == [];
  }

  // ----- Starting -----

  function StartEvents(n: nat): (events: seq<Event>)
    ensures |events| == n
    ensures n > 0 ==> events == [Start] + StartEvents(n - 1)
  {
    if n == 0 then [] else [Start] + StartEvents(n - 1)
  }

  /** The next `n` ranges are in flight too, with nothing written, and nothing else has changed. */
  ghost predicate MoreStarted(s: State, s': State, n: nat) {
    && s' == s.(next := s.next + n, jobs := s'.jobs)
    && |s'.jobs| == |s.jobs| + n
    && (forall k: nat :: k in s'.jobs <==> k in s.jobs || s.next <= k < s.next + n)
    && (forall k :: k in s'.jobs ==> s'.jobs[k] == if k in s.jobs then s.jobs[k] else Job(0, 0))
  }

  lemma {:induction false} MoreAfterOne(s: State, s1: State, s': State, n: nat)
    requires s.next !in s.jobs && s1 == s.(next := s.next + 1, jobs := s.jobs[s.next := Job(0, 0)])
    requires MoreStarted(s1, s', n)
    ensures MoreStarted(s, s', n + 1)
  {
  }

  /** As many jobs as there are free slots and ranges left can be put in flight, one after the other. */
  lemma {:induction false} SlotsCanBeFilled(setup: Setup, s: State, n: nat)
    requires Fits(setup) && |s.file| == |setup.source| && s.outcome.Running?
    requires forall k :: k in s.jobs ==> k < s.next
    requires |s.jobs| + n <= setup.concurrency && s.next + n <= |setup.plan|
    ensures Legal(setup, s, StartEvents(n)) && MoreStarted(s, After(setup, s, StartEvents(n)), n)
    decreases n
  {
    if n > 0 {
      var s' := Apply(setup, s, Start);
      assert s.next !in s.jobs && |s'.jobs| == |s.jobs| + 1;
      SlotsCanBeFilled(setup, s', n - 1);
      OneEvent(setup, s, Start);
      RunConcat(setup, s, [Start], StartEvents(n - 1));
      MoreAfterOne(s, s', After(setup, s', StartEvents(n - 1)), n - 1);
    }
  }

  /** From the beginning, up to `concurrency` ranges are in flight together before any of them is done. */
  lemma {:induction false} FullConcurrency(setup: Setup, file: seq<bv8>, n: nat)
    requires Fits(setup) && |file| == |setup.source| && n <= setup.concurrency && n <= |setup.plan|
    ensures Legal(setup, Begin(setup, file), StartEvents(n))
    ensures var s := After(setup, Begin(setup, file), StartEvents(n));
            |s.jobs| == n && forall k: nat :: k in s.jobs <==> k < n
  {
    if n > 0 {
      SlotsCanBeFilled(setup, Begin(setup, file), n);
    }
  }

  // ----- A job in flight -----

  /**
   A job in flight can do, at any moment, exactly this: write any number of its missing bytes, start
   over while it is in its first or second attempt, be done when no byte is missing, and fail.
   */
  lemma {:induction false} JobIsFree(setup: Setup, s: State, k: nat, count: nat, error: string)
    requires Inv(setup, s) && s.outcome.Running? && k in s.jobs
    ensures var job := s.jobs[k];
            && (Legal(setup, s, [Write(k, count)]) <==> 1 <= count <= setup.plan[k].size - job.written)
            && (Legal(setup, s, [Retry(k)]) <==> job.attempt in {0, 1})
            && (Legal(setup, s, [Complete(k)]) <==> job.written == setup.plan[k].size)
            && Legal(setup, s, [Fail(k, error)])
  {
    OneEvent(setup, s, Write(k, count));
    OneEvent(setup, s, Retry(k));
    OneEvent(setup, s, Complete(k));
    OneEvent(setup, s, Fail(k, error));
  }

  /** A retry gives up what the attempt has written, but touches neither the file nor another job. */
  lemma {:induction false} RetryStartsOver(setup: Setup, s: State, k: nat)
    requires Inv(setup, s) && Legal(setup, s, [Retry(k)])
    ensures After(setup, s, [Retry(k)]) == s.(jobs := s.jobs[k := Job(0, s.jobs[k].attempt + 1)])
  {
    OneEvent(setup, s, Retry(k));
  }

  /** Every range gets three attempts and no fourth, wherever the earlier ones were interrupted. */
  lemma {:induction false} ThreeAttempts(setup: Setup, s: State, k: nat, first: nat, second: nat)
    requires Inv(setup, s) && s.outcome.Running? && k in s.jobs && s.jobs[k] == Job(0, 0)
    requires 1 <= first <= setup.plan[k].size && 1 <= second <= setup.plan[k].size
    ensures var tries := [Write(k, first), Retry(k), Write(k, second), Retry(k)];
            && Legal(setup, s, tries) && |After(setup, s, tries).file| == |setup.source|
            && After(setup, s, tries).jobs == s.jobs[k := Job(0, 2)]
            && !Legal(setup, After(setup, s, tries), [Retry(k)])
  {
    var s1 := Apply(setup, s, Write(k, first));
    var s2 := Apply(setup, s1, Retry(k));
    var s3 := Apply(setup, s2, Write(k, second));
    OneEvent(setup, s, Write(k, first));
    OneEvent(setup, s1, Retry(k));
    OneEvent(setup, s2, Write(k, second));
    OneEvent(setup, s3, Retry(k));
    OneEvent(setup, Apply(setup, s3, Retry(k)), Retry(k));
    RunConcat(setup, s2, [Write(k, second)], [Retry(k)]);
    RunConcat(setup, s1, [Retry(k)], [Write(k, second)] + [Retry(k)]);
    RunConcat(setup, s, [Write(k, first)], [Retry(k)] + ([Write(k, second)] + [Retry(k)]));
    assert [Write(k, first)] + ([Retry(k)] + ([Write(k, second)] + [Retry(k)]))
           == [Write(k, first), Retry(k), Write(k, second), Retry(k)];
  }

  // ----- Orders of completion -----

  ghost predicate IsOrder(order: seq<nat>, n: nat) {
    && |order| == n
    && (forall p :: 0 <= p < n ==> order[p] < n)
    && (forall p, q :: 0 <= p < q < n ==> order[p] != order[q])
  }

  /** Some successful run completes the ranges in this order. */
  ghost predicate CanComplete(setup: Setup, file: seq<bv8>, order: seq<nat>)
    requires Fits(setup) && |file| == |setup.source|
  {
    exists events :: Legal(setup, Begin(setup, file), events)
                     && After(setup, Begin(setup, file), events).outcome.Succeeded?
                     && After(setup, Begin(setup, file), events).done == order
  }

  /** When the range at position `p` is completed, only `p` ranges are done and so at most `p + concurrency` started. */
  ghost predicate InWindow(setup: Setup, s: State) {
    && (!s.outcome.Failed? ==> s.next == |s.done| + |s.jobs|)
    && |s.jobs| <= setup.concurrency
    && (forall k :: k in s.jobs ==> k < s.next)
    && (forall p :: 0 <= p < |s.done| ==> s.done[p] < p + setup.concurrency)
  }

  lemma {:induction false} StepKeepsWindow(setup: Setup, s: State, e: Event)
    requires Fits(setup) && |s.file| == |setup.source| && InWindow(setup, s) && Enabled(setup, s, e)
    ensures InWindow(setup, Apply(setup, s, e))
  {
    if e.Complete? {
      assert |s.jobs - {e.k}| == |s.jobs| - 1 by {
        RemovedSize(s.jobs, e.k);
      }
    } else if e.Start? {
      assert s.next !in s.jobs;
    } else if e.Write? {
      SameSize(s.jobs, e.k, Apply(setup, s, e).jobs[e.k]);
    } else if e.Retry? {
      SameSize(s.jobs, e.k, Apply(setup, s, e).jobs[e.k]);
    }
  }

  lemma {:induction false} RemovedSize(jobs: map<nat, Job>, k: nat)
    requires k in jobs
    ensures |jobs - {k}| == |jobs| - 1
  {
    assert (jobs - {k}).Keys == jobs.Keys - {k};
    assert |jobs - {k}| == |(jobs - {k}).Keys| && |jobs| == |jobs.Keys|;
  }

  lemma {:induction false} SameSize(jobs: map<nat, Job>, k: nat, job: Job)
    requires k in jobs
    ensures |jobs[k := job]| == |jobs|
  {
    assert jobs[k := job].Keys == jobs.Keys;
    assert |jobs[k := job]| == |jobs[k := job].Keys| && |jobs| == |jobs.Keys|;
  }

  lemma {:induction false} RunKeepsWindow(setup: Setup, s: State, events: seq<Event>)
    requires Fits(setup) && |s.file| == |setup.source| && InWindow(setup, s) && Legal(setup, s, events)
    ensures InWindow(setup, After(setup, s, events))
    decreases |events|
  {
    if events != [] {
      StepKeepsWindow(setup, s, events[0]);
      RunKeepsWindow(setup, Apply(setup, s, events[0]), events[1..]);
    }
  }

  /** `p` ranges are done, in the given order, and as many as possible of the others are in flight and untouched. */
  ghost predicate Reached(setup: Setup, s: State, order: seq<nat>, p: nat) {
    && Fits(setup) && |s.file| == |setup.source| && s.outcome.Running?
    && p <= |order| && s.done == order[..p]
    && s.next == Min(p + setup.concurrency, |setup.plan|)
    && |s.jobs| == s.next - p
    && (forall k: nat :: k in s.jobs <==> k < s.next && k !in s.done)
    && (forall k :: k in s.jobs ==> s.jobs[k] == Job(0, 0))
    && (forall i :: 0 <= i < p ==> order[i] < s.next)
  }

  /** One range is transferred and completed. */
  lemma {:induction false} TransferNext(setup: Setup, s: State, order: seq<nat>, p: nat)
    returns (events: seq<Event>)
    requires Reached(setup, s, order, p) && p < |order| && IsOrder(order, |setup.plan|)
    requires order[p] < p + setup.concurrency
    ensures Legal(setup, s, events)
    ensures var s' := After(setup, s, events);
            s'.jobs == s.jobs - {order[p]} && s'.done == order[..p + 1] && s'.next == s.next
            && s'.outcome.Running? && |s'.file| == |setup.source|
  {
    var k := order[p];
    var size := setup.plan[k].size;
    assert k in s.jobs;
    assert order[..p + 1] == order[..p] + [k];
    OneEvent(setup, s, Complete(k));
    if size == 0 {
      events := [Complete(k)];
    } else {
      var s1 := Apply(setup, s, Write(k, size));
      events := [Write(k, size)] + [Complete(k)];
      OneEvent(setup, s, Write(k, size));
      OneEvent(setup, s1, Complete(k));
      RunConcat(setup, s, [Write(k, size)], [Complete(k)]);
      assert s1.jobs - {k} == s.jobs - {k};
    }
  }

  lemma {:induction false} StartedReaches(setup: Setup, s: State, order: seq<nat>, p: nat)
    requires Fits(setup) && |s.file| == |setup.source| && s.outcome.Running?
    requires 0 < p <= |order| && s.done == order[..p] && s.next == Min(p - 1 + setup.concurrency, |setup.plan|)
    requires s.next < |setup.plan| && |s.jobs| == s.next - p && IsOrder(order, |setup.plan|)
    requires forall k: nat :: k in s.jobs <==> k < s.next && k !in s.done
    requires forall k :: k in s.jobs ==> s.jobs[k] == Job(0, 0)
    requires forall i :: 0 <= i < p ==> order[i] < s.next
    ensures Enabled(setup, s, Start) && Reached(setup, Apply(setup, s, Start), order, p)
  {
    assert s.next !in s.jobs;
    assert forall i :: 0 <= i < p ==> s.done[i] == order[i];
  }

  /** And its slot is filled again, if a range is left. */
  lemma {:induction false} RefillSlot(setup: Setup, s: State, s1: State, order: seq<nat>, p: nat)
    returns (events: seq<Event>)
    requires Reached(setup, s, order, p) && p < |order| && IsOrder(order, |setup.plan|) && order[p] in s.jobs
    requires s1.jobs == s.jobs - {order[p]} && s1.done == order[..p + 1] && s1.next == s.next
    requires s1.outcome.Running? && |s1.file| == |setup.source|
    ensures Legal(setup, s1, events) && Reached(setup, After(setup, s1, events), order, p + 1)
  {
    RemovedSize(s.jobs, order[p]);
    assert order[..p + 1] == order[..p] + [order[p]];
    if s.next < |setup.plan| {
      events := [Start];
      OneEvent(setup, s1, Start);
      StartedReaches(setup, s1, order, p + 1);
    } else {
      events := [];
    }
  }

  lemma {:induction false} CompleteRest(setup: Setup, s: State, order: seq<nat>, p: nat)
    returns (events: seq<Event>)
    requires Reached(setup, s, order, p) && IsOrder(order, |setup.plan|)
    requires forall q :: 0 <= q < |order| ==> order[q] < q + setup.concurrency
    ensures Legal(setup, s, events)
    ensures After(setup, s, events).outcome.Succeeded? && After(setup, s, events).done == order
    decreases |order| - p
  {
    if p == |order| {
      events := [Finish];
      assert events[1..] == [] && order[..p] == order;
    } else {
      hide Legal, After, Reached;
      var transfer := TransferNext(setup, s, order, p);
      var s1 := After(setup, s, transfer);
      InFlight(setup, s, order, p);
      var refill := RefillSlot(setup, s, s1, order, p);
      ReachedFits(setup, After(setup, s1, refill), order, p + 1);
      var rest := CompleteRest(setup, After(setup, s1, refill), order, p + 1);
      RunConcat(setup, s1, refill, rest);
      RunConcat(setup, s, transfer, refill + rest);
      events := transfer + (refill + rest);
    }
  }

  lemma {:induction false} ReachedFits(setup: Setup, s: State, order: seq<nat>, p: nat)
    requires Reached(setup, s, order, p)
    ensures Fits(setup) && |s.file| == |setup.source|
  {
  }

  lemma {:induction false} InFlight(setup: Setup, s: State, order: seq<nat>, p: nat)
    requires Reached(setup, s, order, p) && p < |order| && IsOrder(order, |setup.plan|)
    requires order[p] < p + setup.concurrency
    ensures order[p] in s.jobs
  {
  }

  /**
   The ranges can be completed in a given order exactly when none comes earlier than the slots allow:
   the range at stream position `k` has at least `k - concurrency + 1` ranges done before it.
   */
  lemma {:induction false} OrderIsPossibleIff(setup: Setup, file: seq<bv8>, order: seq<nat>)
    requires Fits(setup) && |file| == |setup.source| && setup.concurrency > 0 && IsOrder(order, |setup.plan|)
    ensures CanComplete(setup, file, order) <==> forall p :: 0 <= p < |order| ==> order[p] < p + setup.concurrency
  {
    var begin := Begin(setup, file);
    if CanComplete(setup, file, order) {
      var events :| Legal(setup, begin, events) && After(setup, begin, events).outcome.Succeeded?
                    && After(setup, begin, events).done == order;
      RunKeepsWindow(setup, begin, events);
    }
    if forall p :: 0 <= p < |order| ==> order[p] < p + setup.concurrency {
      var n := Min(setup.concurrency, |setup.plan|);
      SlotsCanBeFilled(setup, begin, n);
      var started := After(setup, begin, StartEvents(n));
      assert Reached(setup, started, order, 0);
      var rest := CompleteRest(setup, started, order, 0);
      RunConcat(setup, begin, StartEvents(n), rest);
    }
  }
}
