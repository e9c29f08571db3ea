/**
 `run_ranges` of crates/adrive/src/handler/download_ranges.rs, as the state machine of the futures
 combinator it calls, running the range jobs of crates/adrive/src/handler/share_content_ranges.rs.

 A run is any sequence of enabled events: the stream starts the next range while fewer than
 `concurrency` jobs are in flight; a job writes its next bytes at its own offset, may restart its
 attempt (three in all), completes when its range is full, or fails; the first failure drops every
 other job; the run succeeds when the stream is exhausted and no job is left.
 */
module RangeScheduler {
  import opened DownloadRanges

  const MAX_ATTEMPTS: nat := 3

  datatype Job = Job(written: nat, attempt: nat)

  datatype Outcome = Running | Succeeded | Failed(error: string)

  /** What a run is given: the ranges in stream order, the concurrency and the remote bytes. */
  datatype Setup = Setup(plan: seq<DownloadRange>, concurrency: nat, source: seq<bv8>)

  datatype State = State(next: nat, jobs: map<nat, Job>, done: seq<nat>, file: seq<bv8>, outcome: Outcome)

  datatype Event =
    | Start
    | Write(k: nat, count: nat)
    | Retry(k: nat)
    | Complete(k: nat)
    | Fail(k: nat, error: string)
    | Finish

  /** The state in which the combinator is first polled; zero concurrency is rejected before that. */
  function Begin(setup: Setup, file: seq<bv8>): State {
    State(0, map[], [], file,
          if setup.concurrency == 0 then Failed("multipart concurrency must be positive") else Running)
  }

  predicate Enabled(setup: Setup, s: State, e: Event) {
    s.outcome.Running?
    && match e
       case Start => s.next < |setup.plan| && |s.jobs| < setup.concurrency
       case Write(k, count) =>
         k in s.jobs && k < |setup.plan| && 0 < count <= setup.plan[k].size - s.jobs[k].written
       case Retry(k) => k in s.jobs && s.jobs[k].attempt + 1 < MAX_ATTEMPTS
       case Complete(k) => k in s.jobs && k < |setup.plan| && s.jobs[k].written == setup.plan[k].size
       case Fail(k, _) => k in s.jobs
       case Finish => s.next == |setup.plan| && s.jobs == map[]
  }

  /** `write_at`: the bytes land at an offset of the preallocated file, whatever else was written. */
  function WriteAt(file: seq<bv8>, offset: nat, bytes: seq<bv8>): (r: seq<bv8>)
    requires offset + |bytes| <= |file|
    ensures |r| == |file|
    ensures forall i :: 0 <= i < |file| ==>
              r[i] == if offset <= i < offset + |bytes| then bytes[i - offset] else file[i]
  {
    file[..offset] + bytes + file[offset + |bytes|..]
  }

  /** The plan fits the remote bytes. */
  ghost predicate Fits(setup: Setup) {
    forall k :: 0 <= k < |setup.plan| ==> setup.plan[k].End() <= |setup.source|
  }

  function Apply(setup: Setup, s: State, e: Event): State
    requires Fits(setup) && |s.file| == |setup.source| && Enabled(setup, s, e)
  {
    match e
    case Start => s.(next := s.next + 1, jobs := s.jobs[s.next := Job(0, 0)])
    case Write(k, count) =>
      var job := s.jobs[k];
      var at := setup.plan[k].offset + job.written;
      s.(jobs := s.jobs[k := job.(written := job.written + count)],
         file := WriteAt(s.file, at, setup.source[at..at + count]))
    case Retry(k) => s.(jobs := s.jobs[k := Job(0, s.jobs[k].attempt + 1)])
    case Complete(k) => s.(jobs := s.jobs - {k}, done := s.done + [k])
    case Fail(_, error) => s.(jobs := map[], outcome := Failed(error))
    case Finish => s.(outcome := Succeeded)
  }

  ghost predicate Legal(setup: Setup, s: State, events: seq<Event>)
    requires Fits(setup) && |s.file| == |setup.source|
    decreases |events|
  {
    events == []
    || (Enabled(setup, s, events[0]) && Legal(setup, Apply(setup, s, events[0]), events[1..]))
  }

  ghost function After(setup: Setup, s: State, events: seq<Event>): State
    requires Fits(setup) && |s.file| == |setup.source| && Legal(setup, s, events)
    decreases |events|
  {
    if events == [] then s else After(setup, Apply(setup, s, events[0]), events[1..])
  }

  // ----- What every step keeps -----

  ghost predicate Apart(plan: seq<DownloadRange>) {
    forall j, k :: 0 <= j < k < |plan| ==> plan[j].End() <= plan[k].offset || plan[k].End() <= plan[j].offset
  }

  /** The file agrees with the remote bytes on the first `count` bytes of a range. */
  ghost predicate Agrees(setup: Setup, s: State, k: nat, count: nat)
    requires Fits(setup) && |s.file| == |setup.source| && k < |setup.plan| && count <= setup.plan[k].size
  {
    var offset := setup.plan[k].offset;
    forall i :: offset <= i < offset + count ==> s.file[i] == setup.source[i]
  }

  ghost predicate Bounded(setup: Setup, s: State) {
    && |s.jobs| <= setup.concurrency
    && s.next <= |setup.plan|
    && (forall k :: k in s.jobs ==> k < s.next && s.jobs[k].written <= setup.plan[k].size
                                    && s.jobs[k].attempt < MAX_ATTEMPTS)
    && (!s.outcome.Running? ==> s.jobs == map[])
    && (s.outcome.Succeeded? ==> s.next == |setup.plan|)
  }

  /** Every started range is in flight or done, never both, and done at most once (unless a failure dropped it). */
  ghost predicate Accounted(s: State) {
    && (forall i :: 0 <= i < |s.done| ==> s.done[i] < s.next && s.done[i] !in s.jobs)
    && (forall i, j :: 0 <= i < j < |s.done| ==> s.done[i] != s.done[j])
    && (!s.outcome.Failed? ==> forall k :: 0 <= k < s.next ==> k in s.jobs || k in s.done)
  }

  ghost predicate Transferred(setup: Setup, s: State)
    requires Fits(setup) && |s.file| == |setup.source| && Bounded(setup, s) && Accounted(s)
  {
    && (forall k :: k in s.jobs ==> Agrees(setup, s, k, s.jobs[k].written))
    && (forall i :: 0 <= i < |s.done| ==> Agrees(setup, s, s.done[i], setup.plan[s.done[i]].size))
  }

  ghost predicate Inv(setup: Setup, s: State) {
    Fits(setup) && |s.file| == |setup.source| && Bounded(setup, s) && Accounted(s) && Transferred(setup, s)
  }

  lemma {:induction false} StepKeepsBounds(setup: Setup, s: State, e: Event)
    requires Fits(setup) && |s.file| == |setup.source| && Bounded(setup, s) && Enabled(setup, s, e)
    ensures Bounded(setup, Apply(setup, s, e))
  {
  }

  lemma {:induction false} StepKeepsAccount(setup: Setup, s: State, e: Event)
    requires Inv(setup, s) && Enabled(setup, s, e)
    ensures Accounted(Apply(setup, s, e))
  {
  }

  /** A write by one job leaves what the others have written: their ranges do not meet. */
  lemma {:induction false} WriteLeavesOthers(setup: Setup, s: State, e: Event, k: nat, count: nat)
    requires Inv(setup, s) && Apart(setup.plan) && e.Write? && Enabled(setup, s, e)
    requires k < |setup.plan| && k != e.k && count <= setup.plan[k].size && Agrees(setup, s, k, count)
    ensures Agrees(setup, Apply(setup, s, e), k, count)
  {
  }

  lemma {:induction false} WriteKeepsJob(setup: Setup, s: State, e: Event, k: nat)
    requires Inv(setup, s) && Apart(setup.plan) && e.Write? && Enabled(setup, s, e) && k in s.jobs
    ensures var s' := Apply(setup, s, e);
            k in s'.jobs && s'.jobs[k].written <= setup.plan[k].size && Agrees(setup, s', k, s'.jobs[k].written)
  {
  }

  lemma {:induction false} WriteKeepsTransfers(setup: Setup, s: State, e: Event)
    requires Inv(setup, s) && Apart(setup.plan) && e.Write? && Enabled(setup, s, e)
    requires Bounded(setup, Apply(setup, s, e)) && Accounted(Apply(setup, s, e))
    ensures Transferred(setup, Apply(setup, s, e))
  {
    var s' := Apply(setup, s, e);
    forall k | k in s'.jobs
      ensures Agrees(setup, s', k, s'.jobs[k].written)
    {
      WriteKeepsJob(setup, s, e, k);
    }
    forall i | 0 <= i < |s'.done|
      ensures Agrees(setup, s', s'.done[i], setup.plan[s'.done[i]].size)
    {
      WriteLeavesOthers(setup, s, e, s.done[i], setup.plan[s.done[i]].size);
    }
  }

  lemma {:induction false} CompleteKeepsTransfers(setup: Setup, s: State, e: Event)
    requires Inv(setup, s) && e.Complete? && Enabled(setup, s, e)
    requires Bounded(setup, Apply(setup, s, e)) && Accounted(Apply(setup, s, e))
    ensures Transferred(setup, Apply(setup, s, e))
  {
  }

  lemma {:induction false} OtherStepKeepsTransfers(setup: Setup, s: State, e: Event)
    requires Inv(setup, s) && !e.Write? && !e.Complete? && Enabled(setup, s, e)
    requires Bounded(setup, Apply(setup, s, e)) && Accounted(Apply(setup, s, e))
    ensures Transferred(setup, Apply(setup, s, e))
  {
  }

  lemma {:induction false} StepKeepsInv(setup: Setup, s: State, e: Event)
    requires Inv(setup, s) && Apart(setup.plan) && Enabled(setup, s, e)
    ensures Inv(setup, Apply(setup, s, e))
  {
    StepKeepsBounds(setup, s, e);
    StepKeepsAccount(setup, s, e);
    if e.Write? {
      WriteKeepsTransfers(setup, s, e);
    } else if e.Complete? {
      CompleteKeepsTransfers(setup, s, e);
    } else {
      OtherStepKeepsTransfers(setup, s, e);
    }
  }

  lemma {:induction false} RunKeepsInv(setup: Setup, s: State, events: seq<Event>)
    requires Inv(setup, s) && Apart(setup.plan) && Legal(setup, s, events)
    ensures Inv(setup, After(setup, s, events))
    decreases |events|
  {
    if events != [] {
      StepKeepsInv(setup, s, events[0]);
      RunKeepsInv(setup, Apply(setup, s, events[0]), events[1..]);
    }
  }

  // ----- Safety over all runs -----

  function Starts(events: seq<Event>): nat {
    if events == [] then 0 else (if events[0].Start? then 1 else 0) + Starts(events[1..])
  }

  lemma {:induction false} StartsAreCounted(setup: Setup, s: State, events: seq<Event>)
    requires Fits(setup) && |s.file| == |setup.source| && Legal(setup, s, events)
    ensures After(setup, s, events).next == s.next + Starts(events)
    decreases |events|
  {
    if events != [] {
      StartsAreCounted(setup, Apply(setup, s, events[0]), events[1..]);
    }
  }

  /**
   After any run: at most `concurrency` jobs are in flight; the ranges started are the first ones of
   the stream, each once; no range is done twice; and once the run has an outcome nothing more happens.
   Zero concurrency is rejected with no event at all.
   */
  lemma {:induction false} SchedulerSafety(setup: Setup, file: seq<bv8>, events: seq<Event>)
    requires Fits(setup) && Apart(setup.plan) && |file| == |setup.source|
    requires Legal(setup, Begin(setup, file), events)
    ensures var s := After(setup, Begin(setup, file), events);
            && |s.jobs| <= setup.concurrency
            && s.next == Starts(events) <= |setup.plan|
            && (forall k :: k in s.jobs || k in s.done ==> k < s.next)
            && (forall i, j :: 0 <= i < j < |s.done| ==> s.done[i] != s.done[j])
            && (!s.outcome.Running? ==> s.jobs == map[] && forall e :: !Enabled(setup, s, e))
    ensures setup.concurrency == 0 ==>
              events == [] && Begin(setup, file).outcome == Failed("multipart concurrency must be positive")
  {
    var begin := Begin(setup, file);
    assert Inv(setup, begin);
    RunKeepsInv(setup, begin, events);
    StartsAreCounted(setup, begin, events);
  }

  /** A failed run reports the error of its one failing job, and that failure is its last event. */
  lemma {:induction false} FirstFailureIsReported(setup: Setup, s: State, events: seq<Event>)
    requires Fits(setup) && |s.file| == |setup.source| && Legal(setup, s, events)
    requires s.outcome.Running?
    ensures var s' := After(setup, s, events);
            s'.outcome.Failed?
            <==> exists i :: 0 <= i < |events| && events[i].Fail?
    ensures forall i :: 0 <= i < |events| && events[i].Fail? ==>
              i == |events| - 1 && After(setup, s, events).outcome == Failed(events[i].error)
    decreases |events|
  {
    if events != [] {
      var s1 := Apply(setup, s, events[0]);
      var rest := events[1..];
      if s1.outcome.Running? {
        FirstFailureIsReported(setup, s1, rest);
        assert forall i :: 0 < i < |events| ==> events[i] == rest[i - 1];
        assert forall i :: 0 <= i < |rest| ==> rest[i] == events[i + 1];
      } else {
        assert rest == [];
      }
    }
  }

  // ----- Reassembly -----

  lemma {:induction false} PartsApart(size: nat)
    ensures Apart(Parts(size))
  {
  }

  /** Every planned range done: the done list is a rearrangement of all plan positions. */
  ghost predicate DoneOnce(setup: Setup, s: State) {
    && (forall k :: 0 <= k < |setup.plan| ==> k in s.done)
    && (forall i :: 0 <= i < |s.done| ==> s.done[i] < |setup.plan|)
    && (forall i, j :: 0 <= i < j < |s.done| ==> s.done[i] != s.done[j])
  }

  /**
   Any-order reassembly: whatever the size, the remote bytes, the initial file contents, the positive
   concurrency and the interleaving of starts, partial writes, retries and completions, a successful
   run transferred each planned range exactly once and left exactly the remote bytes in the file.
   */
  lemma {:induction false} AnyOrderReassembly(source: seq<bv8>, concurrency: nat, file: seq<bv8>, events: seq<Event>)
    requires |file| == |source|
    requires var setup := Setup(Parts(|source|), concurrency, source);
             Legal(setup, Begin(setup, file), events)
             && After(setup, Begin(setup, file), events).outcome.Succeeded?
    ensures var setup := Setup(Parts(|source|), concurrency, source);
            var s := After(setup, Begin(setup, file), events);
            DoneOnce(setup, s) && s.file == source
  {
    var setup := Setup(Parts(|source|), concurrency, source);
    var begin := Begin(setup, file);
    PartsApart(|source|);
    assert Inv(setup, begin);
    RunKeepsInv(setup, begin, events);
    var s := After(setup, begin, events);
    forall i | 0 <= i < |source|
      ensures s.file[i] == source[i]
    {
      EachByteInOnePart(|source|, i);
      var k := i / PART_SIZE;
      assert k in s.done;
      var j :| 0 <= j < |s.done| && s.done[j] == k;
      assert Agrees(setup, s, k, setup.plan[k].size);
    }
  }

  // ----- Every run ends, and none gets stuck -----

  /** Work left for one range: every event on it uses some up. */
  function Work(setup: Setup, s: State, k: nat): int
    requires k < |setup.plan|
  {
    var size := setup.plan[k].size;
    if k >= s.next then 4 + 3 * size
    else if k in s.jobs then
      (match s.jobs[k].attempt case 0 => 2 * (size + 1) case 1 => size + 1 case _ => 0) + size - s.jobs[k].written + 1
    else 0
  }

  function TotalWork(setup: Setup, s: State, n: nat): int
    requires n <= |setup.plan|
  {
    if n == 0 then (if s.outcome.Running? then 1 else 0) else TotalWork(setup, s, n - 1) + Work(setup, s, n - 1)
  }

  lemma {:induction false} WorkIsNatural(setup: Setup, s: State, n: nat)
    requires n <= |setup.plan| && Bounded(setup, s)
    ensures TotalWork(setup, s, n) >= 0
  {
    if n > 0 {
      WorkIsNatural(setup, s, n - 1);
    }
  }

  lemma {:induction false} WorkOfOthers(setup: Setup, s: State, s': State, n: nat, k: nat)
    requires n <= |setup.plan| && k < |setup.plan| && s.outcome.Running? == s'.outcome.Running?
    requires forall j :: 0 <= j < |setup.plan| && j != k ==> Work(setup, s, j) == Work(setup, s', j)
    ensures TotalWork(setup, s', n) - TotalWork(setup, s, n)
            == if k < n then Work(setup, s', k) - Work(setup, s, k) else 0
  {
    if n > 0 {
      WorkOfOthers(setup, s, s', n - 1, k);
    }
  }

  lemma {:induction false} WorkAfterEnd(setup: Setup, s: State, s': State, n: nat)
    requires n <= |setup.plan| && s.outcome.Running? && !s'.outcome.Running?
    requires forall j :: 0 <= j < |setup.plan| ==> Work(setup, s', j) <= Work(setup, s, j)
    ensures TotalWork(setup, s', n) < TotalWork(setup, s, n)
  {
    if n > 0 {
      WorkAfterEnd(setup, s, s', n - 1);
    }
  }

  lemma {:induction false} StepUsesWork(setup: Setup, s: State, e: Event)
    requires Inv(setup, s) && Enabled(setup, s, e)
    ensures var n := |setup.plan|; TotalWork(setup, Apply(setup, s, e), n) < TotalWork(setup, s, n)
  {
    var n := |setup.plan|;
    var s' := Apply(setup, s, e);
    match e
    case Start => WorkOfOthers(setup, s, s', n, s.next);
    case Write(k, _) => WorkOfOthers(setup, s, s', n, k);
    case Retry(k) => WorkOfOthers(setup, s, s', n, k);
    case Complete(k) => WorkOfOthers(setup, s, s', n, k);
    case Fail(_, _) => WorkAfterEnd(setup, s, s', n);
    case Finish => WorkAfterEnd(setup, s, s', n);
  }

  /** Every run is finite: its length is at most the work at its start. */
  lemma {:induction false} RunsEnd(setup: Setup, s: State, events: seq<Event>)
    requires Inv(setup, s) && Apart(setup.plan) && Legal(setup, s, events)
    ensures |events| <= TotalWork(setup, s, |setup.plan|)
    decreases |events|
  {
    if events == [] {
      WorkIsNatural(setup, s, |setup.plan|);
    } else {
      StepKeepsInv(setup, s, events[0]);
      StepUsesWork(setup, s, events[0]);
      RunsEnd(setup, Apply(setup, s, events[0]), events[1..]);
    }
  }

  /** No run gets stuck: while it is running, some event other than a failure is enabled. */
  lemma {:induction false} NeverStuck(setup: Setup, s: State) returns (e: Event)
    requires Inv(setup, s) && s.outcome.Running? && setup.concurrency > 0
    ensures Enabled(setup, s, e) && !e.Fail? && !e.Retry?
  {
    if s.jobs != map[] {
      var k :| k in s.jobs;
      var missing := setup.plan[k].size - s.jobs[k].written;
      e := if missing == 0 then Complete(k) else Write(k, missing);
    } else if s.next < |setup.plan| {
      e := Start;
    } else {
      e := Finish;
    }
  }
}
