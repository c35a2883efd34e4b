/** The workflow-inbox benchmark: workers that share one cursor and take turns at `await`. */
module Benchmark {
  import opened Options
  import opened Sequences
  import opened Percentiles

  datatype Failure = Failure(status: int, message: string)

  /** What request number `i` will come to: a response after so many milliseconds, which may
      carry an HTTP failure, or an exception out of `fetch`. */
  datatype Outcome = Reply(ms: real, failure: Option<Failure>) | Throws

  /** The part of the configuration that decides a run, and what the requests will come to. */
  datatype Job = Job(total: nat, concurrency: nat, outcome: nat -> Outcome)

  /** A worker before its first claim, waiting for a response, returned, or rejected. */
  datatype Worker = Fresh | Awaiting(request: nat) | Returned | Rejected(request: nat)

  /** The variables the workers share; `settled` remembers which request each sample is of. */
  datatype State = State(cursor: nat, workers: seq<Worker>, durations: seq<real>,
                         failures: seq<Failure>, settled: seq<nat>)

  datatype Event = Start(worker: nat) | Settle(worker: nat)

  function Min(a: nat, b: nat): nat {
    if a < b then a else b
  }

  function FreshWorkers(n: nat): (ws: seq<Worker>)
    ensures |ws| == n && forall w :: 0 <= w < n ==> ws[w] == Fresh
  {
    seq(n, _ => Fresh)
  }

  function Initial(concurrency: nat): State {
    State(0, FreshWorkers(concurrency), [], [], [])
  }

  /** The head of the worker's loop: take the next index or return. */
  function Claim(s: State, w: nat, total: nat): State
    requires w < |s.workers|
  {
    s.(cursor := s.cursor + 1,
       workers := s.workers[w := if s.cursor >= total then Returned else Awaiting(s.cursor)])
  }

  predicate Enabled(s: State, e: Event) {
    match e
    case Start(w) => w < |s.workers| && s.workers[w].Fresh?
    case Settle(w) => w < |s.workers| && s.workers[w].Awaiting?
  }

  function FailureOf(o: Outcome): seq<Failure>
    requires o.Reply?
  {
    if o.failure.Some? then [o.failure.value] else []
  }

  /** One turn of one worker, from one `await` to the next. */
  function Step(s: State, e: Event, job: Job): State
    requires Enabled(s, e)
  {
    match e
    case Start(w) => Claim(s, w, job.total)
    case Settle(w) =>
      var i := s.workers[w].request;
      var o := job.outcome(i);
      if o.Throws? then s.(workers := s.workers[w := Rejected(i)])
      else
        var recorded := s.(durations := s.durations + [o.ms], failures := s.failures + FailureOf(o),
                           settled := s.settled + [i]);
        Claim(recorded, w, job.total)
  }

  /** The run of the closures in `runBenchmark`, worker by worker. */
  class Runner {
    var cursor: nat
    var workers: seq<Worker>
    var durations: seq<real>
    var failures: seq<Failure>
    ghost var settled: seq<nat>
    const job: Job

    ghost function Now(): State
      reads this
    {
      State(cursor, workers, durations, failures, settled)
    }

    constructor (job: Job)
      ensures Now() == Initial(job.concurrency) && this.job == job
    {
      this.job := job;
      cursor, durations, failures, settled := 0, [], [], [];
      workers := FreshWorkers(job.concurrency);
    }

    method ClaimNext(w: nat)
      requires w < |workers|
      modifies `cursor, `workers
      ensures Now() == Claim(old(Now()), w, job.total)
    {
      var current := cursor;
      cursor := cursor + 1;
      if current >= job.total {
        workers := workers[w := Returned];
        return;
      }
      workers := workers[w := Awaiting(current)];
    }

    method Advance(e: Event)
      requires Enabled(Now(), e)
      modifies this
      ensures Now() == Step(old(Now()), e, job)
    {
      match e
      case Start(w) =>
        ClaimNext(w);
      case Settle(w) =>
        var i := workers[w].request;
        match job.outcome(i) {
          case Throws =>
            workers := workers[w := Rejected(i)];
          case Reply(ms, failure) =>
            durations := durations + [ms];
            settled := settled + [i];
            assert failure.None? ==> failures + [] == failures;
            if failure.Some? {
              failures := failures + [failure.value];
            }
            ClaimNext(w);
        }
    }

    /** Behind `Promise.all`: sort the samples in place, summarise, and throw or not. */
    method Finish(threshold: real) returns (summary: Summary, error: Option<BenchmarkError>)
      modifies `durations
      ensures durations == Sort(old(durations))
      ensures summary == Summarize(durations, |failures|, threshold)
      ensures error.None? <==> summary.passed
      ensures error.Some? ==> error.value == if |failures| > 0 then HttpFailures(|failures|)
                                             else TooSlow(summary.p95, threshold)
    {
      durations := Sort(durations);
      summary := Summarize(durations, |failures|, threshold);
      if |failures| > 0 {
        return summary, Some(HttpFailures(|failures|));
      }
      if summary.p95 >= threshold {
        return summary, Some(TooSlow(summary.p95, threshold));
      }
      error := None;
    }
  }

  // ----- the verdict

  datatype Summary = Summary(samples: nat, failedRequests: nat, p50: real, p95: real, p99: real,
                             min: real, max: real, mean: real, passed: bool)

  datatype BenchmarkError = HttpFailures(count: nat) | TooSlow(p95: real, threshold: real)

  /** The summary of sorted samples. */
  function Summarize(sorted: seq<real>, failed: nat, threshold: real): Summary {
    var n := |sorted|;
    Summary(n, failed, Percentile(sorted, 50), Percentile(sorted, 95), Percentile(sorted, 99),
            if n > 0 then sorted[0] else 0.0, if n > 0 then sorted[n - 1] else 0.0,
            Mean(sorted),
            failed == 0 && Percentile(sorted, 95) < threshold)
  }

  /** `passed` says: no failure, and at least 95 percent of the samples strictly below the
      threshold, in whatever order they arrived. */
  lemma PassedMeaning(durations: seq<real>, failed: nat, threshold: real)
    ensures Summarize(Sort(durations), failed, threshold).passed <==>
            failed == 0 && (if durations == [] then 0.0 < threshold
                            else 100 * Below(durations, threshold) >= 95 * |durations|)
  {
    SortSorts(durations);
    if durations != [] {
      PercentileMeaning(durations, 95, threshold);
    }
  }

  lemma SummaryOrdered(durations: seq<real>, failed: nat, threshold: real)
    ensures var s := Summarize(Sort(durations), failed, threshold);
            && s.min <= s.p50 <= s.p95 <= s.p99 <= s.max
            && s.min <= s.mean <= s.max
            && s.samples == |durations|
  {
    var sorted := Sort(durations);
    SortSorts(durations);
    hide Percentile, Mean, Sort;
    PercentileMonotone(sorted, 50, 95);
    PercentileMonotone(sorted, 95, 99);
    if durations != [] {
      PercentileBounds(sorted, 50);
      PercentileBounds(sorted, 99);
      MeanBounds(sorted);
    } else {
      assert Percentile([], 50) == Percentile([], 95) == Percentile([], 99) == Mean([]) == 0.0 by {
        NoSamples();
      }
    }
  }

  /** Each percentile reported is below a value exactly when at least that percentage of the samples
      is, the mean is their sum divided by their number, and the extremes are samples that bound
      all others. */
  lemma SummaryMeaning(durations: seq<real>, failed: nat, threshold: real, x: real)
    requires durations != []
    ensures var s := Summarize(Sort(durations), failed, threshold);
            && s.samples == |durations| && s.failedRequests == failed
            && (s.p50 < x <==> 100 * Below(durations, x) >= 50 * |durations|)
            && (s.p95 < x <==> 100 * Below(durations, x) >= 95 * |durations|)
            && (s.p99 < x <==> 100 * Below(durations, x) >= 99 * |durations|)
            && s.mean * |durations| as real == Sum(durations)
            && s.min in durations && s.max in durations
            && forall k :: 0 <= k < |durations| ==> s.min <= durations[k] <= s.max
  {
    hide Percentile, Sort, Below, Mean, Sum;
    PercentileMeaning(durations, 50, x);
    PercentileMeaning(durations, 95, x);
    PercentileMeaning(durations, 99, x);
    MeanMeaning(durations);
    Extremes(durations);
  }

  /** Without samples every figure is zero, and the run still passes if nothing failed. */
  lemma EmptySummary(failed: nat, threshold: real)
    ensures Summarize(Sort([]), failed, threshold)
         == Summary(0, failed, 0.0, 0.0, 0.0, 0.0, 0.0, 0.0, failed == 0 && 0.0 < threshold)
  {
  }

  lemma Extremes(durations: seq<real>)
    requires durations != []
    ensures var sorted := Sort(durations);
            && |sorted| == |durations|
            && sorted[0] in durations && sorted[|sorted| - 1] in durations
            && forall k :: 0 <= k < |durations| ==> sorted[0] <= durations[k] <= sorted[|sorted| - 1]
  {
    var sorted := Sort(durations);
    SortSorts(durations);
    assert sorted[0] in multiset(durations) && sorted[|sorted| - 1] in multiset(durations);
    forall k | 0 <= k < |durations| ensures sorted[0] <= durations[k] <= sorted[|sorted| - 1] {
      assert durations[k] in multiset(sorted);
      var i :| 0 <= i < |sorted| && sorted[i] == durations[k];
    }
  }

  lemma NoSamples()
    ensures Percentile([], 50) == Percentile([], 95) == Percentile([], 99) == Mean([]) == 0.0
  {
  }

  // ----- who holds which request

  /** The requests in flight. */
  function InFlight(ws: seq<Worker>): multiset<nat> {
    if ws == [] then multiset{} else OfAwaiting(ws[0]) + InFlight(ws[1..])
  }

  function OfAwaiting(w: Worker): multiset<nat> {
    if w.Awaiting? then multiset{w.request} else multiset{}
  }

  /** The requests that ended in an exception. */
  function Lost(ws: seq<Worker>): multiset<nat> {
    if ws == [] then multiset{} else OfRejected(ws[0]) + Lost(ws[1..])
  }

  function OfRejected(w: Worker): multiset<nat> {
    if w.Rejected? then multiset{w.request} else multiset{}
  }

  function CountOf(ws: seq<Worker>, kind: Worker): nat {
    multiset(ws)[kind]
  }

  /** Each index below `n`, once. */
  function Range(n: nat): multiset<nat> {
    if n == 0 then multiset{} else Range(n - 1) + multiset{n - 1}
  }

  lemma {:induction false} RangeOnce(n: nat)
    ensures |Range(n)| == n
    ensures forall i: nat :: Range(n)[i] == if i < n then 1 else 0
  {
    if n == 0 {
    } else {
      RangeOnce(n - 1);
      var before := Range(n - 1);
      assert Range(n) == before + multiset{n - 1};
      hide Range;
      forall i: nat ensures Range(n)[i] == if i < n then 1 else 0 {
        assert before[i] == if i < n - 1 then 1 else 0;
      }
    }
  }

  lemma RangeNext(cursor: nat, total: nat)
    ensures Range(Min(cursor + 1, total)) ==
            Range(Min(cursor, total)) + OfAwaiting(if cursor >= total then Returned else Awaiting(cursor))
  {
  }

  lemma {:induction false} InFlightUpdate(ws: seq<Worker>, w: nat, x: Worker)
    requires w < |ws|
    ensures OfAwaiting(ws[w]) <= InFlight(ws)
    ensures InFlight(ws[w := x]) == InFlight(ws) - OfAwaiting(ws[w]) + OfAwaiting(x)
  {
    hide OfAwaiting;
    var us := ws[w := x];
    if w == 0 {
      assert us[1..] == ws[1..];
    } else {
      InFlightUpdate(ws[1..], w - 1, x);
      assert us[1..] == ws[1..][w - 1 := x];
    }
  }

  lemma {:induction false} LostUpdate(ws: seq<Worker>, w: nat, x: Worker)
    requires w < |ws| && !ws[w].Rejected?
    ensures Lost(ws[w := x]) == Lost(ws) + OfRejected(x)
  {
    var us := ws[w := x];
    if w == 0 {
      assert us[1..] == ws[1..];
    } else {
      LostUpdate(ws[1..], w - 1, x);
      assert us[1..] == ws[1..][w - 1 := x];
    }
  }

  lemma {:induction false} InFlightSize(ws: seq<Worker>)
    ensures |InFlight(ws)| <= |ws|
    ensures forall w :: 0 <= w < |ws| && ws[w].Awaiting? ==> ws[w].request in InFlight(ws)
  {
    if ws == [] {
    } else {
      InFlightSize(ws[1..]);
      assert forall w :: 1 <= w < |ws| ==> ws[w] == ws[1..][w - 1];
    }
  }

  lemma {:induction false} NobodyLeft(ws: seq<Worker>)
    requires forall w :: 0 <= w < |ws| ==> ws[w].Returned?
    ensures InFlight(ws) == Lost(ws) == multiset{}
    ensures CountOf(ws, Returned) == |ws| && CountOf(ws, Fresh) == 0
  {
    if ws == [] {
    } else {
      NobodyLeft(ws[1..]);
      assert ws == [Returned] + ws[1..];
    }
  }

  lemma CountUpdate(ws: seq<Worker>, w: nat, x: Worker, kind: Worker)
    requires w < |ws|
    ensures CountOf(ws[w := x], kind) ==
            CountOf(ws, kind) - (if ws[w] == kind then 1 else 0) + (if x == kind then 1 else 0)
  {
    assert ws == ws[..w] + [ws[w]] + ws[w + 1..];
    assert ws[w := x] == ws[..w] + [x] + ws[w + 1..];
  }

  lemma Exchange(done: multiset<nat>, held: multiset<nat>, lost: multiset<nat>,
                 before: multiset<nat>, after: multiset<nat>, all: multiset<nat>)
    requires before <= held && done + (held - before) + lost == all
    ensures done + (held - before + after) + lost == all + after
  {
  }

  // ----- runs

  function Samples(outcome: nat -> Outcome, settled: seq<nat>): (ms: seq<real>)
    requires forall k :: 0 <= k < |settled| ==> outcome(settled[k]).Reply?
    ensures |ms| == |settled| && forall k :: 0 <= k < |settled| ==> ms[k] == outcome(settled[k]).ms
  {
    seq(|settled|, k requires 0 <= k < |settled| => outcome(settled[k]).ms)
  }

  /** The HTTP failures that the settled requests came back with, in that order. */
  function Failing(outcome: nat -> Outcome, settled: seq<nat>): seq<Failure>
    requires forall k :: 0 <= k < |settled| ==> outcome(settled[k]).Reply?
  {
    if settled == [] then []
    else
      var last := |settled| - 1;
      Failing(outcome, settled[..last]) + FailureOf(outcome(settled[last]))
  }

  /** Samples and failures are those of the settled requests, in the order they settled. */
  ghost predicate Records(s: State, job: Job) {
    && (forall k :: 0 <= k < |s.settled| ==> s.settled[k] < job.total && job.outcome(s.settled[k]).Reply?)
    && s.durations == Samples(job.outcome, s.settled)
    && s.failures == Failing(job.outcome, s.settled)
  }

  /** Each index below `n`, and no other, is settled, in flight or lost, once. */
  ghost predicate Covered(settled: seq<nat>, workers: seq<Worker>, n: nat) {
    multiset(settled) + InFlight(workers) + Lost(workers) == Range(n)
  }

  /** The claim protocol: below the cursor every index is settled, in flight or lost, once. */
  ghost predicate Inv(s: State, job: Job) {
    && |s.workers| == job.concurrency
    && Covered(s.settled, s.workers, Min(s.cursor, job.total))
    && s.cursor == Min(s.cursor, job.total) + CountOf(s.workers, Returned)
    && (forall w :: 0 <= w < |s.workers| && s.workers[w].Awaiting? ==> s.workers[w].request < job.total)
    && Records(s, job)
  }

  lemma {:induction false} InitialInv(job: Job)
    ensures Inv(Initial(job.concurrency), job)
    ensures CountOf(Initial(job.concurrency).workers, Fresh) == job.concurrency
  {
    AllFresh(job.concurrency);
  }

  lemma OneMoreFresh(ws: seq<Worker>, rest: seq<Worker>)
    requires |ws| == |rest| + 1 && ws[0] == Fresh && forall w :: 0 <= w < |rest| ==> ws[w + 1] == rest[w]
    ensures InFlight(ws) == InFlight(rest) && Lost(ws) == Lost(rest)
    ensures CountOf(ws, Fresh) == CountOf(rest, Fresh) + 1 && CountOf(ws, Returned) == CountOf(rest, Returned)
  {
    assert ws[1..] == rest;
    assert ws == [Fresh] + rest;
    assert multiset(ws) == multiset{Fresh} + multiset(rest);
  }

  lemma {:induction false} AllFresh(n: nat)
    ensures var ws := FreshWorkers(n);
            InFlight(ws) == Lost(ws) == multiset{} && CountOf(ws, Fresh) == n && CountOf(ws, Returned) == 0
  {
    if n == 0 {
    } else {
      hide InFlight, Lost, CountOf, FreshWorkers;
      AllFresh(n - 1);
      OneMoreFresh(FreshWorkers(n), FreshWorkers(n - 1));
    }
  }

  lemma ClaimKeepsInv(s: State, w: nat, total: nat, done: multiset<nat>)
    requires w < |s.workers| && (s.workers[w].Fresh? || s.workers[w].Awaiting?)
    requires OfAwaiting(s.workers[w]) <= InFlight(s.workers)
    requires done + (InFlight(s.workers) - OfAwaiting(s.workers[w])) + Lost(s.workers) == Range(Min(s.cursor, total))
    requires s.cursor == Min(s.cursor, total) + CountOf(s.workers, Returned)
    ensures var t := Claim(s, w, total);
            && done + InFlight(t.workers) + Lost(t.workers) == Range(Min(t.cursor, total))
            && t.cursor == Min(t.cursor, total) + CountOf(t.workers, Returned)
            && CountOf(t.workers, Fresh) == CountOf(s.workers, Fresh) - (if s.workers[w].Fresh? then 1 else 0)
            && Lost(t.workers) == Lost(s.workers)
  {
    hide InFlight, Lost, CountOf, Range, OfAwaiting;
    RangeNext(s.cursor, total);
    var x := if s.cursor >= total then Returned else Awaiting(s.cursor);
    InFlightUpdate(s.workers, w, x);
    LostUpdate(s.workers, w, x);
    CountUpdate(s.workers, w, x, Returned);
    CountUpdate(s.workers, w, x, Fresh);
    Exchange(done, InFlight(s.workers), Lost(s.workers), OfAwaiting(s.workers[w]), OfAwaiting(x),
             Range(Min(s.cursor, total)));
  }

  /** How far a run has come: each turn adds one. */
  function Progress(s: State): int {
    |s.settled| + |Lost(s.workers)| - CountOf(s.workers, Fresh)
  }

  lemma StartKeepsInv(s: State, w: nat, job: Job)
    requires Inv(s, job) && Enabled(s, Start(w))
    ensures var t := Step(s, Start(w), job);
            Inv(t, job) && Progress(t) == Progress(s) + 1
  {
    hide InFlight, Lost, CountOf, Range;
    ClaimKeepsInv(s, w, job.total, multiset(s.settled));
  }

  lemma ThrowKeepsInv(s: State, w: nat, job: Job)
    requires Inv(s, job) && Enabled(s, Settle(w)) && job.outcome(s.workers[w].request).Throws?
    ensures var t := Step(s, Settle(w), job);
            Inv(t, job) && Progress(t) == Progress(s) + 1
  {
    hide InFlight, Lost, CountOf, Range;
    var x := Rejected(s.workers[w].request);
    InFlightUpdate(s.workers, w, x);
    LostUpdate(s.workers, w, x);
    CountUpdate(s.workers, w, x, Returned);
    CountUpdate(s.workers, w, x, Fresh);
  }

  lemma ReplyRecords(s: State, w: nat, job: Job)
    requires Records(s, job) && Enabled(s, Settle(w)) && s.workers[w].request < job.total
    requires job.outcome(s.workers[w].request).Reply?
    ensures Records(Step(s, Settle(w), job), job)
  {
    hide Samples, Failing;
    SettleOne(s.settled, s.workers[w].request, job.outcome);
  }

  lemma ReplyCounts(s: State, w: nat, i: nat, total: nat)
    requires w < |s.workers| && s.workers[w] == Awaiting(i)
    requires Covered(s.settled, s.workers, Min(s.cursor, total))
    requires s.cursor == Min(s.cursor, total) + CountOf(s.workers, Returned)
    ensures var t := Claim(s, w, total);
            && Covered(s.settled + [i], t.workers, Min(t.cursor, total))
            && t.cursor == Min(t.cursor, total) + CountOf(t.workers, Returned)
            && CountOf(t.workers, Fresh) == CountOf(s.workers, Fresh)
            && Lost(t.workers) == Lost(s.workers)
  {
    hide InFlight, Lost, CountOf, Range, OfAwaiting, Min, Claim;
    AwaitingOne(s.workers[w]);
    InFlightUpdate(s.workers, w, Returned);
    Record(multiset(s.settled), InFlight(s.workers), Lost(s.workers), i, Range(Min(s.cursor, total)));
    assert multiset(s.settled + [i]) == multiset(s.settled) + multiset{i};
    ClaimKeepsInv(s, w, total, multiset(s.settled) + multiset{i});
  }

  lemma ReplyIsClaim(s: State, w: nat, job: Job)
    requires Enabled(s, Settle(w)) && job.outcome(s.workers[w].request).Reply?
    ensures var t, c := Step(s, Settle(w), job), Claim(s, w, job.total);
            && t.workers == c.workers && t.cursor == c.cursor
            && t.settled == s.settled + [s.workers[w].request]
  {
  }

  lemma ReplyKeepsInv(s: State, w: nat, job: Job)
    requires Inv(s, job) && Enabled(s, Settle(w)) && job.outcome(s.workers[w].request).Reply?
    ensures var t := Step(s, Settle(w), job);
            Inv(t, job) && Progress(t) == Progress(s) + 1
  {
    hide Covered, Lost, CountOf, Records, Min, Step;
    ReplyRecords(s, w, job);
    ReplyIsClaim(s, w, job);
    ReplyCounts(s, w, s.workers[w].request, job.total);
  }

  lemma AwaitingOne(w: Worker)
    requires w.Awaiting?
    ensures OfAwaiting(w) == multiset{w.request}
  {
  }

  lemma Record(done: multiset<nat>, held: multiset<nat>, lost: multiset<nat>, i: nat, all: multiset<nat>)
    requires multiset{i} <= held && done + held + lost == all
    ensures (done + multiset{i}) + (held - multiset{i}) + lost == all
  {
  }

  lemma SettleOne(settled: seq<nat>, i: nat, outcome: nat -> Outcome)
    requires forall k :: 0 <= k < |settled| ==> outcome(settled[k]).Reply?
    requires outcome(i).Reply?
    ensures multiset(settled + [i]) == multiset(settled) + multiset{i}
    ensures Samples(outcome, settled + [i]) == Samples(outcome, settled) + [outcome(i).ms]
    ensures Failing(outcome, settled + [i]) == Failing(outcome, settled) + FailureOf(outcome(i))
  {
    hide Failing, FailureOf;
    FailingOne(settled, i, outcome);
    assert Samples(outcome, settled + [i]) == Samples(outcome, settled) + [outcome(i).ms];
  }

  lemma FailingOne(settled: seq<nat>, i: nat, outcome: nat -> Outcome)
    requires forall k :: 0 <= k < |settled| ==> outcome(settled[k]).Reply?
    requires outcome(i).Reply?
    ensures Failing(outcome, settled + [i]) == Failing(outcome, settled) + FailureOf(outcome(i))
  {
    assert (settled + [i])[..|settled|] == settled && (settled + [i])[|settled|] == i;
  }

  lemma StepKeepsInv(s: State, e: Event, job: Job)
    requires Inv(s, job) && Enabled(s, e)
    ensures var t := Step(s, e, job);
            Inv(t, job) && Progress(t) == Progress(s) + 1
  {
    match e
    case Start(w) => StartKeepsInv(s, w, job);
    case Settle(w) =>
      if job.outcome(s.workers[w].request).Throws? {
        ThrowKeepsInv(s, w, job);
      } else {
        ReplyKeepsInv(s, w, job);
      }
  }

  /** The states a schedule leads through; `None` if some event in it was not possible. */
  ghost function After(job: Job, schedule: seq<Event>): Option<State>
    decreases |schedule|
  {
    if schedule == [] then Some(Initial(job.concurrency))
    else
      var n := |schedule| - 1;
      var before := After(job, schedule[..n]);
      if before.None? || !Enabled(before.value, schedule[n]) then None
      else Some(Step(before.value, schedule[n], job))
  }

  /** Every reachable state keeps the protocol, and the turns taken are what has been achieved. */
  lemma {:induction false} RunInv(job: Job, schedule: seq<Event>)
    requires After(job, schedule).Some?
    ensures Inv(After(job, schedule).value, job)
    ensures Progress(After(job, schedule).value) == |schedule| - job.concurrency
    decreases |schedule|
  {
    if schedule == [] {
      InitialInv(job);
      AllFresh(job.concurrency);
    } else {
      hide Step, Inv, Progress;
      var n := |schedule| - 1;
      RunInv(job, schedule[..n]);
      StepKeepsInv(After(job, schedule[..n]).value, schedule[n], job);
    }
  }

  ghost predicate AllReturned(s: State) {
    forall w :: 0 <= w < |s.workers| ==> s.workers[w].Returned?
  }

  /** Over every interleaving: each index is claimed at most once and none is skipped, the
      claims add up, and no more than `concurrency` requests are in flight. */
  lemma ClaimProtocol(job: Job, schedule: seq<Event>)
    requires After(job, schedule).Some?
    ensures var s := After(job, schedule).value;
            var claimed := Min(s.cursor, job.total);
            && (forall i: nat :: (multiset(s.settled) + InFlight(s.workers) + Lost(s.workers))[i]
                                 == if i < claimed then 1 else 0)
            && |s.durations| + |InFlight(s.workers)| + |Lost(s.workers)| == claimed
            && |InFlight(s.workers)| <= job.concurrency
  {
    var s := After(job, schedule).value;
    RunInv(job, schedule);
    RangeOnce(Min(s.cursor, job.total));
    InFlightSize(s.workers);
  }

  /** When every worker has returned there is one sample for each request and every worker
      has moved the cursor past the end once. */
  lemma CompleteRun(job: Job, schedule: seq<Event>)
    requires job.concurrency > 0
    requires After(job, schedule).Some?
    requires AllReturned(After(job, schedule).value)
    ensures var s := After(job, schedule).value;
            && |s.durations| == job.total
            && s.cursor == job.total + job.concurrency
            && multiset(s.settled) == Range(job.total)
            && |schedule| == job.total + job.concurrency
  {
    var s := After(job, schedule).value;
    RunInv(job, schedule);
    NobodyLeft(s.workers);
    assert s.workers[0].Returned?;
    RangeOnce(Min(s.cursor, job.total));
  }

  /** No schedule is longer than one turn per request and one more per worker. */
  lemma RunsAreShort(job: Job, schedule: seq<Event>)
    requires After(job, schedule).Some?
    ensures |schedule| <= job.total + job.concurrency
  {
    var s := After(job, schedule).value;
    RunInv(job, schedule);
    RangeOnce(Min(s.cursor, job.total));
    assert |multiset(s.settled) + InFlight(s.workers) + Lost(s.workers)| <= job.total;
  }

  /** As long as a worker has neither returned nor been rejected, some turn is possible. */
  lemma NeverStuck(job: Job, schedule: seq<Event>, w: nat)
    requires After(job, schedule).Some?
    requires var ws := After(job, schedule).value.workers;
             w < |ws| && !ws[w].Returned? && !ws[w].Rejected?
    ensures exists e: Event :: e.worker == w && After(job, schedule + [e]).Some?
  {
    var s := After(job, schedule).value;
    var e := if s.workers[w].Fresh? then Start(w) else Settle(w);
    assert (schedule + [e])[..|schedule|] == schedule;
    assert e.worker == w && After(job, schedule + [e]).Some?;
  }

  lemma {:induction false} PrefixPossible(job: Job, schedule: seq<Event>, k: nat)
    requires After(job, schedule).Some? && k <= |schedule|
    ensures After(job, schedule[..k]).Some?
    decreases |schedule|
  {
    if k < |schedule| {
      var n := |schedule| - 1;
      PrefixPossible(job, schedule[..n], k);
      assert schedule[..n][..k] == schedule[..k];
    } else {
      assert schedule[..k] == schedule;
    }
  }

  lemma NextTurn(job: Job, schedule: seq<Event>, k: nat)
    requires After(job, schedule).Some? && k < |schedule|
    ensures After(job, schedule[..k]).Some?
    ensures var s := After(job, schedule[..k]).value;
            && Enabled(s, schedule[k])
            && After(job, schedule[..k + 1]) == Some(Step(s, schedule[k], job))
  {
    hide Step;
    PrefixPossible(job, schedule, k + 1);
    var next := schedule[..k + 1];
    assert next[..k] == schedule[..k] && next[k] == schedule[k];
    assert |next| - 1 == k;
    assert After(job, next).Some?;
  }

  /** The closures driven by a schedule reach the state the schedule leads to. */
  method Drive(job: Job, schedule: seq<Event>) returns (r: Runner)
    requires After(job, schedule).Some?
    ensures fresh(r) && r.Now() == After(job, schedule).value
  {
    r := new Runner(job);
    assert schedule[..0] == [];
    assert r.Now() == After(job, []).value;
    hide After, Step, Initial;
    for k := 0 to |schedule|
      invariant fresh(r) && r.job == job
      invariant After(job, schedule[..k]).Some?
      invariant r.Now() == After(job, schedule[..k]).value
    {
      NextTurn(job, schedule, k);
      r.Advance(schedule[k]);
    }
    assert schedule[..|schedule|] == schedule;
  }

  // ----- the verdict does not depend on the schedule

  lemma Locate(x: nat, b: seq<nat>) returns (i: nat)
    requires x in multiset(b)
    ensures i < |b| && b[i] == x
    ensures multiset(b[..i] + b[i + 1..]) == multiset(b) - multiset{x}
  {
    i :| 0 <= i < |b| && b[i] == x;
    assert b == b[..i] + [x] + b[i + 1..];
  }

  lemma {:induction false} SamplesPermuted(outcome: nat -> Outcome, a: seq<nat>, b: seq<nat>)
    requires multiset(a) == multiset(b)
    requires forall k :: 0 <= k < |a| ==> outcome(a[k]).Reply?
    ensures forall k :: 0 <= k < |b| ==> outcome(b[k]).Reply?
    ensures multiset(Samples(outcome, a)) == multiset(Samples(outcome, b))
    ensures multiset(Failing(outcome, a)) == multiset(Failing(outcome, b))
    decreases |a|
  {
    hide Samples, Failing, FailureOf;
    SameContents(a, b);
    forall k | 0 <= k < |b| ensures outcome(b[k]).Reply? {
      assert b[k] in a;
    }
    if a == [] {
    } else {
      var n := |a| - 1;
      var x := a[n];
      InitAndLast(a);
      assert x in a;
      var i := Locate(x, b);
      var rest := b[..i] + b[i + 1..];
      SamplesPermuted(outcome, a[..n], rest);
      SamplesSnoc(outcome, a[..n], x);
      SamplesOut(outcome, b, i);
    }
  }

  lemma {:induction false} SamplesOut(outcome: nat -> Outcome, b: seq<nat>, i: nat)
    requires i < |b|
    requires forall k :: 0 <= k < |b| ==> outcome(b[k]).Reply?
    ensures var rest := b[..i] + b[i + 1..];
            && multiset(Samples(outcome, b)) == multiset(Samples(outcome, rest)) + multiset{outcome(b[i]).ms}
            && multiset(Failing(outcome, b)) == multiset(Failing(outcome, rest)) + multiset(FailureOf(outcome(b[i])))
    decreases |b|
  {
    hide Samples, Failing, FailureOf;
    var n := |b| - 1;
    assert b == b[..n] + [b[n]];
    SamplesSnoc(outcome, b[..n], b[n]);
    if i == n {
      assert b[..i] + b[i + 1..] == b[..n];
    } else {
      SamplesOut(outcome, b[..n], i);
      var less := b[..n][..i] + b[..n][i + 1..];
      assert b[..i] + b[i + 1..] == less + [b[n]];
      SamplesSnoc(outcome, less, b[n]);
    }
  }

  lemma SamplesSnoc(outcome: nat -> Outcome, settled: seq<nat>, i: nat)
    requires forall k :: 0 <= k < |settled| ==> outcome(settled[k]).Reply?
    requires outcome(i).Reply?
    ensures multiset(Samples(outcome, settled + [i])) == multiset(Samples(outcome, settled)) + multiset{outcome(i).ms}
    ensures multiset(Failing(outcome, settled + [i])) == multiset(Failing(outcome, settled)) + multiset(FailureOf(outcome(i)))
  {
    hide Samples, Failing;
    SettleOne(settled, i, outcome);
  }

  /** Any two schedules that finish give the same samples, failures and verdict. */
  lemma ScheduleIndependent(job: Job, one: seq<Event>, other: seq<Event>, threshold: real)
    requires job.concurrency > 0
    requires After(job, one).Some? && AllReturned(After(job, one).value)
    requires After(job, other).Some? && AllReturned(After(job, other).value)
    ensures var s, t := After(job, one).value, After(job, other).value;
            && Sort(s.durations) == Sort(t.durations)
            && multiset(s.failures) == multiset(t.failures)
            && Summarize(Sort(s.durations), |s.failures|, threshold) == Summarize(Sort(t.durations), |t.failures|, threshold)
  {
    var s, t := After(job, one).value, After(job, other).value;
    CompleteRun(job, one);
    CompleteRun(job, other);
    RunInv(job, one);
    RunInv(job, other);
    SamplesPermuted(job.outcome, s.settled, t.settled);
    SortPermuted(s.durations, t.durations);
    assert |s.failures| == |multiset(s.failures)| == |multiset(t.failures)| == |t.failures|;
  }

  // ----- the verdict in terms of the requests

  /** How many of the first `n` requests are answered in less than the threshold. */
  function Fast(outcome: nat -> Outcome, n: nat, threshold: real): nat {
    if n == 0 then 0
    else
      var o := outcome(n - 1);
      Fast(outcome, n - 1, threshold) + if o.Reply? && o.ms < threshold then 1 else 0
  }

  function Indices(n: nat): (all: seq<nat>)
    ensures |all| == n && forall k :: 0 <= k < n ==> all[k] == k
  {
    seq(n, k => k)
  }

  lemma NextIndex(n: nat)
    requires n > 0
    ensures Indices(n) == Indices(n - 1) + [n - 1]
  {
  }

  lemma {:induction false} IndicesRange(n: nat)
    ensures multiset(Indices(n)) == Range(n)
  {
    if n == 0 {
    } else {
      IndicesRange(n - 1);
      NextIndex(n);
    }
  }

  lemma {:induction false} BelowIndices(outcome: nat -> Outcome, n: nat, threshold: real)
    requires forall k :: 0 <= k < n ==> outcome(k).Reply?
    ensures Below(Samples(outcome, Indices(n)), threshold) == Fast(outcome, n, threshold)
  {
    hide Below;
    if n == 0 {
      NoneBelow([], threshold);
      assert Samples(outcome, Indices(0)) == [];
    } else {
      var before := Samples(outcome, Indices(n - 1));
      BelowIndices(outcome, n - 1, threshold);
      assert Samples(outcome, Indices(n)) == before + [outcome(n - 1).ms];
      BelowSnoc(before, outcome(n - 1).ms, threshold);
    }
  }

  lemma {:induction false} FailingIndices(outcome: nat -> Outcome, n: nat)
    requires forall k :: 0 <= k < n ==> outcome(k).Reply?
    ensures |Failing(outcome, Indices(n))| == 0 <==> forall k :: 0 <= k < n ==> outcome(k).failure.None?
  {
    if n == 0 {
    } else {
      hide Failing, Indices;
      NextIndex(n);
      FailingIndices(outcome, n - 1);
      FailingOne(Indices(n - 1), n - 1, outcome);
      LengthOfConcat(Failing(outcome, Indices(n - 1)), FailureOf(outcome(n - 1)));
    }
  }

  /** What the first `n` requests leave behind, settled in any order. */
  lemma SettledInAnyOrder(outcome: nat -> Outcome, settled: seq<nat>, n: nat, threshold: real)
    requires multiset(settled) == Range(n)
    requires forall k :: 0 <= k < |settled| ==> outcome(settled[k]).Reply?
    ensures forall k :: 0 <= k < n ==> outcome(k).Reply?
    ensures Below(Samples(outcome, settled), threshold) == Fast(outcome, n, threshold)
    ensures |Failing(outcome, settled)| == 0 <==> forall k :: 0 <= k < n ==> outcome(k).failure.None?
  {
    hide Samples, Failing, Below, Fast, Range;
    var all := Indices(n);
    IndicesRange(n);
    SamplesPermuted(outcome, settled, all);
    forall k | 0 <= k < n ensures outcome(k).Reply? {
      assert all[k] == k;
    }
    BelowPermuted(Samples(outcome, settled), Samples(outcome, all), threshold);
    BelowIndices(outcome, n, threshold);
    FailingIndices(outcome, n);
    SameContents(Failing(outcome, settled), Failing(outcome, all));
  }

  /** Whatever the schedule, a complete run passes if and only if every request comes back without
      a failure and at least 95 percent of them in less than the threshold. */
  lemma VerdictOfJob(job: Job, schedule: seq<Event>, threshold: real)
    requires job.concurrency > 0
    requires After(job, schedule).Some? && AllReturned(After(job, schedule).value)
    ensures var s := After(job, schedule).value;
            Summarize(Sort(s.durations), |s.failures|, threshold).passed <==>
            && (forall i: nat :: i < job.total ==> job.outcome(i).Reply? && job.outcome(i).failure.None?)
            && (if job.total == 0 then 0.0 < threshold
                else 100 * Fast(job.outcome, job.total, threshold) >= 95 * job.total)
  {
    hide After, Summarize, Fast, Below, Rank, Sort, Samples, Failing, Covered, CountOf, Progress, Range;
    var s := After(job, schedule).value;
    CompleteRun(job, schedule);
    RunInv(job, schedule);
    SettledInAnyOrder(job.outcome, s.settled, job.total, threshold);
    PassedMeaning(s.durations, |s.failures|, threshold);
  }

  /** The positions of the settled requests that came back with an HTTP failure. */
  function FailedAt(outcome: nat -> Outcome, settled: seq<nat>): set<nat>
    requires forall k :: 0 <= k < |settled| ==> outcome(settled[k]).Reply?
  {
    set k | 0 <= k < |settled| && outcome(settled[k]).failure.Some?
  }

  lemma {:induction false} FailingContents(outcome: nat -> Outcome, settled: seq<nat>, f: Failure)
    requires forall k :: 0 <= k < |settled| ==> outcome(settled[k]).Reply?
    ensures f in Failing(outcome, settled) <==>
            exists i :: i in settled && outcome(i).failure == Some(f)
  {
    if settled == [] {
    } else {
      hide Failing;
      var before, i := settled[..|settled| - 1], settled[|settled| - 1];
      InitAndLast(settled);
      FailingContents(outcome, before, f);
      FailingOne(before, i, outcome);
      assert f in FailureOf(outcome(i)) <==> outcome(i).failure == Some(f);
      assert forall j :: j in settled <==> j in before || j == i;
    }
  }

  lemma {:induction false} FailingCount(outcome: nat -> Outcome, settled: seq<nat>)
    requires forall k :: 0 <= k < |settled| ==> outcome(settled[k]).Reply?
    ensures |Failing(outcome, settled)| == |FailedAt(outcome, settled)|
  {
    if settled == [] {
      assert FailedAt(outcome, settled) == {};
    } else {
      hide Failing;
      var last := |settled| - 1;
      var before, i := settled[..last], settled[last];
      InitAndLast(settled);
      FailingCount(outcome, before);
      FailingOne(before, i, outcome);
      LengthOfConcat(Failing(outcome, before), FailureOf(outcome(i)));
      OneMoreFailed(outcome, settled);
    }
  }

  lemma OneMoreFailed(outcome: nat -> Outcome, settled: seq<nat>)
    requires settled != [] && forall k :: 0 <= k < |settled| ==> outcome(settled[k]).Reply?
    ensures var last := |settled| - 1;
            |FailedAt(outcome, settled)| ==
            |FailedAt(outcome, settled[..last])| + |FailureOf(outcome(settled[last]))|
  {
    var last := |settled| - 1;
    var before := FailedAt(outcome, settled[..last]);
    assert last !in before;
    if outcome(settled[last]).failure.Some? {
      assert FailedAt(outcome, settled) == before + {last};
    } else {
      assert FailedAt(outcome, settled) == before;
    }
  }

  /** In every run the failures are those that requests came back with, one for each such request. */
  lemma FailuresReported(job: Job, schedule: seq<Event>, f: Failure)
    requires After(job, schedule).Some?
    ensures var s := After(job, schedule).value;
            && (forall k :: 0 <= k < |s.settled| ==> job.outcome(s.settled[k]).Reply?)
            && (f in s.failures <==> exists i :: i in s.settled && job.outcome(i).Reply? && job.outcome(i).failure == Some(f))
            && |s.failures| == |FailedAt(job.outcome, s.settled)|
  {
    hide After, Failing, Covered, CountOf, Samples, Progress;
    RunInv(job, schedule);
    FailingContents(job.outcome, After(job, schedule).value.settled, f);
    FailingCount(job.outcome, After(job, schedule).value.settled);
  }
}
