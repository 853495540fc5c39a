/** `RunnerWithCtx`: a bounded pool of retried jobs that a context can cancel, modelled one job
    at a time.

    What the goroutines observe is given as parameters: how each job's dispatch ended
    (`Dispatch`), whether the context was cancelled at each attempt boundary (`cancelledAt`),
    and what each call of `Execute` did (`attempts`). Results are listed in job order. */
module TaskRunner {
  import opened Wrappers

  datatype Status = Wait | Run | End

  /** `StatusWait`, `StatusRun`, `StatusEnd`. */
  function StatusCode(s: Status): (c: int)
    ensures 0 <= c <= 2
    ensures c == 0 <==> s == Wait
    ensures c == 1 <==> s == Run
    ensures c == 2 <==> s == End
  {
    match s
    case Wait => 0
    case Run => 1
    case End => 2
  }

  datatype JobError = ContextError(reason: string) | ExecError(message: string) | PanicError(value: string)

  /** The text of an error; a recovered panic reads `panic: <value>`. */
  function ErrorText(e: JobError): (t: string)
    ensures e.PanicError? ==> |t| == 7 + |e.value| && t[..7] == "panic: " && t[7..] == e.value
  {
    match e
    case ContextError(reason) => reason
    case ExecError(message) => message
    case PanicError(value) => "panic: " + value
  }

  datatype JobRet<D> = JobRet(err: Option<JobError>, data: Option<D>)

  /** One call of `Execute`: it returned a result, or it panicked with a value. */
  datatype Attempt<D> = Returned(ret: JobRet<D>) | Panicked(value: string)

  datatype Job<P> = Job(id: string, params: P, status: Status, retry: nat, maxRetry: int)

  datatype Runner<P> = Runner(maxSize: int, jobs: seq<Job<P>>, handled: bool)

  /** How a dispatched job got past the start: the context was already cancelled, it was
      cancelled while the job waited for a slot, or the job got a slot. */
  datatype Dispatch = CancelledBeforeStart | CancelledWaitingForSlot | GotSlot

  /** `NewRunnerWithCtx`: `None` for a negative size, where `make(chan int, maxSize)` panics. */
  function NewRunner<P>(maxSize: int): (r: Option<Runner<P>>)
    ensures r.None? <==> maxSize < 0
    ensures r.Some? ==> r.value.maxSize == maxSize && r.value.jobs == [] && !r.value.handled
  {
    if maxSize < 0 then None else Some(Runner(maxSize, [], false))
  }

  /** `GetJobsCount`. */
  function JobsCount<P>(r: Runner<P>): nat
  {
    |r.jobs|
  }

  /** A sequence of `AddJob` calls, each with an id, parameters and a retry limit. */
  function AddJobs<P>(r: Runner<P>, adds: seq<(string, P, int)>): Runner<P>
    decreases |adds|
  {
    if adds == [] then r
    else AddJobs(AddJob(r, adds[0].0, adds[0].1, adds[0].2), adds[1..])
  }

  /** The job count of a new runner is the number of `AddJob` calls made on it. */
  lemma {:induction false} JobsCountCountsAdds<P>(maxSize: int, adds: seq<(string, P, int)>)
    requires maxSize >= 0
    ensures NewRunner<P>(maxSize).Some?
    ensures JobsCount(AddJobs(NewRunner<P>(maxSize).value, adds)) == |adds|
  {
    JobsCountAfterAdds(NewRunner<P>(maxSize).value, adds);
  }

  /** Every `AddJob` call adds one to the job count. */
  lemma {:induction false} JobsCountAfterAdds<P>(r: Runner<P>, adds: seq<(string, P, int)>)
    ensures JobsCount(AddJobs(r, adds)) == JobsCount(r) + |adds|
    decreases |adds|
  {
    if adds != [] {
      JobsCountAfterAdds(AddJob(r, adds[0].0, adds[0].1, adds[0].2), adds[1..]);
    }
  }

  /** `AddJob`: one more job, waiting, never retried, allowed `maxRetry` attempts, or exactly
      one when `maxRetry <= 0`. */
  function AddJob<P>(r: Runner<P>, id: string, params: P, maxRetry: int): (r': Runner<P>)
    ensures JobsCount(r') == JobsCount(r) + 1
    ensures r'.jobs[..|r.jobs|] == r.jobs
    ensures r'.maxSize == r.maxSize && r'.handled == r.handled
    ensures var j := r'.jobs[|r.jobs|];
      && j.id == id && j.params == params && j.status == Wait && j.retry == 0
      && j.maxRetry >= 1
      && (maxRetry > 0 ==> j.maxRetry == maxRetry)
      && (maxRetry <= 0 ==> j.maxRetry == 1)
  {
    var m := if maxRetry <= 0 then 1 else maxRetry;
    var r' := r.(jobs := r.jobs + [Job(id, params, Wait, 0, m)]);
    assert r'.jobs[..|r.jobs|] == r.jobs;
    r'
  }

  /** The number of jobs allowed to run at once in `Run`: `maxSize`, cut down to the number
      of jobs. */
  function Capacity<P>(r: Runner<P>): (c: int)
    ensures c <= r.maxSize && c <= JobsCount(r)
    ensures c == r.maxSize || c == JobsCount(r)
    ensures r.maxSize >= 1 && JobsCount(r) >= 1 ==> c >= 1
  {
    if JobsCount(r) < r.maxSize then JobsCount(r) else r.maxSize
  }

  /** The data of the last call of `Execute` before attempt `k`, when it returned. */
  function DataBefore<D>(attempts: nat -> Attempt<D>, from: int, k: int): Option<D>
  {
    if k > from && k >= 1 && attempts(k - 1).Returned? then attempts(k - 1).ret.data else None
  }

  /** What one job's goroutine leaves behind, given how its dispatch ended and what the
      context and `Execute` did at each attempt. Attempts are numbered by the job's `Retry`
      count before the call: attempt `a` is `attempts(a)`, and `cancelledAt(a)` is the
      cancellation check just before it. */
  ghost predicate JobOutcome<P, D>(job: Job<P>, dispatch: Dispatch, cancelledAt: nat -> bool,
                             attempts: nat -> Attempt<D>, ctxErr: string, done: Job<P>, ret: JobRet<D>)
  {
    && done == job.(status := End, retry := done.retry)
    && job.retry <= done.retry
    && (job.retry < job.maxRetry ==> done.retry <= job.maxRetry)
    && (job.retry >= job.maxRetry && dispatch == GotSlot ==>
          done.retry == job.retry && ret == JobRet(None, None))
    // Cancelled before the job could start: no call of Execute.
    && (dispatch != GotSlot ==>
          done.retry == job.retry && ret == JobRet(Some(ContextError(ctxErr)), None))
    // Every attempt before the last one ran uncancelled and returned an error.
    && (forall a :: job.retry <= a < done.retry - 1 ==>
          !cancelledAt(a) && attempts(a).Returned? && attempts(a).ret.err.Some?)
    && (done.retry > job.retry ==> !cancelledAt(done.retry - 1))
    // Why the loop stopped, and what was published.
    && (dispatch == GotSlot && job.retry < job.maxRetry ==>
          || (done.retry < job.maxRetry && cancelledAt(done.retry)
              && (done.retry > job.retry ==>
                    attempts(done.retry - 1).Returned? && attempts(done.retry - 1).ret.err.Some?)
              && ret == JobRet(Some(ContextError(ctxErr)), DataBefore(attempts, job.retry, done.retry)))
          || (done.retry > job.retry && attempts(done.retry - 1).Panicked?
              && ret == JobRet(Some(PanicError(attempts(done.retry - 1).value)), DataBefore(attempts, job.retry, done.retry - 1)))
          || (done.retry > job.retry && attempts(done.retry - 1).Returned?
              && attempts(done.retry - 1).ret.err.None? && ret == attempts(done.retry - 1).ret)
          || (done.retry == job.maxRetry && done.retry > job.retry && attempts(done.retry - 1).Returned?
              && ret == attempts(done.retry - 1).ret))
  }

  /** The body of a job's goroutine: the slot, the retry loop and the deferred publication. */
  method RunJob<P, D>(job: Job<P>, dispatch: Dispatch, cancelledAt: nat -> bool,
                      attempts: nat -> Attempt<D>, ctxErr: string)
    returns (done: Job<P>, ret: JobRet<D>)
    ensures JobOutcome(job, dispatch, cancelledAt, attempts, ctxErr, done, ret)
  {
    done := job.(status := Run);
    ret := JobRet(None, None);
    if dispatch != GotSlot {
      ret := JobRet(Some(ContextError(ctxErr)), None);
      done := done.(status := End);
      return;
    }
    while done.retry < done.maxRetry
      invariant done == job.(status := Run, retry := done.retry)
      invariant job.retry <= done.retry
      invariant job.retry < job.maxRetry ==> done.retry <= job.maxRetry
      invariant job.retry >= job.maxRetry ==> done.retry == job.retry
      invariant forall a :: job.retry <= a < done.retry ==>
        !cancelledAt(a) && attempts(a).Returned? && attempts(a).ret.err.Some?
      invariant done.retry == job.retry ==> ret == JobRet(None, None)
      invariant done.retry > job.retry ==> ret == attempts(done.retry - 1).ret
      decreases done.maxRetry - done.retry
    {
      var a: nat := done.retry;
      if cancelledAt(a) {
        ret := ret.(err := Some(ContextError(ctxErr)));
        break;
      }
      done := done.(retry := a + 1);
      match attempts(a)
      case Panicked(v) =>
        ret := ret.(err := Some(PanicError(v)));
        break;
      case Returned(x) =>
        ret := x;
        if x.err.None? {
          break;
        }
    }
    done := done.(status := End);
  }

  /** The outcome is a function of the inputs: given how the dispatch ended and what the
      context and `Execute` did, exactly one final job state and one result are possible. */
  lemma JobOutcomeUnique<P, D>(job: Job<P>, dispatch: Dispatch, cancelledAt: nat -> bool,
                               attempts: nat -> Attempt<D>, ctxErr: string,
                               done1: Job<P>, ret1: JobRet<D>, done2: Job<P>, ret2: JobRet<D>)
    requires JobOutcome(job, dispatch, cancelledAt, attempts, ctxErr, done1, ret1)
    requires JobOutcome(job, dispatch, cancelledAt, attempts, ctxErr, done2, ret2)
    ensures done1 == done2 && ret1 == ret2
  {
    if done1.retry < done2.retry {
      StopsNoLater(job, dispatch, cancelledAt, attempts, ctxErr, done1, ret1, done2, ret2);
    } else if done2.retry < done1.retry {
      StopsNoLater(job, dispatch, cancelledAt, attempts, ctxErr, done2, ret2, done1, ret1);
    }
  }

  /** No outcome stops at an earlier attempt than another one. */
  lemma StopsNoLater<P, D>(job: Job<P>, dispatch: Dispatch, cancelledAt: nat -> bool,
                           attempts: nat -> Attempt<D>, ctxErr: string,
                           done1: Job<P>, ret1: JobRet<D>, done2: Job<P>, ret2: JobRet<D>)
    requires JobOutcome(job, dispatch, cancelledAt, attempts, ctxErr, done1, ret1)
    requires JobOutcome(job, dispatch, cancelledAt, attempts, ctxErr, done2, ret2)
    ensures done2.retry <= done1.retry
  {
  }

  /** When the last attempt panics, the published error reads `panic: ` followed by the
      panic value, and the data is that of the attempt before it. */
  lemma PanicErrorText<P, D>(job: Job<P>, dispatch: Dispatch, cancelledAt: nat -> bool,
                             attempts: nat -> Attempt<D>, ctxErr: string, done: Job<P>, ret: JobRet<D>)
    requires JobOutcome(job, dispatch, cancelledAt, attempts, ctxErr, done, ret)
    requires done.retry > job.retry && attempts(done.retry - 1).Panicked?
    ensures dispatch == GotSlot
    ensures ret.err.Some? && ret.err.value.PanicError?
    ensures ErrorText(ret.err.value) == "panic: " + attempts(done.retry - 1).value
    ensures ret.data == DataBefore(attempts, job.retry, done.retry - 1)
  {
  }

  /** A job that gets a slot and whose first attempt returns without error publishes that
      result after one attempt. */
  lemma FirstSuccessPublished<P, D>(job: Job<P>, cancelledAt: nat -> bool, attempts: nat -> Attempt<D>,
                                    ctxErr: string, done: Job<P>, ret: JobRet<D>)
    requires JobOutcome(job, GotSlot, cancelledAt, attempts, ctxErr, done, ret)
    requires job.retry < job.maxRetry && !cancelledAt(job.retry)
    requires attempts(job.retry).Returned? && attempts(job.retry).ret.err.None?
    ensures done.retry == job.retry + 1 && ret == attempts(job.retry).ret
  {
  }

  /** `Run`: the concurrency limit is cut down to the job count and stored back in `maxSize`;
      every job is dispatched once and the result buffer holds one result per job, each the
      outcome of that job's goroutine. The oracles are indexed by the job's position. */
  method RunAll<P, D>(r: Runner<P>, dispatch: nat -> Dispatch, cancelledAt: nat -> nat -> bool,
                      attempts: nat -> nat -> Attempt<D>, ctxErr: string)
    returns (r': Runner<P>, capacity: int, results: seq<JobRet<D>>)
    ensures capacity == Capacity(r) && r'.maxSize == capacity
    ensures |results| == JobsCount(r) && JobsCount(r') == JobsCount(r)
    ensures r'.handled == r.handled
    ensures forall i :: 0 <= i < |results| ==>
      JobOutcome(r.jobs[i], dispatch(i), cancelledAt(i), attempts(i), ctxErr, r'.jobs[i], results[i])
  {
    capacity := Capacity(r);
    var jobs: seq<Job<P>> := [];
    results := [];
    var i := 0;
    while i < |r.jobs|
      invariant 0 <= i <= |r.jobs|
      invariant |jobs| == i && |results| == i
      invariant forall k :: 0 <= k < i ==>
        JobOutcome(r.jobs[k], dispatch(k), cancelledAt(k), attempts(k), ctxErr, jobs[k], results[k])
    {
      var done, ret := RunJob(r.jobs[i], dispatch(i), cancelledAt(i), attempts(i), ctxErr);
      jobs := jobs + [done];
      results := results + [ret];
      i := i + 1;
    }
    r' := r.(maxSize := capacity, jobs := jobs);
  }

  /** The one-shot guard shared by the three `HandleResults*` methods: only the first call
      proceeds, and every call leaves the flag set. */
  function ClaimHandling<P>(r: Runner<P>): (res: (Runner<P>, bool))
    ensures res.0 == r.(handled := true)
    ensures res.1 <==> !r.handled
  {
    (r.(handled := true), !r.handled)
  }

  /** `HandleResultsWithStream` and `HandleResultsWithStreamAndOutput`: the results the handler
      sees, in channel order, until the channel closes or, after `beforeCancel` results, the
      context is cancelled; nothing on any call but the first. */
  function HandleResultsWithStream<P, D>(r: Runner<P>, results: seq<JobRet<D>>, beforeCancel: nat)
    : (res: (Runner<P>, seq<JobRet<D>>))
    ensures res.0.handled
    ensures r.handled ==> res.1 == []
    ensures !r.handled ==> |res.1| <= |results| && res.1 == results[..|res.1|]
    ensures !r.handled && beforeCancel >= |results| ==> res.1 == results
  {
    var (r', first) := ClaimHandling(r);
    if !first then (r', [])
    else if beforeCancel < |results| then (r', results[..beforeCancel])
    else (r', results)
  }

  /** `HandleAllResultsWith`: all results once every job has finished, or none when the
      context is cancelled first; nothing on any call but the first. */
  function HandleAllResultsWith<P, D>(r: Runner<P>, results: seq<JobRet<D>>, cancelledFirst: bool)
    : (res: (Runner<P>, seq<JobRet<D>>))
    ensures res.0.handled
    ensures res.1 == [] || (res.1 == results && !r.handled && !cancelledFirst)
    ensures !r.handled && !cancelledFirst ==> res.1 == results
  {
    var (r', first) := ClaimHandling(r);
    if first && !cancelledFirst then (r', results) else (r', [])
  }

  /** Once any handler has run, every later handler call sees no result. */
  lemma OnlyFirstHandlerRuns<P, D>(r: Runner<P>, results: seq<JobRet<D>>, n: nat, m: nat, cancelledFirst: bool)
    ensures HandleResultsWithStream(HandleResultsWithStream(r, results, n).0, results, m).1 == []
    ensures HandleAllResultsWith(HandleResultsWithStream(r, results, n).0, results, cancelledFirst).1 == []
    ensures HandleResultsWithStream(HandleAllResultsWith(r, results, cancelledFirst).0, results, m).1 == []
  {
  }

  /** `GetJobStatus`: the status code of the job with that ID, or -1 and false. */
  function GetJobStatus<P>(r: Runner<P>, id: string): (res: (int, bool))
    ensures res.1 <==> exists i :: 0 <= i < |r.jobs| && r.jobs[i].id == id
    ensures res.1 ==> exists i :: 0 <= i < |r.jobs| && r.jobs[i].id == id && StatusCode(r.jobs[i].status) == res.0
    ensures !res.1 ==> res.0 == -1
    decreases |r.jobs|
  {
    if r.jobs == [] then (-1, false)
    else if r.jobs[0].id == id then (StatusCode(r.jobs[0].status), true)
    else
      var res := GetJobStatus(r.(jobs := r.jobs[1..]), id);
      assert forall i :: 1 <= i < |r.jobs| ==> r.jobs[i] == r.jobs[1..][i - 1];
      res
  }
}
