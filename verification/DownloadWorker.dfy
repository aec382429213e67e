/** The retry loop of a download worker (src/ldfd/download/worker.go). Durations are nanoseconds. */
module DownloadWorker {
  import opened Int64
  import opened DownloadJobs
  import opened Wrappers
  import opened Arithmetic

  // ---------- backoff ----------

  function Pow2(n: nat): (p: int)
    ensures p >= 1
  {
    if n == 0 then 1 else 2 * Pow2(n - 1)
  }

  /** RetryDelay * time.Duration(1 << (attempt - 1)), in 64 bits. */
  function Delay(retryDelay: int, attempt: nat): int
    requires attempt >= 1
  {
    Wrap(retryDelay * Wrap(Pow2(attempt - 1)))
  }

  lemma {:induction false} Pow2Monotonic(m: nat, n: nat)
    requires m <= n
    ensures Pow2(m) <= Pow2(n)
  {
    if m >= n {
    } else {
      Pow2Monotonic(m, n - 1);
    }
  }

  lemma DelayExact(retryDelay: int, attempt: nat)
    requires retryDelay > 0 && attempt >= 1
    ensures Delay(retryDelay, attempt) == retryDelay * Pow2(attempt - 1) <==> retryDelay * Pow2(attempt - 1) < TWO63
  {
    var p := Pow2(attempt - 1);
    ScaleUp(1, retryDelay, p);
    ScaleUp(0, p, retryDelay);
  }

  predicate Fitting(retryDelay: int, maxRetries: int) {
    maxRetries < 1 || retryDelay * Pow2(maxRetries - 1) < TWO63
  }

  /** No delay of a run overflows exactly when the last one fits in 63 bits. */
  lemma DelaysExact(retryDelay: int, maxRetries: int)
    requires retryDelay > 0
    ensures (forall a: nat | 1 <= a <= maxRetries :: Delay(retryDelay, a) == retryDelay * Pow2(a - 1))
            <==> Fitting(retryDelay, maxRetries)
  {
    forall a: nat | 1 <= a <= maxRetries
      ensures Delay(retryDelay, a) == retryDelay * Pow2(a - 1) <==> retryDelay * Pow2(a - 1) < TWO63
      ensures retryDelay * Pow2(a - 1) <= retryDelay * Pow2(maxRetries - 1)
    {
      DelayExact(retryDelay, a);
      Pow2Monotonic(a - 1, maxRetries - 1);
      ScaleUp(Pow2(a - 1), Pow2(maxRetries - 1), retryDelay);
    }
    if maxRetries >= 1 {
      var last: nat := maxRetries;
      assert Delay(retryDelay, last) == retryDelay * Pow2(last - 1) <==> retryDelay * Pow2(last - 1) < TWO63;
    }
  }

  // ---------- attempts ----------

  /** How one attempt goes: from a local mirror, or verified and then downloaded. */
  datatype Attempt = LocalCopied | LocalFailed | NotVerified | NotDownloaded | WasDownloaded

  predicate Succeeds(a: Attempt) {
    a == LocalCopied || a == WasDownloaded
  }

  datatype JobRow = JobRow(status: Status, retryCount: int, errorMessage: string)

  /** No attempt before `n` succeeds. */
  ghost predicate NoneBefore(plan: nat -> Attempt, n: int) {
    forall k: nat | k < n :: !Succeeds(plan(k))
  }

  /** How many attempts a run may make: one more than the retries, unless a backoff is interrupted. */
  function Allowed(maxRetries: int, cancelled: Option<nat>): nat {
    if maxRetries < 0 then 0
    else if cancelled.Some? && 1 <= cancelled.value <= maxRetries then cancelled.value
    else maxRetries + 1
  }

  /** Doubling delays add up: before attempt n the waits come to retryDelay * (2^n - 1). */
  lemma BackoffStep(retryDelay: int, attempt: nat)
    requires retryDelay > 0 && attempt >= 1
    ensures retryDelay * (Pow2(attempt - 1) - 1) + retryDelay * Pow2(attempt - 1) == retryDelay * (Pow2(attempt) - 1)
    ensures retryDelay * Pow2(attempt - 1) > 0
  {
    var p := Pow2(attempt - 1);
    assert retryDelay * (p - 1) + retryDelay * p == retryDelay * (2 * p - 1);
    ScaleUp(1, p, retryDelay);
  }

  lemma BackoffBound(retryDelay: int, waits: nat, maxRetries: int)
    requires retryDelay > 0
    ensures waits <= maxRetries ==> retryDelay * (Pow2(waits) - 1) <= retryDelay * (Pow2(maxRetries) - 1)
  {
    if waits <= maxRetries {
      Pow2Monotonic(waits, maxRetries);
      ScaleUp(Pow2(waits) - 1, Pow2(maxRetries) - 1, retryDelay);
    }
  }

  class Worker {
    const retryDelay: int
    var row: JobRow

    constructor (retryDelay: int, row: JobRow)
      ensures this.retryDelay == retryDelay && this.row == row
    {
      this.retryDelay, this.row := retryDelay, row;
    }

    method MarkVerifying()
      modifies this
      ensures row == old(row).(status := Verifying)
    {
      row := row.(status := Verifying);
    }

    method MarkStarted()
      modifies this
      ensures row == old(row).(status := Downloading)
    {
      row := row.(status := Downloading);
    }

    method MarkCompleted()
      modifies this
      ensures row == old(row).(status := Completed, errorMessage := "")
    {
      row := row.(status := Completed, errorMessage := "");
    }

    method MarkFailed(reason: string)
      modifies this
      ensures row == old(row).(status := Failed, errorMessage := reason)
    {
      row := row.(status := Failed, errorMessage := reason);
    }

    /** Counts a retry and puts the job back to pending. */
    method IncrementRetry()
      modifies this
      ensures row == JobRow(Pending, old(row).retryCount + 1, "")
    {
      row := JobRow(Pending, row.retryCount + 1, "");
    }

    method RunAttempt(a: Attempt) returns (ok: bool)
      modifies this
      ensures ok <==> Succeeds(a)
      ensures row.status == if ok then Completed else if a == NotVerified then Verifying else Downloading
      ensures row.retryCount == old(row).retryCount && (ok ==> row.errorMessage == "")
    {
      match a
      case LocalCopied =>
        MarkStarted();
        MarkCompleted();
        return true;
      case LocalFailed =>
        MarkStarted();
        return false;
      case NotVerified =>
        MarkVerifying();
        return false;
      case NotDownloaded =>
        MarkVerifying();
        MarkStarted();
        return false;
      case WasDownloaded =>
        MarkVerifying();
        MarkStarted();
        MarkCompleted();
        return true;
    }

    /** One run of a job. `plan(k)` is how attempt k goes; `cancelled` the attempt before which
        the backoff is interrupted, if it is. `waited` adds up the completed backoffs. */
    method ProcessJob(maxRetries: int, plan: nat -> Attempt, cancelled: Option<nat>)
      returns (attempts: nat, waited: int)
      requires retryDelay > 0
      modifies this
      ensures attempts <= Allowed(maxRetries, cancelled)
      ensures NoneBefore(plan, attempts - 1)
      ensures row.status == Completed <==> exists k: nat :: k < attempts && Succeeds(plan(k))
      ensures row.status == Completed || row.status == Failed
      ensures row.status == Completed ==> row.errorMessage == ""
      ensures row.status == Failed ==>
                && attempts == Allowed(maxRetries, cancelled)
                && row.errorMessage == if Allowed(maxRetries, cancelled) <= maxRetries
                                       then "Job cancelled" else "Max retries exceeded"
      ensures row.retryCount == old(row).retryCount + if attempts == 0 then 0 else attempts - 1
      ensures Fitting(retryDelay, maxRetries) ==>
                waited == retryDelay * (Pow2(if attempts == 0 then 0 else attempts - 1) - 1)
      ensures Fitting(retryDelay, maxRetries) && maxRetries >= 0 ==> waited <= retryDelay * (Pow2(maxRetries) - 1)
    {
      waited := 0;
      var attempt := 0;
      while attempt <= maxRetries
        invariant 0 <= attempt && (attempt == 0 || attempt <= maxRetries + 1)
        invariant attempt <= Allowed(maxRetries, cancelled)
        invariant NoneBefore(plan, attempt)
        invariant row.retryCount == old(row).retryCount + if attempt == 0 then 0 else attempt - 1
        invariant Fitting(retryDelay, maxRetries) ==>
                    waited == retryDelay * (Pow2(if attempt == 0 then 0 else attempt - 1) - 1)
      {
        if attempt > 0 {
          var delay := Delay(retryDelay, attempt);
          if cancelled == Some(attempt) {
            BackoffBound(retryDelay, attempt - 1, maxRetries);
            MarkFailed("Job cancelled");
            return attempt, waited;
          }
          if Fitting(retryDelay, maxRetries) {
            DelaysExact(retryDelay, maxRetries);
            BackoffStep(retryDelay, attempt);
          }
          waited := waited + if delay > 0 then delay else 0;
          IncrementRetry();
        }
        var ok := RunAttempt(plan(attempt));
        attempt := attempt + 1;
        if ok {
          BackoffBound(retryDelay, attempt - 1, maxRetries);
          return attempt, waited;
        }
      }
      if attempt > 0 {
        BackoffBound(retryDelay, attempt - 1, maxRetries);
      }
      MarkFailed("Max retries exceeded");
      return attempt, waited;
    }
  }
}
