/** The retry policy of `configurar_driver`: up to three attempts to start a
    browser, retrying only on file-lock conflicts; and the port each attempt
    listens on. Starting the browser itself is the environment's. */
module Driver {
  import opened Wrappers
  import opened Text

  const MaxRetries: nat := 3

  /** A start-up error worth retrying: a Windows file-lock conflict or a
      permission problem (tested case-insensitively). */
  predicate Retryable(message: string) {
    Contains(message, "WinError 32") || Contains(Lower(message), "permission")
  }

  /** How `configurar_driver` ends: a driver from the given attempt, or the
      exception it re-raises. */
  datatype Outcome = Ready(attempt: nat) | Fatal(message: string)

  /** `fail(a)` is the error of attempt a, or `None` when attempt a starts
      the browser. */
  function Configure(fail: nat -> Option<string>, attempt: nat): (o: Outcome)
    requires attempt < MaxRetries
    ensures o.Ready? ==> attempt <= o.attempt < MaxRetries && fail(o.attempt).None?
    decreases MaxRetries - attempt
  {
    match fail(attempt)
    case None => Ready(attempt)
    case Some(m) =>
      if Retryable(m) && attempt < MaxRetries - 1 then Configure(fail, attempt + 1)
      else Fatal(m)
  }

  /** Attempts before `a` all failed with a retryable error. */
  predicate RetriedUpTo(fail: nat -> Option<string>, a: nat) {
    forall b :: 0 <= b < a ==> fail(b).Some? && Retryable(fail(b).value)
  }

  /** The driver comes from attempt a iff a is one of the three attempts,
      it succeeds, and every earlier attempt failed with a retryable error;
      the exception re-raised is that of an attempt that failed with a
      non-retryable error, or of the third attempt. */
  lemma {:induction false} ConfigureSpec(fail: nat -> Option<string>, from: nat)
    requires from < MaxRetries && RetriedUpTo(fail, from)
    ensures forall a: nat :: Configure(fail, from) == Ready(a) <==>
      from <= a < MaxRetries && fail(a).None? && RetriedUpTo(fail, a)
    ensures Configure(fail, from).Fatal? ==>
      exists a: nat :: from <= a < MaxRetries && RetriedUpTo(fail, a) &&
        fail(a) == Some(Configure(fail, from).message) && (!Retryable(fail(a).value) || a == MaxRetries - 1)
    decreases MaxRetries - from
  {
    match fail(from)
    case None =>
    case Some(m) =>
      if Retryable(m) && from < MaxRetries - 1 {
        ConfigureSpec(fail, from + 1);
      } else {
        forall a: nat | from < a < MaxRetries ensures !RetriedUpTo(fail, a) {
          assert !Retryable(m);
        }
      }
  }

  /** The retry loop as written: at most three attempts. */
  method ConfigureLoop(fail: nat -> Option<string>) returns (o: Outcome, attempts: nat)
    ensures o == Configure(fail, 0)
    ensures 1 <= attempts <= MaxRetries
    ensures o.Ready? ==> attempts == o.attempt + 1
  {
    var attempt := 0;
    while true
      invariant attempt < MaxRetries && RetriedUpTo(fail, attempt)
      invariant Configure(fail, 0) == Configure(fail, attempt)
      decreases MaxRetries - attempt
    {
      match fail(attempt)
      case None =>
        return Ready(attempt), attempt + 1;
      case Some(m) =>
        if Retryable(m) && attempt < MaxRetries - 1 {
          attempt := attempt + 1;
        } else {
          return Fatal(m), attempt + 1;
        }
    }
  }

  /** The port of the chromedriver service: `9500 + thread_id % 100 +
      random.randint(0, 100)`, with the random draw as a parameter. */
  function Port(threadId: nat, draw: int): (p: int)
    requires 0 <= draw <= 100
    ensures 9500 <= p <= 9699
  {
    9500 + threadId % 100 + draw
  }

  /** Every port of the range is reachable. */
  lemma PortRangeExact(p: int)
    requires 9500 <= p <= 9699
    ensures exists threadId: nat, draw :: 0 <= draw <= 100 && Port(threadId, draw) == p
  {
    var tid: nat := if p - 9500 < 100 then p - 9500 else 99;
    assert Port(tid, p - 9500 - tid) == p;
  }
}
