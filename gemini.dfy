/** The summarization client's retry/backoff state machine
    (`getGeminiResponse`, main.py lines 55-117).

    The call to the generative model is an input: `outcomes[k]` is what the
    model returns on attempt `k`, either the response text or an exception
    message. Sleeping is recorded in a trace of waits (in seconds) instead of
    being performed. */
module Gemini {
  import opened Results
  import opened Text

  /** What one call to the model produced: a reply with its `text`, which is
      `None` when the reply carries no text, or an exception's message. */
  datatype CallOutcome = Replied(text: Option<string>) | Failed(message: string)

  /** The observable behaviour of one run: the value returned, the number of
      calls made to the model, and the sleeps performed, in order. */
  datatype Run = Run(result: Option<string>, attempts: nat, sleeps: seq<nat>)

  /** Substrings that mark an overload or rate-limit error worth retrying. */
  const TransientMarkers: seq<string> := ["503", "429", "UNAVAILABLE", "RESOURCE_EXHAUSTED"]

  /** Python's `any(err in message for err in markers)`. */
  predicate AnyIn(markers: seq<string>, message: string)
  {
    |markers| > 0 && (HasSubstring(message, markers[0]) || AnyIn(markers[1..], message))
  }

  /** The error classifier of the retry loop. */
  predicate IsTransient(message: string)
  {
    AnyIn(TransientMarkers, message)
  }

  /** An error is retried exactly when its message contains one of the four markers. */
  lemma IsTransientMeaning(message: string)
    ensures IsTransient(message) <==>
      Contains(message, "503") || Contains(message, "429") ||
      Contains(message, "UNAVAILABLE") || Contains(message, "RESOURCE_EXHAUSTED")
  {
    HasSubstringIsContains(message, "503");
    HasSubstringIsContains(message, "429");
    HasSubstringIsContains(message, "UNAVAILABLE");
    HasSubstringIsContains(message, "RESOURCE_EXHAUSTED");
    var tail1, tail2, tail3 := TransientMarkers[1..], TransientMarkers[2..], TransientMarkers[3..];
    assert tail1 == ["429", "UNAVAILABLE", "RESOURCE_EXHAUSTED"] && tail1[1..] == tail2;
    assert tail2 == ["UNAVAILABLE", "RESOURCE_EXHAUSTED"] && tail2[1..] == tail3;
    assert tail3 == ["RESOURCE_EXHAUSTED"] && tail3[1..] == [];
    assert AnyIn(tail3, message) <==> HasSubstring(message, "RESOURCE_EXHAUSTED");
    assert AnyIn(tail2, message) <==> HasSubstring(message, "UNAVAILABLE") || AnyIn(tail3, message);
    assert AnyIn(tail1, message) <==> HasSubstring(message, "429") || AnyIn(tail2, message);
  }

  /** A failed call whose error the loop retries. */
  predicate TransientFailure(o: CallOutcome)
  {
    o.Failed? && IsTransient(o.message)
  }

  /** `2 ** n`. */
  function Pow2(n: nat): (r: nat)
    ensures r >= 1
  {
    if n == 0 then 1 else 2 * Pow2(n - 1)
  }

  /** The wait after a transient failure on attempt `attempt`: `retry_delay * 2 ** attempt`. */
  function Backoff(retryDelay: nat, attempt: nat): nat
  {
    retryDelay * Pow2(attempt)
  }

  /** The waits after transient failures on the `n` attempts `from` .. `from + n - 1`. */
  function Waits(retryDelay: nat, from: nat, n: nat): (r: seq<nat>)
    ensures |r| == n
    decreases n
  {
    if n == 0 then [] else [Backoff(retryDelay, from)] + Waits(retryDelay, from + 1, n - 1)
  }

  /** The `j`-th of those waits is that of attempt `from + j`. */
  lemma {:induction false} WaitsAt(retryDelay: nat, from: nat, n: nat, j: nat)
    requires j < n
    ensures Waits(retryDelay, from, n)[j] == Backoff(retryDelay, from + j)
    decreases n
  {
    if j > 0 {
      WaitsAt(retryDelay, from + 1, n - 1, j - 1);
    }
  }

  /** The waits after transient failures on attempts 0 .. n - 1. */
  function BackoffWaits(retryDelay: nat, n: nat): seq<nat>
  {
    Waits(retryDelay, 0, n)
  }

  /** The loop from attempt `attempt` on: its result, the attempts it makes and
      the sleeps it performs. */
  function RunFrom(outcomes: seq<CallOutcome>, maxRetries: int, retryDelay: nat, successDelay: nat,
                   attempt: nat): Run
    requires maxRetries <= |outcomes|
    decreases maxRetries - attempt
  {
    if attempt >= maxRetries then Run(None, 0, [])
    else match outcomes[attempt]
      case Replied(text) => Run(text, 1, [successDelay])
      case Failed(message) =>
        if !IsTransient(message) then Run(None, 1, [])
        else if attempt < maxRetries - 1 then
          var rest := RunFrom(outcomes, maxRetries, retryDelay, successDelay, attempt + 1);
          Run(rest.result, rest.attempts + 1, [Backoff(retryDelay, attempt)] + rest.sleeps)
        else Run(None, 1, [])
  }

  /** The whole run of `getGeminiResponse`. */
  function Summarize(outcomes: seq<CallOutcome>, maxRetries: int, retryDelay: nat, successDelay: nat): Run
    requires maxRetries <= |outcomes|
  {
    RunFrom(outcomes, maxRetries, retryDelay, successDelay, 0)
  }

  /** The retry loop itself: one call per attempt, a sleep of `successDelay`
      after a reply, a backoff sleep after a transient failure that is not on
      the last attempt, and an immediate `None` on any other failure. */
  method GetGeminiResponse(outcomes: seq<CallOutcome>, maxRetries: int, retryDelay: nat, successDelay: nat)
    returns (result: Option<string>, attempts: nat, sleeps: seq<nat>)
    requires maxRetries <= |outcomes|
    ensures Run(result, attempts, sleeps) == Summarize(outcomes, maxRetries, retryDelay, successDelay)
  {
    attempts, sleeps := 0, [];
    var attempt: nat := 0;
    while attempt < maxRetries
      invariant attempts == attempt
      invariant attempt <= maxRetries || attempt == 0
      invariant var rest := RunFrom(outcomes, maxRetries, retryDelay, successDelay, attempt);
        Summarize(outcomes, maxRetries, retryDelay, successDelay)
          == Run(rest.result, attempts + rest.attempts, sleeps + rest.sleeps)
      decreases maxRetries - attempt
    {
      attempts := attempts + 1;
      match outcomes[attempt]
      case Replied(text) =>
        sleeps := sleeps + [successDelay];
        return text, attempts, sleeps;
      case Failed(message) =>
        if IsTransient(message) {
          var waitTime := retryDelay * Pow2(attempt);
          if attempt < maxRetries - 1 {
            ghost var rest := RunFrom(outcomes, maxRetries, retryDelay, successDelay, attempt + 1);
            assert sleeps + [waitTime] + rest.sleeps == sleeps + ([waitTime] + rest.sleeps);
            sleeps := sleeps + [waitTime];
          } else {
            return None, attempts, sleeps;
          }
        } else {
          return None, attempts, sleeps;
        }
      attempt := attempt + 1;
    }
    assert sleeps + [] == sleeps;
    result := None;
  }

  /** A transient failure before the last attempt adds its backoff wait and
      one call in front of what happens from the next attempt on. */
  lemma TransientStep(outcomes: seq<CallOutcome>, maxRetries: int, retryDelay: nat,
                      successDelay: nat, attempt: nat)
    requires maxRetries <= |outcomes|
    requires attempt < maxRetries - 1
    requires TransientFailure(outcomes[attempt])
    ensures var rest := RunFrom(outcomes, maxRetries, retryDelay, successDelay, attempt + 1);
      RunFrom(outcomes, maxRetries, retryDelay, successDelay, attempt)
        == Run(rest.result, rest.attempts + 1, [Backoff(retryDelay, attempt)] + rest.sleeps)
  {
  }

  /** Transient failures on attempts `from` .. `k - 1` only add their backoff
      waits in front of what happens from attempt `k` on. */
  lemma {:induction false} TransientPrefix(outcomes: seq<CallOutcome>, maxRetries: int, retryDelay: nat,
                                           successDelay: nat, from: nat, k: nat)
    requires maxRetries <= |outcomes|
    requires from <= k < maxRetries
    requires forall j :: from <= j < k ==> TransientFailure(outcomes[j])
    ensures var rest := RunFrom(outcomes, maxRetries, retryDelay, successDelay, k);
      RunFrom(outcomes, maxRetries, retryDelay, successDelay, from)
        == Run(rest.result, (k - from) + rest.attempts, Waits(retryDelay, from, k - from) + rest.sleeps)
    decreases k - from
  {
    if from < k {
      TransientPrefix(outcomes, maxRetries, retryDelay, successDelay, from + 1, k);
      TransientStep(outcomes, maxRetries, retryDelay, successDelay, from);
      var rest := RunFrom(outcomes, maxRetries, retryDelay, successDelay, k);
      assert [Backoff(retryDelay, from)] + (Waits(retryDelay, from + 1, k - from - 1) + rest.sleeps)
          == Waits(retryDelay, from, k - from) + rest.sleeps;
    } else {
      assert Waits(retryDelay, from, k - from) == [];
    }
  }

  /** A reply on attempt `k`, after transient failures on every earlier
      attempt, ends the loop after `k + 1` calls and its `text` (possibly
      `None`) is returned; the sleeps are the backoff
      waits of attempts 0 .. k - 1 followed by one `successDelay`. */
  lemma SucceedsAt(outcomes: seq<CallOutcome>, maxRetries: int, retryDelay: nat, successDelay: nat,
                   k: nat, text: Option<string>)
    requires maxRetries <= |outcomes|
    requires k < maxRetries
    requires forall j :: 0 <= j < k ==> TransientFailure(outcomes[j])
    requires outcomes[k] == Replied(text)
    ensures Summarize(outcomes, maxRetries, retryDelay, successDelay)
      == Run(text, k + 1, BackoffWaits(retryDelay, k) + [successDelay])
  {
    TransientPrefix(outcomes, maxRetries, retryDelay, successDelay, 0, k);
  }

  /** A non-transient failure on attempt `k`, after transient failures on
      every earlier attempt, returns `None` at once: `k + 1` calls, and no
      sleep for attempt `k`. */
  lemma FailsFatallyAt(outcomes: seq<CallOutcome>, maxRetries: int, retryDelay: nat, successDelay: nat,
                       k: nat, message: string)
    requires maxRetries <= |outcomes|
    requires k < maxRetries
    requires forall j :: 0 <= j < k ==> TransientFailure(outcomes[j])
    requires outcomes[k] == Failed(message) && !IsTransient(message)
    ensures Summarize(outcomes, maxRetries, retryDelay, successDelay)
      == Run(None, k + 1, BackoffWaits(retryDelay, k))
  {
    TransientPrefix(outcomes, maxRetries, retryDelay, successDelay, 0, k);
    assert BackoffWaits(retryDelay, k) + [] == BackoffWaits(retryDelay, k);
  }

  /** Transient failures on every attempt use up all `maxRetries` calls and
      return `None`; the last failure is not followed by a sleep. */
  lemma GivesUpAfterLastAttempt(outcomes: seq<CallOutcome>, maxRetries: int, retryDelay: nat,
                                successDelay: nat)
    requires 0 < maxRetries <= |outcomes|
    requires forall j :: 0 <= j < maxRetries ==> TransientFailure(outcomes[j])
    ensures Summarize(outcomes, maxRetries, retryDelay, successDelay)
      == Run(None, maxRetries, BackoffWaits(retryDelay, maxRetries - 1))
  {
    TransientPrefix(outcomes, maxRetries, retryDelay, successDelay, 0, maxRetries - 1);
    assert BackoffWaits(retryDelay, maxRetries - 1) + [] == BackoffWaits(retryDelay, maxRetries - 1);
  }

  /** From attempt `attempt` on, the loop makes at least one call while attempts
      remain, never more calls than remain, and sleeps at most once per call. */
  lemma {:induction false} RunFromBounds(outcomes: seq<CallOutcome>, maxRetries: int, retryDelay: nat,
                                         successDelay: nat, attempt: nat)
    requires maxRetries <= |outcomes|
    ensures var r := RunFrom(outcomes, maxRetries, retryDelay, successDelay, attempt);
      && (attempt >= maxRetries ==> r == Run(None, 0, []))
      && (attempt < maxRetries ==> 1 <= r.attempts <= maxRetries - attempt)
      && |r.sleeps| <= r.attempts
    decreases maxRetries - attempt
  {
    if attempt < maxRetries - 1 {
      RunFromBounds(outcomes, maxRetries, retryDelay, successDelay, attempt + 1);
    }
  }

  /** `getGeminiResponse` never calls the model more than `max_retries` times,
      calls it at least once when `max_retries` is positive, and with
      `max_retries <= 0` returns `None` without calling it or sleeping. */
  lemma AttemptsWithinLimit(outcomes: seq<CallOutcome>, maxRetries: int, retryDelay: nat, successDelay: nat)
    requires maxRetries <= |outcomes|
    ensures var r := Summarize(outcomes, maxRetries, retryDelay, successDelay);
      && (maxRetries <= 0 ==> r == Run(None, 0, []))
      && (maxRetries > 0 ==> 1 <= r.attempts <= maxRetries)
      && |r.sleeps| <= r.attempts
  {
    RunFromBounds(outcomes, maxRetries, retryDelay, successDelay, 0);
  }

  /** Every wait doubles the one before it. */
  lemma {:induction false} Pow2Increasing(i: nat, j: nat)
    requires i < j
    ensures Pow2(i) < Pow2(j)
    decreases j
  {
    if i < j - 1 {
      Pow2Increasing(i, j - 1);
    }
  }

  /** Multiplying by a positive delay keeps a strict order. */
  lemma ScaleStrict(factor: nat, x: nat, y: nat)
    requires factor > 0 && x < y
    ensures factor * x < factor * y
  {
  }

  /** The backoff waits are `retry_delay * 2 ** k` and, for a positive
      `retry_delay`, strictly increase from one attempt to the next. */
  lemma BackoffWaitsIncrease(retryDelay: nat, n: nat, i: nat, j: nat)
    requires retryDelay > 0
    requires i < j < n
    ensures BackoffWaits(retryDelay, n)[i] == retryDelay * Pow2(i)
    ensures BackoffWaits(retryDelay, n)[i] < BackoffWaits(retryDelay, n)[j]
  {
    Pow2Increasing(i, j);
    WaitsAt(retryDelay, 0, n, i);
    WaitsAt(retryDelay, 0, n, j);
    ScaleStrict(retryDelay, Pow2(i), Pow2(j));
  }

  /** With the defaults `max_retries = 3`, `retry_delay = 5` and
      `success_delay = 3`, three overload errors give up after waiting 5 and
      then 10 seconds; a reply on the third attempt adds one 3-second sleep. */
  lemma DefaultSchedule(first: string, second: string, third: string, text: string)
    requires IsTransient(first) && IsTransient(second) && IsTransient(third)
    ensures Summarize([Failed(first), Failed(second), Failed(third)], 3, 5, 3) == Run(None, 3, [5, 10])
    ensures Summarize([Failed(first), Failed(second), Replied(Some(text))], 3, 5, 3) == Run(Some(text), 3, [5, 10, 3])
  {
    var exhausted := [Failed(first), Failed(second), Failed(third)];
    GivesUpAfterLastAttempt(exhausted, 3, 5, 3);
    assert BackoffWaits(5, 2) == [5, 10];
    var recovered := [Failed(first), Failed(second), Replied(Some(text))];
    SucceedsAt(recovered, 3, 5, 3, 2, Some(text));
  }

  /** Messages that start with the service's 503 or 429 status codes are
      classified as transient, whatever follows. */
  lemma StatusPrefixesAreTransient(detail: string)
    ensures IsTransient("503" + detail)
    ensures IsTransient("429" + detail)
  {
  }
}
