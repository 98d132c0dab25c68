/** The retry loop of `fetch_subdomains`. Each attempt issues one GET; its
    outcome (a decoded JSON array, or a request or decoding error) is given
    by `respond(attempt)`, so the network is a parameter. The first
    attempt that decodes returns at once, even when the array is empty;
    every failed attempt, the last one included, is followed by one sleep;
    after `retries` failures the result is the empty list. */
module Fetch {
  import opened Options
  import opened PyStr
  import opened Sorting
  import opened Extraction

  /** What one attempt of lines 39-41 produced: the decoded array, or one
      of the errors the `except` clause catches. */
  datatype Outcome = Success(data: seq<Entry>) | Failure

  /** How one call ended: the list it returns, how many GET requests it
      issued and how many times it slept. */
  datatype Report = Report(hosts: seq<string>, attempts: nat, sleeps: nat)

  /** The number of iterations of `range(retries)`: none when `retries` is
      zero or negative. */
  function AttemptLimit(retries: int): nat
  {
    if retries < 0 then 0 else retries
  }

  /** The first of the attempts `0 .. n-1` that succeeds, if any. */
  function FirstSuccess(respond: nat -> Outcome, n: nat): (r: Option<nat>)
    ensures r.Some? ==> r.value < n && respond(r.value).Success?
                        && forall k :: 0 <= k < r.value ==> respond(k).Failure?
    ensures r.None? ==> forall k :: 0 <= k < n ==> respond(k).Failure?
  {
    if n == 0 then None
    else
      match FirstSuccess(respond, n - 1)
      case Some(k) => Some(k)
      case None => if respond(n - 1).Success? then Some(n - 1) else None
  }

  /** How many of the attempts `0 .. n-1` fail. */
  function Failures(respond: nat -> Outcome, n: nat): nat
  {
    if n == 0 then 0 else Failures(respond, n - 1) + (if respond(n - 1).Failure? then 1 else 0)
  }

  lemma {:induction false} FailuresAllFail(respond: nat -> Outcome, n: nat)
    requires forall k :: 0 <= k < n ==> respond(k).Failure?
    ensures Failures(respond, n) == n
  {
    if n > 0 {
      FailuresAllFail(respond, n - 1);
    }
  }

  /** What `fetch_subdomains(domain, retries, delay)` returns and does. */
  function FetchReport(domain: string, retries: int, respond: nat -> Outcome): (r: Report)
    ensures r.attempts <= AttemptLimit(retries)
    ensures r.sleeps == Failures(respond, r.attempts)
    ensures StrictlyIncreasing(r.hosts)
    ensures retries <= 0 ==> r == Report([], 0, 0)
  {
    var n := AttemptLimit(retries);
    match FirstSuccess(respond, n)
    case Some(k) =>
      FailuresAllFail(respond, k);
      Report(Extract(respond(k).data, domain), k + 1, k)
    case None =>
      FailuresAllFail(respond, n);
      Report([], n, n)
  }

  /** The first attempt that succeeds decides the result; no later attempt
      is made and one sleep followed each earlier attempt. */
  lemma FirstSuccessWins(domain: string, retries: int, respond: nat -> Outcome, k: nat)
    requires k < retries && respond(k).Success?
    requires forall j :: 0 <= j < k ==> respond(j).Failure?
    ensures FetchReport(domain, retries, respond) == Report(Extract(respond(k).data, domain), k + 1, k)
  {
    assert FirstSuccess(respond, AttemptLimit(retries)) == Some(k);
  }

  /** When every attempt fails, all `retries` attempts are made, each is
      followed by a sleep, and the result is empty. */
  lemma AllAttemptsFail(domain: string, retries: int, respond: nat -> Outcome)
    requires forall k :: 0 <= k < retries ==> respond(k).Failure?
    ensures FetchReport(domain, retries, respond)
         == Report([], AttemptLimit(retries), AttemptLimit(retries))
  {
    assert FirstSuccess(respond, AttemptLimit(retries)) == None;
  }

  /** A failure `n` times in a row followed by a success: with `n + 1`
      retries the success is returned, with `n` retries the result is
      empty after `n` requests. */
  lemma RetryThreshold(domain: string, respond: nat -> Outcome, n: nat)
    requires forall k :: 0 <= k < n ==> respond(k).Failure?
    requires respond(n).Success?
    ensures FetchReport(domain, n + 1, respond).hosts == Extract(respond(n).data, domain)
    ensures FetchReport(domain, n, respond) == Report([], n, n)
  {
    FirstSuccessWins(domain, n + 1, respond, n);
    AllAttemptsFail(domain, n, respond);
  }

  /** A response that decodes to an empty array is a success: it is not
      retried and the result is empty. */
  lemma EmptyArrayNoRetry(domain: string, retries: int, respond: nat -> Outcome)
    requires retries >= 1 && respond(0) == Success([])
    ensures FetchReport(domain, retries, respond) == Report([], 1, 0)
  {
    FirstSuccessWins(domain, retries, respond, 0);
    assert KeptAll([], domain) == [];
  }

  /** Every hostname a call returns comes from one successful attempt, so
      for a domain without surrounding whitespace it is the domain or ends
      with `"." + domain`. */
  lemma FetchMatchesDomain(domain: string, retries: int, respond: nat -> Outcome, x: string)
    requires Trimmed(domain)
    requires x in FetchReport(domain, retries, respond).hosts
    ensures x == domain || EndsWith(x, "." + domain)
  {
    var k := FirstSuccess(respond, AttemptLimit(retries)).value;
    ExtractMatchesDomain(respond(k).data, domain, x);
  }

  /** The loop of lines 37-54. `attempts` counts the GET requests and
      `sleeps` the calls of `time.sleep(delay)`. */
  method FetchSubdomains(domain: string, retries: int, respond: nat -> Outcome)
    returns (hosts: seq<string>, attempts: nat, sleeps: nat)
    ensures Report(hosts, attempts, sleeps) == FetchReport(domain, retries, respond)
  {
    hosts, attempts, sleeps := [], 0, 0;
    var attempt: nat := 0;
    while attempt < retries
      invariant attempt <= AttemptLimit(retries)
      invariant attempts == attempt && sleeps == attempt
      invariant forall k :: 0 <= k < attempt ==> respond(k).Failure?
    {
      attempts := attempts + 1;
      var outcome := respond(attempt);
      if outcome.Success? {
        hosts := ExtractHostnames(outcome.data, domain);
        FirstSuccessWins(domain, retries, respond, attempt);
        return;
      }
      sleeps := sleeps + 1;
      attempt := attempt + 1;
    }
    AllAttemptsFail(domain, retries, respond);
  }
}
