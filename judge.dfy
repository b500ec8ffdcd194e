/** The judge client shared by the text and image detectors: up to three
    calls to the judge model; a parsed number is clamped into [0,1] and
    returned; an exception whose message mentions "503" or "UNAVAILABLE" is
    transient and is followed by a randomised wait in [2,5] seconds before
    the next attempt; any other exception returns the neutral 0.5 at once;
    three transient failures in a row also return 0.5.

    The judge is an oracle: `responses[a]` is what attempt `a` produces (a
    `float()` parse failure is an `Err` like any other exception), and
    `draws[a]` is the value `random.uniform(2, 5)` would give after attempt `a`. */
module Judge {
  import opened Common

  const MaxAttempts: nat := 3
  const Neutral: real := 0.5
  const MinWait: real := 2.0
  const MaxWait: real := 5.0

  /** The error is one worth retrying: its message contains "503" or "UNAVAILABLE". */
  predicate IsTransient(o: Outcome<real>) {
    o.Err? && (Contains(o.msg, "503") || Contains(o.msg, "UNAVAILABLE"))
  }

  /** The score an attempt that ends the loop returns: the clamped value, or 0.5 for a permanent error. */
  function Settle(o: Outcome<real>): (r: real)
    ensures InUnit(r)
  {
    match o
    case Ok(v) => Clamp01(v)
    case Err(_) => Neutral
  }

  predicate WellFormedOracle(responses: seq<Outcome<real>>, draws: seq<real>) {
    |responses| >= MaxAttempts && |draws| >= MaxAttempts
    && forall a :: 0 <= a < |draws| ==> MinWait <= draws[a] <= MaxWait
  }

  /** The score the loop returns when it is at attempt `attempt`. */
  function ScoreFrom(responses: seq<Outcome<real>>, attempt: nat): (r: real)
    requires |responses| >= MaxAttempts
    ensures InUnit(r)
    decreases MaxAttempts - attempt
  {
    if attempt >= MaxAttempts then Neutral
    else if IsTransient(responses[attempt]) then ScoreFrom(responses, attempt + 1)
    else Settle(responses[attempt])
  }

  /** The score returned for a given sequence of judge responses. */
  function JudgeScore(responses: seq<Outcome<real>>): (r: real)
    requires |responses| >= MaxAttempts
  {
    ScoreFrom(responses, 0)
  }

  /** The complete observable behaviour of one run: how many attempts were made,
      which waits were slept, and what was returned. Every attempt but the last
      failed transiently; the last one either settled the score or was the
      third transient failure, and only transient failures are followed by a wait. */
  ghost predicate Consulted(responses: seq<Outcome<real>>, draws: seq<real>,
                            score: real, attempts: nat, waits: seq<real>)
    requires WellFormedOracle(responses, draws)
  {
    1 <= attempts <= MaxAttempts
    && (forall a :: 0 <= a < attempts - 1 ==> IsTransient(responses[a]))
    && if IsTransient(responses[attempts - 1]) then
         attempts == MaxAttempts && score == Neutral && waits == draws[..attempts]
       else
         score == Settle(responses[attempts - 1]) && waits == draws[..attempts - 1]
  }

  method QueryWithRetry(responses: seq<Outcome<real>>, draws: seq<real>)
    returns (score: real, attempts: nat, waits: seq<real>)
    requires WellFormedOracle(responses, draws)
    ensures Consulted(responses, draws, score, attempts, waits)
    ensures score == JudgeScore(responses)
    ensures InUnit(score)
    ensures forall k :: 0 <= k < |waits| ==> MinWait <= waits[k] <= MaxWait
  {
    attempts, waits := 0, [];
    for attempt := 0 to MaxAttempts
      invariant attempts == attempt
      invariant forall a :: 0 <= a < attempt ==> IsTransient(responses[a])
      invariant waits == draws[..attempt]
      invariant JudgeScore(responses) == ScoreFrom(responses, attempt)
    {
      attempts := attempt + 1;
      match responses[attempt]
      case Ok(v) =>
        score := Clamp01(v);
        return;
      case Err(msg) =>
        if Contains(msg, "503") || Contains(msg, "UNAVAILABLE") {
          waits := waits + [draws[attempt]];
          continue;
        }
        score := Neutral;
        return;
    }
    score := Neutral;
  }

  /** A run is determined by its oracle: two runs on the same responses and draws agree. */
  lemma ConsultedIsDeterministic(responses: seq<Outcome<real>>, draws: seq<real>,
                                 s1: real, a1: nat, w1: seq<real>, s2: real, a2: nat, w2: seq<real>)
    requires WellFormedOracle(responses, draws)
    requires Consulted(responses, draws, s1, a1, w1)
    requires Consulted(responses, draws, s2, a2, w2)
    ensures s1 == s2 && a1 == a2 && w1 == w2
  {
  }

  /** A permanent error on the first attempt returns 0.5 at once: one attempt, no wait. */
  lemma PermanentErrorStopsAtOnce(responses: seq<Outcome<real>>, draws: seq<real>,
                                  score: real, attempts: nat, waits: seq<real>)
    requires WellFormedOracle(responses, draws)
    requires Consulted(responses, draws, score, attempts, waits)
    requires responses[0].Err? && !IsTransient(responses[0])
    ensures attempts == 1 && score == Neutral && waits == []
  {
  }

  /** Two transient failures and then a success: three attempts, two waits in [2,5], the clamped value. */
  lemma SuccessAfterTwoTransientFailures(responses: seq<Outcome<real>>, draws: seq<real>,
                                         score: real, attempts: nat, waits: seq<real>)
    requires WellFormedOracle(responses, draws)
    requires Consulted(responses, draws, score, attempts, waits)
    requires IsTransient(responses[0]) && IsTransient(responses[1]) && responses[2].Ok?
    ensures attempts == 3 && score == Clamp01(responses[2].value)
    ensures |waits| == 2 && forall k :: 0 <= k < 2 ==> MinWait <= waits[k] <= MaxWait
  {
  }

  /** Three transient failures: three attempts, a wait after each, and the neutral score. */
  lemma AllTransientGivesNeutral(responses: seq<Outcome<real>>, draws: seq<real>,
                                 score: real, attempts: nat, waits: seq<real>)
    requires WellFormedOracle(responses, draws)
    requires Consulted(responses, draws, score, attempts, waits)
    requires forall a :: 0 <= a < MaxAttempts ==> IsTransient(responses[a])
    ensures attempts == MaxAttempts && score == Neutral && waits == draws[..MaxAttempts]
  {
  }
}
