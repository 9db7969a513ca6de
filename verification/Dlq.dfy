/** The dead letter queue: retry counting and backoff. */
module Dlq {
  import opened Lists
  import opened Numbers
  import opened Wrappers
  import opened Durations

  // ---------------------------------------------------------------- backoff

  datatype BackoffStrategy = Fixed(delay: Duration) | Exponential(base: Duration, max: Duration)

  function Pow2(k: nat): nat { if k == 0 then 1 else 2 * Pow2(k - 1) }

  /** Two to the `k` in 64 bits, stopping at the largest value. */
  function SaturatingPow2(k: nat): nat { if k < 64 then Pow2(k) else U64 - 1 }

  /** The multiplier is cut to 32 bits before it is used. */
  function DelayFor(s: BackoffStrategy, attempt: nat): Duration {
    match s
    case Fixed(d) => d
    case Exponential(base, max) =>
      var multiplier := SaturatingPow2(attempt);
      var delay := SaturatingMul(base, multiplier % U32);
      if delay > max then max else delay
  }

  lemma {:induction false} Pow2Monotone(a: nat, b: nat)
    requires a <= b
    ensures Pow2(a) <= Pow2(b) && Pow2(b) == Pow2(a) * Pow2(b - a)
  {
    if a < b {
      Pow2Monotone(a, b - 1);
      assert Pow2(b) == 2 * (Pow2(a) * Pow2(b - 1 - a)) == Pow2(a) * (2 * Pow2(b - 1 - a));
    } else {
      assert Pow2(0) == 1;
    }
  }

  lemma Pow2At32()
    ensures Pow2(32) == U32 && Pow2(31) < U32
  {
    assert Pow2(4) == 16 by { assert Pow2(2) == 2 * Pow2(1) && Pow2(1) == 2 * Pow2(0); }
    Pow2Monotone(4, 8);
    Pow2Monotone(8, 16);
    Pow2Monotone(16, 32);
    assert Pow2(32) == 2 * Pow2(31);
  }

  /** The factor the code really multiplies by: right up to attempt 31, nothing from 32 to 63, and the
      largest 32-bit number from then on. */
  lemma Multiplier(attempt: nat)
    ensures SaturatingPow2(attempt) % U32 ==
      if attempt <= 31 then Pow2(attempt) else if attempt <= 63 then 0 else U32 - 1
  {
    Pow2At32();
    if attempt <= 31 {
      Pow2Monotone(attempt, 31);
    } else if attempt <= 63 {
      Pow2Monotone(32, attempt);
      MultipleMod(Pow2(attempt - 32));
    }
  }

  lemma MultipleMod(k: nat)
    ensures (U32 * k) % U32 == 0
  {}

  lemma CappedMul(base: Duration, n: nat, max: Duration)
    ensures var d := SaturatingMul(base, n); (if d > max then max else d) == Min(base * n, max)
  {}

  lemma MulPositive(base: nat, n: nat)
    ensures base > 0 && n > 0 ==> base * n > 0
    ensures base == 0 ==> base * n == 0
  {}

  lemma MulLess(base: nat, m: nat, n: nat)
    requires m < n
    ensures base > 0 ==> base * m < base * n
  {
    assert base * n == base * m + base * (n - m);
    MulPositive(base, n - m);
  }

  /** Too small a factor goes unnoticed only below a cap it reaches, or with nothing to multiply. */
  lemma CapHides(base: nat, m: nat, n: nat, max: nat)
    requires m < n
    ensures Min(base * m, max) == Min(base * n, max) <==> base == 0 || base * m >= max
  {
    MulPositive(base, n);
    MulLess(base, m, n);
  }

  /** Exponential backoff is base times two to the attempt, capped, exactly when the multiplier survives or
      the answer does not depend on it: up to attempt 31; or with nothing to multiply, or a cap of zero; or
      from attempt 64 on when the largest 32-bit factor already reaches the cap. */
  lemma DoublingLaw(base: Duration, max: Duration, attempt: nat)
    ensures DelayFor(Exponential(base, max), attempt) == Min(base * Pow2(attempt), max)
      <==> attempt <= 31 || base == 0 || max == 0 || (attempt >= 64 && base * (U32 - 1) >= max)
  {
    Multiplier(attempt);
    var m := SaturatingPow2(attempt) % U32;
    CappedMul(base, m, max);
    if attempt > 31 {
      Pow2At32();
      Pow2Monotone(32, attempt);
      CapHides(base, m, Pow2(attempt), max);
    }
  }

  /** As long as the doubling law holds, delays do not shrink. */
  lemma DelaysNeverShrink(base: Duration, max: Duration, a: nat, b: nat)
    requires a <= b <= 31
    ensures DelayFor(Exponential(base, max), a) <= DelayFor(Exponential(base, max), b) <= max
  {
    DoublingLaw(base, max, a);
    DoublingLaw(base, max, b);
    Pow2Monotone(a, b);
    if Pow2(a) < Pow2(b) { MulLess(base, Pow2(a), Pow2(b)); }
  }

  // ---------------------------------------------------------------- counting

  datatype Outcome = Retry(attempt: nat, delay: Duration) | SentToDlq(attempts: nat)

  datatype Config = Config(maxRetries: nat, backoff: BackoffStrategy)

  /** A failure, whose routing to the DLQ topic would succeed or not, or an acknowledgement. */
  datatype Event = Failure(id: string, putOk: bool) | Ack(id: string)

  function Count(retries: map<string, nat>, id: string): nat { if id in retries then retries[id] else 0 }

  function OnFailureState(cfg: Config, retries: map<string, nat>, id: string, putOk: bool): map<string, nat> {
    var attempt := Count(retries, id) + 1;
    if attempt >= cfg.maxRetries && putOk then retries - {id} else retries[id := attempt]
  }

  function OnFailureOutcome(cfg: Config, retries: map<string, nat>, id: string, putOk: bool): Option<Outcome> {
    var attempt := Count(retries, id) + 1;
    if attempt >= cfg.maxRetries then (if putOk then Some(SentToDlq(attempt)) else None)
    else Some(Retry(attempt, DelayFor(cfg.backoff, attempt - 1)))
  }

  class DeadLetterQueue {
    const config: Config
    var retries: map<string, nat>

    constructor (config: Config)
      ensures this.config == config && retries == map[]
    {
      this.config := config;
      retries := map[];
    }

    /** A failed put leaves the counter raised; `None` is the error it reports. */
    method OnFailure(id: string, putOk: bool) returns (outcome: Option<Outcome>)
      modifies this
      ensures retries == OnFailureState(config, old(retries), id, putOk)
      ensures retries == After(config, old(retries), Failure(id, putOk))
      ensures outcome == OnFailureOutcome(config, old(retries), id, putOk)
    {
      if id !in retries {
        retries := retries[id := 0];
      }
      retries := retries[id := retries[id] + 1];
      var attempt := retries[id];
      if attempt >= config.maxRetries {
        if !putOk {
          return None;
        }
        retries := retries - {id};
        return Some(SentToDlq(attempt));
      }
      var delay := DelayFor(config.backoff, attempt - 1);
      return Some(Retry(attempt, delay));
    }

    method AttemptCount(id: string) returns (n: nat)
      ensures n == Count(retries, id)
    {
      n := if id in retries then retries[id] else 0;
    }

    method Acknowledge(id: string)
      modifies this
      ensures retries == old(retries) - {id} == After(config, old(retries), Ack(id))
    {
      retries := retries - {id};
    }
  }

  // ---------------------------------------------------------------- accounting over a run

  function After(cfg: Config, retries: map<string, nat>, e: Event): map<string, nat> {
    match e
    case Failure(id, putOk) => OnFailureState(cfg, retries, id, putOk)
    case Ack(id) => retries - {id}
  }

  function Counters(cfg: Config, run: seq<Event>): map<string, nat> {
    if run == [] then map[] else After(cfg, Counters(cfg, run[..|run| - 1]), run[|run| - 1])
  }

  /** Failures of `id` since its last acknowledgement. */
  function Failures(run: seq<Event>, id: string): nat {
    if run == [] then 0
    else
      var n, e := Failures(run[..|run| - 1], id), run[|run| - 1];
      if e.id != id then n else if e.Ack? then 0 else n + 1
  }

  /** The attempts of each DLQ send of `id` since its last acknowledgement. */
  function Sends(cfg: Config, run: seq<Event>, id: string): seq<nat> {
    if run == [] then []
    else
      var front, e := run[..|run| - 1], run[|run| - 1];
      var sends := Sends(cfg, front, id);
      if e.id != id then sends
      else match e
        case Ack(_) => []
        case Failure(_, putOk) =>
          var outcome := OnFailureOutcome(cfg, Counters(cfg, front), id, putOk);
          if outcome.Some? && outcome.value.SentToDlq? then sends + [outcome.value.attempts] else sends
  }

  function Sum(s: seq<nat>): nat { if s == [] then 0 else Sum(s[..|s| - 1]) + s[|s| - 1] }

  /** Nothing is lost: whether or not puts succeed, the failures since the last acknowledgement are those
      reported with the DLQ sends plus those still counted. */
  lemma {:induction false} FailuresAreAccountedFor(cfg: Config, run: seq<Event>, id: string)
    ensures Failures(run, id) == Sum(Sends(cfg, run, id)) + Count(Counters(cfg, run), id)
  {
    if run != [] {
      var front := run[..|run| - 1];
      FailuresAreAccountedFor(cfg, front, id);
      var sends := Sends(cfg, front, id);
      assert forall n: nat :: (sends + [n])[..|sends|] == sends;
    }
  }

  ghost predicate PutsSucceed(run: seq<Event>) {
    forall i :: 0 <= i < |run| && run[i].Failure? ==> run[i].putOk
  }

  function Budget(cfg: Config): nat { if cfg.maxRetries == 0 then 1 else cfg.maxRetries }

  lemma {:induction false} SendsUseTheBudget(cfg: Config, run: seq<Event>, id: string)
    requires PutsSucceed(run)
    ensures Count(Counters(cfg, run), id) < Budget(cfg)
    ensures Sum(Sends(cfg, run, id)) == Budget(cfg) * |Sends(cfg, run, id)|
  {
    if run != [] {
      var front := run[..|run| - 1];
      SendsUseTheBudget(cfg, front, id);
      var sends := Sends(cfg, front, id);
      assert (sends + [Budget(cfg)])[..|sends|] == sends;
      assert Budget(cfg) * (|sends| + 1) == Budget(cfg) * |sends| + Budget(cfg);
    }
  }

  /** With successful puts: failures are the retry budget times the sends plus the counter, so both are
      determined by how often the event failed. */
  lemma AccountingLaw(cfg: Config, run: seq<Event>, id: string)
    requires PutsSucceed(run)
    ensures Failures(run, id) == Budget(cfg) * |Sends(cfg, run, id)| + Count(Counters(cfg, run), id)
    ensures |Sends(cfg, run, id)| == Failures(run, id) / Budget(cfg)
    ensures Count(Counters(cfg, run), id) == Failures(run, id) % Budget(cfg)
  {
    FailuresAreAccountedFor(cfg, run, id);
    SendsUseTheBudget(cfg, run, id);
    DivMod(Budget(cfg), |Sends(cfg, run, id)|, Count(Counters(cfg, run), id));
  }

  /** Failure `i` since the last acknowledgement or send is retried after base times two to the i - 1, capped,
      until the budget is used up. */
  ghost predicate Doubles(cfg: Config, run: seq<Event>, id: string)
    requires cfg.backoff.Exponential?
  {
    var i := Failures(run, id) % Budget(cfg) + 1;
    OnFailureOutcome(cfg, Counters(cfg, run), id, true) ==
      Some(if i >= cfg.maxRetries then SentToDlq(i)
           else Retry(i, Min(cfg.backoff.base * Pow2(i - 1), cfg.backoff.max)))
  }

  /** In every run, failed puts included, what a failure leads to is decided by how many are counted: a retry with the
      next number as long as the budget lasts, after the fixed delay if there is one; then a send, or an error if the
      put fails. */
  lemma OutcomeOfFailure(cfg: Config, run: seq<Event>, id: string, putOk: bool)
    ensures
      var i, outcome := Count(Counters(cfg, run), id) + 1, OnFailureOutcome(cfg, Counters(cfg, run), id, putOk);
      && (i >= cfg.maxRetries && !putOk ==> outcome == None)
      && (i >= cfg.maxRetries && putOk ==> outcome == Some(SentToDlq(i)))
      && (i < cfg.maxRetries ==> outcome.Some? && outcome.value.Retry? && outcome.value.attempt == i)
      && (i < cfg.maxRetries && cfg.backoff.Fixed? ==> outcome.value.delay == cfg.backoff.delay)
    ensures
      var n, after := Count(Counters(cfg, run), id), Counters(cfg, run + [Failure(id, putOk)]);
      Count(after, id) == if n + 1 >= cfg.maxRetries && putOk then 0 else n + 1
  {
    CountersSnoc(cfg, run, Failure(id, putOk));
  }

  /** With a fixed delay and successful puts, failure number `i` since the last acknowledgement or send is retried
      after just that delay until the budget is used up. */
  lemma FixedDelays(cfg: Config, run: seq<Event>, id: string)
    requires PutsSucceed(run) && cfg.backoff.Fixed?
    ensures
      var i := Failures(run, id) % Budget(cfg) + 1;
      OnFailureOutcome(cfg, Counters(cfg, run), id, true) ==
        Some(if i >= cfg.maxRetries then SentToDlq(i) else Retry(i, cfg.backoff.delay))
  {
    AccountingLaw(cfg, run, id);
    OutcomeOfFailure(cfg, run, id, true);
  }

  function FailTimes(n: nat, id: string): seq<Event> {
    if n == 0 then [] else FailTimes(n - 1, id) + [Failure(id, true)]
  }

  lemma {:induction false} FailTimesFails(n: nat, id: string)
    ensures Failures(FailTimes(n, id), id) == n && PutsSucceed(FailTimes(n, id))
  {
    if n > 0 {
      FailTimesFails(n - 1, id);
      assert FailTimes(n, id)[..|FailTimes(n, id)| - 1] == FailTimes(n - 1, id);
    }
  }

  lemma RetryDelay(cfg: Config, run: seq<Event>, id: string)
    requires PutsSucceed(run) && cfg.backoff.Exponential?
    requires cfg.maxRetries <= 33 || cfg.backoff.base == 0 || cfg.backoff.max == 0
    ensures Doubles(cfg, run, id)
  {
    AccountingLaw(cfg, run, id);
    var i := Count(Counters(cfg, run), id) + 1;
    if i < cfg.maxRetries { DoublingLaw(cfg.backoff.base, cfg.backoff.max, i - 1); }
  }

  /** The retry after failure `n` + 1 is delayed by zero when `n` is 32 to 63. */
  lemma LateRetry(cfg: Config, id: string, n: nat) returns (run: seq<Event>)
    requires cfg.backoff.Exponential? && cfg.backoff.base > 0 && cfg.backoff.max > 0 && 32 <= n <= 63
    requires n + 1 < cfg.maxRetries
    ensures PutsSucceed(run) && !Doubles(cfg, run, id)
  {
    run := FailTimes(n, id);
    FailTimesFails(n, id);
    CountBelowBudget(cfg, run, id, n);
    DoublingLaw(cfg.backoff.base, cfg.backoff.max, n);
  }

  lemma CountBelowBudget(cfg: Config, run: seq<Event>, id: string, n: nat)
    requires PutsSucceed(run) && Failures(run, id) == n < Budget(cfg)
    ensures Count(Counters(cfg, run), id) == n && n % Budget(cfg) == n
  {
    AccountingLaw(cfg, run, id);
    DivMod(Budget(cfg), 0, n);
  }

  /** Every retry of every run with successful puts is delayed by the doubling law, if and only if the budget
      ends before attempt 33 or all delays are zero anyway. */
  lemma DelaysDoubleIff(cfg: Config, id: string)
    requires cfg.backoff.Exponential?
    ensures (forall run :: PutsSucceed(run) ==> Doubles(cfg, run, id))
      <==> cfg.maxRetries <= 33 || cfg.backoff.base == 0 || cfg.backoff.max == 0
  {
    if cfg.maxRetries <= 33 || cfg.backoff.base == 0 || cfg.backoff.max == 0 {
      forall run | PutsSucceed(run) ensures Doubles(cfg, run, id) { RetryDelay(cfg, run, id); }
    } else {
      var run := LateRetry(cfg, id, 32);
    }
  }

  lemma AfterStep(cfg: Config, a: map<string, nat>, b: map<string, nat>, e: Event, id: string)
    requires Count(a, id) == Count(b, id)
    ensures e.id != id ==> Count(After(cfg, a, e), id) == Count(b, id)
    ensures e.id == id ==> Count(After(cfg, a, e), id) == Count(After(cfg, b, e), id)
  {
  }

  lemma CountersSnoc(cfg: Config, run: seq<Event>, e: Event)
    ensures Counters(cfg, run + [e]) == After(cfg, Counters(cfg, run), e)
  {
    assert (run + [e])[..|run|] == run;
  }

  /** An event's counter depends on that event's own failures and acknowledgements alone. */
  lemma {:induction false} OthersUntouched(cfg: Config, run: seq<Event>, id: string)
    ensures Count(Counters(cfg, run), id) == Count(Counters(cfg, Filter((e: Event) => e.id == id, run)), id)
  {
    if run != [] {
      var own := (e: Event) => e.id == id;
      var front, last := run[..|run| - 1], run[|run| - 1];
      var mine := Filter(own, front);
      OthersUntouched(cfg, front, id);
      AfterStep(cfg, Counters(cfg, front), Counters(cfg, mine), last, id);
      CountersSnoc(cfg, mine, last);
      assert Filter(own, run) == if last.id == id then mine + [last] else mine by {
        FilterConcat(own, front, [last]);
        assert run == front + [last];
      }
    }
  }
}
