/** URL failover of the kleos client: which attempt's outcome `execute` returns, and how the time budget is divided. */
module Failover {

  datatype Outcome = Response(status: nat, body: string) | ConnectionError(text: string) | OtherError(text: string)

  datatype Result = Ok(status: nat, body: string) | Err(text: string)

  /**
   `execute`: `send` is what the attempt at each URL comes to. Also returns the URLs tried, in order.
   The outcome is that of the first URL that does not fail at connection level, else that of the last URL.
   */
  method Execute(urls: seq<string>, verb: string, send: nat -> Outcome) returns (r: Result, tried: seq<string>)
    ensures tried <= urls
    ensures urls == [] ==> r == Err("") && tried == []
    ensures urls != [] && verb !in ["GET", "POST", "PUT", "PATCH", "DELETE"] ==>
      r == Err("unsupported HTTP method: " + verb) && tried == []
    ensures urls != [] && verb in ["GET", "POST", "PUT", "PATCH", "DELETE"] ==>
      && tried != []
      && (forall i :: 0 <= i < |tried| - 1 ==> send(i).ConnectionError?)
      && (|tried| < |urls| ==> !send(|tried| - 1).ConnectionError?)
      && match send(|tried| - 1)
         case Response(status, body) => r == Ok(status, body)
         case ConnectionError(text) => r == Err(text)
         case OtherError(text) => r == Err(text)
  {
    var lastErr := "";
    tried := [];
    for i := 0 to |urls|
      invariant tried == urls[..i]
      invariant i == 0 ==> lastErr == ""
      invariant i == |urls| ==> urls == []
      invariant 0 < i ==> verb in ["GET", "POST", "PUT", "PATCH", "DELETE"]
      invariant forall j :: 0 <= j < i ==> send(j).ConnectionError?
    {
      if verb !in ["GET", "POST", "PUT", "PATCH", "DELETE"] {
        return Err("unsupported HTTP method: " + verb), tried;
      }
      tried := tried + [urls[i]];
      var outcome := send(i);
      if outcome.Response? {
        return Ok(outcome.status, outcome.body), tried;
      }
      if outcome.ConnectionError? && i + 1 < |urls| {
        lastErr := outcome.text;
      } else {
        return Err(outcome.text), tried;
      }
    }
    return Err(lastErr), tried;
  }

  // ----- the time budget

  const U32_BOUND: nat := 0x1_0000_0000

  /** `urls.len().max(1) as u32`. */
  function Attempts(urls: nat): nat {
    (if urls < 1 then 1 else urls) % U32_BOUND
  }

  /** Nanoseconds per attempt; dividing by zero panics. */
  datatype Share = Panic | Nanos(n: nat)

  function PerAttempt(urls: nat, total: nat): Share {
    if Attempts(urls) == 0 then Panic else Nanos(total / Attempts(urls))
  }

  lemma DivMul(total: nat, n: nat)
    requires 0 < n
    ensures n * (total / n) <= total
  {
  }

  /** The shares of all attempts fit in the caller's budget, and waste less than one nanosecond per attempt. */
  lemma BudgetHolds(urls: nat, total: nat)
    requires urls < U32_BOUND
    ensures PerAttempt(urls, total).Nanos?
    ensures urls * PerAttempt(urls, total).n <= total
    ensures 0 < urls ==> total < urls * PerAttempt(urls, total).n + urls
    ensures urls <= 1 ==> PerAttempt(urls, total).n == total
  {
    var n := if urls < 1 then 1 else urls;
    assert Attempts(urls) == n;
    DivMul(total, n);
    assert total == n * (total / n) + total % n;
  }

  /** Beyond the width of the divisor some budget is overrun, or the division panics. */
  lemma BudgetOverrun(urls: nat)
    requires U32_BOUND <= urls
    ensures PerAttempt(urls, Attempts(urls)).Panic? || urls * PerAttempt(urls, Attempts(urls)).n > Attempts(urls)
  {
    var k := Attempts(urls);
    if k != 0 {
      assert k / k == 1;
      assert urls * 1 == urls;
    }
  }

  /**
   For every number of URLs: all budgets are kept without panic if and only if the number fits the divisor's 32 bits.
   */
  lemma BudgetExactly(urls: nat)
    ensures (forall total: nat :: PerAttempt(urls, total).Nanos? && urls * PerAttempt(urls, total).n <= total) <==>
      urls < 0x1_0000_0000
  {
    hide PerAttempt;
    if urls < U32_BOUND {
      forall total: nat ensures PerAttempt(urls, total).Nanos? && urls * PerAttempt(urls, total).n <= total {
        BudgetHolds(urls, total);
      }
    } else {
      BudgetOverrun(urls);
      var total := Attempts(urls);
      assert !(PerAttempt(urls, total).Nanos? && urls * PerAttempt(urls, total).n <= total);
    }
  }
}
