/**
 * `fetch_and_notify_price`: the domain guard, one GET, the price lookup and
 * the threshold test, and the retry on HTTP 429 by calling itself again.
 *
 * The network is a parameter: `net(n)` is the response to the GET issued by
 * the invocation whose `retry_count` is `n`. The WhatsApp send and the
 * backoff sleep are recorded in the result (`notified`, `backoffs`) instead
 * of being performed.
 */
module Tracker {
  import opened Wrappers
  import opened Text
  import opened PricePattern
  import opened Page

  /** The substring the product URL must contain. */
  const Domain: string := "amazon.in"

  /** `max_retries`. */
  const MaxRetries: nat := 3

  /** HTTP "Too Many Requests". */
  const TooManyRequests: int := 429

  /** The outcome of one `requests.get`. */
  datatype Response =
    | Received(status: int, page: Document)  // a response with its status and parsed page
    | RequestFailed                          // any other RequestException: connection error, timeout, ...

  /** `raise_for_status` raises HTTPError for the 4xx and 5xx codes. */
  predicate RaisesHttpError(status: int)
  {
    400 <= status < 600
  }

  predicate IsRateLimited(resp: Response)
  {
    resp.Received? && resp.status == TooManyRequests
  }

  /** The ValueErrors the function raises; none of them is a RequestException, so none is caught. */
  datatype ValueErrorKind =
    | UnsupportedDomain   // "This script is designed for Amazon.in URLs only."
    | PriceInfoNotFound   // "Price information not found for <url>"
    | PriceNotFound       // "Price not found"
    | NotANumber          // float() refusing the captured text

  /** How a call ends for its caller. */
  datatype Outcome = ReturnedTrue | ReturnedNone | RaisedValueError(kind: ValueErrorKind)

  /** What the page says about the price, against the desired price. */
  datatype Verdict =
    | Reached(price: real)   // price <= desired price
    | Above(price: real)
    | NoPattern              // an element was found but its text has no price
    | NoElement              // none of the three lookups found an element
    | BadNumber              // the captured text is not a float
    | NoPage                 // the GET failed and is not retried

  function Judge(doc: Document, desired: real): Verdict
  {
    match SelectPriceElement(doc).element
    case None => NoElement
    case Some(text) =>
      match ExtractPrice(text)
      case NoMatch => NoPattern
      case Unparseable => BadNumber
      case Parsed(p) => if p <= desired then Reached(p) else Above(p)
  }

  /**
   * One call: how it ends, how many GETs it issued, how many backoff sleeps
   * it requested, and the prices it called `send_whatsapp_message` for.
   */
  datatype Run = Run(outcome: Outcome, gets: nat, backoffs: nat, notified: seq<real>)

  /** What a GET that is not retried tells the tracker. */
  function AttemptVerdict(resp: Response, desired: real): Verdict
  {
    match resp
    case RequestFailed => NoPage
    case Received(status, doc) => if RaisesHttpError(status) then NoPage else Judge(doc, desired)
  }

  /**
   * True when the target is reached; None when the price is higher or the
   * request failed (the handler swallows it); ValueError otherwise.
   */
  function VerdictOutcome(v: Verdict): Outcome
  {
    match v
    case Reached(_) => ReturnedTrue
    case Above(_) => ReturnedNone
    case NoPage => ReturnedNone
    case NoPattern => RaisedValueError(PriceNotFound)
    case NoElement => RaisedValueError(PriceInfoNotFound)
    case BadNumber => RaisedValueError(NotANumber)
  }

  /** A GET whose response is not retried, and what follows from it: a notification when the target is reached. */
  function FinalAttempt(resp: Response, desired: real): Run
  {
    var v := AttemptVerdict(resp, desired);
    Run(VerdictOutcome(v), 1, 0, if v.Reached? then [v.price] else [])
  }

  /**
   * The retried call's return value is dropped by the handler; an exception
   * it raises escapes the handler unchanged.
   */
  function AfterRetry(inner: Outcome): Outcome
  {
    if inner.RaisedValueError? then inner else ReturnedNone
  }

  /** The GET of one invocation, as a function of its response. */
  function AttemptOf(desired: real): Response -> Run
  {
    (resp: Response) => FinalAttempt(resp, desired)
  }

  /**
   * The invocation with retry count `retryCount` once the domain guard has
   * passed: a 429 below MaxRetries sleeps and calls again with the next
   * retry count, anything else is settled by `attempt`.
   */
  function Retry(retryCount: nat, net: nat -> Response, attempt: Response -> Run): Run
    decreases MaxRetries - retryCount
  {
    if IsRateLimited(net(retryCount)) && retryCount < MaxRetries then
      var inner := Retry(retryCount + 1, net, attempt);
      Run(AfterRetry(inner.outcome), 1 + inner.gets, 1 + inner.backoffs, inner.notified)
    else attempt(net(retryCount))
  }

  /**
   * `fetch_and_notify_price(url, desired, retryCount)`. The retried call
   * repeats the domain guard on the same URL, so only the first guard can fail.
   */
  function FetchAndNotify(url: string, desired: real, retryCount: nat, net: nat -> Response): Run
  {
    if !Contains(url, Domain) then Run(RaisedValueError(UnsupportedDomain), 0, 0, [])
    else Retry(retryCount, net, AttemptOf(desired))
  }

  // ---------------------------------------------------------------------------
  // The threshold test
  // ---------------------------------------------------------------------------

  /**
   * The verdict in terms of the lookups and the price pattern: the target is
   * reached exactly when an element was found, its text matches, and the
   * matched price is at most the desired price; a found element without a
   * match is PriceNotFound; float() never fails.
   */
  lemma JudgeSpec(doc: Document, desired: real)
    ensures Judge(doc, desired) != BadNumber
    ensures Judge(doc, desired) == NoElement <==> SelectPriceElement(doc).element.None?
    ensures Judge(doc, desired) == NoPattern <==>
      exists t :: SelectPriceElement(doc).element == Some(t) && NoMatchIn(t, 0, |t| + 1)
    ensures forall p :: Judge(doc, desired) == Reached(p) <==>
      exists t, sp :: SelectPriceElement(doc).element == Some(t) && LeftmostGreedy(t, sp)
                      && GreedyAt(t, sp.start, sp.sep, sp.end) && p == GroupValue(t, sp) && p <= desired
    ensures forall p :: Judge(doc, desired) == Above(p) <==>
      exists t, sp :: SelectPriceElement(doc).element == Some(t) && LeftmostGreedy(t, sp)
                      && GreedyAt(t, sp.start, sp.sep, sp.end) && p == GroupValue(t, sp) && p > desired
  {
    match SelectPriceElement(doc).element
    case None =>
    case Some(t) =>
      ExtractPriceSpec(t);
      match Search(t)
      case None =>
        SearchIsLeftmostGreedy(t, Span(0, 0, 0));
        forall sp | LeftmostGreedy(t, sp) ensures false {
          SearchIsLeftmostGreedy(t, sp);
        }
      case Some(sp) =>
        ExtractPriceOfMatch(t, sp);
        SearchIsLeftmostGreedy(t, sp);
        forall sp' | LeftmostGreedy(t, sp') ensures sp' == sp {
          LeftmostGreedyUnique(t, sp, sp');
        }
        assert !NoMatchIn(t, 0, |t| + 1) by {
          assert PatternAt(t, sp.start, sp.sep, sp.end);
        }
  }

  // ---------------------------------------------------------------------------
  // The retry recursion
  // ---------------------------------------------------------------------------

  /**
   * The retry count of the invocation whose GET is not retried: the first
   * count, from `retryCount` on, whose response is not a 429 below MaxRetries.
   */
  function LastTry(retryCount: nat, net: nat -> Response): (n: nat)
    ensures retryCount <= n <= if retryCount < MaxRetries then MaxRetries else retryCount
    decreases MaxRetries - retryCount
  {
    if IsRateLimited(net(retryCount)) && retryCount < MaxRetries then LastTry(retryCount + 1, net) else retryCount
  }

  /**
   * LastTry is the first count that ends the chain: every count before it
   * was a 429 below MaxRetries, and it is not.
   */
  lemma {:induction false} LastTryChain(retryCount: nat, net: nat -> Response)
    ensures forall n :: retryCount <= n < LastTry(retryCount, net) ==> n < MaxRetries && IsRateLimited(net(n))
    ensures !(IsRateLimited(net(LastTry(retryCount, net))) && LastTry(retryCount, net) < MaxRetries)
    decreases MaxRetries - retryCount
  {
    if IsRateLimited(net(retryCount)) && retryCount < MaxRetries {
      LastTryChain(retryCount + 1, net);
    }
  }

  /** An attempt function that issues one GET and sleeps never. */
  ghost predicate SingleGet(attempt: Response -> Run)
  {
    forall resp :: attempt(resp).gets == 1 && attempt(resp).backoffs == 0
  }

  /** One GET per invocation from `retryCount` to LastTry, and one backoff before each retry. */
  lemma {:induction false} RetryCounts(retryCount: nat, net: nat -> Response, attempt: Response -> Run)
    requires SingleGet(attempt)
    ensures Retry(retryCount, net, attempt).gets == LastTry(retryCount, net) - retryCount + 1
    ensures Retry(retryCount, net, attempt).backoffs == LastTry(retryCount, net) - retryCount
    decreases MaxRetries - retryCount
  {
    if IsRateLimited(net(retryCount)) && retryCount < MaxRetries {
      RetryCounts(retryCount + 1, net, attempt);
    } else {
      assert attempt(net(retryCount)).gets == 1;
    }
  }

  /**
   * The last GET decides the notifications; its outcome is returned only
   * when no retry happened, and otherwise only an exception survives.
   */
  lemma {:induction false} RetryFinal(retryCount: nat, net: nat -> Response, attempt: Response -> Run)
    ensures var r := Retry(retryCount, net, attempt);
      var final := attempt(net(LastTry(retryCount, net)));
      r.notified == final.notified
      && r.outcome == (if LastTry(retryCount, net) == retryCount then final.outcome else AfterRetry(final.outcome))
    decreases MaxRetries - retryCount
  {
    if IsRateLimited(net(retryCount)) && retryCount < MaxRetries {
      RetryFinal(retryCount + 1, net, attempt);
      var final := attempt(net(LastTry(retryCount, net)));
      assert AfterRetry(AfterRetry(final.outcome)) == AfterRetry(final.outcome);
    }
  }

  lemma AttemptOfSingleGet(desired: real)
    ensures SingleGet(AttemptOf(desired))
  {
  }

  /** The GET that is not retried, made when the domain guard passes. */
  function LastAttempt(desired: real, retryCount: nat, net: nat -> Response): Run
  {
    FinalAttempt(net(LastTry(retryCount, net)), desired)
  }

  /**
   * A call past the domain guard in terms of its last GET: LastTry - retryCount
   * retries, the last GET's notifications, and its outcome only without retry.
   */
  lemma CallShape(url: string, desired: real, retryCount: nat, net: nat -> Response)
    requires Contains(url, Domain)
    ensures var r := FetchAndNotify(url, desired, retryCount, net);
      var final := LastAttempt(desired, retryCount, net);
      r.gets == LastTry(retryCount, net) - retryCount + 1
      && r.backoffs == LastTry(retryCount, net) - retryCount
      && r.notified == final.notified
      && r.outcome == (if LastTry(retryCount, net) == retryCount then final.outcome else AfterRetry(final.outcome))
  {
    AttemptOfSingleGet(desired);
    RetryCounts(retryCount, net, AttemptOf(desired));
    RetryFinal(retryCount, net, AttemptOf(desired));
  }

  /**
   * The domain guard: a URL without "amazon.in" gets no GET at all and
   * raises ValueError; a URL with it never raises that error.
   */
  lemma DomainGuard(url: string, desired: real, retryCount: nat, net: nat -> Response)
    ensures var r := FetchAndNotify(url, desired, retryCount, net);
      (r.outcome == RaisedValueError(UnsupportedDomain) <==> !Contains(url, Domain))
      && (r.gets == 0 <==> !Contains(url, Domain))
      && (!Contains(url, Domain) ==> r.notified == [] && r.backoffs == 0)
  {
    if Contains(url, Domain) {
      CallShape(url, desired, retryCount, net);
      var final := LastAttempt(desired, retryCount, net);
      assert final.outcome != RaisedValueError(UnsupportedDomain);
    }
  }

  /** A top-level call issues at most MaxRetries + 1 = 4 GETs, and sleeps once before each retry. */
  lemma AttemptBound(url: string, desired: real, retryCount: nat, net: nat -> Response)
    ensures var r := FetchAndNotify(url, desired, retryCount, net);
      r.gets <= (if retryCount < MaxRetries then MaxRetries - retryCount + 1 else 1)
      && (r.gets > 0 ==> r.backoffs == r.gets - 1)
  {
    if Contains(url, Domain) {
      CallShape(url, desired, retryCount, net);
    }
  }

  /**
   * A retry happens only after a 429 on a call whose retry count is below
   * MaxRetries, and it is the call with the next retry count that issues the
   * next GET; any other error ends the call with None.
   */
  lemma RetryOnlyOnRateLimit(url: string, desired: real, retryCount: nat, net: nat -> Response)
    requires Contains(url, Domain)
    ensures var r := FetchAndNotify(url, desired, retryCount, net);
      (r.gets > 1 <==> IsRateLimited(net(retryCount)) && retryCount < MaxRetries)
      && (r.gets > 1 ==> r.gets == 1 + FetchAndNotify(url, desired, retryCount + 1, net).gets)
      && (net(retryCount) == RequestFailed ==> r == Run(ReturnedNone, 1, 0, []))
      && (net(retryCount).Received? && RaisesHttpError(net(retryCount).status)
          && !(IsRateLimited(net(retryCount)) && retryCount < MaxRetries)
          ==> r == Run(ReturnedNone, 1, 0, []))
  {
    CallShape(url, desired, retryCount, net);
    CallShape(url, desired, retryCount + 1, net);
  }

  /**
   * True comes back exactly when the first GET is not retried, gets a page,
   * and the page's price reaches the target; the price is then notified.
   */
  lemma ReturnsTrueIff(url: string, desired: real, retryCount: nat, net: nat -> Response)
    ensures var r := FetchAndNotify(url, desired, retryCount, net);
      var resp := net(retryCount);
      (r.outcome == ReturnedTrue <==>
        Contains(url, Domain) && !(IsRateLimited(resp) && retryCount < MaxRetries)
        && resp.Received? && !RaisesHttpError(resp.status) && Judge(resp.page, desired).Reached?)
      && (r.outcome == ReturnedTrue ==> r.gets == 1 && r.notified == [Judge(resp.page, desired).price])
  {
    if Contains(url, Domain) {
      CallShape(url, desired, retryCount, net);
    }
  }

  /** A GET that is not retried notifies once, and only for a price that reached the target. */
  lemma FinalAttemptNotifies(resp: Response, desired: real)
    ensures var f := FinalAttempt(resp, desired);
      f.gets == 1 && f.backoffs == 0
      && (f.notified != [] <==> resp.Received? && !RaisesHttpError(resp.status) && Judge(resp.page, desired).Reached?)
      && (f.notified != [] ==> f.outcome == ReturnedTrue && f.notified == [Judge(resp.page, desired).price])
      && (forall p :: p in f.notified ==> p <= desired)
  {
    if resp.Received? && !RaisesHttpError(resp.status) {
      JudgeSpec(resp.page, desired);
    }
  }

  /**
   * Notifications: at most one per call, always for a price at most the
   * desired one, made exactly when the last GET reached the target. When a
   * retry came first, the call still returns None.
   */
  lemma NotifiedAtMostOnce(url: string, desired: real, retryCount: nat, net: nat -> Response)
    ensures var r := FetchAndNotify(url, desired, retryCount, net);
      |r.notified| <= 1
      && (forall p :: p in r.notified ==> p <= desired)
      && (r.notified != [] ==> r.outcome == (if r.gets == 1 then ReturnedTrue else ReturnedNone))
      && (r.notified != [] <==>
          Contains(url, Domain) && var resp := net(LastTry(retryCount, net));
          resp.Received? && !RaisesHttpError(resp.status) && Judge(resp.page, desired).Reached?)
  {
    if Contains(url, Domain) {
      CallShape(url, desired, retryCount, net);
      FinalAttemptNotifies(net(LastTry(retryCount, net)), desired);
    }
  }

  /**
   * An element without a price, or no element at all, raises ValueError at
   * once: no retry, no notification.
   */
  lemma MissingPriceRaises(url: string, desired: real, retryCount: nat, net: nat -> Response)
    requires Contains(url, Domain)
    requires net(retryCount).Received? && !RaisesHttpError(net(retryCount).status)
    ensures var r := FetchAndNotify(url, desired, retryCount, net);
      var v := Judge(net(retryCount).page, desired);
      (v == NoElement ==> r == Run(RaisedValueError(PriceInfoNotFound), 1, 0, []))
      && (v == NoPattern ==> r == Run(RaisedValueError(PriceNotFound), 1, 0, []))
      && (v.Above? ==> r == Run(ReturnedNone, 1, 0, []))
  {
  }

  /** float() on the captured text never raises: no call ends in that error. */
  lemma {:induction false} NeverNotANumber(url: string, desired: real, retryCount: nat, net: nat -> Response)
    ensures FetchAndNotify(url, desired, retryCount, net).outcome != RaisedValueError(NotANumber)
    decreases MaxRetries - retryCount
  {
    if Contains(url, Domain) {
      if IsRateLimited(net(retryCount)) && retryCount < MaxRetries {
        NeverNotANumber(url, desired, retryCount + 1, net);
      } else if net(retryCount).Received? {
        JudgeSpec(net(retryCount).page, desired);
      }
    }
  }

  /** A page whose deal-price element reads `text`. */
  function DealPage(text: string): Document
  {
    Document(Some(text), None, None)
  }

  /** A network that answers 429 to the first `k` GETs of a call and `resp` afterwards. */
  function RateLimitedThen(k: nat, resp: Response): nat -> Response
  {
    (n: nat) => if n < k then Received(TooManyRequests, DealPage("")) else resp
  }

  /** The product page of the examples: its deal price reads "₹999.00". */
  function Page999(): Response
  {
    Received(200, DealPage([Rupee] + "999.00"))
  }

  lemma SampleUrlSupported()
    ensures Contains("https://www.amazon.in/dp/B0", Domain)
  {
    var url := "https://www.amazon.in/dp/B0";
    assert url[12..21] == Domain;
    assert OccursAt(url, Domain, 12);
    ContainsIffOccurs(url, Domain);
  }

  /**
   * `k` 429s (at most three), then a page at 999 against a target of 1000:
   * k + 1 GETs, k backoffs, one notification of 999; the call returns True
   * only when k is 0, because a retried call's True is dropped.
   */
  lemma {:induction false} RetriedSuccessIsDropped(k: nat, retryCount: nat)
    requires retryCount <= k <= MaxRetries
    ensures FetchAndNotify("https://www.amazon.in/dp/B0", 1000.0, retryCount, RateLimitedThen(k, Page999()))
      == Run(if k == retryCount then ReturnedTrue else ReturnedNone, k - retryCount + 1, k - retryCount, [999.0])
    decreases k - retryCount
  {
    var url := "https://www.amazon.in/dp/B0";
    var net := RateLimitedThen(k, Page999());
    SampleUrlSupported();
    if retryCount < k {
      assert IsRateLimited(net(retryCount));
      RetriedSuccessIsDropped(k, retryCount + 1);
      RetryStep(url, 1000.0, retryCount, net);
    } else {
      assert net(retryCount) == Page999();
      RetryStop(url, 1000.0, retryCount, net);
      Page999Reached();
    }
  }

  /** A rate-limited GET below MaxRetries: the call is the retried call, its result dropped. */
  lemma RetryStep(url: string, desired: real, retryCount: nat, net: nat -> Response)
    requires Contains(url, Domain) && IsRateLimited(net(retryCount)) && retryCount < MaxRetries
    ensures var inner := FetchAndNotify(url, desired, retryCount + 1, net);
      FetchAndNotify(url, desired, retryCount, net)
        == Run(AfterRetry(inner.outcome), 1 + inner.gets, 1 + inner.backoffs, inner.notified)
  {
  }

  /** A GET that is not retried settles the call. */
  lemma RetryStop(url: string, desired: real, retryCount: nat, net: nat -> Response)
    requires Contains(url, Domain) && !(IsRateLimited(net(retryCount)) && retryCount < MaxRetries)
    ensures FetchAndNotify(url, desired, retryCount, net) == FinalAttempt(net(retryCount), desired)
  {
  }

  /** The page at 999 against a target of 1000, fetched without a retry: True and one notification. */
  lemma Page999Reached()
    ensures FinalAttempt(Page999(), 1000.0) == Run(ReturnedTrue, 1, 0, [999.0])
  {
    NineNinetyNine();
    assert Judge(DealPage([Rupee] + "999.00"), 1000.0) == Reached(999.0);
  }

  lemma SearchNineNinetyNine()
    ensures Search([Rupee] + "999.00") == Some(Span(0, 4, 7))
  {
    var s := [Rupee] + "999.00";
    assert s[0] == Rupee && s[1] == '9' && s[2] == '9' && s[3] == '9' && s[4] == '.' && s[5] == '0' && s[6] == '0';
    DigitRunExact(s, 1, 4);
    assert DigitRunEnd(s, 5) == 7;
    assert MatchAt(s, 0) == Some(Span(0, 4, 7));
  }

  lemma NineNinetyNine()
    ensures ExtractPrice([Rupee] + "999.00") == Parsed(999.0)
  {
    var s := [Rupee] + "999.00";
    SearchNineNinetyNine();
    assert s[1..4] == "999" && s[4] == '.' && s[5..7] == "00";
    PriceOfGroup(s, Span(0, 4, 7), "999", '.', "00");
    assert "999" + "00" == "99900";
    DigitsOf99900();
    assert Shift(99900.0, 2) == 999.0 by {
      assert Shift(99900.0, 1) == 9990.0;
    }
  }

  lemma DigitsOf99900()
    ensures DigitsValue("99900") == 99900
  {
    assert "99900"[..4] == "9990" && "9990"[..3] == "999";
    assert "999"[..2] == "99" && "99"[..1] == "9" && "9"[..0] == "";
  }
}
