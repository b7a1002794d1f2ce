# Amazon.in price tracker: a Dafny model

This project models the decision logic of the price-tracking bot in `apt.py`.

`fetch_and_notify_price(product_url, desired_price, retry_count=0)` works in five steps:
- It checks that the URL contains the text `amazon.in` anywhere, which any URL mentioning it passes.
- It fetches the product page.
- It looks for the price element: the deal price, else "our price", else the first `a-offscreen` element.
- It extracts the price from the element's text with the pattern `₹(\d+[\.,]\d+)`.
- It compares that price with the desired price. When the price has been reached it calls `send_whatsapp_message` and returns True. When the price is higher it returns None. When something is missing it raises `ValueError`.

A response with HTTP 429 "Too Many Requests" is retried by the function calling itself with `retry_count + 1`, up to `max_retries = 3`. The handler drops the retried call's return value. It swallows every other request error.

`main` calls the function repeatedly. After each call that does not return True it sleeps ten seconds, so calls are ten seconds plus the previous call's own duration apart, and that can include up to three backoffs of 10 to 30 seconds. The loop stops when a call returns True. It also ends when a call raises, because `main` does not catch the error.

The model has one module per concern:
- `Text` (`text.dfy`): the substring test `"amazon.in" in product_url`, proved equal to "some occurrence exists".
- `PricePattern` (`price_pattern.dfy`) covers the price pattern and `float()`:
  - A scanner for the pattern under `re.search`.
  - A declarative statement of which match a backtracking engine with greedy quantifiers reports: the leftmost start, the longest first digit run, then the longest second digit run.
  - Proofs that the scanner and that statement agree.
  - `str.replace(',', '')`, and `float()` on plain decimal literals.
  - Proofs that the stripped capture is always such a literal and what number it denotes.
- `Page` (`page.dfy`): the parsed page, reduced to what its three lookups find, and the first-present-wins selection.
- `Tracker` (`tracker.dfy`): `fetch_and_notify_price`, covering the domain guard, one GET, the verdict, and the 429 recursion.
  - The recursion is a function with measure `MaxRetries - retryCount`.
  - The network is a parameter: `net(n)` is the response to the GET made by the invocation whose `retry_count` is `n`.
  - A call's result is a `Run`: how it ends (True, None or a kind of ValueError), how many GETs it made, how many backoff sleeps it asked for, and the prices it called `send_whatsapp_message` for. The model calls each such call a notification; nothing is claimed about delivery.
- `Poll` (`poll.dfy`): the `while True` loop of `main`, as a method with a loop.
  - The loop is given the network behaviour of each cycle that happens before the process is stopped from outside.
  - The method is proved equal to a specification function `RunPoll`, and the loop's properties are proved about `RunPoll`.

Prices are exact `real`s. The numbers in the examples are exact in binary as well.

Where the intended behaviour and the code differ, the model follows the code:
- `"₹1,234.56"` yields 1234, not 1234.56. The separator class matches exactly once, so the capture is `"1,234"`. See `PricePattern.ThousandsAndDecimals`.
- A `ValueError` can be raised for an unsupported domain, a missing price element or a missing pattern. It is not a `RequestException`, so the handler does not catch it, and `main` does not catch it either. It ends the program instead of being reported and retried at the next cycle. See `Poll.BadDomainEndsRun` and `Poll.PollShape`.
- There is no guarantee of at most one notification per run. A call that reaches the target only after a 429 retry notifies, and that retried call returns True. The outer call drops the True and returns None, so `main` keeps polling and can notify again. See `Tracker.RetriedSuccessIsDropped` and `Poll.RepeatedNotifications`. What does hold is in `Poll.PollNotificationCount`: at most one notification per cycle, none when no page a cycle requests reaches the target, and at most one in all when no cycle reaches it after a retry.

## Model

| member | source | states |
|---|---|---|
| Text.Contains | apt.py:40 | the substring test `"amazon.in" in product_url`, scanning start positions from the left; specified by Text.ContainsIffOccurs |
| Text.ContainsIffOccurs | apt.py:40 | the domain test holds exactly when "amazon.in" occurs at some index of the URL |
| PricePattern.MatchAt | apt.py:56 | the pattern tried at one start, each digit run taken greedily; specified by PricePattern.MatchAtSound and PricePattern.MatchAtComplete |
| PricePattern.MatchAtSound | apt.py:56 | a match reported at a start is the greedy match there: no other match from that start has a longer first run, or the same first run and a longer second |
| PricePattern.MatchAtComplete | apt.py:56 | when nothing is reported at a start, the pattern has no match beginning there |
| PricePattern.Search | apt.py:56 | `re.search` of the pattern: the reported span lies inside the text with the separator strictly between start and end; specified by PricePattern.SearchIsLeftmostGreedy |
| PricePattern.SearchFrom | apt.py:56 | the scan over start positions from i, the first match found winning; reported spans lie at or after i; specified by PricePattern.SearchFromCorrect |
| PricePattern.DigitRunEnd | apt.py:56 | a `\d+` run taken greedily: every character up to the returned end is a digit, and the next one is not (or the text ends) |
| PricePattern.SearchFromCorrect | apt.py:56 | scanning from index i reports the greedy match at the first start from i that has one, or nothing when no start from i has a match |
| PricePattern.SearchIsLeftmostGreedy | apt.py:56 | the scanner reports a span exactly when it is the leftmost, greedy match `re.search` reports, and nothing exactly when the pattern matches nowhere |
| PricePattern.StripCommas | apt.py:58 | `replace(',', '')`: the result holds exactly the characters of the input other than commas and is never longer; order and count are fixed by PricePattern.StripCommasAppend and PricePattern.StripCommasChar |
| PricePattern.StripCommasAppend | apt.py:58 | stripping a concatenation is the concatenation of the stripped parts |
| PricePattern.StripCommasChar | apt.py:58 | on one character, a comma is deleted and anything else is kept; with StripCommasAppend this fixes the result for every input |
| PricePattern.DigitsValueAppend | apt.py:58 | dropping a thousands comma joins two digit strings into one whose value is the first times 10^(length of the second) plus the second |
| PricePattern.CommaGroupValue | apt.py:58 | the value the model gives a group with a thousands comma is the first run times 10^(digits of the second) plus the second, by PricePattern.DigitsValueAppend |
| PricePattern.ParseFloat | apt.py:58 | float() on plain decimal literals, None for its ValueError; specified by PricePattern.ParseFloatDigits and PricePattern.ParseFloatFraction |
| PricePattern.ParseFloatDigits | apt.py:58 | float() of a digit string is the integer it spells |
| PricePattern.ParseFloatFraction | apt.py:58 | float() of `a.b` is the number `ab` divided by 10 once per digit of `b` |
| PricePattern.StrippedCaptureShape | apt.py:56-58 | after stripping commas, a captured group is non-empty, made only of digits and `.`, and holds at most one `.` |
| PricePattern.ExtractPrice | apt.py:56-58 | the search, comma stripping and float() on an element's text; specified by PricePattern.ExtractPriceOfMatch and PricePattern.ExtractPriceSpec |
| PricePattern.ExtractPriceOfMatch | apt.py:56-58 | for the match `re.search` reports, float() succeeds and yields the non-negative value of the group |
| PricePattern.ExtractPriceSpec | apt.py:56-58 | extraction never reaches float()'s ValueError; it finds no price exactly when the pattern matches nowhere; an extracted price is never negative |
| PricePattern.ThousandsAndDecimals | apt.py:56-58 | the text "₹1,234.56" yields the price 1234 |
| Page.SelectPriceElement | apt.py:48-52 | the three lookups with their fallbacks; specified by Page.SelectionIsFirstPresent, Page.ConsultedInOrder and Page.OnlyConsultedLookupsMatter |
| Page.SelectionIsFirstPresent | apt.py:48-52 | the selected element is the first of deal price, our price, a-offscreen that exists; nothing is selected exactly when none exists |
| Page.ConsultedInOrder | apt.py:48-52 | the lookups made are a prefix of that order, each one before the last found nothing, and the last one supplies the element |
| Page.OnlyConsultedLookupsMatter | apt.py:48-52 | a later lookup is made only when the earlier ones found nothing: pages that agree on the lookups made give the same selection |
| Tracker.RaisesHttpError | apt.py:44 | `raise_for_status` raises for the statuses 400 to 599; its consequences are stated by Tracker.RetryOnlyOnRateLimit |
| Tracker.IsRateLimited | apt.py:72 | the response is an HTTP 429; the retry it allows is stated by Tracker.RetryOnlyOnRateLimit |
| Tracker.AttemptVerdict | apt.py:43-72 | a failed request or an HTTP error gives no page, which the handler swallows; otherwise the page is judged; specified by Tracker.RetryOnlyOnRateLimit and Tracker.FinalAttemptNotifies |
| Tracker.FinalAttempt | apt.py:43-69 | a GET that is not retried, with its notification when the target is reached (apt.py:62); specified by Tracker.FinalAttemptNotifies |
| Tracker.AfterRetry | apt.py:76 | the retried call's True or None is dropped and its ValueError passes on; its effect is stated by Tracker.RetryFinal and Tracker.NotifiedAtMostOnce |
| Tracker.Judge | apt.py:54-65 | the verdict on a fetched page: no element, no pattern, unparseable, or the price against the target; specified by Tracker.JudgeSpec |
| Tracker.VerdictOutcome | apt.py:60-69 | True on a reached target, None on a higher price or a swallowed request error, the matching ValueError otherwise; its consequences are stated by Tracker.ReturnsTrueIff and Tracker.MissingPriceRaises |
| Tracker.JudgeSpec | apt.py:54-69 | the verdict reached (price <= desired) holds exactly when an element exists, the pattern matches, and its group's value is at most the desired price; "no element" and "no pattern" hold exactly in their cases; float() never fails; the verdict "above" (returns None) holds exactly when an element exists, the pattern matches, and its group's value is above the desired price |
| Tracker.Retry | apt.py:71-76 | the 429 recursion with measure MaxRetries - retryCount, over any one-GET attempt; specified by Tracker.RetryCounts and Tracker.RetryFinal |
| Tracker.FetchAndNotify | apt.py:33-76 | `fetch_and_notify_price`: the domain guard, then the retry recursion over one GET and its verdict; specified by Tracker.CallShape and the lemmas below |
| Tracker.RetryStep | apt.py:72-76 | a one-step unfolding of Retry through FetchAndNotify, used by Tracker.RetriedSuccessIsDropped: a 429 below max_retries gives the retried call's run with one more GET and sleep |
| Tracker.RetryStop | apt.py:72-76 | the other one-step unfolding of Retry: a response that is not retried settles the call with that one GET |
| Tracker.LastTry | apt.py:72-76 | the retry count of the last invocation lies between the initial count and max_retries |
| Tracker.LastTryChain | apt.py:72-76 | every invocation before the last one met a 429 with retry_count below max_retries, and the last one did not |
| Tracker.RetryCounts | apt.py:72-76 | each invocation makes one GET, and each retry is preceded by one backoff sleep |
| Tracker.RetryFinal | apt.py:71-76 | the last GET decides the notifications; its result is returned only when no retry happened, and otherwise only its ValueError propagates |
| Tracker.CallShape | apt.py:39-76 | a call past the domain guard is a chain of rate-limited GETs ending in one GET that is not retried, with the counts, notifications and outcome that follow from it |
| Tracker.DomainGuard | apt.py:40-41 | without "amazon.in" the call raises the domain ValueError before any GET, sleeps never and notifies nothing; with it, that error never occurs |
| Tracker.AttemptBound | apt.py:72-76 | a call starting at retry count 0 makes at most 4 GETs, with one sleep before each retry |
| Tracker.RetryOnlyOnRateLimit | apt.py:71-76 | a retry happens exactly after a 429 with retry_count below 3 and passes retry_count + 1; a failed request, or any HTTP error that is not retried (a 429 with retries used up included), ends the call with None after one GET |
| Tracker.ReturnsTrueIff | apt.py:60-63 | the call returns True exactly when its first GET is not retried, succeeds, and the page's price reaches the target; the price is then notified once |
| Tracker.FinalAttemptNotifies | apt.py:60-65 | a GET that is not retried notifies exactly when its page's price reaches the target, once, for that price, and then returns True |
| Tracker.NotifiedAtMostOnce | apt.py:60-76 | a call notifies at most once and only for a price at most the desired one; it notifies exactly when its last GET reached the target; after a retry it returns None even so |
| Tracker.MissingPriceRaises | apt.py:60-69 | a page without a price element raises "Price information not found", and one whose element has no price raises "Price not found", and one whose price is above the target returns None, each after one GET and without notifying |
| Tracker.NeverNotANumber | apt.py:58 | no call ends in a ValueError from float() |
| Tracker.SampleUrlSupported | apt.py:40 | an amazon.in product URL passes the domain guard |
| Tracker.NineNinetyNine | apt.py:56-58 | the text "₹999.00" yields the price 999 |
| Tracker.RetriedSuccessIsDropped | apt.py:76 | after k 429s (k <= 3) and then a page at 999 against a target of 1000, the call makes k + 1 GETs and k sleeps, notifies 999 once, and returns True only when k is 0 |
| Poll.Settle | apt.py:86-89 | the loop's decisions over the results of its calls, cycle by cycle; specified by Poll.SettleShape and Poll.SettleNotifies |
| Poll.RunPoll | apt.py:86-89 | the run of the loop over the calls made with each cycle's network; specified by Poll.PollShape and Poll.PollNotifiesOnlyBelowTarget |
| Poll.PollLoop | apt.py:86-89 | the loop's result is the run RunPoll specifies: it stops at the first call that returns True or raises, sleeping after each other call |
| Poll.SettleShape | apt.py:86-89 | the loop stops only on a decisive call: every earlier call returned None and was followed by a sleep, and running out of cycles means every call returned None |
| Poll.PollShape | apt.py:86-89 | the same, about the calls of fetch_and_notify_price with retry count 0 on each cycle's network |
| Poll.SettleNotifies | apt.py:86-89 | when each call notifies only for prices at most the target, and notifies whenever it returns True, the run does too, and a run that ends Done has notified |
| Poll.PollNotifiesOnlyBelowTarget | apt.py:60-89 | every notification of a run is for a price at most the desired one, and a run that ends because a call returned True has notified |
| Poll.SettleCount | apt.py:86-89 | when each call notifies at most once, a run notifies at most once per cycle it ran |
| Poll.SettleQuiet | apt.py:86-89 | calls that never notify make a run that never notifies |
| Poll.SettleOnce | apt.py:86-89 | when only calls that return True notify, each at most once, the run notifies at most once in all |
| Poll.PollNotificationCount | apt.py:60-89 | a run of the loop notifies at most once per cycle; never when no response a cycle actually requests (retry counts 0 up to its last GET) is a page reaching the target; at most once in all when no cycle reaches the target after a 429 retry |
| Poll.BadDomainEndsRun | apt.py:40-41 | with an unsupported URL, the first cycle raises and ends the run before any GET or sleep |
| Poll.RepeatedNotifications | apt.py:76-89 | two cycles that each meet one 429 and then a page at 999, against a target of 1000, notify twice and keep polling |

## Left out

- HTTP fetching and HTML parsing (`requests.get`, `raise_for_status`, BeautifulSoup) are foreign libraries. A response is supplied as an input: a status with a parsed page, or a failed request. `raise_for_status` is modelled as raising for the statuses 400 to 599. The page is what its three lookups find, each lookup's text taken after `get_text(strip=True)`.
- The WhatsApp send (`send_whatsapp_message`) is an external API. The model records only the price each call of it is for. The send itself never affects the caller, because any exception inside it is caught there. As written it also cannot deliver anything: it uses `client`, which is never defined (apt.py:3 imports only `Client`), so `client.messages.create` at apt.py:24 raises `NameError`, which apt.py:30-31 catch and print.
- `random.uniform(10, 30)` and `time.sleep` are randomness and wall-clock time. The model counts the backoff sleeps of a call and the ten-second sleeps of the loop, but not their lengths.
- The model does not capture floating point. Prices are exact reals, so binary rounding and the `:.2f` formatting of messages are not modelled.
- The desired price comes from `float(input(...))` in `main`, and invalid input exits there. That is interactive I/O, so the desired price is a parameter.
- Environment variables, logging setup and `print` output are I/O glue.
- The HTTP headers are left out, because nothing in the logic depends on them.
- `\d` is modelled as the ASCII digits. Python's `\d` also matches other Unicode decimal digits, which float() would accept as well.
- PricePattern.ParseFloat: models float() only on plain decimal literals (digits with at most one `.`), which is every string the capture can produce after stripping. Other forms float() accepts are not modelled: signs, exponents, underscores, surrounding whitespace, `inf` and `nan`.
- The `while True` loop never ends on its own. The model runs it over a finite sequence of cycles and reports StillPolling when they run out, which stands for the process being stopped from outside.
