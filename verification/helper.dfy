/**
 The back-end helper: it starts polling on the first `CONFIG` notification only,
 and turns each poll's outcome into either a `NEW_FEED` carrying the
 area-filtered items or a `SERVICE_FAILURE` carrying a message.
 */
module Helper {
  import opened Feed
  import AreaFilter

  // ---------------------------------------------------------------- outcomes

  /** A JavaScript error as the catch block sees it: its `name` and its
      `message` (`None` when undefined). */
  datatype JsError = JsError(name: string, message: Option<string>)

  /** The body of a successful response: the parsed JSON array, or the error
      `response.json()` threw. */
  datatype Body = Parsed(items: seq<Item>) | Malformed(error: JsError)

  /** What one `fetch` call ends in: rejection (the abort the 5-second timer
      triggers, or a transport error), or a response with a status and a body. */
  datatype FetchOutcome = Rejected(error: JsError) | Responded(status: nat, body: Body)

  /** `response.ok`: the status is in the 2xx range. */
  predicate StatusOk(status: nat) {
    200 <= status <= 299
  }

  /** Decimal digits of `n`, as a template literal prints a status number. */
  function NatToString(n: nat): (s: string)
    ensures |s| > 0
    ensures forall i :: 0 <= i < |s| ==> '0' <= s[i] <= '9'
    decreases n
  {
    if n < 10 then [DigitChar(n)] else NatToString(n / 10) + [DigitChar(n % 10)]
  }

  function DigitChar(d: nat): (c: char)
    requires d < 10
    ensures '0' <= c <= '9'
  {
    "0123456789"[d]
  }

  const HttpErrorPrefix := "HTTP error!"

  /** The message of the error thrown for a non-2xx status. */
  function HttpErrorMessage(status: nat): (m: string)
    ensures HttpErrorPrefix < m
  {
    HttpErrorPrefix + " status: " + NatToString(status)
  }

  /** A message JavaScript treats as true: defined and non-empty. */
  predicate Truthy(m: Option<string>) {
    m.Some? && m.value != ""
  }

  /** The catch block of `getFeed`: the failure message for a thrown error. */
  function FailureMessage(e: JsError): (m: string)
    ensures m != ""
    ensures e.name == "AbortError" ==> m == "Request timed out"
    ensures e.name != "AbortError" && Truthy(e.message) ==> m == e.message.value
    ensures e.name != "AbortError" && !Truthy(e.message) ==> m == "Unknown error"
  {
    if e.name == "AbortError" then "Request timed out"
    else if Truthy(e.message) && HttpErrorPrefix <= e.message.value then e.message.value
    else if Truthy(e.message) then e.message.value
    else "Unknown error"
  }

  /** One poll of `getFeed`: the notification sent to the display module. */
  function GetFeed(cfg: Config, outcome: FetchOutcome): (n: Notification)
    ensures n.NewFeed? || n.ServiceFailure?
    ensures n.NewFeed? <==> outcome.Responded? && StatusOk(outcome.status) && outcome.body.Parsed?
    ensures n.NewFeed? ==> n.items == AreaFilter.FilterFeed(outcome.body.items, cfg)
    ensures outcome.Responded? && !StatusOk(outcome.status) ==>
              n == ServiceFailure(FailurePayload(HttpErrorMessage(outcome.status)))
    ensures outcome.Responded? && StatusOk(outcome.status) && outcome.body.Malformed? ==>
              n == ServiceFailure(FailurePayload(FailureMessage(outcome.body.error)))
    ensures outcome.Rejected? ==> n == ServiceFailure(FailurePayload(FailureMessage(outcome.error)))
  {
    match outcome
    case Rejected(e) => ServiceFailure(FailurePayload(FailureMessage(e)))
    case Responded(status, body) =>
      if !StatusOk(status) then
        ServiceFailure(FailurePayload(FailureMessage(JsError("Error", Some(HttpErrorMessage(status))))))
      else
        match body
        case Malformed(e) => ServiceFailure(FailurePayload(FailureMessage(e)))
        case Parsed(items) => NewFeed(AreaFilter.FilterFeed(items, cfg))
  }

  /** Different statuses give different failure messages, so the message
      identifies the status. */
  lemma HttpErrorMessageInjective(a: nat, b: nat)
    requires HttpErrorMessage(a) == HttpErrorMessage(b)
    ensures a == b
  {
    var k := |HttpErrorPrefix + " status: "|;
    assert NatToString(a) == HttpErrorMessage(a)[k..];
    assert NatToString(b) == HttpErrorMessage(b)[k..];
    NatToStringInjective(a, b);
  }

  lemma {:induction false} NatToStringInjective(a: nat, b: nat)
    requires NatToString(a) == NatToString(b)
    ensures a == b
    decreases a
  {
    var s := NatToString(a);
    if a < 10 && b < 10 {
      DigitCharInjective(a, b);
    } else if a < 10 || b < 10 {
      assert false;
    } else {
      assert NatToString(a / 10) == s[..|s| - 1] == NatToString(b / 10);
      NatToStringInjective(a / 10, b / 10);
      DigitCharInjective(a % 10, b % 10);
    }
  }

  lemma DigitCharInjective(a: nat, b: nat)
    requires a < 10 && b < 10
    requires DigitChar(a) == DigitChar(b)
    ensures a == b
  {
  }

  /** A service outage answering 503 becomes the failure message
      "HTTP error! status: 503". */
  lemma Status503Message(cfg: Config, body: Body)
    ensures GetFeed(cfg, Responded(503, body)) ==
            ServiceFailure(FailurePayload("HTTP error! status: 503"))
  {
    assert NatToString(5) == "5";
    assert NatToString(50) == "50";
    assert NatToString(503) == "503";
    assert HttpErrorMessage(503) == "HTTP error! status: 503";
  }

  // ---------------------------------------------------------------- start guard

  /** The helper's state: whether polling has started, and the configuration
      the first `CONFIG` stored. */
  datatype HelperState = HelperState(started: bool, config: Option<Config>)

  /** The state `start` leaves: not started, no configuration. */
  const Initial := HelperState(false, None)

  /** What one notification does: the next state, and whether it started the
      poll timer together with an immediate first poll. */
  datatype HelperStep = HelperStep(next: HelperState, startsPolling: bool)

  /** `socketNotificationReceived` of the helper. */
  function Receive(h: HelperState, n: Notification): (r: HelperStep)
    ensures r.startsPolling <==> n.ConfigMsg? && !h.started
    ensures r.startsPolling ==> r.next == HelperState(true, Some(n.config))
    ensures !r.startsPolling ==> r.next == h
  {
    if n.ConfigMsg? && h.started == false then HelperStep(HelperState(true, Some(n.config)), true)
    else HelperStep(h, false)
  }

  /** The helper after a sequence of notifications, with the number of times
      polling was started. */
  function Deliver(h: HelperState, ns: seq<Notification>): (HelperState, nat)
    decreases |ns|
  {
    if |ns| == 0 then (h, 0)
    else
      var step := Receive(h, ns[0]);
      var rest := Deliver(step.next, ns[1..]);
      (rest.0, rest.1 + if step.startsPolling then 1 else 0)
  }

  /** The configuration of the first `CONFIG` in `ns`, if any. */
  function FirstConfig(ns: seq<Notification>): Option<Config>
    decreases |ns|
  {
    if |ns| == 0 then None
    else if ns[0].ConfigMsg? then Some(ns[0].config)
    else FirstConfig(ns[1..])
  }

  /** Once started, the helper ignores every further notification. */
  lemma {:induction false} StartedIsFixed(h: HelperState, ns: seq<Notification>)
    requires h.started
    ensures Deliver(h, ns) == (h, 0)
    decreases |ns|
  {
    if |ns| > 0 {
      StartedIsFixed(h, ns[1..]);
    }
  }

  /** From the initial state, polling starts at most once, exactly when a
      `CONFIG` arrives, and the first configuration wins. */
  lemma {:induction false} FirstConfigWins(ns: seq<Notification>)
    ensures Deliver(Initial, ns).1 <= 1
    ensures Deliver(Initial, ns).0.started <==> FirstConfig(ns).Some?
    ensures Deliver(Initial, ns).1 == 1 <==> FirstConfig(ns).Some?
    ensures Deliver(Initial, ns).0.config == FirstConfig(ns)
    decreases |ns|
  {
    if |ns| > 0 {
      if ns[0].ConfigMsg? {
        StartedIsFixed(HelperState(true, Some(ns[0].config)), ns[1..]);
      } else {
        FirstConfigWins(ns[1..]);
      }
    }
  }
}
