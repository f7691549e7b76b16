/**
  Whole runs of the MFA service seen from outside: every request that reaches the
  step-up store has passed the signature and identity gates first.
 */
module ApiRuns {
  import opened Lists
  import opened Wrapsig
  import opened Enrollment
  import opened EnrollmentLog
  import opened StepUpGate

  /**
    `draw` is the code that Start drew, none when the body or the email was refused or the
    random source failed; `guess` is what the body held, none when it could not be decoded.
   */
  datatype ApiRequest =
    | EnrollStart(get: Headers, draw: Option<string>, email: string, at: int)
    | EnrollVerify(get: Headers, guess: Option<string>, at: int, later: int)
    | MoveMoney(get: Headers, at: int)

  /** The gates that all three endpoints stand behind. */
  predicate Identified(get: Headers, mac: Mac, at: int) {
    Verify(get, mac, Unix(at)).Trusted? && get(SUB) != ""
  }

  /** What a request asks of the step-up store. */
  function CallOf(mac: Mac, r: ApiRequest): seq<Call> {
    if !Identified(r.get, mac, r.at) then [] else
      match r
      case EnrollStart(get, draw, email, at) => if draw.None? then [] else [Begin(get(SUB), draw.value, email, at)]
      case EnrollVerify(get, guess, at, later) =>
        if guess.None? || guess.value == "" then [] else [Try(get(SUB), guess.value, at, later)]
      case MoveMoney(get, at) => if get(MFA_VERIFIED) == "true" then [] else [Check(get(SUB), at)]
  }

  function CallsOf(mac: Mac, requests: seq<ApiRequest>): seq<Call> {
    if |requests| == 0 then [] else
      CallsOf(mac, requests[..|requests| - 1]) + CallOf(mac, requests[|requests| - 1])
  }

  /** The step-up store and its log after a run of requests. */
  function Served(mac: Mac, now: int, requests: seq<ApiRequest>): World { Run(now, CallsOf(mac, requests)) }

  lemma RunOneCall(now: int, calls: seq<Call>, c: Call)
    ensures Run(now, calls + [c]) == Do(Run(now, calls), c)
  {
    assert (calls + [c])[..|calls|] == calls;
  }

  /** The gate in front of the money moves the store as the run of calls does. */
  lemma MoveMoneyIsItsCall(mac: Mac, now: int, requests: seq<ApiRequest>, get: Headers, at: int)
    ensures Chain(get, mac, Served(mac, now, requests).state, at).0 ==
            Served(mac, now, requests + [MoveMoney(get, at)]).state
  {
    var more, calls := requests + [MoveMoney(get, at)], CallsOf(mac, requests);
    assert more[..|requests|] == requests;
    var last := CallOf(mac, MoveMoney(get, at));
    if last == [] {
      assert calls + last == calls;
    } else {
      RunOneCall(now, calls, last[0]);
    }
  }

  /** Request `j` was a freshly signed one by which the user `sub` verified a code. */
  ghost predicate VerifiedBy(mac: Mac, now: int, requests: seq<ApiRequest>, j: nat, sub: Sub)
    requires j < |requests|
  {
    var r := requests[j];
    && r.EnrollVerify? && FreshlySigned(r.get, mac, r.at) && sub != "" && r.get(SUB) == sub
    && r.guess.Some? && r.guess.value != ""
    && AfterVerify(Served(mac, now, requests[..j]).state, sub, r.guess.value, r.at, r.later).1.Verified?
  }

  /** It opened a window that is still open at `at`. */
  ghost predicate OpensWindow(mac: Mac, now: int, requests: seq<ApiRequest>, j: nat, sub: Sub, at: int) {
    j < |requests| && VerifiedBy(mac, now, requests, j, sub) && at <= requests[j].later + 1_800_000
  }

  /** The user verified a code by such a request at most thirty minutes ago. */
  ghost predicate StepUpRequested(mac: Mac, now: int, requests: seq<ApiRequest>, sub: Sub, at: int) {
    exists j: nat :: OpensWindow(mac, now, requests, j, sub, at)
  }

  lemma RecentOneMore(log: seq<Event>, e: Event, sub: Sub, at: int)
    ensures SteppedUpRecently(log + [e], sub, at) <==>
            SteppedUpRecently(log, sub, at) || (Accepted(e, sub) && at <= e.later + 1_800_000)
  {
    var all, n := log + [e], |log|;
    assert all[n] == e;
    if i :| 0 <= i < n && Accepted(log[i], sub) && at <= log[i].later + 1_800_000 {
      assert all[i] == log[i];
    }
  }

  lemma SamePrefix(mac: Mac, now: int, requests: seq<ApiRequest>, n: nat, j: nat, sub: Sub, at: int)
    requires j < n <= |requests|
    ensures OpensWindow(mac, now, requests[..n], j, sub, at) <==> OpensWindow(mac, now, requests, j, sub, at)
  {
    assert requests[..n][..j] == requests[..j];
  }

  lemma RequestedEarlier(mac: Mac, now: int, requests: seq<ApiRequest>, n: nat, sub: Sub, at: int)
    requires n <= |requests| && StepUpRequested(mac, now, requests[..n], sub, at)
    ensures StepUpRequested(mac, now, requests, sub, at)
  {
    var j: nat :| OpensWindow(mac, now, requests[..n], j, sub, at);
    SamePrefix(mac, now, requests, n, j, sub, at);
  }

  /** What a call leaves in the log. */
  function EventsOf(state: State, calls: seq<Call>): seq<Event> {
    if |calls| == 0 then [] else [EventOf(state, calls[0])]
  }

  lemma LastRequestLogs(mac: Mac, now: int, requests: seq<ApiRequest>, n: nat)
    requires |requests| == n + 1
    ensures var before := Served(mac, now, requests[..n]);
      Served(mac, now, requests).log == before.log + EventsOf(before.state, CallOf(mac, requests[n]))
  {
    var calls, last := CallsOf(mac, requests[..n]), CallOf(mac, requests[n]);
    if last == [] {
      assert calls + last == calls;
    } else {
      RunOneCall(now, calls, last[0]);
    }
  }

  /** The request's event is a success of `sub` exactly when the request verified a code for it. */
  lemma SuccessIsRequest(mac: Mac, now: int, requests: seq<ApiRequest>, n: nat, sub: Sub, at: int)
    requires |requests| == n + 1
    ensures var made := EventsOf(Served(mac, now, requests[..n]).state, CallOf(mac, requests[n]));
      OpensWindow(mac, now, requests, n, sub, at) <==>
      |made| == 1 && Accepted(made[0], sub) && at <= made[0].later + 1_800_000
  {
    VerifyMeaning(requests[n].get, mac, Unix(requests[n].at));
  }

  lemma SuccessOneMore(mac: Mac, now: int, requests: seq<ApiRequest>, n: nat, sub: Sub, at: int)
    requires |requests| == n + 1
    ensures SteppedUpRecently(Served(mac, now, requests).log, sub, at) <==>
            SteppedUpRecently(Served(mac, now, requests[..n]).log, sub, at) || OpensWindow(mac, now, requests, n, sub, at)
  {
    var before := Served(mac, now, requests[..n]);
    var made := EventsOf(before.state, CallOf(mac, requests[n]));
    LastRequestLogs(mac, now, requests, n);
    SuccessIsRequest(mac, now, requests, n, sub, at);
    if |made| == 0 {
      assert before.log + made == before.log;
    } else {
      RecentOneMore(before.log, made[0], sub, at);
    }
  }

  lemma SuccessStays(mac: Mac, now: int, requests: seq<ApiRequest>, n: nat, sub: Sub, at: int)
    requires |requests| == n + 1 && SteppedUpRecently(Served(mac, now, requests[..n]).log, sub, at)
    ensures SteppedUpRecently(Served(mac, now, requests).log, sub, at)
  {
    SuccessOneMore(mac, now, requests, n, sub, at);
  }

  lemma {:induction false} SuccessWasRequested(mac: Mac, now: int, requests: seq<ApiRequest>, sub: Sub, at: int)
    requires SteppedUpRecently(Served(mac, now, requests).log, sub, at)
    ensures StepUpRequested(mac, now, requests, sub, at)
  {
    if |requests| > 0 {
      var n := |requests| - 1;
      SuccessOneMore(mac, now, requests, n, sub, at);
      if SteppedUpRecently(Served(mac, now, requests[..n]).log, sub, at) {
        SuccessWasRequested(mac, now, requests[..n], sub, at);
        RequestedEarlier(mac, now, requests, n, sub, at);
      }
    }
  }

  lemma {:induction false} RequestSucceeded(mac: Mac, now: int, requests: seq<ApiRequest>, j: nat, sub: Sub, at: int)
    requires OpensWindow(mac, now, requests, j, sub, at)
    ensures SteppedUpRecently(Served(mac, now, requests).log, sub, at)
    decreases |requests|
  {
    if |requests| == j + 1 {
      SuccessOneMore(mac, now, requests, j, sub, at);
    } else {
      var n := |requests| - 1;
      SamePrefix(mac, now, requests, n, j, sub, at);
      RequestSucceeded(mac, now, requests[..n], j, sub, at);
      SuccessStays(mac, now, requests, n, sub, at);
    }
  }

  lemma SuccessesAreRequests(mac: Mac, now: int, requests: seq<ApiRequest>, sub: Sub, at: int)
    ensures SteppedUpRecently(Served(mac, now, requests).log, sub, at) <==> StepUpRequested(mac, now, requests, sub, at)
  {
    if SteppedUpRecently(Served(mac, now, requests).log, sub, at) {
      SuccessWasRequested(mac, now, requests, sub, at);
    }
    forall j: nat | OpensWindow(mac, now, requests, j, sub, at)
      ensures SteppedUpRecently(Served(mac, now, requests).log, sub, at)
    {
      RequestSucceeded(mac, now, requests, j, sub, at);
    }
  }

  /** Request `j` is freshly signed and names the user on whose behalf `c` is made. */
  ghost predicate MadeBy(mac: Mac, requests: seq<ApiRequest>, j: nat, c: Call) {
    j < |requests| && FromUser(requests[j].get, mac, requests[j].at) && requests[j].get("X-User-Sub") == c.sub
    && c in CallOf(mac, requests[j])
  }

  lemma CallIsSigned(mac: Mac, r: ApiRequest, c: Call)
    requires c in CallOf(mac, r)
    ensures FromUser(r.get, mac, r.at) && r.get("X-User-Sub") == c.sub
  {
    VerifyMeaning(r.get, mac, Unix(r.at));
  }

  /** Nothing reaches the step-up store but what a freshly signed request asks for its own user. */
  lemma {:induction false} CallsAreSigned(mac: Mac, requests: seq<ApiRequest>, c: Call) returns (j: nat)
    requires c in CallsOf(mac, requests)
    ensures MadeBy(mac, requests, j, c)
  {
    j := |requests| - 1;
    if c in CallOf(mac, requests[j]) {
      CallIsSigned(mac, requests[j], c);
    } else {
      j := CallsAreSigned(mac, requests[..j], c);
    }
  }

  /**
    In every run of requests, one reaches Deposit or Withdraw exactly when it is freshly
    signed, names a user, and says that MFA was done, or within the last thirty minutes a
    freshly signed request naming the same user verified a code.
   */
  lemma ApiGateMeaning(mac: Mac, now: int, requests: seq<ApiRequest>, get: Headers, at: int)
    requires ClockRuns(now, CallsOf(mac, requests)) && Served(mac, now, requests).now <= at
    ensures Chain(get, mac, Served(mac, now, requests).state, at).1 == Admitted(get("X-User-Sub")) <==>
      && FromUser(get, mac, at)
      && (get("X-MFA-Verified") == "true" || StepUpRequested(mac, now, requests, get("X-User-Sub"), at))
  {
    GateMeaning(get, mac, now, CallsOf(mac, requests), at);
    SuccessesAreRequests(mac, now, requests, get(SUB), at);
  }
}
