/** The chain of gates in front of the money-moving endpoints, over whole runs of the MFA service. */
module StepUpGate {
  import opened Lists
  import opened Text
  import opened Wrapsig
  import opened Enrollment
  import opened EnrollmentLog

  datatype Answer = Admitted(sub: Sub) | UntrustedUpstream | MissingIdentity | MfaRequired

  /** The API's clock in whole seconds; `now` is in milliseconds. */
  function Unix(now: int): int { now / 1000 }

  /** VerifyWrapperSignature, then Middleware, then RequireMFA. */
  function Chain(get: Headers, mac: Mac, state: State, now: int): (State, Answer) {
    if !Verify(get, mac, Unix(now)).Trusted? then (state, UntrustedUpstream)
    else if get(SUB) == "" then (state, MissingIdentity)
    else if get(MFA_VERIFIED) == "true" then (state, Admitted(get(SUB)))
    else
      var (after, steppedUp) := AfterCheck(state, get(SUB), now);
      (after, if steppedUp then Admitted(get(SUB)) else MfaRequired)
  }

  /** The signature covers exactly the received headers and its timestamp passes the check. */
  ghost predicate FreshlySigned(get: Headers, mac: Mac, now: int) {
    OwnSignature(get, mac) && TimestampOf(get).Some? && InWindow(Unix(now), TimestampOf(get).value)
  }

  /** In milliseconds: up to the distance from which the check overflows, at most 30 s ahead and less than 31 s old. */
  lemma FreshMeansRecent(get: Headers, mac: Mac, at: int)
    requires TimestampOf(get).Some? && Abs(at - 1_000 * TimestampOf(get).value) <= 9_223_372_036_000
    ensures FreshlySigned(get, mac, at) <==>
      OwnSignature(get, mac) && -30_000 <= at - 1_000 * TimestampOf(get).value < 31_000
  {
    WindowIsExact(Unix(at), TimestampOf(get).value);
  }

  /** The user verified a code at most thirty minutes ago, according to the full log. */
  ghost predicate SteppedUpRecently(log: seq<Event>, sub: Sub, now: int) {
    exists i :: 0 <= i < |log| && Accepted(log[i], sub) && now <= log[i].later + 1_800_000
  }

  lemma {:induction false} LatestSuccess(log: seq<Event>, sub: Sub)
    ensures LastSuccess(log, sub).Some? ==>
      exists i :: 0 <= i < |log| && Accepted(log[i], sub) && log[i].later == LastSuccess(log, sub).value
    ensures (exists i :: 0 <= i < |log| && Accepted(log[i], sub)) ==> LastSuccess(log, sub).Some?
  {
    if log != [] {
      var n := |log| - 1;
      LatestSuccess(log[..n], sub);
      if Accepted(log[n], sub) {
        assert 0 <= n < |log| && log[n].later == LastSuccess(log, sub).value;
      } else if LastSuccess(log[..n], sub).Some? {
        var i :| 0 <= i < n && Accepted(log[..n][i], sub) && log[..n][i].later == LastSuccess(log[..n], sub).value;
        assert log[i] == log[..n][i];
      }
      if i :| 0 <= i < |log| && Accepted(log[i], sub) {
        if i < n {
          assert Accepted(log[..n][i], sub);
        }
      }
    }
  }

  /** No success in the log is later than the latest one. */
  ghost predicate Ordered(log: seq<Event>, sub: Sub) {
    forall i :: 0 <= i < |log| && Accepted(log[i], sub) ==>
      LastSuccess(log, sub).Some? && log[i].later <= LastSuccess(log, sub).value
  }

  lemma OneMoreOrdered(log: seq<Event>, e: Event, sub: Sub)
    requires Ordered(log, sub)
    requires Accepted(e, sub) && LastSuccess(log, sub).Some? ==> LastSuccess(log, sub).value <= e.later
    ensures Ordered(log + [e], sub)
  {
    LogOneMore(log, e, sub);
    var all := log + [e];
    forall i | 0 <= i < |all| && Accepted(all[i], sub)
      ensures LastSuccess(all, sub).Some? && all[i].later <= LastSuccess(all, sub).value
    {
      if i < |log| {
        assert all[i] == log[i];
      }
    }
  }

  /** Time never goes back. */
  lemma {:induction false} SuccessesAreOrdered(now: int, calls: seq<Call>, sub: Sub)
    requires ClockRuns(now, calls)
    ensures Ordered(Run(now, calls).log, sub)
  {
    if calls != [] {
      var n := |calls| - 1;
      var before := Run(now, calls[..n]);
      ClockRunsPrefix(now, calls, n);
      SuccessesAreOrdered(now, calls[..n], sub);
      StoreMatchesLog(now, calls[..n], sub);
      assert Timely(before, calls[n]);
      OneMoreOrdered(before.log, EventOf(before.state, calls[n]), sub);
    }
  }

  lemma RecentMeansLatest(now: int, calls: seq<Call>, sub: Sub, at: int)
    requires ClockRuns(now, calls)
    ensures SpecSteppedUp(Run(now, calls).log, sub, at) <==> SteppedUpRecently(Run(now, calls).log, sub, at)
  {
    var log := Run(now, calls).log;
    LatestSuccess(log, sub);
    SuccessesAreOrdered(now, calls, sub);
  }

  /** Freshly signed and naming a user: what all endpoints ask for. */
  ghost predicate FromUser(get: Headers, mac: Mac, at: int) {
    FreshlySigned(get, mac, at) && get("X-User-Sub") != ""
  }

  /** The headers say that MFA was done, or the log that the user verified a code within thirty minutes. */
  ghost predicate MfaDone(get: Headers, log: seq<Event>, at: int) {
    get("X-MFA-Verified") == "true" || SteppedUpRecently(log, get("X-User-Sub"), at)
  }

  /**
    In every run, every answer of the gates in front of Deposit and Withdraw: a request gets
    through, as the user its headers name, exactly when it is freshly signed, names one, and
    MFA was done; the three refusals say which of these was missing first.
   */
  lemma GateMeaning(get: Headers, mac: Mac, now: int, calls: seq<Call>, at: int)
    requires ClockRuns(now, calls) && Run(now, calls).now <= at
    ensures var w := Run(now, calls);
      var answer := Chain(get, mac, w.state, at).1;
      && (answer == Admitted(get("X-User-Sub")) <==> FromUser(get, mac, at) && MfaDone(get, w.log, at))
      && (answer == UntrustedUpstream <==> !FreshlySigned(get, mac, at))
      && (answer == MissingIdentity <==> FreshlySigned(get, mac, at) && get("X-User-Sub") == "")
      && (answer == MfaRequired <==> FromUser(get, mac, at) && !MfaDone(get, w.log, at))
  {
    VerifyMeaning(get, mac, Unix(at));
    StepUpRefinesLog(now, calls, get(SUB), at);
    RecentMeansLatest(now, calls, get(SUB), at);
  }

  /** The gate moves the step-up store only as a check by that user does. */
  lemma GateIsACheck(get: Headers, mac: Mac, state: State, at: int)
    ensures var (after, _) := Chain(get, mac, state, at);
      after == state || after == AfterCheck(state, get(SUB), at).0
  {}
}
