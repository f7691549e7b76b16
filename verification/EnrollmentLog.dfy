/**
  The step-up store against a specification that keeps everything: the full log of
  calls, in which nothing is ever deleted.
 */
module EnrollmentLog {
  import opened Lists
  import opened Text
  import opened Enrollment

  datatype Call =
    | Begin(sub: Sub, code: string, email: string, at: int)
    | Try(sub: Sub, guess: string, at: int, later: int)
    | Check(sub: Sub, at: int)

  datatype Event =
    | Began(sub: Sub, code: string, email: string, at: int)
    | Tried(sub: Sub, guess: string, later: int, verdict: Verdict)
    | Checked(sub: Sub, at: int, answer: bool)

  /** The store, the time up to which the run has come, and the log so far. */
  datatype World = World(state: State, now: int, log: seq<Event>)

  function Fresh(now: int): World { World(State(map[], map[]), now, []) }

  function EndOf(c: Call): int { if c.Try? then c.later else c.at }

  /** The clock never goes back. */
  predicate Timely(w: World, c: Call) { w.now <= c.at <= EndOf(c) }

  function EventOf(s: State, c: Call): Event {
    match c
    case Begin(sub, code, email, at) => Began(sub, code, email, at)
    case Try(sub, guess, at, later) => Tried(sub, guess, later, AfterVerify(s, sub, guess, at, later).1)
    case Check(sub, at) => Checked(sub, at, AfterCheck(s, sub, at).1)
  }

  function StateAfter(s: State, c: Call): State {
    match c
    case Begin(sub, code, email, at) => AfterStart(s, sub, code, email, at)
    case Try(sub, guess, at, later) => AfterVerify(s, sub, guess, at, later).0
    case Check(sub, at) => AfterCheck(s, sub, at).0
  }

  function Do(w: World, c: Call): World {
    World(StateAfter(w.state, c), EndOf(c), w.log + [EventOf(w.state, c)])
  }

  function Run(now: int, calls: seq<Call>): World {
    if calls == [] then Fresh(now)
    else Do(Run(now, calls[..|calls| - 1]), calls[|calls| - 1])
  }

  ghost predicate ClockRuns(now: int, calls: seq<Call>) {
    forall i :: 0 <= i < |calls| ==> Timely(Run(now, calls[..i]), calls[i])
  }

  lemma ClockRunsPrefix(now: int, calls: seq<Call>, n: nat)
    requires ClockRuns(now, calls) && n <= |calls|
    ensures ClockRuns(now, calls[..n])
  {}

  // ---- What the log says ----

  /** A user's latest code: wrong guesses, comparisons and acceptances since it was issued. */
  datatype Issue = Issue(code: string, at: int, wrong: nat, compared: nat, accepted: nat)

  /** What one more event means for the user's latest code. */
  function IssueAfter(before: Option<Issue>, e: Event, sub: Sub): Option<Issue> {
    if e.sub != sub || e.Checked? then before
    else if e.Began? then Some(Issue(e.code, e.at, 0, 0, 0))
    else if before.None? then None
    else
      var b := before.value;
      Some(b.(wrong := b.wrong + (if TrimSpace(e.guess) != b.code then 1 else 0),
              compared := b.compared + (if e.verdict.Verified? || e.verdict.CodeMismatch? then 1 else 0),
              accepted := b.accepted + (if e.verdict.Verified? then 1 else 0)))
  }

  function LatestIssue(log: seq<Event>, sub: Sub): Option<Issue> {
    if log == [] then None
    else IssueAfter(LatestIssue(log[..|log| - 1], sub), log[|log| - 1], sub)
  }

  function SuccessAfter(before: Option<int>, e: Event, sub: Sub): Option<int> {
    if e.Tried? && e.sub == sub && e.verdict.Verified? then Some(e.later) else before
  }

  /** When the user last succeeded. */
  function LastSuccess(log: seq<Event>, sub: Sub): Option<int> {
    if log == [] then None
    else SuccessAfter(LastSuccess(log[..|log| - 1], sub), log[|log| - 1], sub)
  }

  /** Accept exactly the latest code, at most five minutes old, not yet used, after fewer than five wrong guesses. */
  predicate SpecAccepts(log: seq<Event>, sub: Sub, guess: string, now: int) {
    var issue := LatestIssue(log, sub);
    && issue.Some?
    && TrimSpace(guess) == issue.value.code
    && now <= issue.value.at + 300_000
    && issue.value.accepted == 0
    && issue.value.wrong < 5
  }

  /** Stepped up exactly for thirty minutes after the latest success. */
  predicate SpecSteppedUp(log: seq<Event>, sub: Sub, now: int) {
    var success := LastSuccess(log, sub);
    success.Some? && now <= success.value + 1_800_000
  }

  // ---- The store agrees with the log ----

  /** A pending entry mirrors the latest issue; a missing one could not be accepted any more. */
  ghost predicate CodeMatches(pending: map<Sub, Pending>, now: int, sub: Sub, issue: Option<Issue>) {
    && (issue.None? ==> sub !in pending)
    && (issue.Some? ==>
          var i := issue.value;
          && i.compared <= MAX_ATTEMPTS && i.accepted <= 1
          && (sub in pending ==>
                var p := pending[sub];
                && p.code == i.code && p.expiresAt == i.at + CODE_TTL
                && p.tries == i.wrong == i.compared && i.accepted == 0)
          && (sub !in pending ==>
                i.accepted > 0 || i.wrong >= MAX_ATTEMPTS || now > i.at + CODE_TTL))
  }

  /** A step-up entry mirrors the latest success; a missing one has run out. */
  ghost predicate WindowMatches(stepUp: map<Sub, int>, now: int, sub: Sub, success: Option<int>) {
    && (sub in stepUp ==> success.Some? && stepUp[sub] == success.value + STEP_UP_TTL)
    && (sub !in stepUp ==> success.None? || now > success.value + STEP_UP_TTL)
    && (success.Some? ==> success.value <= now)
  }

  ghost predicate Matches(w: World, sub: Sub) {
    && CodeMatches(w.state.pending, w.now, sub, LatestIssue(w.log, sub))
    && WindowMatches(w.state.stepUp, w.now, sub, LastSuccess(w.log, sub))
  }

  lemma LogOneMore(log: seq<Event>, e: Event, sub: Sub)
    ensures LatestIssue(log + [e], sub) == IssueAfter(LatestIssue(log, sub), e, sub)
    ensures LastSuccess(log + [e], sub) == SuccessAfter(LastSuccess(log, sub), e, sub)
  {
    assert (log + [e])[..|log|] == log;
  }

  lemma CallKeepsCode(s: State, now: int, c: Call, sub: Sub, issue: Option<Issue>)
    requires now <= c.at <= EndOf(c) && CodeMatches(s.pending, now, sub, issue)
    ensures CodeMatches(StateAfter(s, c).pending, EndOf(c), sub, IssueAfter(issue, EventOf(s, c), sub))
  {}

  lemma CallKeepsWindow(s: State, now: int, c: Call, sub: Sub, success: Option<int>)
    requires now <= c.at <= EndOf(c) && WindowMatches(s.stepUp, now, sub, success)
    ensures WindowMatches(StateAfter(s, c).stepUp, EndOf(c), sub, SuccessAfter(success, EventOf(s, c), sub))
  {}

  lemma DoMatches(w: World, c: Call, sub: Sub)
    requires Timely(w, c) && Matches(w, sub)
    ensures Matches(Do(w, c), sub)
  {
    LogOneMore(w.log, EventOf(w.state, c), sub);
    CallKeepsCode(w.state, w.now, c, sub, LatestIssue(w.log, sub));
    CallKeepsWindow(w.state, w.now, c, sub, LastSuccess(w.log, sub));
  }

  lemma {:induction false} StoreMatchesLog(now: int, calls: seq<Call>, sub: Sub)
    requires ClockRuns(now, calls)
    ensures Matches(Run(now, calls), sub)
  {
    if calls != [] {
      var n := |calls| - 1;
      ClockRunsPrefix(now, calls, n);
      StoreMatchesLog(now, calls[..n], sub);
      DoMatches(Run(now, calls[..n]), calls[n], sub);
    }
  }

  /** Verify answers as the full log does, in every run. */
  lemma VerifyRefinesLog(now: int, calls: seq<Call>, sub: Sub, guess: string, at: int, later: int)
    requires ClockRuns(now, calls) && Timely(Run(now, calls), Try(sub, guess, at, later))
    ensures var w := Run(now, calls);
      AfterVerify(w.state, sub, guess, at, later).1.Verified? <==> SpecAccepts(w.log, sub, guess, at)
  {
    StoreMatchesLog(now, calls, sub);
  }

  /** IsStepUpVerified answers as the full log does, in every run. */
  lemma StepUpRefinesLog(now: int, calls: seq<Call>, sub: Sub, at: int)
    requires ClockRuns(now, calls) && Timely(Run(now, calls), Check(sub, at))
    ensures var w := Run(now, calls);
      AfterCheck(w.state, sub, at).1 <==> SpecSteppedUp(w.log, sub, at)
  {
    StoreMatchesLog(now, calls, sub);
  }

  // ---- The log's own words ----

  /** How many of a user's guesses differ from `code`. */
  function WrongGuesses(log: seq<Event>, sub: Sub, code: string): nat {
    if log == [] then 0 else
      var last := log[|log| - 1];
      WrongGuesses(log[..|log| - 1], sub, code)
      + if last.Tried? && last.sub == sub && TrimSpace(last.guess) != code then 1 else 0
  }

  ghost predicate Accepted(e: Event, sub: Sub) { e.Tried? && e.sub == sub && e.verdict.Verified? }

  /** Event `i` is the user's latest code, with `log[i + 1..]` what happened since. */
  ghost predicate IsLatestStart(log: seq<Event>, sub: Sub, i: nat) {
    && i < |log| && log[i].Began? && log[i].sub == sub
    && forall j :: i < j < |log| ==> !(log[j].Began? && log[j].sub == sub)
  }

  /** The running summary is what one reads off the log: the latest code and the wrong guesses since. */
  lemma {:induction false} IssueMeaning(log: seq<Event>, sub: Sub) returns (i: nat)
    requires LatestIssue(log, sub).Some?
    ensures IsLatestStart(log, sub, i)
    ensures var issue := LatestIssue(log, sub).value;
      && log[i].code == issue.code && log[i].at == issue.at
      && issue.wrong == WrongGuesses(log[i + 1..], sub, issue.code)
  {
    var n := |log| - 1;
    if log[n].Began? && log[n].sub == sub {
      i := n;
      assert log[i + 1..] == [];
    } else {
      i := IssueMeaning(log[..n], sub);
      assert log[i + 1..][..n - i - 1] == log[..n][i + 1..];
      assert log[i + 1..][n - i - 1] == log[n];
    }
  }

  /** It counts an acceptance exactly when one followed the latest code. */
  lemma {:induction false} AcceptanceMeaning(log: seq<Event>, sub: Sub, i: nat)
    requires IsLatestStart(log, sub, i)
    ensures LatestIssue(log, sub).Some?
    ensures LatestIssue(log, sub).value.accepted > 0 <==> exists j :: i < j < |log| && Accepted(log[j], sub)
  {
    var n := |log| - 1;
    if i < n {
      AcceptanceMeaning(log[..n], sub, i);
      assert Accepted(log[n], sub) ==> i < n < |log|;
    }
  }

  /** How many of a user's tries were answered with one of the given verdicts. */
  function Answered(log: seq<Event>, sub: Sub, verdicts: set<Verdict>): nat {
    if log == [] then 0 else
      var last := log[|log| - 1];
      Answered(log[..|log| - 1], sub, verdicts)
      + if last.Tried? && last.sub == sub && last.verdict in verdicts then 1 else 0
  }

  /** The verdicts that follow a comparison of the guess with the code. */
  const COMPARED: set<Verdict> := {Verified, CodeMismatch}

  /** Its counts are those of the verdicts since the latest code. */
  lemma {:induction false} IssueCounts(log: seq<Event>, sub: Sub, i: nat)
    requires IsLatestStart(log, sub, i)
    ensures LatestIssue(log, sub).Some?
    ensures LatestIssue(log, sub).value.compared == Answered(log[i + 1..], sub, COMPARED)
    ensures LatestIssue(log, sub).value.accepted == Answered(log[i + 1..], sub, {Verified})
  {
    var n := |log| - 1;
    if i == n {
      assert log[i + 1..] == [];
    } else {
      IssueCounts(log[..n], sub, i);
      assert log[i + 1..][..n - i - 1] == log[..n][i + 1..];
      assert log[i + 1..][n - i - 1] == log[n];
    }
  }

  /** A success stays on the record until the next code is issued. */
  lemma {:induction false} SuccessIsRemembered(log: seq<Event>, sub: Sub, i: nat)
    requires i < |log| && Accepted(log[i], sub)
    requires forall k :: i < k < |log| ==> !(log[k].Began? && log[k].sub == sub)
    requires LatestIssue(log[..i], sub).Some?
    ensures LatestIssue(log, sub).Some? && LatestIssue(log, sub).value.accepted > 0
    decreases |log|
  {
    var n := |log| - 1;
    if i == n {
      assert log[..i] == log[..n];
    } else {
      assert log[..n][..i] == log[..i];
      SuccessIsRemembered(log[..n], sub, i);
    }
  }

  /** Each call adds its own event. */
  lemma {:induction false} LogGrows(now: int, calls: seq<Call>, n: nat)
    requires n <= |calls|
    ensures |Run(now, calls).log| == |calls|
    ensures Run(now, calls).log[..n] == Run(now, calls[..n]).log
  {
    if n == |calls| {
      assert calls[..n] == calls;
      if calls != [] {
        LogGrows(now, calls[..n - 1], n - 1);
      }
      assert Run(now, calls).log[..n] == Run(now, calls).log;
    } else {
      var k := |calls| - 1;
      LogGrows(now, calls[..k], n);
      assert calls[..k][..n] == calls[..n];
      assert Run(now, calls).log[..n] == Run(now, calls[..k]).log[..n];
    }
  }

  /**
    In every run, for every issued code: up to the user's next Start at most five guesses
    are compared with it and at most one is accepted.
   */
  lemma CodesAreSpent(now: int, calls: seq<Call>, sub: Sub, i: nat, j: nat)
    requires ClockRuns(now, calls) && i < j <= |Run(now, calls).log|
    requires Run(now, calls).log[i].Began? && Run(now, calls).log[i].sub == sub
    requires forall k :: i < k < j ==> !(Run(now, calls).log[k].Began? && Run(now, calls).log[k].sub == sub)
    ensures Answered(Run(now, calls).log[i + 1..j], sub, COMPARED) <= 5
    ensures Answered(Run(now, calls).log[i + 1..j], sub, {Verified}) <= 1
  {
    var log := Run(now, calls).log;
    LogGrows(now, calls, 0);
    LogGrows(now, calls, j);
    ClockRunsPrefix(now, calls, j);
    StoreMatchesLog(now, calls[..j], sub);
    IssueCounts(log[..j], sub, i);
    assert log[..j][i + 1..] == log[i + 1..j];
  }

  /** The call behind event `i` ran on the store of the calls before it. */
  lemma EventBehind(now: int, calls: seq<Call>, i: nat)
    requires i < |calls|
    ensures |Run(now, calls).log| == |calls|
    ensures Run(now, calls).log[..i] == Run(now, calls[..i]).log
    ensures Run(now, calls).log[i] == Do(Run(now, calls[..i]), calls[i]).log[i]
  {
    LogGrows(now, calls, i);
    LogGrows(now, calls, i + 1);
    assert calls[..i + 1][..i] == calls[..i];
    assert Run(now, calls).log[i] == Run(now, calls).log[..i + 1][i];
  }

  lemma AcceptedWasDue(now: int, calls: seq<Call>, sub: Sub, i: nat)
    requires ClockRuns(now, calls) && i < |Run(now, calls).log| && Accepted(Run(now, calls).log[i], sub)
    ensures var issue := LatestIssue(Run(now, calls).log[..i], sub);
      issue.Some? && issue.value.accepted == 0
  {
    LogGrows(now, calls, 0);
    EventBehind(now, calls, i);
    ClockRunsPrefix(now, calls, i);
    LogGrows(now, calls[..i], i);
    DueWhenAccepted(now, calls[..i], calls[i], sub);
  }

  lemma DueWhenAccepted(now: int, calls: seq<Call>, c: Call, sub: Sub)
    requires ClockRuns(now, calls) && Timely(Run(now, calls), c)
    requires var w := Run(now, calls); Accepted(Do(w, c).log[|w.log|], sub)
    ensures var issue := LatestIssue(Run(now, calls).log, sub);
      issue.Some? && issue.value.accepted == 0
  {
    VerifyRefinesLog(now, calls, sub, c.guess, c.at, c.later);
  }

  lemma NewCodeBetween(log: seq<Event>, sub: Sub, i: nat, j: nat)
    requires i < j <= |log| && Accepted(log[i], sub)
    requires LatestIssue(log[..i], sub).Some?
    requires LatestIssue(log[..j], sub).Some? && LatestIssue(log[..j], sub).value.accepted == 0
    ensures exists k :: i < k < j && log[k].Began? && log[k].sub == sub
  {
    if forall k :: i < k < j ==> !(log[k].Began? && log[k].sub == sub) {
      assert log[..j][..i] == log[..i];
      SuccessIsRemembered(log[..j], sub, i);
      assert false;
    }
  }

  /** Between two successes of one user there is always a new code. */
  lemma SuccessesNeedNewCodes(now: int, calls: seq<Call>, sub: Sub, i: nat, j: nat)
    requires ClockRuns(now, calls) && i < j < |Run(now, calls).log|
    requires Accepted(Run(now, calls).log[i], sub) && Accepted(Run(now, calls).log[j], sub)
    ensures exists k :: i < k < j && Run(now, calls).log[k].Began? && Run(now, calls).log[k].sub == sub
  {
    AcceptedWasDue(now, calls, sub, i);
    AcceptedWasDue(now, calls, sub, j);
    NewCodeBetween(Run(now, calls).log, sub, i, j);
  }

  // ---- The pending email ----

  /** Events that replace or delete a user's pending entry. */
  predicate Touches(e: Event, sub: Sub) {
    && e.sub == sub
    && (e.Began? || (e.Tried? && (e.verdict.Verified? || e.verdict.CodeExpired? || e.verdict.TooManyTries?)))
  }

  /** Event `i` is a Start of the user, and since then neither a Start nor a verdict that ends it. */
  ghost predicate Open(log: seq<Event>, sub: Sub, i: nat) {
    && i < |log| && log[i].Began? && log[i].sub == sub
    && forall j :: i < j < |log| ==> !Touches(log[j], sub)
  }

  /** The email of some open Start. */
  ghost predicate Remembers(log: seq<Event>, sub: Sub, email: string) {
    exists i: nat :: Open(log, sub, i) && log[i].email == email
  }

  lemma CallMovesEmail(s: State, c: Call, sub: Sub)
    ensures EmailOf(StateAfter(s, c), sub) ==
            if c.Begin? && c.sub == sub then Some(c.email)
            else if Touches(EventOf(s, c), sub) then None
            else EmailOf(s, sub)
  {}

  lemma RemembersOneMore(log: seq<Event>, e: Event, sub: Sub, email: string)
    ensures Remembers(log + [e], sub, email) <==>
            if e.Began? && e.sub == sub then e.email == email
            else !Touches(e, sub) && Remembers(log, sub, email)
  {
    var all, n := log + [e], |log|;
    assert all[n] == e;
    if e.Began? && e.sub == sub {
      assert Open(all, sub, n);
    }
    if i: nat :| Open(all, sub, i) && all[i].email == email {
      if i < n {
        assert !Touches(all[n], sub);
        assert forall j :: i < j < n ==> log[j] == all[j];
        assert Open(log, sub, i) && log[i].email == email;
      }
    }
    if i: nat :| Open(log, sub, i) && log[i].email == email {
      if !Touches(e, sub) {
        assert Open(all, sub, i) && all[i].email == email;
      }
    }
  }

  /** In every run PendingEmail answers exactly the email of the latest Start, as long as no verdict has ended it. */
  lemma {:induction false} PendingEmailMeaning(now: int, calls: seq<Call>, sub: Sub, email: string)
    ensures EmailOf(Run(now, calls).state, sub) == Some(email) <==> Remembers(Run(now, calls).log, sub, email)
  {
    if calls != [] {
      var n := |calls| - 1;
      var before := Run(now, calls[..n]);
      PendingEmailMeaning(now, calls[..n], sub, email);
      CallMovesEmail(before.state, calls[n], sub);
      RemembersOneMore(before.log, EventOf(before.state, calls[n]), sub, email);
    }
  }

  /** A user has a pending entry exactly when some Start of that user is open. */
  lemma PendingMeansOpen(now: int, calls: seq<Call>, sub: Sub)
    ensures sub in Run(now, calls).state.pending <==> exists i: nat :: Open(Run(now, calls).log, sub, i)
  {
    var log, email := Run(now, calls).log, EmailOf(Run(now, calls).state, sub);
    if email.Some? {
      PendingEmailMeaning(now, calls, sub, email.value);
    }
    forall i: nat | Open(log, sub, i) ensures email.Some? {
      PendingEmailMeaning(now, calls, sub, log[i].email);
      assert Remembers(log, sub, log[i].email);
    }
  }

  /** In every run Verify knows no code exactly when no Start of the user is open. */
  lemma NoPendingMeaning(now: int, calls: seq<Call>, sub: Sub, guess: string, at: int, later: int)
    ensures var w := Run(now, calls);
      AfterVerify(w.state, sub, guess, at, later).1.NoPending? <==> !exists i: nat :: Open(w.log, sub, i)
  {
    PendingMeansOpen(now, calls, sub);
  }

  lemma OneLatestStart(log: seq<Event>, sub: Sub, i: nat, j: nat)
    requires IsLatestStart(log, sub, i) && IsLatestStart(log, sub, j)
    ensures i == j
  {}

  lemma OpenIssue(log: seq<Event>, sub: Sub, i: nat)
    requires Open(log, sub, i)
    ensures var issue := LatestIssue(log, sub);
      && issue.Some? && issue.value.code == log[i].code && issue.value.at == log[i].at
      && issue.value.wrong == WrongGuesses(log[i + 1..], sub, log[i].code)
  {
    assert forall j :: i < j < |log| && log[j].Began? && log[j].sub == sub ==> Touches(log[j], sub);
    AcceptanceMeaning(log, sub, i);
    var j := IssueMeaning(log, sub);
    OneLatestStart(log, sub, i, j);
  }

  /**
    In every run the verdict on a guess is read off the open Start: too old, then too many wrong
    guesses since, then wrong itself, else verified.
   */
  lemma VerdictMeaning(now: int, calls: seq<Call>, sub: Sub, guess: string, at: int, later: int, i: nat)
    requires ClockRuns(now, calls) && Open(Run(now, calls).log, sub, i)
    ensures var w := Run(now, calls);
      var began, verdict := w.log[i], AfterVerify(w.state, sub, guess, at, later).1;
      var late, tired, wrong := at > began.at + 300_000, WrongGuesses(w.log[i + 1..], sub, began.code) >= 5, TrimSpace(guess) != began.code;
      && (verdict.CodeExpired? <==> late)
      && (verdict.TooManyTries? <==> !late && tired)
      && (verdict.CodeMismatch? <==> !late && !tired && wrong)
      && (verdict.Verified? <==> !late && !tired && !wrong)
  {
    StoreMatchesLog(now, calls, sub);
    PendingMeansOpen(now, calls, sub);
    OpenIssue(Run(now, calls).log, sub, i);
  }

  /**
    So after a success the email is there only if the user started again and that Start is
    still open: what /start was given before the success can never be picked up after it.
   */
  lemma SuccessForgetsEmail(now: int, calls: seq<Call>, sub: Sub, s: nat)
    requires s < |Run(now, calls).log| && Accepted(Run(now, calls).log[s], sub)
    ensures EmailOf(Run(now, calls).state, sub).Some? <==> exists i: nat :: i > s && Open(Run(now, calls).log, sub, i)
  {
    var log := Run(now, calls).log;
    assert Touches(log[s], sub);
    assert forall i: nat :: Open(log, sub, i) ==> i > s;
    PendingMeansOpen(now, calls, sub);
  }

  /** A success, then a second Start whose code is tried when it has run out. */
  function LateSecondTry(sub: Sub, n: nat, email: string): seq<Call>
    requires n < 1_000_000
  {
    var code := FormatCode(n);
    [Begin(sub, code, email, 0), Try(sub, code, 0, 0),
     Begin(sub, code, email, 0), Try(sub, code, CODE_TTL + 1, CODE_TTL + 1)]
  }

  lemma RunOneMore(now: int, calls: seq<Call>, k: nat)
    requires k < |calls|
    ensures Run(now, calls[..k + 1]) == Do(Run(now, calls[..k]), calls[k])
  {
    assert calls[..k + 1][..k] == calls[..k];
  }

  /** A Start after the success is therefore not enough for the email to be there: the late try has ended it. */
  lemma SecondStartMayBeOver(sub: Sub, n: nat, email: string)
    requires n < 1_000_000
    ensures var w := Run(0, LateSecondTry(sub, n, email));
      |w.log| == 4 && Accepted(w.log[1], sub) && w.log[2] == Began(sub, FormatCode(n), email, 0)
      && EmailOf(w.state, sub).None?
  {
    var calls := LateSecondTry(sub, n, email);
    assert calls[..0] == [] && calls[..4] == calls;
    RunOneMore(0, calls, 0);
    RunOneMore(0, calls, 1);
    RunOneMore(0, calls, 2);
    RunOneMore(0, calls, 3);
    MailedCodeWorks(Fresh(0).state, sub, n, email, 0, "", "", 0, 0);
    assert "" + FormatCode(n) + "" == FormatCode(n);
  }
}
