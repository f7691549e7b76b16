/**
  The MFA step-up store: pending codes and step-up sessions with lazy deletion,
  first as a value, then as the mutex-guarded object it is. Times are in milliseconds.
 */
module Enrollment {
  import opened Lists
  import opened Text

  const CODE_TTL := 300_000
  const STEP_UP_TTL := 1_800_000
  const MAX_ATTEMPTS := 5

  type Sub = string

  datatype Pending = Pending(code: string, email: string, expiresAt: int, tries: nat)

  datatype State = State(pending: map<Sub, Pending>, stepUp: map<Sub, int>)

  datatype Verdict = Verified | NoPending | CodeExpired | TooManyTries | CodeMismatch

  function AfterStart(s: State, sub: Sub, code: string, email: string, now: int): State {
    s.(pending := s.pending[sub := Pending(code, email, now + CODE_TTL, 0)])
  }

  /** Verify reads the clock twice: for the expiry check and for the new step-up window. */
  function AfterVerify(s: State, sub: Sub, code: string, now: int, later: int): (State, Verdict) {
    if sub !in s.pending then (s, NoPending)
    else
      var p := s.pending[sub];
      var dropped := s.(pending := s.pending - {sub});
      if now > p.expiresAt then (dropped, CodeExpired)
      else if p.tries >= MAX_ATTEMPTS then (dropped, TooManyTries)
      else if TrimSpace(code) != p.code then
        (s.(pending := s.pending[sub := p.(tries := p.tries + 1)]), CodeMismatch)
      else (dropped.(stepUp := s.stepUp[sub := later + STEP_UP_TTL]), Verified)
  }

  function AfterCheck(s: State, sub: Sub, now: int): (State, bool) {
    if sub !in s.stepUp then (s, false)
    else if now > s.stepUp[sub] then (s.(stepUp := s.stepUp - {sub}), false)
    else (s, true)
  }

  /** The email that PendingEmail answers. */
  function EmailOf(s: State, sub: Sub): Option<string> {
    if sub in s.pending then Some(s.pending[sub].email) else None
  }

  class Store {
    var pending: map<Sub, Pending>
    var stepUp: map<Sub, int>

    ghost function View(): State
      reads this
    {
      State(pending, stepUp)
    }

    constructor ()
      ensures View() == State(map[], map[])
    {
      pending, stepUp := map[], map[];
    }

    /** `drawn` is the random number, or none when the random source failed. */
    method Start(drawn: Option<nat>, sub: Sub, email: string, now: int) returns (code: Option<string>)
      requires drawn.Some? ==> drawn.value < 1_000_000
      modifies this`pending
      ensures drawn.None? ==> code.None? && View() == old(View())
      ensures drawn.Some? ==>
        && code == Some(FormatCode(drawn.value))
        && |code.value| == 6 && AllDigits(code.value) && ValueOf(code.value) == drawn.value
        && View() == AfterStart(old(View()), sub, code.value, email, now)
    {
      if drawn.None? {
        return None;
      }
      var text := FormatCode(drawn.value);
      CodeValue(drawn.value);
      pending := pending[sub := Pending(text, email, now + CODE_TTL, 0)];
      return Some(text);
    }

    method Verify(sub: Sub, code: string, now: int, later: int) returns (verdict: Verdict)
      modifies this
      ensures (View(), verdict) == AfterVerify(old(View()), sub, code, now, later)
    {
      if sub !in pending {
        return NoPending;
      }
      var p := pending[sub];
      if now > p.expiresAt {
        pending := pending - {sub};
        return CodeExpired;
      }
      if p.tries >= MAX_ATTEMPTS {
        pending := pending - {sub};
        return TooManyTries;
      }
      if TrimSpace(code) != p.code {
        pending := pending[sub := p.(tries := p.tries + 1)];
        return CodeMismatch;
      }
      pending := pending - {sub};
      stepUp := stepUp[sub := later + STEP_UP_TTL];
      return Verified;
    }

    method IsStepUpVerified(sub: Sub, now: int) returns (verified: bool)
      modifies this`stepUp
      ensures (View(), verified) == AfterCheck(old(View()), sub, now)
      ensures verified ==> sub in stepUp && View() == old(View())
      ensures !verified ==> sub !in stepUp
    {
      if sub !in stepUp {
        return false;
      }
      if now > stepUp[sub] {
        stepUp := stepUp - {sub};
        return false;
      }
      return true;
    }

    method PendingEmail(sub: Sub) returns (email: Option<string>)
      ensures email == EmailOf(View(), sub)
    {
      if sub !in pending {
        return None;
      }
      return Some(pending[sub].email);
    }
  }

  /** Nothing that one user does touches another user's code or window. */
  lemma OthersUntouched(s: State, sub: Sub, other: Sub, code: string, email: string, now: int, later: int)
    requires other != sub
    ensures forall t :: t in {AfterStart(s, sub, code, email, now), AfterVerify(s, sub, code, now, later).0, AfterCheck(s, sub, now).0} ==>
      && (other in t.pending <==> other in s.pending)
      && (other in s.pending ==> t.pending[other] == s.pending[other])
      && (other in t.stepUp <==> other in s.stepUp)
      && (other in s.stepUp ==> t.stepUp[other] == s.stepUp[other])
  {}

  /** A check opens nothing: a window that is over is forgotten, one that is open and everything else stays. */
  lemma CheckForgets(s: State, sub: Sub, now: int)
    ensures var (after, steppedUp) := AfterCheck(s, sub, now);
      && (steppedUp <==> sub in s.stepUp && now <= s.stepUp[sub])
      && (steppedUp ==> after == s)
      && (!steppedUp ==> sub !in after.stepUp)
      && after.pending == s.pending
      && forall other :: other != sub ==>
           && (other in after.stepUp <==> other in s.stepUp)
           && (other in s.stepUp ==> after.stepUp[other] == s.stepUp[other])
  {}

  /** Only a wrong guess leaves an entry behind, its email untouched; every other verdict, success included, finds or leaves none. */
  lemma VerifyForgetsEmail(s: State, sub: Sub, code: string, now: int, later: int)
    ensures var (after, verdict) := AfterVerify(s, sub, code, now, later);
      EmailOf(after, sub) == if verdict.CodeMismatch? then EmailOf(s, sub) else None
  {}

  /** The mailed code is accepted within five minutes, blanks around it allowed; the pending entry then goes. */
  lemma MailedCodeWorks(s: State, sub: Sub, n: nat, email: string, now: int, left: string, right: string, at: int, later: int)
    requires n < 1_000_000 && Blank(left) && Blank(right) && at <= now + 300_000
    ensures var started := AfterStart(s, sub, FormatCode(n), email, now);
      var (after, verdict) := AfterVerify(started, sub, left + FormatCode(n) + right, at, later);
      && verdict.Verified?
      && sub !in after.pending
      && (forall t :: t <= later + 1_800_000 <==> AfterCheck(after, sub, t).1)
  {
    var code := FormatCode(n);
    assert IsDigit(code[0]) && IsDigit(code[5]);
    TrimSpaceDrops(left, code, right);
  }
}
