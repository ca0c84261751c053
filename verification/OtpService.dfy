/**
 The one-time-password service at work on its table, in the order of its own queries and updates.
 */
module OtpService {
  import opened Wrappers
  import opened Otp
  import opened OtpSafety

  datatype SendAnswer =
    | OtpSent(code: Code)
    | SmsUnavailable(code: Code)
    | SmsFailed
    | NoActiveOtp
    | MaxResendAttempts
    | Cooldown

  lemma InvalidatedTwice(d: Desk, key: Key, code: Code, ticks: Ticks)
    ensures Issue(Desk(Superseded(d.records, key), d.log), key, code, ticks) == Issue(d, key, code, ticks)
  {
    assert Superseded(Superseded(d.records, key), key) == Superseded(d.records, key);
  }

  class TwilioService {
    const initialized: bool
    var records: seq<Record>
    ghost var log: seq<Event>

    ghost function View(): Desk
      reads this
    {
      Desk(records, log)
    }

    /** The records are in order and their history is safe. */
    ghost predicate Valid()
      reads this
    {
      Inv(View())
    }

    constructor (initialized: bool)
      ensures Valid() && View() == Desk([], []) && this.initialized == initialized
    {
      this.initialized := initialized;
      records, log := [], [];
    }

    method InvalidateExistingOtps(key: Key)
      modifies `records
      ensures records == Superseded(old(records), key)
      ensures Pending(records, key).None?
    {
      records := Superseded(records, key);
    }

    /** Nothing, or the reason why no code may be sent yet; the resend limit is never that reason. */
    method CheckResendEligibility(key: Key, now: Time) returns (refusal: Option<SendAnswer>)
      requires Valid()
      ensures refusal.Some? <==> Pending(records, key).Some? && TooSoon(records[Pending(records, key).value], now)
      ensures refusal.Some? ==> refusal.value == Cooldown
    {
      var lastOtp := Pending(records, key);
      if lastOtp.Some? {
        assert RecordOk(records[lastOtp.value]);
        if records[lastOtp.value].resendCount >= MAX_RESEND_ATTEMPTS { return Some(MaxResendAttempts); }
        var minutesSinceLastSent := DifferenceInMinutes(now, records[lastOtp.value].lastSentAt);
        if minutesSinceLastSent < RESEND_COOLDOWN_MINUTES { return Some(Cooldown); }
      }
      return None;
    }

    /** `sendOtp`: the record is stored before the message goes out, so a failing message leaves a valid code. */
    method SendOtp(key: Key, code: Code, ticks: Ticks, smsFails: bool) returns (answer: SendAnswer)
      requires Valid() && InOrder(ticks)
      modifies this
      ensures Valid() && View() == Send(old(View()), key, code, ticks)
      ensures answer == Cooldown <==> View() == old(View())
      ensures answer != Cooldown ==>
                answer == if !initialized then SmsUnavailable(code) else if smsFails then SmsFailed else OtpSent(code)
    {
      assert Inv(Send(View(), key, code, ticks)) by { StepKeepsInv(View(), CallSend(key, code, ticks)); }
      var refusal := CheckResendEligibility(key, ticks.checked);
      if refusal.Some? { return refusal.value; }
      answer := IssueOtp(key, code, ticks, smsFails);
      assert |log| != |old(log)|;
    }

    /** The rest of `sendOtp`: invalidate, store, send. */
    method IssueOtp(key: Key, code: Code, ticks: Ticks, smsFails: bool) returns (answer: SendAnswer)
      modifies this
      ensures View() == Issue(old(View()), key, code, ticks)
      ensures answer == if !initialized then SmsUnavailable(code) else if smsFails then SmsFailed else OtpSent(code)
    {
      InvalidateExistingOtps(key);
      var expiresAt := ticks.stamped + OTP_EXPIRY;
      log := log + [Issued(|records|, key, code, ticks.stamped, ticks.sent)];
      records := records + [Record(key, code, PENDING, expiresAt, ticks.sent, 0, 1, false, None, false, None)];
      if !initialized { return SmsUnavailable(code); }
      if smsFails { return SmsFailed; }
      return OtpSent(code);
    }

    /** `resendOtp`: by the time it reaches `sendOtp` nothing is pending, so the second check passes. */
    method ResendOtp(key: Key, code: Code, ticks: Ticks, smsFails: bool) returns (answer: SendAnswer)
      requires Valid() && InOrder(ticks)
      modifies this
      ensures Valid() && View() == Resend(old(View()), key, code, ticks)
      ensures answer == NoActiveOtp <==> Pending(old(records), key).None?
      ensures answer == NoActiveOtp || answer == Cooldown <==> View() == old(View())
      ensures answer != MaxResendAttempts
    {
      assert Inv(Resend(View(), key, code, ticks)) by { StepKeepsInv(View(), CallResend(key, code, ticks)); }
      var lastOtp := Pending(records, key);
      if lastOtp.None? { return NoActiveOtp; }
      var last := records[lastOtp.value];
      assert last.resendCount == 1 by { assert RecordOk(last); }
      if last.resendCount >= MAX_RESEND_ATTEMPTS { return MaxResendAttempts; }
      if DifferenceInMinutes(ticks.checked, last.lastSentAt) < RESEND_COOLDOWN_MINUTES { return Cooldown; }
      answer := ReplaceOtp(key, code, ticks, smsFails);
      assert |log| == |old(log)| + 1;
    }

    /** The rest of `resendOtp`: invalidate, then all of `sendOtp`, whose check finds nothing pending. */
    method ReplaceOtp(key: Key, code: Code, ticks: Ticks, smsFails: bool) returns (answer: SendAnswer)
      modifies this
      ensures View() == Issue(old(View()), key, code, ticks)
      ensures answer == if !initialized then SmsUnavailable(code) else if smsFails then SmsFailed else OtpSent(code)
    {
      InvalidateExistingOtps(key);
      var again := Pending(records, key);
      assert again.None?;
      InvalidatedTwice(old(View()), key, code, ticks);
      answer := IssueOtp(key, code, ticks, smsFails);
    }

    /** `verifyOtp`. */
    method VerifyOtp(key: Key, given: Code, now: Time) returns (answer: Answer)
      requires Valid()
      modifies this
      ensures Valid() && View() == Verify(old(View()), key, given, now)
      ensures answer == Judge(old(View()), key, given, now)
    {
      StepKeepsInv(View(), CallVerify(key, given, now));
      answer := JudgeGuess(key, given, now);
    }

    method JudgeGuess(key: Key, given: Code, now: Time) returns (answer: Answer)
      modifies this
      ensures View() == Verify(old(View()), key, given, now)
      ensures answer == Judge(old(View()), key, given, now)
    {
      var found := Pending(records, key);
      if found.None? { return NO_ACTIVE_OTP; }
      var i := found.value;
      var otpRecord := records[i];
      if otpRecord.locked { return TOO_MANY_ATTEMPTS; }
      if otpRecord.expiresAt < now {
        records := records[i := otpRecord.(status := EXPIRED)];
        log := log + [Late(i, key, now)];
        return EXPIRED_OTP;
      }
      if otpRecord.code != given {
        var failedAttempts := otpRecord.failedAttempts + 1;
        var updated := otpRecord.(failedAttempts := failedAttempts);
        if failedAttempts >= MAX_FAILED_ATTEMPTS {
          updated := updated.(locked := true, lockTime := Some(now), status := BLOCKED);
        }
        records := records[i := updated];
        log := log + [Wrong(i, key, now, given)];
        return if failedAttempts >= MAX_FAILED_ATTEMPTS then TOO_MANY_ATTEMPTS else INVALID_OTP;
      }
      records := records[i := otpRecord.(status := VERIFIED, verified := true, verifiedAt := Some(now))];
      log := log + [Accepted(i, key, now, given)];
      return VALID;
    }
  }
}
