/**
 What sending, sending again and guessing leave behind, field by field, and what it takes to guess the
 code that was sent.
 */
module OtpEffects {
  import opened Wrappers
  import opened Otp
  import opened OtpSafety

  predicate IsPending(d: Desk, key: Key, i: int) {
    0 <= i < |d.records| && d.records[i].key == key && d.records[i].status == PENDING
  }

  ghost predicate NonePending(d: Desk, key: Key) {
    forall i :: !IsPending(d, key, i)
  }

  /** A code of the key was sent within the last minute and can still be guessed. */
  ghost predicate Cooling(d: Desk, key: Key, now: Time) {
    exists i :: IsPending(d, key, i) && now - d.records[i].lastSentAt < 60_000
  }

  /** The code is on record as pending for 90 seconds, what was pending for the key has expired, and nothing
      else has changed. */
  ghost predicate Stored(before: Desk, after: Desk, key: Key, code: Code, ticks: Ticks) {
    var n := |before.records|;
    && |after.records| == n + 1
    && after.records[n] == Record(key, code, PENDING, ticks.stamped + 90_000, ticks.sent, 0, 1, false, None, false, None)
    && (forall i | 0 <= i < n :: after.records[i]
          == if IsPending(before, key, i) then before.records[i].(status := EXPIRED) else before.records[i])
    && after.log == before.log + [Issued(n, key, code, ticks.stamped, ticks.sent)]
  }

  lemma NonePendingIff(d: Desk, key: Key)
    ensures NonePending(d, key) <==> Pending(d.records, key).None?
  {
    var p := Pending(d.records, key);
    if p.Some? { assert IsPending(d, key, p.value); }
  }

  lemma CoolingIff(d: Desk, key: Key, now: Time)
    requires Inv(d)
    ensures Cooling(d, key, now) <==> Pending(d.records, key).Some? && TooSoon(d.records[Pending(d.records, key).value], now)
  {
    var p := Pending(d.records, key);
    if p.Some? {
      assert RecordOk(d.records[p.value]) && IsPending(d, key, p.value);
      forall i | IsPending(d, key, i) ensures i == p.value { PendingIsThis(d.records, key, i); }
    }
  }

  /** `sendOtp` is refused exactly during the minute after the last code; otherwise it stores its code. */
  lemma SendingStores(d: Desk, key: Key, code: Code, ticks: Ticks)
    requires Inv(d)
    ensures var after := Apply(d, CallSend(key, code, ticks));
            if Cooling(d, key, ticks.checked) then after == d else Stored(d, after, key, code, ticks)
  {
    CoolingIff(d, key, ticks.checked);
  }

  /** `resendOtp` also needs a code to replace. */
  lemma ResendingStores(d: Desk, key: Key, code: Code, ticks: Ticks)
    requires Inv(d)
    ensures var after := Apply(d, CallResend(key, code, ticks));
            if NonePending(d, key) || Cooling(d, key, ticks.checked) then after == d else Stored(d, after, key, code, ticks)
  {
    NonePendingIff(d, key);
    CoolingIff(d, key, ticks.checked);
  }

  /** A guess changes the pending record of the key and nothing else: it expires it, uses it up, counts
      against it or, the fifth time, blocks it. */
  lemma GuessingLeaves(d: Desk, key: Key, given: Code, now: Time, i: nat)
    requires Inv(d) && IsPending(d, key, i)
    ensures var r := d.records[i];
            var after := Apply(d, CallVerify(key, given, now));
            && after.records == d.records[i := after.records[i]]
            && after.records[i] == (
                 if now > r.expiresAt then r.(status := EXPIRED)
                 else if given == r.code then r.(status := VERIFIED, verified := true, verifiedAt := Some(now))
                 else if r.failedAttempts < 4 then r.(failedAttempts := r.failedAttempts + 1)
                 else r.(failedAttempts := 5, status := BLOCKED, locked := true, lockTime := Some(now)))
            && Judge(d, key, given, now) == (
                 if now > r.expiresAt then EXPIRED_OTP
                 else if given == r.code then VALID
                 else if r.failedAttempts < 4 then INVALID_OTP
                 else TOO_MANY_ATTEMPTS)
            && after.log == d.log + [
                 if now > r.expiresAt then Late(i, key, now)
                 else if given == r.code then Accepted(i, key, now, given)
                 else Wrong(i, key, now, given)]
  {
    PendingIsThis(d.records, key, i);
    assert RecordOk(d.records[i]);
  }

  lemma GuessingInVain(d: Desk, key: Key, given: Code, now: Time)
    requires NonePending(d, key)
    ensures Apply(d, CallVerify(key, given, now)) == d && Judge(d, key, given, now) == NO_ACTIVE_OTP
  {
    NonePendingIff(d, key);
  }

  function KeyOf(call: Call): Key {
    match call
    case CallSend(key, _, _) => key
    case CallResend(key, _, _) => key
    case CallVerify(key, _, _) => key
  }

  /** Calls for other phones or purposes leave a record alone. */
  lemma OthersLeaveAlone(d: Desk, call: Call, i: nat)
    requires i < |d.records| && d.records[i].key != KeyOf(call)
    ensures i < |Apply(d, call).records| && Apply(d, call).records[i] == d.records[i]
  {
  }

  lemma {:induction false} OthersLeaveAloneInRuns(d: Desk, calls: seq<Call>, i: nat)
    requires i < |d.records| && forall c | c in calls :: KeyOf(c) != d.records[i].key
    ensures i < |Run(d, calls).records| && Run(d, calls).records[i] == d.records[i]
    decreases calls
  {
    if calls != [] {
      OthersLeaveAlone(d, calls[0], i);
      OthersLeaveAloneInRuns(Apply(d, calls[0]), calls[1..], i);
    }
  }

  /** The service holds a person to the code it sent: whenever a call has issued `code` and nothing else has
      been asked for that phone and purpose since, a guess is answered VALID exactly when it is that code and
      comes within 90 seconds; INVALID_OTP for another code in that time; EXPIRED_OTP later. */
  lemma SentCodeIsAccepted(d: Desk, call: Call, later: seq<Call>, given: Code, now: Time)
    requires Inv(d) && Legal(call) && !call.CallVerify? && |Apply(d, call).log| > |d.log|
    requires forall c | c in later :: Legal(c) && KeyOf(c) != call.key
    ensures var answer := Judge(Run(Apply(d, call), later), call.key, given, now);
            && (answer == VALID <==> given == call.code && now <= call.ticks.stamped + 90_000)
            && (answer == INVALID_OTP <==> given != call.code && now <= call.ticks.stamped + 90_000)
            && (answer == EXPIRED_OTP <==> now > call.ticks.stamped + 90_000)
  {
    var n, after := |d.records|, Apply(d, call);
    if call.CallSend? { SendingStores(d, call.key, call.code, call.ticks); } else { ResendingStores(d, call.key, call.code, call.ticks); }
    assert Stored(d, after, call.key, call.code, call.ticks);
    StepKeepsInv(d, call);
    RunsKeepInv(after, later);
    OthersLeaveAloneInRuns(after, later, n);
    GuessingLeaves(Run(after, later), call.key, given, now, n);
  }

  /** The same at the end of any run of the service. */
  lemma SentCodeIsAcceptedInRuns(before: seq<Call>, call: Call, later: seq<Call>, given: Code, now: Time)
    requires forall c | c in before + [call] + later :: Legal(c)
    requires var d := Run(Desk([], []), before); !call.CallVerify? && |Apply(d, call).log| > |d.log|
    requires forall c | c in later :: KeyOf(c) != call.key
    ensures Judge(Run(Apply(Run(Desk([], []), before), call), later), call.key, given, now) == VALID
            <==> given == call.code && now <= call.ticks.stamped + 90_000
  {
    EmptyDeskIsFine();
    RunsKeepInv(Desk([], []), before);
    SentCodeIsAccepted(Run(Desk([], []), before), call, later, given, now);
  }
}
