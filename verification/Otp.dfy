/**
 One-time passwords: the records kept per phone and purpose, what issuing, resending and verifying do
 to them, and the history of what was issued, guessed and accepted.  Times are in milliseconds.
 */
module Otp {
  import opened Wrappers

  type Time = int
  type Code = string

  datatype Purpose = LOGIN | SIGNUP | PASSWORD_RESET | PHONE_VERIFICATION

  datatype Key = Key(phone: string, purpose: Purpose)

  datatype Status = PENDING | VERIFIED | EXPIRED | BLOCKED

  datatype Record = Record(
    key: Key,
    code: Code,
    status: Status,
    expiresAt: Time,
    lastSentAt: Time,
    failedAttempts: nat,
    resendCount: nat,
    locked: bool,
    lockTime: Option<Time>,
    verified: bool,
    verifiedAt: Option<Time>)

  const OTP_EXPIRY := 90_000
  const MAX_FAILED_ATTEMPTS := 5
  const MAX_RESEND_ATTEMPTS := 3
  const RESEND_COOLDOWN_MINUTES := 1

  /** Whole minutes between two instants, truncated toward zero. */
  function DifferenceInMinutes(later: Time, earlier: Time): int {
    if later >= earlier then (later - earlier) / 60_000 else -((earlier - later) / 60_000)
  }

  /** The clock readings of one call that sends a code, in the order in which they are taken. */
  datatype Ticks = Ticks(checked: Time, stamped: Time, sent: Time)

  predicate InOrder(ticks: Ticks) {
    ticks.checked <= ticks.stamped <= ticks.sent
  }

  /** What happened to the records, oldest first; `index` is the record concerned. */
  datatype Event =
    | Issued(index: nat, key: Key, code: Code, stamped: Time, at: Time)
    | Accepted(index: nat, key: Key, at: Time, given: Code)
    | Wrong(index: nat, key: Key, at: Time, given: Code)
    | Late(index: nat, key: Key, at: Time)

  datatype Desk = Desk(records: seq<Record>, log: seq<Event>)

  /** The newest pending record of the key. */
  function Pending(records: seq<Record>, key: Key): (r: Option<nat>)
    ensures r.Some? ==> r.value < |records| && records[r.value].key == key && records[r.value].status == PENDING
    ensures forall i | 0 <= i < |records| && records[i].key == key && records[i].status == PENDING :: r.Some? && i <= r.value
  {
    if records == [] then None
    else
      var n := |records| - 1;
      if records[n].key == key && records[n].status == PENDING then Some(n) else Pending(records[..n], key)
  }

  /** `invalidateExistingOtps`: one update over the table. */
  function Superseded(records: seq<Record>, key: Key): (r: seq<Record>)
    ensures |r| == |records|
    ensures forall i | 0 <= i < |r| ::
              r[i] == if records[i].key == key && records[i].status == PENDING then records[i].(status := EXPIRED) else records[i]
  {
    seq(|records|, i requires 0 <= i < |records| =>
      if records[i].key == key && records[i].status == PENDING then records[i].(status := EXPIRED) else records[i])
  }

  /** A code may not follow the pending one yet. */
  predicate TooSoon(last: Record, now: Time) {
    last.resendCount >= MAX_RESEND_ATTEMPTS || DifferenceInMinutes(now, last.lastSentAt) < RESEND_COOLDOWN_MINUTES
  }

  function NewRecord(key: Key, code: Code, ticks: Ticks): Record {
    Record(key, code, PENDING, ticks.stamped + OTP_EXPIRY, ticks.sent, 0, 1, false, None, false, None)
  }

  function Issue(d: Desk, key: Key, code: Code, ticks: Ticks): Desk {
    Desk(Superseded(d.records, key) + [NewRecord(key, code, ticks)],
         d.log + [Issued(|d.records|, key, code, ticks.stamped, ticks.sent)])
  }

  function Send(d: Desk, key: Key, code: Code, ticks: Ticks): Desk {
    var p := Pending(d.records, key);
    if p.Some? && TooSoon(d.records[p.value], ticks.checked) then d else Issue(d, key, code, ticks)
  }

  function Resend(d: Desk, key: Key, code: Code, ticks: Ticks): Desk {
    var p := Pending(d.records, key);
    if p.None? || TooSoon(d.records[p.value], ticks.checked) then d else Issue(d, key, code, ticks)
  }

  datatype Answer = NO_ACTIVE_OTP | TOO_MANY_ATTEMPTS | EXPIRED_OTP | INVALID_OTP | VALID

  function Judge(d: Desk, key: Key, given: Code, now: Time): Answer {
    var p := Pending(d.records, key);
    if p.None? then NO_ACTIVE_OTP
    else
      var r := d.records[p.value];
      if r.locked then TOO_MANY_ATTEMPTS
      else if r.expiresAt < now then EXPIRED_OTP
      else if r.code == given then VALID
      else if r.failedAttempts + 1 >= MAX_FAILED_ATTEMPTS then TOO_MANY_ATTEMPTS
      else INVALID_OTP
  }

  function Miss(r: Record, now: Time): Record {
    var counted := r.(failedAttempts := r.failedAttempts + 1);
    if counted.failedAttempts >= MAX_FAILED_ATTEMPTS
    then counted.(locked := true, lockTime := Some(now), status := BLOCKED)
    else counted
  }

  function Verify(d: Desk, key: Key, given: Code, now: Time): Desk {
    var p := Pending(d.records, key);
    if p.None? then d
    else
      var i, r := p.value, d.records[p.value];
      if r.locked then d
      else if r.expiresAt < now then Desk(d.records[i := r.(status := EXPIRED)], d.log + [Late(i, key, now)])
      else if r.code == given then
        Desk(d.records[i := r.(status := VERIFIED, verified := true, verifiedAt := Some(now))], d.log + [Accepted(i, key, now, given)])
      else Desk(d.records[i := Miss(r, now)], d.log + [Wrong(i, key, now, given)])
  }

  datatype Call =
    | CallSend(key: Key, code: Code, ticks: Ticks)
    | CallResend(key: Key, code: Code, ticks: Ticks)
    | CallVerify(key: Key, given: Code, now: Time)

  function Apply(d: Desk, call: Call): Desk {
    match call
    case CallSend(key, code, ticks) => Send(d, key, code, ticks)
    case CallResend(key, code, ticks) => Resend(d, key, code, ticks)
    case CallVerify(key, given, now) => Verify(d, key, given, now)
  }

  predicate Legal(call: Call) {
    !call.CallVerify? ==> InOrder(call.ticks)
  }

  function Run(d: Desk, calls: seq<Call>): Desk
    decreases calls
  {
    if calls == [] then d else Run(Apply(d, calls[0]), calls[1..])
  }
}
