/**
 What holds of every run of the one-time-password service, read off its history alone, and the
 invariant on the records behind it.
 */
module OtpSafety {
  import opened Wrappers
  import opened Otp

  // ---------------------------------------------------------------------------------------
  // Reading the history
  // ---------------------------------------------------------------------------------------

  function WrongGuesses(log: seq<Event>, i: nat): nat {
    if log == [] then 0
    else WrongGuesses(log[..|log| - 1], i) + if log[|log| - 1].Wrong? && log[|log| - 1].index == i then 1 else 0
  }

  /** Some event ended the life of the code: a newer one for its key, its acceptance, or a guess after its time. */
  ghost predicate Ended(log: seq<Event>, i: nat, key: Key) {
    exists e | e in log :: Ends(e, i, key)
  }

  predicate Ends(e: Event, i: nat, key: Key) {
    || (e.Issued? && e.key == key && e.index > i)
    || ((e.Accepted? || e.Late?) && e.index == i)
  }

  /** The history says that this code can still be accepted. */
  ghost predicate Open(log: seq<Event>, i: nat, key: Key) {
    !Ended(log, i, key) && WrongGuesses(log, i) < 5
  }

  ghost predicate WasIssued(log: seq<Event>, i: nat, key: Key, code: Code, stamped: Time) {
    exists e | e in log :: e.Issued? && e.index == i && e.key == key && e.code == code && e.stamped == stamped && stamped <= e.at
  }

  /** What an event promises about the history before it. */
  ghost predicate EventSafe(before: seq<Event>, e: Event) {
    match e
    case Issued(i, key, code, stamped, at) =>
      && stamped <= at
      && (forall f | f in before && f.Issued? :: f.index < i)
      && (forall f | f in before && f.Issued? && f.key == key && Open(before, f.index, key) :: at - f.at >= 60_000)
    case Accepted(i, key, at, given) =>
      && Open(before, i, key)
      && exists stamped: Time | WasIssued(before, i, key, given, stamped) :: at <= stamped + 90_000
    case Wrong(i, key, at, given) => Open(before, i, key)
    case Late(i, key, at) => Open(before, i, key)
  }

  ghost predicate SafeLog(log: seq<Event>) {
    forall q | 0 <= q < |log| :: EventSafe(log[..q], log[q])
  }

  // ---------------------------------------------------------------------------------------
  // The invariant on the records
  // ---------------------------------------------------------------------------------------

  /** The fields of a record agree with one another. */
  ghost predicate RecordOk(r: Record) {
    && r.resendCount == 1
    && r.failedAttempts <= MAX_FAILED_ATTEMPTS
    && (r.locked <==> r.status == BLOCKED) && (r.status == BLOCKED <==> r.failedAttempts == MAX_FAILED_ATTEMPTS)
    && (r.locked <==> r.lockTime.Some?)
    && (r.verified <==> r.status == VERIFIED) && (r.verified <==> r.verifiedAt.Some?)
  }

  ghost predicate OnePendingPerKey(records: seq<Record>) {
    forall i, j | 0 <= i < j < |records| && records[i].key == records[j].key :: records[i].status != PENDING
  }

  /** The history explains the record. */
  ghost predicate Explained(log: seq<Event>, i: nat, r: Record) {
    && (r.status == PENDING <==> Open(log, i, r.key))
    && r.failedAttempts == WrongGuesses(log, i)
    && Issued(i, r.key, r.code, r.expiresAt - 90_000, r.lastSentAt) in log
    && r.expiresAt - 90_000 <= r.lastSentAt
  }

  /** An event is about a record that exists, has its key, and, if it is an issue, its code and times. */
  predicate Fits(records: seq<Record>, e: Event) {
    && e.index < |records| && e.key == records[e.index].key
    && (e.Issued? ==>
          e.code == records[e.index].code && e.at == records[e.index].lastSentAt && e.stamped == records[e.index].expiresAt - 90_000)
  }

  ghost predicate RecordsOk(records: seq<Record>) {
    forall i | 0 <= i < |records| :: RecordOk(records[i])
  }

  ghost predicate AllExplained(d: Desk) {
    forall i | 0 <= i < |d.records| :: Explained(d.log, i, d.records[i])
  }

  ghost predicate AllFit(d: Desk) {
    forall e | e in d.log :: Fits(d.records, e)
  }

  ghost predicate Inv(d: Desk) {
    RecordsOk(d.records) && OnePendingPerKey(d.records) && AllExplained(d) && AllFit(d) && SafeLog(d.log)
  }

  lemma PendingIsThis(records: seq<Record>, key: Key, i: nat)
    requires OnePendingPerKey(records)
    requires i < |records| && records[i].key == key && records[i].status == PENDING
    ensures Pending(records, key) == Some(i)
  {
  }

  lemma WrongGuessesStep(log: seq<Event>, e: Event, i: nat)
    ensures WrongGuesses(log + [e], i) == WrongGuesses(log, i) + if e.Wrong? && e.index == i then 1 else 0
  {
    assert (log + [e])[..|log|] == log;
  }

  lemma EndedStep(log: seq<Event>, e: Event, i: nat, key: Key)
    ensures Ended(log + [e], i, key) <==> Ended(log, i, key) || Ends(e, i, key)
  {
    if Ended(log, i, key) {
      var f :| f in log && Ends(f, i, key);
      assert f in log + [e];
    }
    if Ends(e, i, key) { assert e in log + [e]; }
  }

  lemma SafeLogStep(log: seq<Event>, e: Event)
    requires SafeLog(log) && EventSafe(log, e)
    ensures SafeLog(log + [e])
  {
    forall q | 0 <= q < |log + [e]| ensures EventSafe((log + [e])[..q], (log + [e])[q]) {
      assert (log + [e])[..q] == log[..q];
      assert log[..|log|] == log;
    }
  }

  /** An index that no event mentions. */
  lemma {:induction false} NoGuesses(log: seq<Event>, i: nat)
    requires forall e | e in log :: e.index != i
    ensures WrongGuesses(log, i) == 0
  {
    if log != [] { NoGuesses(log[..|log| - 1], i); }
  }

  // ---------------------------------------------------------------------------------------
  // Issuing
  // ---------------------------------------------------------------------------------------

  lemma IssueExplainsOld(d: Desk, key: Key, code: Code, ticks: Ticks, i: nat)
    requires AllExplained(d) && i < |d.records|
    ensures Explained(Issue(d, key, code, ticks).log, i, Issue(d, key, code, ticks).records[i])
  {
    var r := d.records[i];
    var e := Issued(|d.records|, key, code, ticks.stamped, ticks.sent);
    WrongGuessesStep(d.log, e, i);
    EndedStep(d.log, e, i, r.key);
    assert Explained(d.log, i, r);
    assert Issued(i, r.key, r.code, r.expiresAt - 90_000, r.lastSentAt) in d.log + [e];
  }

  lemma IssueExplainsNew(d: Desk, key: Key, code: Code, ticks: Ticks)
    requires AllFit(d) && InOrder(ticks)
    ensures Explained(Issue(d, key, code, ticks).log, |d.records|, NewRecord(key, code, ticks))
  {
    var i := |d.records|;
    var e := Issued(i, key, code, ticks.stamped, ticks.sent);
    forall f | f in d.log ensures f.index < i { assert Fits(d.records, f); }
    WrongGuessesStep(d.log, e, i);
    EndedStep(d.log, e, i, key);
    NoGuesses(d.log, i);
    assert e in d.log + [e];
  }

  lemma IssueIsSafe(d: Desk, key: Key, code: Code, ticks: Ticks)
    requires Inv(d) && InOrder(ticks)
    requires var p := Pending(d.records, key); p.Some? ==> !TooSoon(d.records[p.value], ticks.checked)
    ensures EventSafe(d.log, Issued(|d.records|, key, code, ticks.stamped, ticks.sent))
  {
    forall f | f in d.log && f.Issued? ensures f.index < |d.records| { assert Fits(d.records, f); }
    forall f | f in d.log && f.Issued? && f.key == key && Open(d.log, f.index, key)
      ensures ticks.sent - f.at >= 60_000
    {
      assert Fits(d.records, f);
      assert Explained(d.log, f.index, d.records[f.index]);
      PendingIsThis(d.records, key, f.index);
      assert RecordOk(d.records[f.index]);
    }
  }

  lemma IssueFits(d: Desk, key: Key, code: Code, ticks: Ticks)
    requires AllFit(d)
    ensures AllFit(Issue(d, key, code, ticks))
  {
    var after := Issue(d, key, code, ticks);
    forall e | e in after.log ensures Fits(after.records, e) {
      if e in d.log { assert Fits(d.records, e); }
    }
  }

  lemma IssueKeepsRecords(d: Desk, key: Key, code: Code, ticks: Ticks)
    requires RecordsOk(d.records) && OnePendingPerKey(d.records)
    ensures RecordsOk(Issue(d, key, code, ticks).records) && OnePendingPerKey(Issue(d, key, code, ticks).records)
  {
    var after := Issue(d, key, code, ticks).records;
    forall i | 0 <= i < |after| ensures RecordOk(after[i]) {
      if i < |d.records| { assert RecordOk(d.records[i]); }
    }
  }

  lemma IssueKeepsInv(d: Desk, key: Key, code: Code, ticks: Ticks)
    requires Inv(d) && InOrder(ticks)
    requires var p := Pending(d.records, key); p.Some? ==> !TooSoon(d.records[p.value], ticks.checked)
    ensures Inv(Issue(d, key, code, ticks))
  {
    var after := Issue(d, key, code, ticks);
    IssueKeepsRecords(d, key, code, ticks);
    IssueFits(d, key, code, ticks);
    IssueIsSafe(d, key, code, ticks);
    SafeLogStep(d.log, Issued(|d.records|, key, code, ticks.stamped, ticks.sent));
    IssueExplainsNew(d, key, code, ticks);
    forall i | 0 <= i < |after.records| ensures Explained(after.log, i, after.records[i]) {
      if i < |d.records| { IssueExplainsOld(d, key, code, ticks, i); }
    }
  }

  // ---------------------------------------------------------------------------------------
  // Verifying
  // ---------------------------------------------------------------------------------------

  /** The new row of record `i` after one more event about it, which is not an issue. */
  predicate Moves(d: Desk, i: nat, r: Record, e: Event) {
    && i < |d.records| && d.records[i].status == PENDING
    && e.index == i && !e.Issued? && e.key == r.key == d.records[i].key
    && r.code == d.records[i].code && r.lastSentAt == d.records[i].lastSentAt && r.expiresAt == d.records[i].expiresAt
  }

  lemma MoveKeepsExplained(d: Desk, i: nat, r: Record, e: Event)
    requires AllExplained(d) && Moves(d, i, r, e) && Explained(d.log + [e], i, r)
    ensures AllExplained(Desk(d.records[i := r], d.log + [e]))
  {
    var moved := d.records[i := r];
    forall j | 0 <= j < |moved| ensures Explained(d.log + [e], j, moved[j]) {
      if j != i {
        WrongGuessesStep(d.log, e, j);
        EndedStep(d.log, e, j, d.records[j].key);
        assert Explained(d.log, j, d.records[j]);
      }
    }
  }

  lemma MoveFits(d: Desk, i: nat, r: Record, e: Event)
    requires AllFit(d) && Moves(d, i, r, e)
    ensures AllFit(Desk(d.records[i := r], d.log + [e]))
  {
    forall f | f in d.log + [e] ensures Fits(d.records[i := r], f) {
      if f in d.log { assert Fits(d.records, f); }
    }
  }

  lemma MoveKeepsRecords(d: Desk, i: nat, r: Record, e: Event)
    requires RecordsOk(d.records) && OnePendingPerKey(d.records) && Moves(d, i, r, e) && RecordOk(r)
    ensures RecordsOk(d.records[i := r]) && OnePendingPerKey(d.records[i := r])
  {
    var moved := d.records[i := r];
    forall j | 0 <= j < |moved| ensures RecordOk(moved[j]) {
      if j != i { assert RecordOk(d.records[j]); }
    }
    forall j, k | 0 <= j < k < |moved| && moved[j].key == moved[k].key ensures moved[j].status != PENDING {
      assert d.records[j].key == d.records[k].key;
    }
  }

  lemma MoveKeepsInv(d: Desk, i: nat, r: Record, e: Event)
    requires Inv(d) && Moves(d, i, r, e)
    requires RecordOk(r) && Explained(d.log + [e], i, r) && EventSafe(d.log, e)
    ensures Inv(Desk(d.records[i := r], d.log + [e]))
  {
    MoveKeepsRecords(d, i, r, e);
    MoveKeepsExplained(d, i, r, e);
    MoveFits(d, i, r, e);
    SafeLogStep(d.log, e);
  }

  function Judged(r: Record, i: nat, given: Code, now: Time): Event {
    if r.expiresAt < now then Late(i, r.key, now)
    else if r.code == given then Accepted(i, r.key, now, given) else Wrong(i, r.key, now, given)
  }

  /** What the judgement makes of the record is what the history then says of it. */
  lemma JudgementExplained(log: seq<Event>, i: nat, r: Record, given: Code, now: Time)
    requires RecordOk(r) && Explained(log, i, r) && r.status == PENDING
    ensures var e := Judged(r, i, given, now);
            var moved := if e.Late? then r.(status := EXPIRED)
                         else if e.Accepted? then r.(status := VERIFIED, verified := true, verifiedAt := Some(now)) else Miss(r, now);
            RecordOk(moved) && Explained(log + [e], i, moved)
    ensures EventSafe(log, Judged(r, i, given, now))
  {
    var e := Judged(r, i, given, now);
    WrongGuessesStep(log, e, i);
    EndedStep(log, e, i, r.key);
    assert Issued(i, r.key, r.code, r.expiresAt - 90_000, r.lastSentAt) in log + [e];
    assert WasIssued(log, i, r.key, r.code, r.expiresAt - 90_000);
  }

  lemma VerifyKeepsInv(d: Desk, key: Key, given: Code, now: Time)
    requires Inv(d)
    ensures Inv(Verify(d, key, given, now))
  {
    var p := Pending(d.records, key);
    if p.Some? {
      var i, r := p.value, d.records[p.value];
      assert RecordOk(r) && Explained(d.log, i, r);
      JudgementExplained(d.log, i, r, given, now);
      MoveKeepsInv(d, i, Verify(d, key, given, now).records[i], Judged(r, i, given, now));
    }
  }

  // ---------------------------------------------------------------------------------------
  // Runs
  // ---------------------------------------------------------------------------------------

  lemma StepKeepsInv(d: Desk, call: Call)
    requires Inv(d) && Legal(call)
    ensures Inv(Apply(d, call))
  {
    match call
    case CallSend(key, code, ticks) =>
      var p := Pending(d.records, key);
      if !(p.Some? && TooSoon(d.records[p.value], ticks.checked)) { IssueKeepsInv(d, key, code, ticks); }
    case CallResend(key, code, ticks) =>
      var p := Pending(d.records, key);
      if !(p.None? || TooSoon(d.records[p.value], ticks.checked)) { IssueKeepsInv(d, key, code, ticks); }
    case CallVerify(key, given, now) => VerifyKeepsInv(d, key, given, now);
  }

  /** Whatever calls are made, in whatever order and for whatever phones: the history stays safe, at most
      one code per phone and purpose is pending, and locked, blocked and five failures coincide. */
  lemma {:induction false} RunsKeepInv(d: Desk, calls: seq<Call>)
    requires Inv(d) && forall c | c in calls :: Legal(c)
    ensures Inv(Run(d, calls))
    decreases calls
  {
    if calls != [] {
      StepKeepsInv(d, calls[0]);
      RunsKeepInv(Apply(d, calls[0]), calls[1..]);
    }
  }

  /** The service starts with no records. */
  lemma EmptyDeskIsFine()
    ensures Inv(Desk([], []))
  {
  }

  // ---------------------------------------------------------------------------------------
  // Safety of whole runs
  // ---------------------------------------------------------------------------------------

  lemma AcceptedOnce(log: seq<Event>, q: nat, u: nat)
    requires SafeLog(log) && q < |log| && u < |log|
    requires log[q].Accepted? && log[u].Accepted? && log[u].index == log[q].index
    ensures u == q
  {
    if u < q {
      assert EventSafe(log[..q], log[q]);
      assert log[u] in log[..q] && Ends(log[u], log[q].index, log[q].key);
    } else if q < u {
      assert EventSafe(log[..u], log[u]);
      assert log[q] in log[..u] && Ends(log[q], log[u].index, log[u].key);
    }
  }

  /** What is accepted is a code that was issued for that phone and purpose, and it is accepted at most once;
      within 90 seconds of being made; and with no newer code for the same phone and purpose, no five wrong
      guesses and no late guess before. */
  lemma AcceptedOnceInTimeAndNewest(calls: seq<Call>, q: nat, i: nat, key: Key, at: Time, given: Code)
    requires forall c | c in calls :: Legal(c)
    requires var log := Run(Desk([], []), calls).log; q < |log| && log[q] == Accepted(i, key, at, given)
    ensures var log := Run(Desk([], []), calls).log;
            && (forall u | 0 <= u < |log| && log[u].Accepted? && log[u].index == i :: u == q)
            && (exists u, stamped, sent :: 0 <= u < q && log[u] == Issued(i, key, given, stamped, sent) && at <= stamped + 90_000 <= sent + 90_000)
            && (forall u | 0 <= u < q && log[u].Issued? && log[u].key == key :: log[u].index <= i)
            && WrongGuesses(log[..q], i) < 5
  {
    var log := Run(Desk([], []), calls).log;
    EmptyDeskIsFine();
    RunsKeepInv(Desk([], []), calls);
    assert EventSafe(log[..q], log[q]);
    forall u | 0 <= u < |log| && log[u].Accepted? && log[u].index == i ensures u == q { AcceptedOnce(log, q, u); }
    var stamped: Time :| WasIssued(log[..q], i, key, given, stamped) && at <= stamped + 90_000;
    var e :| e in log[..q] && e.Issued? && e.index == i && e.key == key && e.code == given && e.stamped == stamped && stamped <= e.at;
    var u :| 0 <= u < q && log[u] == e;
    assert log[u] == Issued(i, key, given, stamped, e.at);
    forall w | 0 <= w < q && log[w].Issued? && log[w].key == key ensures log[w].index <= i {
      assert log[w] in log[..q];
      assert !Ends(log[w], i, key);
    }
  }

  /** A code is accepted only when the guess is that code. */
  lemma AcceptedGuessIsTheCode(d: Desk, call: Call)
    requires Apply(d, call).log != d.log && Apply(d, call).log[|d.log|].Accepted?
    ensures var e := Apply(d, call).log[|d.log|];
            && call == CallVerify(e.key, e.given, e.at) && e.index < |d.records| && d.records[e.index].code == e.given
            && Pending(d.records, e.key) == Some(e.index)
  {
  }

  function WrongFor(log: seq<Event>, key: Key): nat {
    if log == [] then 0
    else WrongFor(log[..|log| - 1], key) + if log[|log| - 1].Wrong? && log[|log| - 1].key == key then 1 else 0
  }

  function IssuedFor(log: seq<Event>, key: Key): nat {
    if log == [] then 0
    else IssuedFor(log[..|log| - 1], key) + if log[|log| - 1].Issued? && log[|log| - 1].key == key then 1 else 0
  }

  function FailedFor(records: seq<Record>, key: Key): nat {
    if records == [] then 0
    else FailedFor(records[..|records| - 1], key) + if records[|records| - 1].key == key then records[|records| - 1].failedAttempts else 0
  }

  function RecordsFor(records: seq<Record>, key: Key): nat {
    if records == [] then 0
    else RecordsFor(records[..|records| - 1], key) + if records[|records| - 1].key == key then 1 else 0
  }

  ghost predicate Tallied(d: Desk, key: Key) {
    WrongFor(d.log, key) == FailedFor(d.records, key) && IssuedFor(d.log, key) == RecordsFor(d.records, key)
  }

  lemma {:induction false} SameTallies(a: seq<Record>, b: seq<Record>, key: Key)
    requires |a| == |b| && forall i | 0 <= i < |a| :: a[i].key == b[i].key && a[i].failedAttempts == b[i].failedAttempts
    ensures FailedFor(a, key) == FailedFor(b, key) && RecordsFor(a, key) == RecordsFor(b, key)
  {
    if a != [] { SameTallies(a[..|a| - 1], b[..|b| - 1], key); }
  }

  lemma {:induction false} TallyUpdate(records: seq<Record>, i: nat, r: Record, key: Key)
    requires i < |records| && r.key == records[i].key
    ensures RecordsFor(records[i := r], key) == RecordsFor(records, key)
    ensures FailedFor(records[i := r], key)
            == FailedFor(records, key) + if r.key == key then r.failedAttempts - records[i].failedAttempts else 0
  {
    var n := |records| - 1;
    if i == n {
      assert records[i := r][..n] == records[..n];
    } else {
      TallyUpdate(records[..n], i, r, key);
      assert records[i := r][..n] == records[..n][i := r];
    }
  }

  lemma LogTalliesIssue(log: seq<Event>, e: Event, other: Key)
    requires e.Issued?
    ensures WrongFor(log + [e], other) == WrongFor(log, other)
    ensures IssuedFor(log + [e], other) == IssuedFor(log, other) + if e.key == other then 1 else 0
  {
    assert (log + [e])[..|log|] == log;
  }

  lemma RecordTalliesIssue(records: seq<Record>, r: Record, other: Key)
    requires r.failedAttempts == 0
    ensures FailedFor(records + [r], other) == FailedFor(records, other)
    ensures RecordsFor(records + [r], other) == RecordsFor(records, other) + if r.key == other then 1 else 0
  {
    assert (records + [r])[..|records|] == records;
  }

  lemma TalliesIssue(d: Desk, key: Key, code: Code, ticks: Ticks, other: Key)
    requires Tallied(d, other)
    ensures Tallied(Issue(d, key, code, ticks), other)
  {
    LogTalliesIssue(d.log, Issued(|d.records|, key, code, ticks.stamped, ticks.sent), other);
    RecordTalliesIssue(Superseded(d.records, key), NewRecord(key, code, ticks), other);
    SameTallies(Superseded(d.records, key), d.records, other);
  }

  lemma LogTalliesWrong(log: seq<Event>, e: Event, other: Key)
    requires !e.Issued?
    ensures WrongFor(log + [e], other) == WrongFor(log, other) + if e.Wrong? && e.key == other then 1 else 0
    ensures IssuedFor(log + [e], other) == IssuedFor(log, other)
  {
    assert (log + [e])[..|log|] == log;
  }

  /** One judged guess and the row it leaves count alike. */
  lemma TalliesMove(d: Desk, i: nat, r: Record, e: Event, other: Key)
    requires Tallied(d, other) && i < |d.records| && e.key == r.key == d.records[i].key && !e.Issued?
    requires r.failedAttempts == d.records[i].failedAttempts + if e.Wrong? then 1 else 0
    ensures Tallied(Desk(d.records[i := r], d.log + [e]), other)
  {
    LogTalliesWrong(d.log, e, other);
    TallyUpdate(d.records, i, r, other);
  }

  lemma TalliesVerify(d: Desk, key: Key, given: Code, now: Time, other: Key)
    requires Tallied(d, other)
    ensures Tallied(Verify(d, key, given, now), other)
  {
    var p := Pending(d.records, key);
    if p.Some? && !d.records[p.value].locked {
      var i, r := p.value, d.records[p.value];
      var e := Judged(r, i, given, now);
      var moved := if e.Late? then r.(status := EXPIRED)
                   else if e.Accepted? then r.(status := VERIFIED, verified := true, verifiedAt := Some(now)) else Miss(r, now);
      TalliesMove(d, i, moved, e, other);
    }
  }

  lemma TalliesStep(d: Desk, call: Call, other: Key)
    requires Tallied(d, other)
    ensures Tallied(Apply(d, call), other)
  {
    match call
    case CallSend(key, code, ticks) => TalliesIssue(d, key, code, ticks, other);
    case CallResend(key, code, ticks) => TalliesIssue(d, key, code, ticks, other);
    case CallVerify(key, given, now) => TalliesVerify(d, key, given, now, other);
  }

  lemma {:induction false} TalliesRun(d: Desk, calls: seq<Call>, key: Key)
    requires Tallied(d, key)
    ensures Tallied(Run(d, calls), key)
    decreases calls
  {
    if calls != [] {
      TalliesStep(d, calls[0], key);
      TalliesRun(Apply(d, calls[0]), calls[1..], key);
    }
  }

  lemma {:induction false} FiveEach(records: seq<Record>, key: Key)
    requires forall i | 0 <= i < |records| :: records[i].failedAttempts <= MAX_FAILED_ATTEMPTS
    ensures FailedFor(records, key) <= MAX_FAILED_ATTEMPTS * RecordsFor(records, key)
  {
    if records != [] { FiveEach(records[..|records| - 1], key); }
  }

  /** Guessing is bounded by issuing: at most five wrong guesses are answered per code issued for the key. */
  lemma WrongGuessesAreBounded(calls: seq<Call>, key: Key)
    requires forall c | c in calls :: Legal(c)
    ensures var log := Run(Desk([], []), calls).log;
            WrongFor(log, key) <= 5 * IssuedFor(log, key)
  {
    var d := Run(Desk([], []), calls);
    EmptyDeskIsFine();
    RunsKeepInv(Desk([], []), calls);
    TalliesRun(Desk([], []), calls, key);
    forall i | 0 <= i < |d.records| ensures d.records[i].failedAttempts <= MAX_FAILED_ATTEMPTS { assert RecordOk(d.records[i]); }
    FiveEach(d.records, key);
  }

  /** While a code can still be accepted, the next one for its phone and purpose comes at least 60 seconds later. */
  lemma IssuesAreSpaced(calls: seq<Call>, u: nat, q: nat)
    requires forall c | c in calls :: Legal(c)
    requires var log := Run(Desk([], []), calls).log;
             u < q < |log| && log[u].Issued? && log[q].Issued? && log[u].key == log[q].key && Open(log[..q], log[u].index, log[u].key)
    ensures var log := Run(Desk([], []), calls).log; log[q].at - log[u].at >= 60_000
  {
    var log := Run(Desk([], []), calls).log;
    EmptyDeskIsFine();
    RunsKeepInv(Desk([], []), calls);
    assert EventSafe(log[..q], log[q]);
    assert log[u] in log[..q];
  }

  // ---------------------------------------------------------------------------------------
  // What the guards amount to
  // ---------------------------------------------------------------------------------------

  /** Once a record has left PENDING it never changes again, and no record ever loses its code or key. */
  lemma SettledForGood(d: Desk, call: Call, i: nat)
    requires i < |d.records|
    ensures i < |Apply(d, call).records|
    ensures d.records[i].status != PENDING ==> Apply(d, call).records[i] == d.records[i]
    ensures var r := Apply(d, call).records[i];
            && r.key == d.records[i].key && r.code == d.records[i].code
            && r.expiresAt == d.records[i].expiresAt && r.lastSentAt == d.records[i].lastSentAt
  {
  }

  lemma {:induction false} SettledForGoodInRuns(d: Desk, calls: seq<Call>, i: nat)
    requires i < |d.records| && d.records[i].status != PENDING
    ensures i < |Run(d, calls).records| && Run(d, calls).records[i] == d.records[i]
    decreases calls
  {
    if calls != [] {
      SettledForGood(d, calls[0], i);
      SettledForGoodInRuns(Apply(d, calls[0]), calls[1..], i);
    }
  }

  /** A code is issued exactly when none is pending or the pending one was sent at least a minute before:
      the limit on resends never applies, and neither a lock-out nor a success makes anyone wait. */
  lemma SendIssuesIff(d: Desk, key: Key, code: Code, ticks: Ticks)
    requires Inv(d)
    ensures Send(d, key, code, ticks) == Issue(d, key, code, ticks) <==>
            forall i | 0 <= i < |d.records| && d.records[i].key == key && d.records[i].status == PENDING ::
              ticks.checked - d.records[i].lastSentAt >= 60_000
  {
    var p := Pending(d.records, key);
    if p.Some? {
      assert RecordOk(d.records[p.value]);
      assert Send(d, key, code, ticks) == d ==> |Send(d, key, code, ticks).log| == |d.log|;
      forall i | 0 <= i < |d.records| && d.records[i].key == key && d.records[i].status == PENDING ensures i == p.value {
        PendingIsThis(d.records, key, i);
      }
    }
  }

  /** A guess is judged by the newest code of its phone and purpose alone; the guard on locked records
      never decides anything, as a locked record is no longer pending. */
  lemma JudgedIff(d: Desk, key: Key, given: Code, now: Time)
    requires Inv(d)
    ensures Judge(d, key, given, now) == VALID <==>
            exists i :: 0 <= i < |d.records| && d.records[i].key == key && d.records[i].status == PENDING
                        && now <= d.records[i].expiresAt && d.records[i].code == given
    ensures Judge(d, key, given, now) == TOO_MANY_ATTEMPTS <==>
            exists i :: 0 <= i < |d.records| && d.records[i].key == key && d.records[i].status == PENDING
                        && now <= d.records[i].expiresAt && d.records[i].code != given && d.records[i].failedAttempts == 4
    ensures Judge(d, key, given, now) == VALID <==> |Verify(d, key, given, now).log| > |d.log| && Verify(d, key, given, now).log[|d.log|].Accepted?
  {
    var p := Pending(d.records, key);
    if p.Some? {
      assert RecordOk(d.records[p.value]);
      forall i | 0 <= i < |d.records| && d.records[i].key == key && d.records[i].status == PENDING ensures i == p.value {
        PendingIsThis(d.records, key, i);
      }
    }
  }

  lemma GuessAccepted(d: Desk, i: nat, given: Code, now: Time)
    requires OnePendingPerKey(d.records) && i < |d.records| && RecordOk(d.records[i])
    ensures Verify(d, d.records[i].key, given, now).log == d.log + [Accepted(i, d.records[i].key, now, given)]
            <==> d.records[i].status == PENDING && now <= d.records[i].expiresAt && d.records[i].code == given
  {
    var r := d.records[i];
    var next := Verify(d, r.key, given, now).log;
    if r.status == PENDING {
      PendingIsThis(d.records, r.key, i);
      assert next[|d.log|] == Judged(r, i, given, now);
    } else if next != d.log {
      assert next[|d.log|].index != i;
    } else {
      assert |next| == |d.log|;
    }
  }

  /** A guess is that code, in time. */
  ghost predicate Meets(log: seq<Event>, i: nat, key: Key, given: Code, now: Time) {
    exists e | e in log :: e.Issued? && e.index == i && e.key == key && e.code == given && now <= e.stamped + 90_000
  }

  lemma MeetsIff(d: Desk, i: nat, given: Code, now: Time)
    requires AllFit(d) && i < |d.records| && Explained(d.log, i, d.records[i])
    ensures Meets(d.log, i, d.records[i].key, given, now) <==> given == d.records[i].code && now <= d.records[i].expiresAt
  {
    var r := d.records[i];
    assert Issued(i, r.key, r.code, r.expiresAt - 90_000, r.lastSentAt) in d.log;
    forall e | e in d.log && e.Issued? && e.index == i ensures e.code == r.code && e.stamped == r.expiresAt - 90_000 {
      assert Fits(d.records, e);
    }
  }

  /** Only a record of the key can be accepted. */
  lemma NoSuchCode(d: Desk, i: nat, key: Key, given: Code, now: Time)
    requires AllFit(d) && !(i < |d.records| && d.records[i].key == key)
    ensures !Meets(d.log, i, key, given, now)
    ensures Apply(d, CallVerify(key, given, now)).log != d.log + [Accepted(i, key, now, given)]
  {
    forall e | e in d.log ensures e.index != i || e.key != key { assert Fits(d.records, e); }
    var next := Verify(d, key, given, now).log;
    var target := d.log + [Accepted(i, key, now, given)];
    assert |target| > |d.log| && target[|d.log|].index == i;
    assert |next| > |d.log| ==> next[|d.log|].index == Pending(d.records, key).value;
  }

  /** In every run, the history alone tells which guess would be accepted as which code: the code issued, in
      time, if nothing has ended it. */
  lemma AcceptableIff(calls: seq<Call>, i: nat, key: Key, given: Code, now: Time)
    requires forall c | c in calls :: Legal(c)
    ensures var d := Run(Desk([], []), calls);
            Apply(d, CallVerify(key, given, now)).log == d.log + [Accepted(i, key, now, given)]
            <==> Open(d.log, i, key) && Meets(d.log, i, key, given, now)
  {
    var d := Run(Desk([], []), calls);
    EmptyDeskIsFine();
    RunsKeepInv(Desk([], []), calls);
    if i < |d.records| && d.records[i].key == key {
      assert Explained(d.log, i, d.records[i]) && RecordOk(d.records[i]);
      GuessAccepted(d, i, given, now);
      MeetsIff(d, i, given, now);
    } else {
      NoSuchCode(d, i, key, given, now);
    }
  }
}
