/**
 The cache of presigned URLs on a file row: a URL is reused while its recorded expiry is more than ten
 minutes away.  Times are in milliseconds, lifetimes in seconds; a signed URL carries its true expiry.
 */
module PresignedUrls {
  import opened Wrappers

  type Time = int

  datatype SignedUrl = SignedUrl(key: string, expiresAt: Time)

  datatype File = File(
    key: string,
    thumbnailKey: Option<string>,
    signedUrl: Option<SignedUrl>,
    signedUrlExpireAt: Option<Time>,
    thumbnailSignedUrl: Option<SignedUrl>,
    thumbnailSignedUrlExpireAt: Option<Time>)

  const TEN_MINUTES := 600_000

  /** The store's lifetime: an hour unless one is given. */
  function Sign(key: string, expiresIn: Option<int>, now: Time): SignedUrl {
    SignedUrl(key, now + (if expiresIn.Some? then expiresIn.value else 3600) * 1000)
  }

  /** The expiry put on record: three quarters of the lifetime, where zero counts as not given. */
  function RecordedExpiry(expiresIn: Option<int>, now: Time): Time {
    now + (if expiresIn.Some? && expiresIn.value != 0 then expiresIn.value else 3600) * 750
  }

  predicate Fresh(url: Option<SignedUrl>, recorded: Option<Time>, now: Time) {
    url.Some? && recorded.Some? && recorded.value > now + TEN_MINUTES
  }

  /** `getPresignedUrl` on the row of an existing file. */
  function Main(f: File, expiresIn: Option<int>, now: Time): (File, SignedUrl) {
    if Fresh(f.signedUrl, f.signedUrlExpireAt, now) then (f, f.signedUrl.value)
    else
      var url := Sign(f.key, expiresIn, now);
      (f.(signedUrl := Some(url), signedUrlExpireAt := Some(RecordedExpiry(expiresIn, now))), url)
  }

  /** `getThumbnailPresignedUrl`: the new expiry lands in the field of the file's own URL. */
  function Thumbnail(f: File, expiresIn: Option<int>, now: Time): (File, Option<SignedUrl>) {
    if f.thumbnailKey.None? then (f, None)
    else if Fresh(f.thumbnailSignedUrl, f.thumbnailSignedUrlExpireAt, now) then (f, f.thumbnailSignedUrl)
    else
      var url := Sign(f.thumbnailKey.value, expiresIn, now);
      (f.(thumbnailSignedUrl := Some(url), signedUrlExpireAt := Some(RecordedExpiry(expiresIn, now))), Some(url))
  }

  /** The same with the expiry in the field that the check reads. */
  function ThumbnailCorrected(f: File, expiresIn: Option<int>, now: Time): (File, Option<SignedUrl>) {
    if f.thumbnailKey.None? then (f, None)
    else if Fresh(f.thumbnailSignedUrl, f.thumbnailSignedUrlExpireAt, now) then (f, f.thumbnailSignedUrl)
    else
      var url := Sign(f.thumbnailKey.value, expiresIn, now);
      (f.(thumbnailSignedUrl := Some(url), thumbnailSignedUrlExpireAt := Some(RecordedExpiry(expiresIn, now))), Some(url))
  }

  datatype Call = GetMain(expiresIn: Option<int>, now: Time) | GetThumbnail(expiresIn: Option<int>, now: Time)

  predicate Positive(call: Call) {
    call.expiresIn.Some? ==> call.expiresIn.value > 0
  }

  function Step(f: File, call: Call): (File, Option<SignedUrl>) {
    match call
    case GetMain(expiresIn, now) => var (g, url) := Main(f, expiresIn, now); (g, Some(url))
    case GetThumbnail(expiresIn, now) => Thumbnail(f, expiresIn, now)
  }

  function StepCorrected(f: File, call: Call): (File, Option<SignedUrl>) {
    if call.GetMain? then Step(f, call) else ThumbnailCorrected(f, call.expiresIn, call.now)
  }

  function Run(f: File, calls: seq<Call>): File {
    if calls == [] then f else Step(Run(f, calls[..|calls| - 1]), calls[|calls| - 1]).0
  }

  function RunCorrected(f: File, calls: seq<Call>): File {
    if calls == [] then f else StepCorrected(RunCorrected(f, calls[..|calls| - 1]), calls[|calls| - 1]).0
  }

  // ---------------------------------------------------------------------------------------
  // Recorded and true expiry
  // ---------------------------------------------------------------------------------------

  /** The record does not promise more than the URL keeps. */
  predicate Honest(url: Option<SignedUrl>, recorded: Option<Time>) {
    url.Some? && recorded.Some? ==> recorded.value <= url.value.expiresAt
  }

  /** Just signed for this key, or good for more than ten minutes. */
  predicate Usable(url: SignedUrl, key: string, expiresIn: Option<int>, now: Time) {
    url == Sign(key, expiresIn, now) || url.expiresAt > now + TEN_MINUTES
  }

  /** Whatever is asked for and whenever, the next call for the file's own URL returns a usable one. */
  ghost predicate Ready(f: File) {
    forall expiresIn: Option<int>, now: Time :: Usable(Main(f, expiresIn, now).1, f.key, expiresIn, now)
  }

  /** The rows that only ever give out usable URLs are those with an honest record. */
  lemma ReadyIffHonest(f: File)
    ensures Ready(f) <==> Honest(f.signedUrl, f.signedUrlExpireAt)
  {
    if Ready(f) && f.signedUrl.Some? && f.signedUrlExpireAt.Some? {
      assert Usable(Main(f, Some(1), f.signedUrl.value.expiresAt - TEN_MINUTES).1, f.key, Some(1), f.signedUrl.value.expiresAt - TEN_MINUTES);
    }
  }

  /** Three quarters of a lifetime is on record: no more than the truth exactly when the lifetime is positive. */
  lemma RecordIsHonestIff(key: string, expiresIn: Option<int>, now: Time)
    ensures RecordedExpiry(expiresIn, now) <= Sign(key, expiresIn, now).expiresAt <==> (expiresIn.Some? ==> expiresIn.value > 0)
  {
  }

  ghost predicate MainOnly(calls: seq<Call>) {
    forall c | c in calls :: c.GetMain? && Positive(c)
  }

  /** Without thumbnails: after any calls with positive lifetimes the record is honest, and the next call
      returns a usable URL. */
  lemma {:induction false} MainRunsStayHonest(f: File, calls: seq<Call>, expiresIn: Option<int>, now: Time)
    requires Honest(f.signedUrl, f.signedUrlExpireAt) && MainOnly(calls)
    ensures Honest(Run(f, calls).signedUrl, Run(f, calls).signedUrlExpireAt) && Run(f, calls).key == f.key
    ensures Usable(Main(Run(f, calls), expiresIn, now).1, f.key, expiresIn, now)
  {
    if calls != [] {
      var front, last := calls[..|calls| - 1], calls[|calls| - 1];
      assert last in calls && Positive(last);
      assert MainOnly(front) by { forall c | c in front ensures c.GetMain? && Positive(c) { assert c in calls; } }
      MainRunsStayHonest(f, front, last.expiresIn, last.now);
    }
  }

  // ---------------------------------------------------------------------------------------
  // Thumbnails as written
  // ---------------------------------------------------------------------------------------

  /** A thumbnail call that signs puts a time beyond the true expiry on record for the file's own URL. */
  predicate Oversteps(f: File, call: Call) {
    && call.GetThumbnail? && f.thumbnailKey.Some?
    && !Fresh(f.thumbnailSignedUrl, f.thumbnailSignedUrlExpireAt, call.now)
    && f.signedUrl.Some? && RecordedExpiry(call.expiresIn, call.now) > f.signedUrl.value.expiresAt
  }

  ghost predicate ReadyThroughout(f: File, calls: seq<Call>) {
    Ready(Run(f, calls)) && (calls != [] ==> ReadyThroughout(f, calls[..|calls| - 1]))
  }

  predicate OverstepsSomewhere(f: File, calls: seq<Call>) {
    calls != []
    && (OverstepsSomewhere(f, calls[..|calls| - 1]) || Oversteps(Run(f, calls[..|calls| - 1]), calls[|calls| - 1]))
  }

  /** With thumbnails the row is ready at every step, for any next call, exactly when no thumbnail call oversteps. */
  lemma {:induction false} MixedRunsStayReadyIff(f: File, calls: seq<Call>)
    requires Honest(f.signedUrl, f.signedUrlExpireAt)
    requires forall c | c in calls :: Positive(c)
    ensures ReadyThroughout(f, calls) <==> !OverstepsSomewhere(f, calls)
  {
    ReadyIffHonest(Run(f, calls));
    if calls != [] {
      var front, last := calls[..|calls| - 1], calls[|calls| - 1];
      assert Positive(last);
      forall c | c in front ensures Positive(c) { assert c in calls; }
      MixedRunsStayReadyIff(f, front);
      ReadyIffHonest(Run(f, front));
    }
  }

  /** The thumbnail's own expiry is never written, so a row that starts without it signs at every call. */
  lemma {:induction false} ThumbnailsAreNeverReused(f: File, calls: seq<Call>, expiresIn: Option<int>, now: Time)
    requires f.thumbnailSignedUrlExpireAt.None? && f.thumbnailKey.Some?
    ensures Run(f, calls).thumbnailSignedUrlExpireAt.None? && Run(f, calls).thumbnailKey == f.thumbnailKey
    ensures Thumbnail(Run(f, calls), expiresIn, now).1 == Some(Sign(f.thumbnailKey.value, expiresIn, now))
  {
    if calls != [] {
      ThumbnailsAreNeverReused(f, calls[..|calls| - 1], expiresIn, now);
    }
  }

  /** A run in which the file's own URL is handed out although it has expired: signed for an hour, its
      record pushed out by a thumbnail half an hour later, returned again after the hour is over. */
  lemma ExpiredUrlIsReturned(f: File)
    requires f.signedUrl.None? && f.thumbnailSignedUrl.None? && f.thumbnailKey.Some?
    ensures var calls := [GetMain(None, 0), GetThumbnail(None, 2_000_000)];
            var now := 3_700_000;
            && OverstepsSomewhere(f, calls)
            && Main(Run(f, calls), None, now).1.expiresAt < now
  {
    var first, second := GetMain(None, 0), GetThumbnail(None, 2_000_000);
    assert [first][..0] == [] && [first, second][..1] == [first];
    assert Run(f, []) == f;
    assert Run(f, [first]) == Step(f, first).0;
    assert Run(f, [first, second]) == Step(Run(f, [first]), second).0;
  }

  // ---------------------------------------------------------------------------------------
  // Which calls go wrong, told from the times and lifetimes of the calls alone
  // ---------------------------------------------------------------------------------------

  /** A row as it is stored first; nothing but the two calls ever fills its URLs and expiries. */
  predicate NewRow(f: File) {
    f.signedUrl.None? && f.signedUrlExpireAt.None? && f.thumbnailSignedUrl.None? && f.thumbnailSignedUrlExpireAt.None?
  }

  function TrueExpiry(call: Call): Time {
    call.now + (if call.expiresIn.Some? then call.expiresIn.value else 3600) * 1000
  }

  /** The last call that signed the file's own URL, and the last call that signed at all. */
  datatype Signings = Signings(own: Option<Call>, any: Option<Call>)

  /** The file's own URL is handed out again: one has been signed, and the expiry that the last signing call
      put on record is more than ten minutes away. */
  predicate Reuses(signed: Signings, now: Time) {
    signed.own.Some? && signed.any.Some? && now < RecordedExpiry(signed.any.value.expiresIn, signed.any.value.now) - TEN_MINUTES
  }

  function SigningsOf(calls: seq<Call>, hasThumbnail: bool): Signings {
    if calls == [] then Signings(None, None)
    else
      var before, last := SigningsOf(calls[..|calls| - 1], hasThumbnail), calls[|calls| - 1];
      if last.GetThumbnail? then if hasThumbnail then before.(any := Some(last)) else before
      else if Reuses(before, last.now) then before
      else Signings(Some(last), Some(last))
  }

  /** The call asks for the file's own URL in the last ten minutes of the one signed last, or later, and before the
      last expiry put on record comes within ten minutes; and it does not happen to ask for that very expiry. */
  predicate Misfires(calls: seq<Call>, n: nat, hasThumbnail: bool)
    requires n < |calls|
  {
    var signed := SigningsOf(calls[..n], hasThumbnail);
    && calls[n].GetMain? && signed.own.Some? && signed.any.Some?
    && TrueExpiry(signed.own.value) - TEN_MINUTES <= calls[n].now
    && calls[n].now < RecordedExpiry(signed.any.value.expiresIn, signed.any.value.now) - TEN_MINUTES
    && TrueExpiry(calls[n]) != TrueExpiry(signed.own.value)
  }

  lemma {:induction false} RowTellsSignings(f: File, calls: seq<Call>)
    requires NewRow(f)
    ensures var g := Run(f, calls);
            var signed := SigningsOf(calls, f.thumbnailKey.Some?);
            && g.key == f.key && g.thumbnailKey == f.thumbnailKey && g.thumbnailSignedUrlExpireAt.None?
            && g.signedUrl == (if signed.own.Some? then Some(SignedUrl(f.key, TrueExpiry(signed.own.value))) else None)
            && g.signedUrlExpireAt
               == (if signed.any.Some? then Some(RecordedExpiry(signed.any.value.expiresIn, signed.any.value.now)) else None)
  {
    if calls != [] { RowTellsSignings(f, calls[..|calls| - 1]); }
  }

  /** The calls of a run that get an unusable URL of the file are exactly those that misfire. */
  lemma UnusableIffMisfires(f: File, calls: seq<Call>, n: nat)
    requires NewRow(f) && n < |calls| && calls[n].GetMain?
    ensures Usable(Main(Run(f, calls[..n]), calls[n].expiresIn, calls[n].now).1, f.key, calls[n].expiresIn, calls[n].now)
            <==> !Misfires(calls, n, f.thumbnailKey.Some?)
  {
    RowTellsSignings(f, calls[..n]);
  }

  /** With positive lifetimes only a thumbnail call can have set the stage: the last to sign was one, after the
      file's own URL was signed. */
  lemma {:induction false} MisfiresFollowThumbnails(calls: seq<Call>, hasThumbnail: bool)
    requires forall c | c in calls :: Positive(c)
    ensures var signed := SigningsOf(calls, hasThumbnail);
            && (signed.own.Some? ==> signed.any.Some? && signed.own.value in calls && signed.own.value.GetMain?)
            && (signed.any.Some? ==> signed.any.value in calls && (signed.any.value.GetThumbnail? || signed.any == signed.own))
            && (forall now: Time | Reuses(signed, now) && TrueExpiry(signed.own.value) - TEN_MINUTES <= now ::
                  signed.any.value.GetThumbnail?)
  {
    if calls != [] {
      var front, last := calls[..|calls| - 1], calls[|calls| - 1];
      assert last in calls;
      forall c | c in front ensures Positive(c) && c in calls { assert c in calls; }
      MisfiresFollowThumbnails(front, hasThumbnail);
      var signed := SigningsOf(calls, hasThumbnail);
      if signed.own.Some? { assert Positive(signed.own.value); }
    }
  }

  ghost predicate AllUsable(f: File, calls: seq<Call>) {
    forall n | 0 <= n < |calls| && calls[n].GetMain? ::
      Usable(Main(Run(f, calls[..n]), calls[n].expiresIn, calls[n].now).1, f.key, calls[n].expiresIn, calls[n].now)
  }

  /** Every URL of the file returned in a mixed run is just signed or good for more than ten minutes, exactly
      when none of the calls misfires. */
  lemma MixedRunsReturnUsableUrlsIff(f: File, calls: seq<Call>)
    requires NewRow(f)
    ensures AllUsable(f, calls) <==> forall n | 0 <= n < |calls| :: !Misfires(calls, n, f.thumbnailKey.Some?)
  {
    forall n | 0 <= n < |calls| && calls[n].GetMain?
      ensures Usable(Main(Run(f, calls[..n]), calls[n].expiresIn, calls[n].now).1, f.key, calls[n].expiresIn, calls[n].now)
              <==> !Misfires(calls, n, f.thumbnailKey.Some?)
    {
      UnusableIffMisfires(f, calls, n);
    }
  }

  /** One call, in numbers: the URL on the row is handed out while its recorded expiry is more than 600 000 ms
      away; otherwise one is signed for the lifetime asked for, an hour by default, and 750 ms of each of its
      seconds go on record, in the same field for both kinds. */
  lemma CallsAre(f: File, seconds: Option<int>, now: Time)
    ensures var (g, url) := Step(f, GetMain(seconds, now));
            if f.signedUrl.Some? && f.signedUrlExpireAt.Some? && now < f.signedUrlExpireAt.value - 600_000
            then g == f && url == f.signedUrl
            else
              && url == Some(SignedUrl(f.key, now + match seconds { case Some(n) => 1000 * n case None => 3_600_000 }))
              && g == f.(signedUrl := url, signedUrlExpireAt := g.signedUrlExpireAt)
              && g.signedUrlExpireAt == Some(now + match seconds { case Some(n) => if n == 0 then 2_700_000 else 750 * n case None => 2_700_000 })
    ensures var (g, url) := Step(f, GetThumbnail(seconds, now));
            if f.thumbnailKey.None? then g == f && url.None?
            else if f.thumbnailSignedUrl.Some? && f.thumbnailSignedUrlExpireAt.Some? && now < f.thumbnailSignedUrlExpireAt.value - 600_000
            then g == f && url == f.thumbnailSignedUrl
            else
              && url == Some(SignedUrl(f.thumbnailKey.value, now + match seconds { case Some(n) => 1000 * n case None => 3_600_000 }))
              && g == f.(thumbnailSignedUrl := url, signedUrlExpireAt := g.signedUrlExpireAt)
              && g.signedUrlExpireAt == Some(now + match seconds { case Some(n) => if n == 0 then 2_700_000 else 750 * n case None => 2_700_000 })
  {
  }

  /** What counts as usable, in numbers. */
  lemma UsableIff(url: SignedUrl, key: string, seconds: Option<int>, now: Time)
    ensures Usable(url, key, seconds, now) <==>
            || url == SignedUrl(key, now + match seconds { case Some(n) => 1000 * n case None => 3_600_000 })
            || url.expiresAt > now + 600_000
  {
  }

  // ---------------------------------------------------------------------------------------
  // Thumbnails corrected
  // ---------------------------------------------------------------------------------------

  /** With the expiry in its own field, any mix of calls returns usable URLs of both kinds. */
  lemma {:induction false} CorrectedRunsStayHonest(f: File, calls: seq<Call>, next: Call)
    requires Honest(f.signedUrl, f.signedUrlExpireAt) && Honest(f.thumbnailSignedUrl, f.thumbnailSignedUrlExpireAt)
    requires forall c | c in calls :: Positive(c)
    ensures var g := RunCorrected(f, calls);
            && g.key == f.key && g.thumbnailKey == f.thumbnailKey
            && Honest(g.signedUrl, g.signedUrlExpireAt) && Honest(g.thumbnailSignedUrl, g.thumbnailSignedUrlExpireAt)
    ensures var url := StepCorrected(RunCorrected(f, calls), next).1;
            if next.GetMain? then url.Some? && Usable(url.value, f.key, next.expiresIn, next.now)
            else if f.thumbnailKey.Some? then url.Some? && Usable(url.value, f.thumbnailKey.value, next.expiresIn, next.now)
            else url.None?
  {
    if calls != [] {
      var front, last := calls[..|calls| - 1], calls[|calls| - 1];
      assert Positive(last);
      forall c | c in front ensures Positive(c) { assert c in calls; }
      CorrectedRunsStayHonest(f, front, last);
    }
  }

  // ---------------------------------------------------------------------------------------
  // The service
  // ---------------------------------------------------------------------------------------

  type FileId = nat

  datatype Reply = NoUrl | FileNotFound | Url(url: SignedUrl)

  class FileService {
    var files: map<FileId, File>

    constructor (files: map<FileId, File>)
      ensures this.files == files
    {
      this.files := files;
    }

    /** Zero stands for no file at all. */
    method GetPresignedUrl(id: FileId, expiresIn: Option<int>, now: Time) returns (reply: Reply)
      modifies this
      ensures id == 0 ==> reply == NoUrl && files == old(files)
      ensures id != 0 && id !in old(files) ==> reply == FileNotFound && files == old(files)
      ensures id != 0 && id in old(files) ==>
                && reply == Url(Main(old(files)[id], expiresIn, now).1)
                && files == old(files)[id := Main(old(files)[id], expiresIn, now).0]
    {
      if id == 0 { return NoUrl; }
      if id !in files { return FileNotFound; }
      var file := files[id];
      var tenMinutesFromNow := now + TEN_MINUTES;
      if file.signedUrl.Some? && file.signedUrlExpireAt.Some? && file.signedUrlExpireAt.value > tenMinutesFromNow {
        return Url(file.signedUrl.value);
      }
      var url := Sign(file.key, expiresIn, now);
      var expireAt := RecordedExpiry(expiresIn, now);
      file := file.(signedUrl := Some(url));
      file := file.(signedUrlExpireAt := Some(expireAt));
      files := files[id := file];
      return Url(url);
    }

    method GetThumbnailPresignedUrl(id: FileId, expiresIn: Option<int>, now: Time) returns (reply: Reply)
      modifies this
      ensures id == 0 ==> reply == NoUrl && files == old(files)
      ensures id != 0 && id !in old(files) ==> reply == FileNotFound && files == old(files)
      ensures id != 0 && id in old(files) ==>
                var (file, url) := Thumbnail(old(files)[id], expiresIn, now);
                && reply == (if url.Some? then Url(url.value) else NoUrl)
                && files == old(files)[id := file]
    {
      if id == 0 { return NoUrl; }
      if id !in files { return FileNotFound; }
      var file := files[id];
      if file.thumbnailKey.None? { return NoUrl; }
      var tenMinutesFromNow := now + TEN_MINUTES;
      if file.thumbnailSignedUrl.Some? && file.thumbnailSignedUrlExpireAt.Some? && file.thumbnailSignedUrlExpireAt.value > tenMinutesFromNow {
        return Url(file.thumbnailSignedUrl.value);
      }
      var url := Sign(file.thumbnailKey.value, expiresIn, now);
      var expireAt := RecordedExpiry(expiresIn, now);
      file := file.(thumbnailSignedUrl := Some(url));
      file := file.(signedUrlExpireAt := Some(expireAt));
      files := files[id := file];
      return Url(url);
    }
  }
}
