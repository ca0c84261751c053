/**
 The migration that makes the table of invitations fit for its partial unique index: among the active
 rows of a seller, customer and recipient it keeps the newest and deletes the others.
 */
module Deduplication {
  import opened Wrappers
  import opened Schema

  /** ORDER BY created_at DESC, id DESC: a missing time sorts first. */
  predicate RanksBefore(i: InviteId, a: Invitation, j: InviteId, b: Invitation) {
    if a.createdAt == b.createdAt then i > j
    else a.createdAt.None? || (b.createdAt.Some? && a.createdAt.value > b.createdAt.value)
  }

  /** The rows ranked before row `i` in its partition. */
  function Ahead(invs: Invitations, i: InviteId): set<InviteId>
    requires i in invs
  {
    set j | j in invs && j != i && Clash(invs[i], invs[j]) && RanksBefore(j, invs[j], i, invs[i])
  }

  /** ROW_NUMBER() of an active row. */
  function RowNumber(invs: Invitations, i: InviteId): nat
    requires i in invs
  {
    1 + |Ahead(invs, i)|
  }

  /** `up`: delete the active rows whose number is above one. */
  function Deduplicated(invs: Invitations): Invitations {
    map i | i in invs && !(Active(invs[i]) && RowNumber(invs, i) > 1) :: invs[i]
  }

  /** The row is the greatest by (created_at, id) among the active rows of its pair. */
  ghost predicate IsGreatest(invs: Invitations, i: InviteId)
    requires i in invs
  {
    forall j | j in invs && Clash(invs[i], invs[j]) :: j == i || RanksBefore(i, invs[i], j, invs[j])
  }

  lemma FirstIsGreatest(invs: Invitations, i: InviteId)
    requires i in invs && Active(invs[i])
    ensures RowNumber(invs, i) == 1 <==> IsGreatest(invs, i)
  {
    if IsGreatest(invs, i) {
      forall j ensures j !in Ahead(invs, i) { }
      assert Ahead(invs, i) == {};
    } else {
      var j :| j in invs && Clash(invs[i], invs[j]) && j != i && !RanksBefore(i, invs[i], j, invs[j]);
      assert j in Ahead(invs, i);
    }
  }

  /** A row survives exactly when it is inactive, names no customer, or is the greatest of its pair; the
      survivors are unchanged, and the index can be created on them. */
  lemma DeduplicationKeepsExactly(invs: Invitations)
    ensures forall i :: i in Deduplicated(invs) <==> i in invs && (!Active(invs[i]) || IsGreatest(invs, i))
    ensures forall i | i in Deduplicated(invs) :: Deduplicated(invs)[i] == invs[i]
    ensures UniqueActivePairs(Deduplicated(invs))
  {
    forall i | i in invs && Active(invs[i]) ensures RowNumber(invs, i) > 1 <==> !IsGreatest(invs, i) {
      FirstIsGreatest(invs, i);
    }
    forall i, j | i in Deduplicated(invs) && j in Deduplicated(invs) && i != j ensures !Clash(invs[i], invs[j]) {
      if Clash(invs[i], invs[j]) {
        assert IsGreatest(invs, i) && IsGreatest(invs, j);
        assert Clash(invs[j], invs[i]);
      }
    }
  }

  predicate InIndex(row: Invitation) {
    row.customerId.Some? && row.status in {InviteStatus.PENDING, InviteStatus.REQUESTED, InviteStatus.ACCEPTED}
  }

  /** Row `j` is a newer row of the same seller, customer and recipient than row `i`: it has no time at all while
      that one has, has a later time, or has the same time and a higher id. */
  predicate Outdates(invs: Invitations, j: InviteId, i: InviteId)
    requires i in invs
  {
    && j in invs && InIndex(invs[j])
    && invs[j].sellerId == invs[i].sellerId && invs[j].customerId == invs[i].customerId && invs[j].inviteFor == invs[i].inviteFor
    && match (invs[j].createdAt, invs[i].createdAt) {
         case (Some(later), Some(earlier)) => later > earlier || (later == earlier && j > i)
         case (None, Some(_)) => true
         case (None, None) => j > i
         case (Some(_), None) => false
       }
  }

  lemma OutdatedIff(invs: Invitations, i: InviteId)
    requires i in invs && Active(invs[i])
    ensures IsGreatest(invs, i) <==> forall j :: !Outdates(invs, j, i)
  {
    forall j | j in invs ensures Clash(invs[i], invs[j]) && j != i && !RanksBefore(i, invs[i], j, invs[j]) <==> Outdates(invs, j, i) { }
  }

  /** Told from the columns alone: a row is deleted exactly when it names a customer, is pending, requested or
      accepted, and is outdated by another such row. */
  lemma NewestWins(invs: Invitations, i: InviteId)
    requires i in invs
    ensures i !in Deduplicated(invs) <==> InIndex(invs[i]) && exists j :: Outdates(invs, j, i)
  {
    assert i !in Deduplicated(invs) <==> Active(invs[i]) && !IsGreatest(invs, i) by { DeduplicationKeepsExactly(invs); }
    assert Active(invs[i]) <==> InIndex(invs[i]);
    if Active(invs[i]) { OutdatedIff(invs, i); }
  }

  lemma FewerAhead(invs: Invitations, i: InviteId, j: InviteId)
    requires i in invs && j in Ahead(invs, i)
    ensures |Ahead(invs, j)| < |Ahead(invs, i)|
  {
    forall k | k in Ahead(invs, j) ensures k in Ahead(invs, i) {
      assert Clash(invs[j], invs[k]) && Clash(invs[i], invs[j]);
    }
    SmallerSet(Ahead(invs, j), Ahead(invs, i), j);
  }

  lemma {:induction false} GreatestOfPair(invs: Invitations, i: InviteId) returns (k: InviteId)
    requires i in invs && Active(invs[i])
    ensures k in invs && Clash(invs[i], invs[k]) && IsGreatest(invs, k)
    ensures k == i || RanksBefore(k, invs[k], i, invs[i])
    decreases |Ahead(invs, i)|
  {
    FirstIsGreatest(invs, i);
    if IsGreatest(invs, i) {
      k := i;
    } else {
      assert Ahead(invs, i) != {};
      var j :| j in Ahead(invs, i);
      FewerAhead(invs, i, j);
      k := GreatestOfPair(invs, j);
      assert Clash(invs[i], invs[k]);
    }
  }

  /** Every active row leaves a survivor of its pair behind, ranked no later than itself. */
  lemma PairSurvives(invs: Invitations, i: InviteId)
    requires i in invs && Active(invs[i])
    ensures exists k | k in Deduplicated(invs) ::
              Clash(invs[i], invs[k]) && IsGreatest(invs, k) && (k == i || RanksBefore(k, invs[k], i, invs[i]))
  {
    var k := GreatestOfPair(invs, i);
    FirstIsGreatest(invs, k);
    assert k in Deduplicated(invs);
  }

  lemma SmallerSet(a: set<InviteId>, b: set<InviteId>, j: InviteId)
    requires a <= b && j in b && j !in a
    ensures |a| < |b|
  {
    var rest := b - a - {j};
    assert b == a + (rest + {j});
    assert a !! (rest + {j});
  }

  lemma UniqueIsUntouched(invs: Invitations)
    requires UniqueActivePairs(invs)
    ensures Deduplicated(invs) == invs
  {
    forall i | i in invs && Active(invs[i]) ensures RowNumber(invs, i) == 1 {
      FirstIsGreatest(invs, i);
    }
  }

  /** The migration leaves a table alone exactly when the index could have been created on it as it was;
      so running it again changes nothing. */
  lemma DeduplicationChangesNothingIff(invs: Invitations)
    ensures Deduplicated(invs) == invs <==> UniqueActivePairs(invs)
    ensures Deduplicated(Deduplicated(invs)) == Deduplicated(invs)
  {
    assert UniqueActivePairs(Deduplicated(invs)) by { DeduplicationKeepsExactly(invs); }
    UniqueIsUntouched(Deduplicated(invs));
    if UniqueActivePairs(invs) { UniqueIsUntouched(invs); }
  }
}
