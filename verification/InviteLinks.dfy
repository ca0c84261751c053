/**
 Sellers choosing the path of their invite link.
 */
module InviteLinks {
  import opened Wrappers
  import opened InviteSlug

  type UserId = nat

  datatype Account = Account(isSeller: bool, deleted: bool, inviteUrl: Option<string>)

  datatype Answer = UserNotFound | Forbidden | InvalidInviteUrl | InviteUrlNotUnique | Updated(inviteUrl: string)

  /** The unique index over the invite paths that are set; deleted users keep theirs. */
  ghost predicate DistinctUrls(users: map<UserId, Account>) {
    forall i, j | i in users && j in users && i != j && users[i].inviteUrl.Some? :: users[i].inviteUrl != users[j].inviteUrl
  }

  class UserService {
    var users: map<UserId, Account>

    ghost predicate Valid()
      reads this
    {
      DistinctUrls(users)
    }

    constructor (users: map<UserId, Account>)
      requires DistinctUrls(users)
      ensures Valid() && this.users == users
    {
      this.users := users;
    }

    /** The path is taken over exactly when a live seller asks for text with a letter or digit in it whose
        slug no other user has; the index is never hit. */
    method UpdateInviteUrlForSeller(userId: UserId, raw: string) returns (answer: Answer)
      requires Valid()
      modifies this
      ensures Valid()
      ensures answer.Updated? <==>
              && userId in old(users) && !old(users)[userId].deleted && old(users)[userId].isSeller
              && KeptOf(raw) != ""
              && forall k | k in old(users) && k != userId :: old(users)[k].inviteUrl != Some(Slug(raw))
      ensures answer.Updated? ==>
                && answer.inviteUrl == Slug(raw) && IsSlug(answer.inviteUrl) && WithoutHyphens(answer.inviteUrl) == KeptOf(raw)
                && users == old(users)[userId := old(users)[userId].(inviteUrl := Some(answer.inviteUrl))]
      ensures !answer.Updated? ==> users == old(users)
      ensures answer == UserNotFound <==> !(userId in old(users) && !old(users)[userId].deleted)
      ensures answer == Forbidden <==> userId in old(users) && !old(users)[userId].deleted && !old(users)[userId].isSeller
      ensures answer == InvalidInviteUrl <==>
              userId in old(users) && !old(users)[userId].deleted && old(users)[userId].isSeller && KeptOf(raw) == ""
    {
      if userId !in users || users[userId].deleted { return UserNotFound; }
      if !users[userId].isSeller { return Forbidden; }
      var slug := Slug(raw);
      SlugIsFixedIff(raw);
      SlugKeepsLetters(raw);
      if slug == "" { return InvalidInviteUrl; }
      if existing :| existing in users && users[existing].inviteUrl == Some(slug) {
        if existing != userId { return InviteUrlNotUnique; }
      }
      users := users[userId := users[userId].(inviteUrl := Some(slug))];
      return Updated(slug);
    }
  }
}
