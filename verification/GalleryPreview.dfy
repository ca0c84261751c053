/**
 The preview of a gallery that a customer gets with the list of galleries, against the full list of the
 gallery's images that the same customer gets.
 */
module GalleryPreview {
  import opened Wrappers

  type UserId = nat
  type ImageId = nat
  type GalleryId = nat
  type Time = int

  datatype Image = Image(id: ImageId, galleryId: GalleryId, ownerId: UserId, createdAt: Time, deleted: bool)

  /** A like or a report: a customer's row about an image. */
  datatype Mark = Mark(imageId: ImageId, customerId: UserId)

  datatype Gallery = Gallery(images: seq<Image>, likes: seq<Mark>, reports: seq<Mark>)

  datatype Entry = Entry(image: Image, liked: bool)

  // ---------------------------------------------------------------------------------------
  // The queries
  // ---------------------------------------------------------------------------------------

  predicate Offered(image: Image, seller: UserId, gallery: GalleryId) {
    image.ownerId == seller && image.galleryId == gallery && !image.deleted
  }

  function Filter(images: seq<Image>, p: Image -> bool): seq<Image> {
    if images == [] then []
    else if p(images[0]) then [images[0]] + Filter(images[1..], p)
    else Filter(images[1..], p)
  }

  /** The seller's images in the gallery that are neither deleted nor reported by the customer. */
  function Visible(db: Gallery, seller: UserId, gallery: GalleryId, customer: UserId): seq<Image> {
    Filter(db.images, image => Offered(image, seller, gallery) && Mark(image.id, customer) !in db.reports)
  }

  function InsertNewest(sorted: seq<Image>, image: Image): seq<Image> {
    if sorted == [] || sorted[0].createdAt <= image.createdAt then [image] + sorted
    else [sorted[0]] + InsertNewest(sorted[1..], image)
  }

  /** ORDER BY created_at DESC */
  function NewestFirst(images: seq<Image>): seq<Image> {
    if images == [] then [] else InsertNewest(NewestFirst(images[1..]), images[0])
  }

  function LikeCount(likes: seq<Mark>, mark: Mark): nat {
    if likes == [] then 0 else LikeCount(likes[1..], mark) + if likes[0] == mark then 1 else 0
  }

  /** The left join with the customer's likes: one row per like, or one without. */
  function RowsOf(image: Image, likes: seq<Mark>, customer: UserId): seq<Entry> {
    var n := LikeCount(likes, Mark(image.id, customer));
    if n == 0 then [Entry(image, false)] else seq(n, _ => Entry(image, true))
  }

  function Rows(images: seq<Image>, likes: seq<Mark>, customer: UserId): seq<Entry> {
    if images == [] then [] else RowsOf(images[0], likes, customer) + Rows(images[1..], likes, customer)
  }

  /** `findAllBySeller`: the full list, newest first. */
  function FullList(db: Gallery, seller: UserId, gallery: GalleryId, customer: UserId): seq<Entry> {
    Rows(NewestFirst(Visible(db, seller, gallery, customer)), db.likes, customer)
  }

  function CountLater(images: seq<Image>, t: Time): nat {
    if images == [] then 0 else CountLater(images[1..], t) + if images[0].createdAt > t then 1 else 0
  }

  /** ROW_NUMBER() OVER (PARTITION BY gallery ORDER BY created_at DESC), for distinct times. */
  function RowNumber(images: seq<Image>, image: Image): nat {
    1 + CountLater(images, image.createdAt)
  }

  function Entries(images: seq<Image>, likes: seq<Mark>, customer: UserId): seq<Entry> {
    seq(|images|, i requires 0 <= i < |images| => Entry(images[i], LikeCount(likes, Mark(images[i].id, customer)) > 0))
  }

  /** The images that come with the gallery: numbered up to three, newest first, with an EXISTS for the like. */
  function Preview(db: Gallery, seller: UserId, gallery: GalleryId, customer: UserId): seq<Entry> {
    var visible := Visible(db, seller, gallery, customer);
    Entries(NewestFirst(Filter(visible, image => RowNumber(visible, image) <= 3)), db.likes, customer)
  }

  /** The count that comes with the gallery; none at all when the seller has no image there. */
  function Total(db: Gallery, seller: UserId, gallery: GalleryId, customer: UserId): Option<nat> {
    if Filter(db.images, image => Offered(image, seller, gallery)) == [] then None
    else Some(|Visible(db, seller, gallery, customer)|)
  }

  function OrZero(n: Option<nat>): nat {
    if n.Some? then n.value else 0
  }

  // ---------------------------------------------------------------------------------------
  // Sorting, filtering and numbering
  // ---------------------------------------------------------------------------------------

  ghost predicate DistinctTimes(images: seq<Image>) {
    forall i, j | 0 <= i < j < |images| :: images[i].createdAt != images[j].createdAt
  }

  ghost predicate Descending(images: seq<Image>) {
    forall i, j | 0 <= i < j < |images| :: images[i].createdAt > images[j].createdAt
  }

  lemma {:induction false} InsertMembers(sorted: seq<Image>, image: Image, other: Image)
    ensures other in InsertNewest(sorted, image) <==> other in sorted || other == image
    ensures |InsertNewest(sorted, image)| == |sorted| + 1
  {
    if !(sorted == [] || sorted[0].createdAt <= image.createdAt) {
      InsertMembers(sorted[1..], image, other);
    }
  }

  lemma {:induction false} InsertDescends(sorted: seq<Image>, image: Image)
    requires Descending(sorted) && forall x | x in sorted :: x.createdAt != image.createdAt
    ensures Descending(InsertNewest(sorted, image))
  {
    if !(sorted == [] || sorted[0].createdAt <= image.createdAt) {
      InsertDescends(sorted[1..], image);
      forall x | x in InsertNewest(sorted[1..], image) ensures sorted[0].createdAt > x.createdAt {
        InsertMembers(sorted[1..], image, x);
      }
    }
  }

  lemma {:induction false} SortMembers(images: seq<Image>, other: Image)
    ensures other in NewestFirst(images) <==> other in images
    ensures |NewestFirst(images)| == |images|
  {
    if images != [] {
      SortMembers(images[1..], other);
      InsertMembers(NewestFirst(images[1..]), images[0], other);
    }
  }

  lemma {:induction false} SortDescends(images: seq<Image>)
    requires DistinctTimes(images)
    ensures Descending(NewestFirst(images))
  {
    if images != [] {
      SortDescends(images[1..]);
      forall x | x in NewestFirst(images[1..]) ensures x.createdAt != images[0].createdAt {
        SortMembers(images[1..], x);
      }
      InsertDescends(NewestFirst(images[1..]), images[0]);
    }
  }

  lemma {:induction false} FilterInsert(sorted: seq<Image>, image: Image, p: Image -> bool)
    requires Descending(sorted)
    ensures Filter(InsertNewest(sorted, image), p)
            == if p(image) then InsertNewest(Filter(sorted, p), image) else Filter(sorted, p)
  {
    if sorted == [] {
    } else if sorted[0].createdAt <= image.createdAt {
      assert ([image] + sorted)[1..] == sorted;
      FilterMembers(sorted, p);
      var kept := Filter(sorted, p);
      if kept != [] {
        assert kept[0] in sorted;
        assert kept[0].createdAt <= sorted[0].createdAt;
      }
    } else {
      FilterInsert(sorted[1..], image, p);
      assert ([sorted[0]] + InsertNewest(sorted[1..], image))[1..] == InsertNewest(sorted[1..], image);
    }
  }

  lemma {:induction false} FilterMembers(images: seq<Image>, p: Image -> bool)
    ensures forall x | x in Filter(images, p) :: x in images && p(x)
  {
    if images != [] { FilterMembers(images[1..], p); }
  }

  lemma {:induction false} SortOfFilter(images: seq<Image>, p: Image -> bool)
    requires DistinctTimes(images)
    ensures NewestFirst(Filter(images, p)) == Filter(NewestFirst(images), p)
  {
    if images != [] {
      SortOfFilter(images[1..], p);
      SortDescends(images[1..]);
      FilterInsert(NewestFirst(images[1..]), images[0], p);
    }
  }

  lemma {:induction false} CountLaterInsert(sorted: seq<Image>, image: Image, t: Time)
    ensures CountLater(InsertNewest(sorted, image), t) == CountLater(sorted, t) + if image.createdAt > t then 1 else 0
  {
    if sorted == [] || sorted[0].createdAt <= image.createdAt {
      assert ([image] + sorted)[1..] == sorted;
    } else {
      CountLaterInsert(sorted[1..], image, t);
    }
  }

  lemma {:induction false} CountLaterSorted(images: seq<Image>, t: Time)
    ensures CountLater(NewestFirst(images), t) == CountLater(images, t)
  {
    if images != [] {
      CountLaterSorted(images[1..], t);
      CountLaterInsert(NewestFirst(images[1..]), images[0], t);
    }
  }

  lemma {:induction false} NumberInOrder(sorted: seq<Image>, i: nat)
    requires Descending(sorted) && i < |sorted|
    ensures CountLater(sorted, sorted[i].createdAt) == i
  {
    if i == 0 {
      NoneLater(sorted[1..], sorted[0].createdAt);
    } else {
      NumberInOrder(sorted[1..], i - 1);
    }
  }

  lemma {:induction false} NoneLater(images: seq<Image>, t: Time)
    requires forall x | x in images :: x.createdAt <= t
    ensures CountLater(images, t) == 0
  {
    if images != [] { NoneLater(images[1..], t); }
  }

  lemma {:induction false} FilterPrefix(sorted: seq<Image>, p: Image -> bool, n: nat)
    requires forall i | 0 <= i < |sorted| :: p(sorted[i]) <==> i < n
    ensures Filter(sorted, p) == if |sorted| <= n then sorted else sorted[..n]
  {
    if sorted != [] {
      if n > 0 {
        FilterPrefix(sorted[1..], p, n - 1);
        if |sorted| > n { assert sorted[..n] == [sorted[0]] + sorted[1..][..n - 1]; }
      } else {
        FilterPrefix(sorted[1..], p, 0);
      }
    }
  }

  /** The numbering picks the first three of the newest-first order. */
  lemma NumberedUpToThree(images: seq<Image>)
    requires DistinctTimes(images)
    ensures var sorted := NewestFirst(images);
            NewestFirst(Filter(images, image => RowNumber(images, image) <= 3)) == if |sorted| <= 3 then sorted else sorted[..3]
  {
    var p := (image: Image) => RowNumber(images, image) <= 3;
    var sorted := NewestFirst(images);
    SortDescends(images);
    SortOfFilter(images, p);
    forall i | 0 <= i < |sorted| ensures p(sorted[i]) <==> i < 3 {
      NumberInOrder(sorted, i);
      CountLaterSorted(images, sorted[i].createdAt);
    }
    FilterPrefix(sorted, p, 3);
  }

  // ---------------------------------------------------------------------------------------
  // Agreement
  // ---------------------------------------------------------------------------------------

  predicate LikedOnce(image: Image, likes: seq<Mark>, customer: UserId) {
    LikeCount(likes, Mark(image.id, customer)) <= 1
  }

  lemma SingleRow(image: Image, likes: seq<Mark>, customer: UserId)
    ensures LikedOnce(image, likes, customer) ==>
              RowsOf(image, likes, customer) == [Entry(image, LikeCount(likes, Mark(image.id, customer)) > 0)]
    ensures !LikedOnce(image, likes, customer) ==>
              var rows := RowsOf(image, likes, customer);
              |rows| >= 2 && rows[0] == rows[1] == Entry(image, true)
  {
  }

  lemma {:induction false} RowsAtLeast(images: seq<Image>, likes: seq<Mark>, customer: UserId)
    ensures |Rows(images, likes, customer)| >= |images|
    ensures |Rows(images, likes, customer)| == |images| <==> forall x | x in images :: LikedOnce(x, likes, customer)
  {
    if images != [] {
      RowsAtLeast(images[1..], likes, customer);
      SingleRow(images[0], likes, customer);
      assert images == [images[0]] + images[1..];
      if forall x | x in images[1..] :: LikedOnce(x, likes, customer) {
        assert forall x | x in images :: x == images[0] || LikedOnce(x, likes, customer);
      } else {
        var x :| x in images[1..] && !LikedOnce(x, likes, customer);
        assert x in images;
      }
    }
  }

  /** The count that comes with the gallery is the length of the full list exactly when the customer has
      liked no visible image twice. */
  lemma TotalAgreesIff(db: Gallery, seller: UserId, gallery: GalleryId, customer: UserId)
    ensures OrZero(Total(db, seller, gallery, customer)) == |FullList(db, seller, gallery, customer)|
            <==> forall x | x in Visible(db, seller, gallery, customer) :: LikedOnce(x, db.likes, customer)
  {
    var visible := Visible(db, seller, gallery, customer);
    forall x: Image ensures x in NewestFirst(visible) <==> x in visible { SortMembers(visible, x); }
    assert |NewestFirst(visible)| == |visible| by { if visible != [] { SortMembers(visible, visible[0]); } }
    RowsAtLeast(NewestFirst(visible), db.likes, customer);
    if Total(db, seller, gallery, customer).None? {
      NothingOffered(db, db.images, seller, gallery, customer);
    }
  }

  lemma {:induction false} NothingOffered(db: Gallery, images: seq<Image>, seller: UserId, gallery: GalleryId, customer: UserId)
    requires Filter(images, image => Offered(image, seller, gallery)) == []
    ensures Filter(images, image => Offered(image, seller, gallery) && Mark(image.id, customer) !in db.reports) == []
  {
    if images != [] { NothingOffered(db, images[1..], seller, gallery, customer); }
  }

  function FirstThree(rows: seq<Entry>): seq<Entry> {
    if |rows| <= 3 then rows else rows[..3]
  }

  /** The first three rows show the first three images unless one of the first two has rows to spare. */
  lemma FirstThreeIff(images: seq<Image>, likes: seq<Mark>, customer: UserId)
    requires Descending(images)
    ensures FirstThree(Rows(images, likes, customer)) == Entries(if |images| <= 3 then images else images[..3], likes, customer)
            <==> forall i | 0 <= i < |images| && i < 2 :: LikedOnce(images[i], likes, customer)
  {
    var shown := Entries(if |images| <= 3 then images else images[..3], likes, customer);
    if |images| > 0 {
      var a, tail := images[0], Rows(images[1..], likes, customer);
      SingleRow(a, likes, customer);
      if !LikedOnce(a, likes, customer) {
        assert Rows(images, likes, customer)[1] == Entry(a, true);
        assert |shown| > 1 ==> shown[1].image == images[1];
      } else if |images| > 1 {
        var b, rest := images[1], Rows(images[2..], likes, customer);
        assert images[1..][1..] == images[2..];
        SingleRow(b, likes, customer);
        assert Rows(images, likes, customer) == RowsOf(a, likes, customer) + (RowsOf(b, likes, customer) + rest);
        if !LikedOnce(b, likes, customer) {
          assert Rows(images, likes, customer)[2] == Entry(b, true);
          assert |shown| > 2 ==> shown[2].image == images[2];
        } else if |images| > 2 {
          var c := images[2];
          SingleRow(c, likes, customer);
          assert rest != [] && rest[0] == shown[2];
          assert Rows(images, likes, customer)[..3] == shown;
        }
      }
    }
  }

  /** For images with different creation times, the preview is the beginning of the full list exactly when
      the customer has not liked either of the two newest visible images twice. */
  lemma PreviewAgreesIff(db: Gallery, seller: UserId, gallery: GalleryId, customer: UserId)
    requires DistinctTimes(Visible(db, seller, gallery, customer))
    ensures var newest := NewestFirst(Visible(db, seller, gallery, customer));
            Preview(db, seller, gallery, customer) == FirstThree(FullList(db, seller, gallery, customer))
            <==> forall i | 0 <= i < |newest| && i < 2 :: LikedOnce(newest[i], db.likes, customer)
  {
    var visible := Visible(db, seller, gallery, customer);
    NumberedUpToThree(visible);
    SortDescends(visible);
    FirstThreeIff(NewestFirst(visible), db.likes, customer);
  }

  // ---------------------------------------------------------------------------------------
  // The three answers, told from the tables
  // ---------------------------------------------------------------------------------------

  lemma {:induction false} FilterKeeps(images: seq<Image>, p: Image -> bool, x: Image)
    ensures multiset(Filter(images, p))[x] == if p(x) then multiset(images)[x] else 0
  {
    if images != [] {
      FilterKeeps(images[1..], p, x);
      assert images == [images[0]] + images[1..];
    }
  }

  /** An image is visible once for each of its rows in the gallery of that seller, unless it is deleted or the
      customer has reported it. */
  lemma VisibleAre(db: Gallery, seller: UserId, gallery: GalleryId, customer: UserId, x: Image)
    ensures multiset(Visible(db, seller, gallery, customer))[x]
            == if x.ownerId == seller && x.galleryId == gallery && !x.deleted && Mark(x.id, customer) !in db.reports
               then multiset(db.images)[x] else 0
  {
    FilterKeeps(db.images, image => Offered(image, seller, gallery) && Mark(image.id, customer) !in db.reports, x);
  }

  /** There is a count exactly when the seller has an image there that is not deleted, reported or not. */
  lemma TotalIs(db: Gallery, seller: UserId, gallery: GalleryId, customer: UserId)
    ensures var total := Total(db, seller, gallery, customer);
            && (total.Some? <==> exists x | x in db.images :: x.ownerId == seller && x.galleryId == gallery && !x.deleted)
            && (total.Some? ==> total.value == |Visible(db, seller, gallery, customer)|)
  {
    var p := (image: Image) => Offered(image, seller, gallery);
    var offered := Filter(db.images, p);
    FilterMembers(db.images, p);
    if offered != [] { assert offered[0] in offered; }
    forall x | x in db.images && p(x) ensures offered != [] {
      FilterKeeps(db.images, p, x);
      assert multiset(db.images)[x] > 0;
      assert x in multiset(offered);
    }
  }

  lemma {:induction false} LikesCounted(likes: seq<Mark>, mark: Mark)
    ensures LikeCount(likes, mark) == multiset(likes)[mark]
  {
    if likes != [] {
      LikesCounted(likes[1..], mark);
      assert likes == [likes[0]] + likes[1..];
    }
  }

  lemma {:induction false} InsertPermutes(sorted: seq<Image>, image: Image)
    ensures multiset(InsertNewest(sorted, image)) == multiset(sorted) + multiset{image}
  {
    if !(sorted == [] || sorted[0].createdAt <= image.createdAt) {
      InsertPermutes(sorted[1..], image);
      assert sorted == [sorted[0]] + sorted[1..];
    }
  }

  lemma {:induction false} SortPermutes(images: seq<Image>)
    ensures multiset(NewestFirst(images)) == multiset(images)
  {
    if images != [] {
      SortPermutes(images[1..]);
      InsertPermutes(NewestFirst(images[1..]), images[0]);
      assert images == [images[0]] + images[1..];
    }
  }

  ghost predicate Falling(images: seq<Image>) {
    forall i, j | 0 <= i < j < |images| :: images[i].createdAt >= images[j].createdAt
  }

  lemma {:induction false} InsertFalls(sorted: seq<Image>, image: Image)
    requires Falling(sorted)
    ensures Falling(InsertNewest(sorted, image))
  {
    if !(sorted == [] || sorted[0].createdAt <= image.createdAt) {
      InsertFalls(sorted[1..], image);
      forall x | x in InsertNewest(sorted[1..], image) ensures sorted[0].createdAt >= x.createdAt {
        InsertMembers(sorted[1..], image, x);
      }
    }
  }

  lemma {:induction false} SortFalls(images: seq<Image>)
    ensures Falling(NewestFirst(images))
  {
    if images != [] {
      SortFalls(images[1..]);
      InsertFalls(NewestFirst(images[1..]), images[0]);
    }
  }

  lemma {:induction false} RowsMention(images: seq<Image>, likes: seq<Mark>, customer: UserId, row: Entry)
    requires row in Rows(images, likes, customer)
    ensures row.image in images
  {
    if row !in RowsOf(images[0], likes, customer) {
      RowsMention(images[1..], likes, customer, row);
    }
  }

  ghost predicate EntriesFall(rows: seq<Entry>) {
    forall i, j | 0 <= i < j < |rows| :: rows[i].image.createdAt >= rows[j].image.createdAt
  }

  lemma {:induction false} RowsFall(images: seq<Image>, likes: seq<Mark>, customer: UserId)
    requires Falling(images)
    ensures EntriesFall(Rows(images, likes, customer))
  {
    if images != [] {
      RowsFall(images[1..], likes, customer);
      var own, rest := RowsOf(images[0], likes, customer), Rows(images[1..], likes, customer);
      forall row | row in rest ensures images[0].createdAt >= row.image.createdAt {
        RowsMention(images[1..], likes, customer, row);
      }
      OwnFirst(own, rest, images[0]);
    }
  }

  lemma OwnFirst(own: seq<Entry>, rest: seq<Entry>, image: Image)
    requires EntriesFall(rest)
    requires forall row | row in own :: row.image == image
    requires forall row | row in rest :: image.createdAt >= row.image.createdAt
    ensures EntriesFall(own + rest)
  {
  }

  /** How often the join returns a row. */
  function Multiplicity(likes: seq<Mark>, row: Entry, customer: UserId): nat {
    var n := multiset(likes)[Mark(row.image.id, customer)];
    if row.liked then n else if n == 0 then 1 else 0
  }

  lemma RowsOfOne(image: Image, likes: seq<Mark>, customer: UserId, row: Entry)
    ensures multiset(RowsOf(image, likes, customer))[row] == if image == row.image then Multiplicity(likes, row, customer) else 0
  {
    var n := LikeCount(likes, Mark(image.id, customer));
    LikesCounted(likes, Mark(image.id, customer));
    if n > 0 { Repeated(n, Entry(image, true), row); }
  }

  lemma {:induction false} Repeated(n: nat, one: Entry, row: Entry)
    ensures multiset(seq(n, _ => one))[row] == if one == row then n else 0
  {
    if n > 0 {
      Repeated(n - 1, one, row);
      assert seq(n, _ => one) == seq(n - 1, _ => one) + [one];
    }
  }

  lemma CountAppend(a: seq<Entry>, b: seq<Entry>, row: Entry)
    ensures multiset(a + b)[row] == multiset(a)[row] + multiset(b)[row]
  {
  }

  lemma CountHead(images: seq<Image>, x: Image)
    requires images != []
    ensures multiset(images)[x] == multiset(images[1..])[x] + if images[0] == x then 1 else 0
  {
    assert images == [images[0]] + images[1..];
  }

  lemma OneMore(n: nat, m: nat)
    ensures (n + 1) * m == m + n * m && 0 * m == 0
  {
  }

  lemma {:induction false} RowsCounted(images: seq<Image>, likes: seq<Mark>, customer: UserId, row: Entry)
    ensures multiset(Rows(images, likes, customer))[row] == multiset(images)[row.image] * Multiplicity(likes, row, customer)
  {
    var m := Multiplicity(likes, row, customer);
    if images != [] {
      var own, rest := RowsOf(images[0], likes, customer), Rows(images[1..], likes, customer);
      RowsCounted(images[1..], likes, customer, row);
      RowsOfOne(images[0], likes, customer, row);
      CountAppend(own, rest, row);
      CountHead(images, row.image);
      OneMore(multiset(images[1..])[row.image], m);
    } else {
      OneMore(0, m);
    }
  }

  /** The full list, newest first, has each visible image marked as liked once for each like of the customer's,
      or once marked as not liked when there is none. */
  lemma FullListIs(db: Gallery, seller: UserId, gallery: GalleryId, customer: UserId, row: Entry)
    ensures var rows := FullList(db, seller, gallery, customer);
            && multiset(rows)[row] == multiset(Visible(db, seller, gallery, customer))[row.image] * Multiplicity(db.likes, row, customer)
            && EntriesFall(rows)
  {
    var visible := Visible(db, seller, gallery, customer);
    SortPermutes(visible);
    SortFalls(visible);
    RowsCounted(NewestFirst(visible), db.likes, customer, row);
    RowsFall(NewestFirst(visible), db.likes, customer);
  }

  lemma PreviewEntries(db: Gallery, seller: UserId, gallery: GalleryId, customer: UserId)
    requires DistinctTimes(Visible(db, seller, gallery, customer))
    ensures var sorted := NewestFirst(Visible(db, seller, gallery, customer));
            var shown := Preview(db, seller, gallery, customer);
            && |shown| == (if |sorted| < 3 then |sorted| else 3)
            && forall i | 0 <= i < |shown| ::
                 shown[i].image == sorted[i] && (shown[i].liked <==> Mark(sorted[i].id, customer) in db.likes)
  {
    var sorted, shown := NewestFirst(Visible(db, seller, gallery, customer)), Preview(db, seller, gallery, customer);
    NumberedUpToThree(Visible(db, seller, gallery, customer));
    forall i | 0 <= i < |shown|
      ensures shown[i].image == sorted[i] && (shown[i].liked <==> Mark(sorted[i].id, customer) in db.likes)
    {
      LikesCounted(db.likes, Mark(sorted[i].id, customer));
    }
  }

  lemma SortKeeps(images: seq<Image>)
    ensures |NewestFirst(images)| == |images|
    ensures forall x :: x in NewestFirst(images) <==> x in images
  {
    forall x: Image ensures x in NewestFirst(images) <==> x in images { SortMembers(images, x); }
    if images != [] { SortMembers(images, images[0]); }
  }

  lemma OthersAreOlder(sorted: seq<Image>, shown: seq<Entry>, x: Image, i: nat)
    requires Descending(sorted) && |shown| <= |sorted| && forall j | 0 <= j < |shown| :: shown[j].image == sorted[j]
    requires x in sorted && i < |shown| && forall e | e in shown :: e.image != x
    ensures shown[i].image.createdAt > x.createdAt
  {
    forall j | 0 <= j < |shown| ensures shown[j] in shown && sorted[j] != x { }
    var j :| 0 <= j < |sorted| && sorted[j] == x;
  }

  /** The preview shows the three newest of the visible images, or all of them, each once, newest first, marked
      as liked when the customer has liked it. */
  lemma PreviewIs(db: Gallery, seller: UserId, gallery: GalleryId, customer: UserId)
    requires DistinctTimes(Visible(db, seller, gallery, customer))
    ensures var visible, shown := Visible(db, seller, gallery, customer), Preview(db, seller, gallery, customer);
            && |shown| == (if |visible| < 3 then |visible| else 3)
            && (forall i | 0 <= i < |shown| ::
                  shown[i].image in visible && (shown[i].liked <==> Mark(shown[i].image.id, customer) in db.likes))
            && (forall i, j | 0 <= i < j < |shown| :: shown[i].image.createdAt > shown[j].image.createdAt)
            && (forall x, i | x in visible && (forall e | e in shown :: e.image != x) && 0 <= i < |shown| ::
                  shown[i].image.createdAt > x.createdAt)
  {
    var visible, shown := Visible(db, seller, gallery, customer), Preview(db, seller, gallery, customer);
    var sorted := NewestFirst(visible);
    PreviewEntries(db, seller, gallery, customer);
    SortDescends(visible);
    SortKeeps(visible);
    forall x, i | x in visible && (forall e | e in shown :: e.image != x) && 0 <= i < |shown|
      ensures shown[i].image.createdAt > x.createdAt
    {
      OthersAreOlder(sorted, shown, x, i);
    }
  }
}
