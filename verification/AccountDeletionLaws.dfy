/** What one deletion of an account leaves true of everyone's rows. */
module AccountDeletionLaws {
  import opened Wrappers
  import opened Decimals
  import opened AccountDeletion

  // ---------- Counters ----------

  ghost predicate CountersAgree(t: Tables, id: nat)
    requires id in t.tastings
  {
    t.tastings[id].comments == |OnTasting(t.comments, id)| && t.tastings[id].toasts == |OnTasting(t.toasts, id)|
  }

  lemma DisjointSizes(all: set<nat>, part: set<nat>)
    requires part <= all
    ensures |all - part| == |all| - |part|
  {
    assert all == (all - part) + part;
  }

  lemma RemarksLeft(table: map<nat, Remark>, u: nat, id: nat)
    ensures |OnTasting(table - OwnRemarks(table, u), id)| == |OnTasting(table, id)| - |OwnOnTasting(table, u, id)|
  {
    var left := OnTasting(table - OwnRemarks(table, u), id);
    assert left == OnTasting(table, id) - OwnOnTasting(table, u, id);
    DisjointSizes(OnTasting(table, id), OwnOnTasting(table, u, id));
  }

  /** A tasting whose counters equal its row counts keeps counters equal to its row counts. */
  lemma CountersStayEqual(t: Tables, u: nat, at: int, id: nat)
    requires u in t.users && id in t.tastings && CountersAgree(t, id)
    ensures var after := Erase(t, u, at); id in after.tastings && CountersAgree(after, id)
  {
    hide OnTasting, OwnOnTasting, OwnRemarks, WithoutFriend, OwnedBy;
    RemarksLeft(t.comments, u, id);
    RemarksLeft(t.toasts, u, id);
    var after := Erase(t, u, at);
    assert after.comments == t.comments - OwnRemarks(t.comments, u)
           && after.toasts == t.toasts - OwnRemarks(t.toasts, u);
    assert after.tastings[id] == ErasedTasting(t, u, at, id, t.tastings[id]);
  }

  // ---------- Links ----------

  ghost predicate RemarksLinked(t: Tables) {
    && (forall id :: id in t.comments ==> t.comments[id].tastingId in t.tastings)
    && (forall id :: id in t.toasts ==> t.toasts[id].tastingId in t.tastings)
  }

  ghost predicate NoticeLinked(t: Tables, n: Notification) {
    && (n.kind == CommentNotice ==> n.objectId in t.comments)
    && (n.kind == ToastNotice ==> n.objectId in t.toasts)
  }

  ghost predicate NoticesLinked(t: Tables) {
    forall id :: id in t.notifications ==> NoticeLinked(t, t.notifications[id])
  }

  ghost predicate AwardsLinked(t: Tables) {
    && (forall id :: id in t.tastingAwards ==>
          t.tastingAwards[id].awardId in t.awards && t.tastingAwards[id].tastingId in t.tastings)
    && (forall id :: id in t.awardObjects ==> t.awardObjects[id] in t.awards)
  }

  ghost predicate FlightsLinked(t: Tables) {
    && (forall id :: id in t.tastings && t.tastings[id].flightId.Some? ==> t.tastings[id].flightId.value in t.flights)
    && (forall pair :: pair in t.flightBottles ==> pair.0 in t.flights)
  }

  ghost predicate CollectionsLinked(t: Tables) {
    forall id :: id in t.collectionBottles ==> t.collectionBottles[id].collectionId in t.collections
  }

  lemma RemarksStayLinked(t: Tables, u: nat, at: int)
    requires u in t.users && RemarksLinked(t)
    ensures RemarksLinked(Erase(t, u, at))
  {
    hide ErasedTasting;
  }

  lemma NoticesStayLinked(t: Tables, u: nat, at: int)
    requires u in t.users && NoticesLinked(t)
    ensures NoticesLinked(Erase(t, u, at))
  {
    hide ErasedTastings, ErasedReviews;
    var after := Erase(t, u, at);
    forall id | id in after.notifications ensures NoticeLinked(after, after.notifications[id]) {
      assert id in t.notifications && NoticeLinked(t, t.notifications[id]);
    }
  }

  lemma AwardsStayLinked(t: Tables, u: nat, at: int)
    requires u in t.users && AwardsLinked(t)
    ensures AwardsLinked(Erase(t, u, at))
  {
    hide ErasedTasting, ErasedReviews;
  }

  lemma FlightsStayLinked(t: Tables, u: nat, at: int)
    requires u in t.users && FlightsLinked(t)
    ensures FlightsLinked(Erase(t, u, at))
  {
    hide WithoutFriend, OwnOnTasting, ErasedReviews;
  }

  lemma CollectionsStayLinked(t: Tables, u: nat, at: int)
    requires u in t.users && CollectionsLinked(t)
    ensures CollectionsLinked(Erase(t, u, at))
  {
    hide ErasedTastings, ErasedReviews;
  }

  /** Deletion leaves no dangling link where there was none. */
  lemma NothingDangles(t: Tables, u: nat, at: int)
    requires u in t.users
    requires RemarksLinked(t) && NoticesLinked(t) && AwardsLinked(t) && FlightsLinked(t) && CollectionsLinked(t)
    ensures var after := Erase(t, u, at);
            RemarksLinked(after) && NoticesLinked(after) && AwardsLinked(after) && FlightsLinked(after)
            && CollectionsLinked(after)
  {
    hide Erase;
    RemarksStayLinked(t, u, at);
    NoticesStayLinked(t, u, at);
    AwardsStayLinked(t, u, at);
    FlightsStayLinked(t, u, at);
    CollectionsStayLinked(t, u, at);
  }

  // ---------- The member's traces ----------

  ghost predicate OwnsNoRows(t: Tables, u: nat) {
    && OwnRemarks(t.comments, u) == {} && OwnRemarks(t.toasts, u) == {}
    && OwnedBy(t.awards, u) == {} && OwnedBy(t.flights, u) == {} && OwnedBy(t.collections, u) == {}
    && OwnedBy(t.signIns, u) == {}
    && Uploads(t.pendingUploads, u) == {} && Uploads(t.wrongPhotoMatches, u) == {} && Drafts(t.drafts, u) == {}
  }

  ghost predicate IsNotNamed(t: Tables, u: nat) {
    && Naming(t.follows, u) == {} && Naming(t.blocks, u) == {} && From(t.entityFollows, {u}) == {}
    && (forall id :: id in t.tastings ==> u !in t.tastings[id].friends)
    && (forall id :: id in t.reviews ==> u !in t.reviews[id].friends)
    && (forall id :: id in t.drafts ==> u !in t.drafts[id].friends)
    && (forall id :: id in t.staffReferences ==> t.staffReferences[id] != Some(u))
  }

  predicate Names(n: Notification, u: nat) {
    n.userId == u || n.fromUserId == Some(u)
  }

  ghost predicate HasNoNotices(t: Tables, u: nat) {
    forall id :: id in t.notifications ==> !Names(t.notifications[id], u)
  }

  /** The reports about the member and the member's content are closed. */
  ghost predicate ReportsAreClosed(t: Tables, u: nat) {
    forall id :: id in t.reports && AboutContentOf(t.reports[id], u) ==> !t.reports[id].isOpen
  }

  /** What stays of the member is removed content without pictures. */
  ghost predicate ContentIsRemoved(t: Tables, u: nat) {
    && (forall id :: id in t.tastings && t.tastings[id].createdById == u ==>
          t.tastings[id].removal.Some? && t.tastings[id].imageUrl.None?)
    && (forall id :: id in t.reviews && t.reviews[id].createdById == u ==>
          t.reviews[id].removal.Some? && t.reviews[id].imageUrl.None?)
  }

  lemma MemberOwnsNoRows(t: Tables, u: nat, at: int)
    requires u in t.users
    ensures OwnsNoRows(Erase(t, u, at), u)
  {
    hide ErasedTastings, ErasedReviews, ClosedReports, WithoutFriend, ConcernsMember;
  }

  lemma MemberIsNotNamed(t: Tables, u: nat, at: int)
    requires u in t.users
    ensures IsNotNamed(Erase(t, u, at), u)
  {
    hide OwnOnTasting, OwnedBy, OwnRemarks, ClosedReports, WithoutFriend;
    forall id | id in t.tastings { NoTagToRemove(t.tastings[id].friends, u); }
    forall id | id in t.reviews { NoTagToRemove(t.reviews[id].friends, u); }
    forall id | id in t.drafts { NoTagToRemove(t.drafts[id].friends, u); }
  }

  lemma MemberHasNoNotices(t: Tables, u: nat, at: int)
    requires u in t.users
    ensures HasNoNotices(Erase(t, u, at), u) && ReportsAreClosed(Erase(t, u, at), u)
  {
    hide ErasedTastings, ErasedReviews, OwnRemarks;
  }

  lemma MemberContentIsRemoved(t: Tables, u: nat, at: int)
    requires u in t.users
    ensures ContentIsRemoved(Erase(t, u, at), u)
  {
    hide OwnOnTasting, OwnedBy, OwnRemarks, ClosedReports, WithoutFriend;
  }

  /** The member's profile, a tasting, review, upload, draft or photo match of the member, or a Bottle in a collection
      of the member shows this picture. */
  ghost predicate Shows(t: Tables, u: nat, url: string) {
    || (u in t.users && t.users[u].pictureUrl == Some(url))
    || (exists id :: id in t.tastings && t.tastings[id].createdById == u && t.tastings[id].imageUrl == Some(url))
    || (exists id :: id in t.reviews && t.reviews[id].createdById == u && t.reviews[id].imageUrl == Some(url))
    || (exists id :: id in t.collectionBottles && t.collectionBottles[id].collectionId in OwnedBy(t.collections, u)
                     && t.collectionBottles[id].imageUrl == Some(url))
    || (exists id :: id in t.pendingUploads && t.pendingUploads[id].createdById == u
                     && t.pendingUploads[id].imageUrl == Some(url))
    || (exists id :: id in t.drafts && t.drafts[id].createdById == u && t.drafts[id].imageUrl == Some(url))
    || (exists id :: id in t.wrongPhotoMatches && t.wrongPhotoMatches[id].createdById == u
                     && t.wrongPhotoMatches[id].imageUrl == Some(url))
  }

  /** The images to remove are exactly the pictures the member's rows show. */
  lemma ImagesExactly(t: Tables, u: nat, url: string)
    ensures url in ImagesOf(t, u) <==> url != "" && Shows(t, u, url)
  {
    hide OwnedBy;
  }

  /** No picture of the member is left in a row, so the images to remove are removed for good. */
  lemma NoImageIsLeft(t: Tables, u: nat, at: int)
    requires u in t.users
    ensures ImagesOf(Erase(t, u, at), u) == {}
  {
    hide WithoutFriend, OwnOnTasting, ClosedReports, ConcernsMember;
  }

  /** The removal of a row of the deleted member: an earlier one stays as it was. */
  function RemovalAfter(before: Option<Removal>, u: nat, at: int): Option<Removal> {
    if before.Some? then before else Some(Removal(at, Some(u), ACCOUNT_DELETED_REASON))
  }

  /** A tasting of the member stays, for its Bottle, without its picture and removed once. */
  lemma OwnTastingIsRemovedOnce(t: Tables, u: nat, at: int, id: nat)
    requires u in t.users && id in t.tastings && t.tastings[id].createdById == u
    ensures var row, after := t.tastings[id], Erase(t, u, at).tastings;
            && id in after && after[id].createdById == u && after[id].bottleId == row.bottleId
            && after[id].imageUrl.None? && after[id].removal == RemovalAfter(row.removal, u, at)
  {
    hide OwnOnTasting, OwnedBy, OwnRemarks, ClosedReports, WithoutFriend, ConcernsMember, ErasedReviews;
  }

  /** And so does a review of the member. */
  lemma OwnReviewIsRemovedOnce(t: Tables, u: nat, at: int, id: nat)
    requires u in t.users && id in t.reviews && t.reviews[id].createdById == u
    ensures var row, after := t.reviews[id], Erase(t, u, at).reviews;
            && id in after && after[id].createdById == u && after[id].bottleId == row.bottleId
            && after[id].imageUrl.None? && after[id].removal == RemovalAfter(row.removal, u, at)
  {
    hide OwnOnTasting, OwnedBy, OwnRemarks, ClosedReports, WithoutFriend, ConcernsMember, ErasedTastings;
  }

  /** Nothing personal is left of the account: no name, address, password, picture or role; it is private, takes no part
      and is told of no comment. The actor row outlives it under a name that all deleted members share. */
  lemma AccountIsAnonymous(t: Tables, u: nat, at: int)
    requires u in t.users
    ensures var after := Erase(t, u, at);
            var user := after.users[u];
            && user.username == "deleted-" + Decimal(u) && user.email == user.username + "@peated.invalid"
            && user.passwordHash.None? && user.pictureUrl.None?
            && !user.verified && !user.active && !user.admin && !user.mod && !user.notifyComments && user.isPrivate
            && user.deletedAt == Some(at) && user.deletionRequestedAt == t.users[u].deletionRequestedAt
            && u in after.actors && after.actors[u] == Actor("Deleted member", None, false)
  {
    hide ErasedTastings, ErasedReviews, ClosedReports, ConcernsMember;
  }

  // ---------- Everyone else's rows ----------

  /** Another member's tasting keeps everything but counted remarks, the friend tag and a lost flight. */
  lemma OthersTastingsAreKept(t: Tables, u: nat, at: int, id: nat)
    requires u in t.users && id in t.tastings && t.tastings[id].createdById != u
    ensures var row := t.tastings[id];
            id in Erase(t, u, at).tastings
            && var after := Erase(t, u, at).tastings[id];
               && after == row.(comments := after.comments, toasts := after.toasts, friends := after.friends,
                                flightId := after.flightId)
               && (forall v :: v != u ==> (v in row.friends <==> v in after.friends))
               && (u !in row.friends ==> after.friends == row.friends)
               && (after.flightId == row.flightId
                   || (after.flightId.None? && row.flightId.value in t.flights && t.flights[row.flightId.value] == u))
               && (OwnOnTasting(t.comments, u, id) == {} ==> after.comments == row.comments)
               && (OwnOnTasting(t.toasts, u, id) == {} ==> after.toasts == row.toasts)
  {
    hide OwnOnTasting, ErasedReviews;
    NoTagToRemove(t.tastings[id].friends, u);
  }

  /** Every row that another member owns and that does not hang on the deleted member stays as it was. */
  lemma OthersRowsAreKept(t: Tables, u: nat, at: int, id: nat)
    requires u in t.users
    ensures var after := Erase(t, u, at);
            && (id in t.comments && t.comments[id].createdById != u ==>
                  id in after.comments && after.comments[id] == t.comments[id])
            && (id in t.toasts && t.toasts[id].createdById != u ==>
                  id in after.toasts && after.toasts[id] == t.toasts[id])
            && (id in t.notifications && !ConcernsMember(t, t.notifications[id], u) ==>
                  id in after.notifications && after.notifications[id] == t.notifications[id])
            && (id in t.flights && t.flights[id] != u ==> id in after.flights && after.flights[id] == t.flights[id])
            && (id in t.collections && t.collections[id] != u ==>
                  id in after.collections && after.collections[id] == t.collections[id])
            && (id in t.awards && t.awards[id] != u ==> id in after.awards && after.awards[id] == t.awards[id])
            && (id in t.users && id != u ==> after.users[id] == t.users[id])
            && (id in t.actors && id != u ==> after.actors[id] == t.actors[id])
  {
    hide ErasedTastings, ErasedReviews, ClosedReports, ConcernsMember;
  }

  /** The open reports about the member and the member's content are closed with a note; reports about catalog records,
      about others, and those already closed stay as they are. */
  lemma ReportsAreClosedExactly(t: Tables, u: nat, at: int, id: nat)
    requires u in t.users && id in t.reports
    ensures var report := t.reports[id];
            id in Erase(t, u, at).reports && Erase(t, u, at).reports[id] ==
              if report.isOpen && report.reportedUserId == Some(u)
                 && report.objectType in {UserReport, TastingReport, MemberReviewReport, CommentReport, FlightReport}
              then report.(isOpen := false, closeNote := Some("Member deleted their account."))
              else report
  {
    hide ErasedTastings, ErasedReviews, ConcernsMember;
  }

  // ---------- Repeats ----------

  /** Deleting a deleted account changes nothing. */
  lemma RepeatChangesNothing(t: Tables, u: nat, requestedBefore: Option<int>, at: int, again: Option<int>, later: int)
    requires MayDelete(t, u, requestedBefore)
    ensures var once := DeleteAccount(t, u, requestedBefore, at);
            !MayDelete(once, u, again) && DeleteAccount(once, u, again, later) == once
  {}

  /** Tombstones of different members differ in user name and address. */
  lemma TombstonesAreDistinct(user: User, u: nat, at: int, other: User, v: nat, later: int)
    requires u != v
    ensures Tombstone(user, u, at).username != Tombstone(other, v, later).username
    ensures Tombstone(user, u, at).email != Tombstone(other, v, later).email
  {
    NumberOfDecimal(u);
    NumberOfDecimal(v);
    var prefix, suffix := "deleted-", "@peated.invalid";
    var a, b := prefix + Decimal(u), prefix + Decimal(v);
    assert a[|prefix|..] == Decimal(u) && b[|prefix|..] == Decimal(v);
    assert (a + suffix)[..|a + suffix| - |suffix|] == a && (b + suffix)[..|b + suffix| - |suffix|] == b;
  }
}
