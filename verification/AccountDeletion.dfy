/** Deleting a member's account: one transaction over the tables that it names. Watches, alerts and some staff
    references are kept, and what that leaves is part of the model. */
module AccountDeletion {
  import opened Wrappers
  import opened Decimals

  // ---------- Rows ----------

  datatype User = User(
    username: string, email: string, passwordHash: Option<string>, pictureUrl: Option<string>,
    verified: bool, isPrivate: bool, active: bool, admin: bool, mod: bool, notifyComments: bool,
    deletionRequestedAt: Option<int>, deletedAt: Option<int>)

  /** An actor is known by its member; the actor row outlives the account. */
  datatype Actor = Actor(displayName: string, pictureUrl: Option<string>, active: bool)

  datatype Removal = Removal(at: int, actor: Option<nat>, reason: string)

  datatype Tasting = Tasting(
    createdById: nat, bottleId: nat, imageUrl: Option<string>, friends: seq<nat>, flightId: Option<nat>,
    comments: int, toasts: int, removal: Option<Removal>)

  datatype MemberReview = MemberReview(
    createdById: nat, bottleId: nat, imageUrl: Option<string>, friends: seq<nat>, removal: Option<Removal>)

  /** A comment or a toast on a tasting. */
  datatype Remark = Remark(tastingId: nat, createdById: nat)

  datatype NotificationType = CommentNotice | ToastNotice | FriendRequest | AuctionAvailable
  datatype Notification = Notification(userId: nat, fromUserId: Option<nat>, kind: NotificationType, objectId: nat)

  datatype TastingAward = TastingAward(tastingId: nat, awardId: nat)
  datatype CollectionBottle = CollectionBottle(collectionId: nat, bottleId: nat, imageUrl: Option<string>)
  datatype Upload = Upload(createdById: nat, imageUrl: Option<string>)
  datatype Draft = Draft(createdById: nat, imageUrl: Option<string>, friends: seq<nat>)

  datatype ReportObject = UserReport | TastingReport | MemberReviewReport | CommentReport | FlightReport | OtherReport
  datatype Report = Report(
    createdById: nat, reportedUserId: Option<nat>, objectType: ReportObject, isOpen: bool, closeNote: Option<string>)

  datatype Watch = Watch(userId: nat, bottleId: nat, createdAt: int)
  datatype Alert = Alert(userId: nat, lotId: nat, bottleId: nat)

  /** A table maps row ids to rows; a table that only matters for its owner maps to the owner's id. The transaction
      clears `staffReferences` and leaves `keptReferences`. */
  datatype Tables = Tables(
    users: map<nat, User>,
    actors: map<nat, Actor>,
    tastings: map<nat, Tasting>,
    reviews: map<nat, MemberReview>,
    comments: map<nat, Remark>,
    toasts: map<nat, Remark>,
    notifications: map<nat, Notification>,
    awards: map<nat, nat>,
    tastingAwards: map<nat, TastingAward>,
    awardObjects: map<nat, nat>,
    flights: map<nat, nat>,
    flightBottles: set<(nat, nat)>,
    collections: map<nat, nat>,
    collectionBottles: map<nat, CollectionBottle>,
    follows: set<(nat, nat)>,
    entityFollows: set<(nat, nat)>,
    blocks: set<(nat, nat)>,
    pendingUploads: map<nat, Upload>,
    drafts: map<nat, Draft>,
    wrongPhotoMatches: map<nat, Upload>,
    signIns: map<nat, nat>,
    staffReferences: map<nat, Option<nat>>,
    reports: map<nat, Report>,
    watches: map<nat, Watch>,
    alerts: map<nat, Alert>,
    keptReferences: map<nat, Option<nat>>)

  const DELETED_MEMBER_NAME := "Deleted member"
  const ACCOUNT_DELETED_REASON := "Account deleted"
  const REPORT_NOTE := "Member deleted their account."
  const GRACE_MS := 24 * 60 * 60 * 1000

  // ---------- The member's rows ----------

  function OwnedBy(table: map<nat, nat>, u: nat): set<nat> {
    set id | id in table && table[id] == u
  }

  function OwnRemarks(table: map<nat, Remark>, u: nat): set<nat> {
    set id | id in table && table[id].createdById == u
  }

  function OnTasting(table: map<nat, Remark>, tastingId: nat): set<nat> {
    set id | id in table && table[id].tastingId == tastingId
  }

  function OwnOnTasting(table: map<nat, Remark>, u: nat, tastingId: nat): set<nat> {
    set id | id in table && table[id].createdById == u && table[id].tastingId == tastingId
  }

  predicate ConcernsMember(t: Tables, n: Notification, u: nat) {
    || n.userId == u
    || n.fromUserId == Some(u)
    || (n.kind == CommentNotice && n.objectId in OwnRemarks(t.comments, u))
    || (n.kind == ToastNotice && n.objectId in OwnRemarks(t.toasts, u))
  }

  function ConcerningMember(t: Tables, u: nat): set<nat> {
    set id | id in t.notifications && ConcernsMember(t, t.notifications[id], u)
  }

  function Naming(pairs: set<(nat, nat)>, u: nat): set<(nat, nat)> {
    set pair | pair in pairs && (pair.0 == u || pair.1 == u)
  }

  function From(pairs: set<(nat, nat)>, owners: set<nat>): set<(nat, nat)> {
    set pair | pair in pairs && pair.0 in owners
  }

  function OfAwards(table: map<nat, TastingAward>, awards: set<nat>): set<nat> {
    set id | id in table && table[id].awardId in awards
  }

  function PartsOf(table: map<nat, nat>, owners: set<nat>): set<nat> {
    set id | id in table && table[id] in owners
  }

  function InCollections(table: map<nat, CollectionBottle>, collections: set<nat>): set<nat> {
    set id | id in table && table[id].collectionId in collections
  }

  function Uploads(table: map<nat, Upload>, u: nat): set<nat> {
    set id | id in table && table[id].createdById == u
  }

  function Drafts(table: map<nat, Draft>, u: nat): set<nat> {
    set id | id in table && table[id].createdById == u
  }

  /** `array_remove`. */
  function WithoutFriend(friends: seq<nat>, u: nat): seq<nat> {
    if friends == [] then []
    else (if friends[0] == u then [] else [friends[0]]) + WithoutFriend(friends[1..], u)
  }

  // ---------- What deletion leaves, table by table ----------

  function AtLeastZero(n: int): int {
    if n < 0 then 0 else n
  }

  function ErasedTasting(t: Tables, u: nat, at: int, id: nat, row: Tasting): Tasting {
    var own := row.createdById == u;
    Tasting(
      row.createdById, row.bottleId,
      if own then None else row.imageUrl,
      WithoutFriend(row.friends, u),
      if row.flightId.Some? && row.flightId.value in OwnedBy(t.flights, u) then None else row.flightId,
      if OwnOnTasting(t.comments, u, id) == {} then row.comments
      else AtLeastZero(row.comments - |OwnOnTasting(t.comments, u, id)|),
      if OwnOnTasting(t.toasts, u, id) == {} then row.toasts
      else AtLeastZero(row.toasts - |OwnOnTasting(t.toasts, u, id)|),
      if own && row.removal.None? then Some(Removal(at, Some(u), ACCOUNT_DELETED_REASON)) else row.removal)
  }

  function ErasedReview(u: nat, at: int, row: MemberReview): MemberReview {
    var own := row.createdById == u;
    MemberReview(
      row.createdById, row.bottleId,
      if own then None else row.imageUrl,
      WithoutFriend(row.friends, u),
      if own && row.removal.None? then Some(Removal(at, Some(u), ACCOUNT_DELETED_REASON)) else row.removal)
  }

  function ErasedTastings(t: Tables, u: nat, at: int): map<nat, Tasting> {
    map id | id in t.tastings :: ErasedTasting(t, u, at, id, t.tastings[id])
  }

  function ErasedReviews(t: Tables, u: nat, at: int): map<nat, MemberReview> {
    map id | id in t.reviews :: ErasedReview(u, at, t.reviews[id])
  }

  function UntaggedDrafts(drafts: map<nat, Draft>, u: nat): map<nat, Draft> {
    map id | id in drafts :: drafts[id].(friends := WithoutFriend(drafts[id].friends, u))
  }

  function ClearedStaffReferences(table: map<nat, Option<nat>>, u: nat): map<nat, Option<nat>> {
    map id | id in table :: if table[id] == Some(u) then None else table[id]
  }

  /** A report about the member or content that deletion removes with the member. */
  predicate AboutContentOf(report: Report, u: nat) {
    report.reportedUserId == Some(u) && !report.objectType.OtherReport?
  }

  function ClosedReports(reports: map<nat, Report>, u: nat): map<nat, Report> {
    map id | id in reports ::
      if AboutContentOf(reports[id], u) && reports[id].isOpen
      then reports[id].(isOpen := false, closeNote := Some(REPORT_NOTE)) else reports[id]
  }

  function Tombstone(user: User, u: nat, at: int): User {
    User("deleted-" + Decimal(u), "deleted-" + Decimal(u) + "@peated.invalid", None, None,
         false, true, false, false, false, false, user.deletionRequestedAt, Some(at))
  }

  /** Everything deletion changes, in terms of the tables before it. */
  function Erase(t: Tables, u: nat, at: int): Tables
    requires u in t.users
  {
    var awards, flights, collections := OwnedBy(t.awards, u), OwnedBy(t.flights, u), OwnedBy(t.collections, u);
    Tables(
      t.users[u := Tombstone(t.users[u], u, at)],
      t.actors[u := Actor(DELETED_MEMBER_NAME, None, false)],
      ErasedTastings(t, u, at),
      ErasedReviews(t, u, at),
      t.comments - OwnRemarks(t.comments, u),
      t.toasts - OwnRemarks(t.toasts, u),
      t.notifications - ConcerningMember(t, u),
      t.awards - awards,
      t.tastingAwards - OfAwards(t.tastingAwards, awards),
      t.awardObjects - PartsOf(t.awardObjects, awards),
      t.flights - flights,
      t.flightBottles - From(t.flightBottles, flights),
      t.collections - collections,
      t.collectionBottles - InCollections(t.collectionBottles, collections),
      t.follows - Naming(t.follows, u),
      t.entityFollows - From(t.entityFollows, {u}),
      t.blocks - Naming(t.blocks, u),
      t.pendingUploads - Uploads(t.pendingUploads, u),
      UntaggedDrafts(t.drafts - Drafts(t.drafts, u), u),
      t.wrongPhotoMatches - Uploads(t.wrongPhotoMatches, u),
      t.signIns - OwnedBy(t.signIns, u),
      ClearedStaffReferences(t.staffReferences, u),
      ClosedReports(t.reports, u),
      t.watches,
      t.alerts,
      t.keptReferences)
  }

  /** The account exists, is not deleted yet and, for the scheduled worker, still asks for it since long enough. */
  predicate MayDelete(t: Tables, u: nat, requestedBefore: Option<int>) {
    && u in t.users
    && t.users[u].deletedAt.None?
    && (requestedBefore.Some? ==>
          t.users[u].deletionRequestedAt.Some? && t.users[u].deletionRequestedAt.value <= requestedBefore.value)
  }

  function DeleteAccount(t: Tables, u: nat, requestedBefore: Option<int>, at: int): Tables {
    if MayDelete(t, u, requestedBefore) then Erase(t, u, at) else t
  }

  // ---------- What the after-commit steps remove ----------

  predicate IsUrl(url: Option<string>) {
    url.Some? && url.value != ""
  }

  function ImagesOf(t: Tables, u: nat): set<string> {
    (if u in t.users && IsUrl(t.users[u].pictureUrl) then {t.users[u].pictureUrl.value} else {})
    + (set id | id in t.tastings && t.tastings[id].createdById == u && IsUrl(t.tastings[id].imageUrl) ::
         t.tastings[id].imageUrl.value)
    + (set id | id in t.reviews && t.reviews[id].createdById == u && IsUrl(t.reviews[id].imageUrl) ::
         t.reviews[id].imageUrl.value)
    + (set id | id in t.collectionBottles && t.collectionBottles[id].collectionId in OwnedBy(t.collections, u)
                && IsUrl(t.collectionBottles[id].imageUrl) :: t.collectionBottles[id].imageUrl.value)
    + (set id | id in t.pendingUploads && t.pendingUploads[id].createdById == u
                && IsUrl(t.pendingUploads[id].imageUrl) ::
         t.pendingUploads[id].imageUrl.value)
    + (set id | id in t.drafts && t.drafts[id].createdById == u && IsUrl(t.drafts[id].imageUrl) ::
         t.drafts[id].imageUrl.value)
    + (set id | id in t.wrongPhotoMatches && t.wrongPhotoMatches[id].createdById == u
                && IsUrl(t.wrongPhotoMatches[id].imageUrl) :: t.wrongPhotoMatches[id].imageUrl.value)
  }

  // ---------- The updates of the tasting table, one statement each ----------

  /** A counter falls by the rows about to be deleted, on the tastings that have some. */
  function CommentsCounted(tastings: map<nat, Tasting>, comments: map<nat, Remark>, u: nat): map<nat, Tasting> {
    map id | id in tastings ::
      if OwnOnTasting(comments, u, id) == {} then tastings[id]
      else tastings[id].(comments := AtLeastZero(tastings[id].comments - |OwnOnTasting(comments, u, id)|))
  }

  function ToastsCounted(tastings: map<nat, Tasting>, toasts: map<nat, Remark>, u: nat): map<nat, Tasting> {
    map id | id in tastings ::
      if OwnOnTasting(toasts, u, id) == {} then tastings[id]
      else tastings[id].(toasts := AtLeastZero(tastings[id].toasts - |OwnOnTasting(toasts, u, id)|))
  }

  function TastingsWithoutImage(tastings: map<nat, Tasting>, u: nat): map<nat, Tasting> {
    map id | id in tastings :: if tastings[id].createdById == u then tastings[id].(imageUrl := None) else tastings[id]
  }

  function TastingsRemoved(tastings: map<nat, Tasting>, u: nat, removal: Removal): map<nat, Tasting> {
    map id | id in tastings ::
      if tastings[id].createdById == u && tastings[id].removal.None?
      then tastings[id].(removal := Some(removal)) else tastings[id]
  }

  function TastingsWithoutFlights(tastings: map<nat, Tasting>, flights: set<nat>): map<nat, Tasting> {
    map id | id in tastings ::
      if tastings[id].flightId.Some? && tastings[id].flightId.value in flights
      then tastings[id].(flightId := None) else tastings[id]
  }

  function UntaggedTastings(tastings: map<nat, Tasting>, u: nat): map<nat, Tasting> {
    map id | id in tastings ::
      if u in tastings[id].friends then tastings[id].(friends := WithoutFriend(tastings[id].friends, u))
      else tastings[id]
  }

  function ReviewsWithoutImage(reviews: map<nat, MemberReview>, u: nat): map<nat, MemberReview> {
    map id | id in reviews :: if reviews[id].createdById == u then reviews[id].(imageUrl := None) else reviews[id]
  }

  function ReviewsRemoved(reviews: map<nat, MemberReview>, u: nat, removal: Removal): map<nat, MemberReview> {
    map id | id in reviews ::
      if reviews[id].createdById == u && reviews[id].removal.None?
      then reviews[id].(removal := Some(removal)) else reviews[id]
  }

  function UntaggedReviews(reviews: map<nat, MemberReview>, u: nat): map<nat, MemberReview> {
    map id | id in reviews ::
      if u in reviews[id].friends then reviews[id].(friends := WithoutFriend(reviews[id].friends, u)) else reviews[id]
  }

  lemma {:induction false} NoTagToRemove(friends: seq<nat>, u: nat)
    ensures u !in friends ==> WithoutFriend(friends, u) == friends
    ensures u !in WithoutFriend(friends, u)
    ensures forall v :: v != u ==> (v in friends <==> v in WithoutFriend(friends, u))
  {
    if friends != [] {
      assert friends == [friends[0]] + friends[1..];
      NoTagToRemove(friends[1..], u);
    }
  }

  /** The counters, then the removal, of one tasting. */
  lemma TastingRemoved(t: Tables, u: nat, at: int, id: nat)
    requires id in t.tastings
    ensures var removal := Removal(at, Some(u), ACCOUNT_DELETED_REASON);
            var counted := ToastsCounted(CommentsCounted(t.tastings, t.comments, u), t.toasts, u);
            var removed := TastingsRemoved(TastingsWithoutImage(counted, u), u, removal);
            var row, erased := t.tastings[id], ErasedTasting(t, u, at, id, t.tastings[id]);
            && id in removed
            && removed[id] == erased.(friends := row.friends, flightId := row.flightId)
  {
    hide OwnOnTasting, OwnedBy, WithoutFriend;
    var counted := ToastsCounted(CommentsCounted(t.tastings, t.comments, u), t.toasts, u);
    var row, erased := t.tastings[id], ErasedTasting(t, u, at, id, t.tastings[id]);
    assert counted[id] == row.(comments := erased.comments, toasts := erased.toasts);
  }

  function UpdatedTastings(t: Tables, u: nat, at: int): map<nat, Tasting> {
    var counted := ToastsCounted(CommentsCounted(t.tastings, t.comments, u), t.toasts, u);
    var removed := TastingsRemoved(TastingsWithoutImage(counted, u), u, Removal(at, Some(u), ACCOUNT_DELETED_REASON));
    UntaggedTastings(TastingsWithoutFlights(removed, OwnedBy(t.flights, u)), u)
  }

  lemma TastingErased(t: Tables, u: nat, at: int, id: nat)
    requires id in t.tastings
    ensures id in UpdatedTastings(t, u, at)
            && UpdatedTastings(t, u, at)[id] == ErasedTasting(t, u, at, id, t.tastings[id])
  {
    hide OwnOnTasting, OwnedBy, WithoutFriend, CommentsCounted, ToastsCounted, TastingsRemoved, TastingsWithoutImage;
    TastingRemoved(t, u, at, id);
    NoTagToRemove(t.tastings[id].friends, u);
  }

  lemma TastingRowsStay(t: Tables, u: nat, at: int)
    ensures UpdatedTastings(t, u, at).Keys == t.tastings.Keys
  {
    hide OwnOnTasting, OwnedBy, WithoutFriend;
  }

  /** The six updates of the tasting table add up to what deletion leaves of it. */
  lemma TastingsErased(t: Tables, u: nat, at: int)
    ensures UpdatedTastings(t, u, at) == ErasedTastings(t, u, at)
  {
    hide UpdatedTastings, ErasedTasting;
    TastingRowsStay(t, u, at);
    forall id | id in t.tastings { TastingErased(t, u, at, id); }
  }

  lemma ReviewsErased(t: Tables, u: nat, at: int)
    ensures var removal := Removal(at, Some(u), ACCOUNT_DELETED_REASON);
            UntaggedReviews(ReviewsRemoved(ReviewsWithoutImage(t.reviews, u), u, removal), u) == ErasedReviews(t, u, at)
  {
    hide WithoutFriend;
    forall id | id in t.reviews { NoTagToRemove(t.reviews[id].friends, u); }
  }

  /** All tables after the first `n` accounts of a round were handled, one after another. */
  function AfterRound(t: Tables, due: seq<nat>, cutoff: int, fails: set<nat>, at: int, n: nat): Tables
    requires n <= |due|
  {
    if n == 0 then t
    else
      var before := AfterRound(t, due, cutoff, fails, at, n - 1);
      if due[n - 1] in fails then before else DeleteAccount(before, due[n - 1], Some(cutoff), at)
  }

  function Deletable(t: Tables, due: seq<nat>, cutoff: int, fails: set<nat>): set<nat> {
    set u | u in due && MayDelete(t, u, Some(cutoff)) && u !in fails
  }

  lemma NothingDeletable(t: Tables, cutoff: int, fails: set<nat>)
    ensures Deletable(t, [], cutoff, fails) == {}
  {}

  function WithTombstones(users: map<nat, User>, deleted: set<nat>, at: int): map<nat, User> {
    map u | u in users :: if u in deleted then Tombstone(users[u], u, at) else users[u]
  }

  lemma NoTombstones(users: map<nat, User>, at: int)
    ensures WithTombstones(users, {}, at) == users
  {}

  lemma TombstonesOneMore(users: map<nat, User>, deleted: set<nat>, u: nat, at: int)
    ensures u !in deleted ==> (u in users <==> u in WithTombstones(users, deleted, at))
                              && (u in users ==> WithTombstones(users, deleted, at)[u] == users[u])
    ensures u in users ==> WithTombstones(users, deleted + {u}, at) ==
                           WithTombstones(users, deleted, at)[u := Tombstone(users[u], u, at)]
    ensures WithTombstones(users, deleted + {}, at) == WithTombstones(users, deleted, at)
  {
    hide Tombstone;
  }

  lemma UsersAfterDeletion(t: Tables, u: nat, requestedBefore: Option<int>, at: int)
    ensures DeleteAccount(t, u, requestedBefore, at).users ==
            if MayDelete(t, u, requestedBefore) then t.users[u := Tombstone(t.users[u], u, at)] else t.users
  {}

  lemma DeletableOneMore(t: Tables, due: seq<nat>, cutoff: int, fails: set<nat>, i: nat)
    requires i < |due| && forall i, j :: 0 <= i < j < |due| ==> due[i] != due[j]
    ensures var one := if MayDelete(t, due[i], Some(cutoff)) && due[i] !in fails then {due[i]} else {};
            && Deletable(t, due[..i + 1], cutoff, fails) == Deletable(t, due[..i], cutoff, fails) + one
            && due[i] !in Deletable(t, due[..i], cutoff, fails)
  {
    assert due[..i + 1] == due[..i] + [due[i]];
  }

  // ---------- The transaction, statement by statement ----------

  class Database {
    var tables: Tables

    constructor (tables: Tables)
      ensures this.tables == tables
    {
      this.tables := tables;
    }

    /** None when nothing was deleted; else the stored images that belonged to the member. */
    method DeleteUserAccount(u: nat, requestedBefore: Option<int>, at: int) returns (images: Option<set<string>>)
      modifies this
      ensures tables == DeleteAccount(old(tables), u, requestedBefore, at)
      ensures images == if MayDelete(old(tables), u, requestedBefore) then Some(ImagesOf(old(tables), u)) else None
    {
      hide ErasedTastings, ErasedReviews, UpdatedTastings, Tombstone, ImagesOf, ConcerningMember, ConcernsMember;
      hide CommentsCounted, ToastsCounted, TastingsWithoutImage, TastingsRemoved;
      hide TastingsWithoutFlights, UntaggedTastings;
      hide ReviewsWithoutImage, ReviewsRemoved, UntaggedReviews, UntaggedDrafts, ClearedStaffReferences, ClosedReports;
      hide OwnedBy, OwnRemarks, OfAwards, PartsOf, InCollections, From, Naming, Uploads, Drafts;
      images := None;
      if u !in tables.users || tables.users[u].deletedAt.Some? { return; }
      var locked := tables.users[u];
      if requestedBefore.Some?
         && (locked.deletionRequestedAt.None? || locked.deletionRequestedAt.value > requestedBefore.value) { return; }
      images := Some(ImagesOf(tables, u));
      var t := tables;
      var notifications := t.notifications - ConcerningMember(t, u);
      var tastings := CommentsCounted(t.tastings, t.comments, u);
      tastings := ToastsCounted(tastings, t.toasts, u);
      var comments := t.comments - OwnRemarks(t.comments, u);
      var toasts := t.toasts - OwnRemarks(t.toasts, u);
      var removal := Removal(at, Some(u), ACCOUNT_DELETED_REASON);
      tastings := TastingsWithoutImage(tastings, u);
      tastings := TastingsRemoved(tastings, u, removal);
      var reviews := ReviewsWithoutImage(t.reviews, u);
      reviews := ReviewsRemoved(reviews, u, removal);
      var ownAwards, ownFlights, ownCollections :=
        OwnedBy(t.awards, u), OwnedBy(t.flights, u), OwnedBy(t.collections, u);
      var tastingAwards := t.tastingAwards - OfAwards(t.tastingAwards, ownAwards);
      var awardObjects := t.awardObjects - PartsOf(t.awardObjects, ownAwards);
      var awards := t.awards - ownAwards;
      tastings := TastingsWithoutFlights(tastings, ownFlights);
      var flightBottles := t.flightBottles - From(t.flightBottles, ownFlights);
      var flights := t.flights - ownFlights;
      var collectionBottles := t.collectionBottles - InCollections(t.collectionBottles, ownCollections);
      var collections := t.collections - ownCollections;
      var follows, entityFollows := t.follows - Naming(t.follows, u), t.entityFollows - From(t.entityFollows, {u});
      var blocks := t.blocks - Naming(t.blocks, u);
      var pendingUploads := t.pendingUploads - Uploads(t.pendingUploads, u);
      var drafts := t.drafts - Drafts(t.drafts, u);
      var wrongPhotoMatches := t.wrongPhotoMatches - Uploads(t.wrongPhotoMatches, u);
      var signIns := t.signIns - OwnedBy(t.signIns, u);
      tastings := UntaggedTastings(tastings, u);
      reviews := UntaggedReviews(reviews, u);
      drafts := UntaggedDrafts(drafts, u);
      var staffReferences := ClearedStaffReferences(t.staffReferences, u);
      var reports := ClosedReports(t.reports, u);
      var actors := t.actors[u := Actor(DELETED_MEMBER_NAME, None, false)];
      var users := t.users[u := Tombstone(locked, u, at)];
      UpdatedInOrder(t, u, at);
      TastingsErased(t, u, at);
      ReviewsErased(t, u, at);
      tables := Tables(users, actors, tastings, reviews, comments, toasts, notifications, awards, tastingAwards,
        awardObjects, flights, flightBottles, collections, collectionBottles, follows, entityFollows, blocks,
        pendingUploads, drafts, wrongPhotoMatches, signIns, staffReferences, reports, t.watches, t.alerts,
        t.keptReferences);
    }

    /** `due` are the accounts read as due; `fails` are those whose transaction throws and changes nothing.
        Each account that may still be deleted is, once, and no other user row changes. */
    method ProcessDueAccountDeletions(due: seq<nat>, cutoff: int, fails: set<nat>, at: int) returns (deleted: nat)
      requires forall i, j :: 0 <= i < j < |due| ==> due[i] != due[j]
      modifies this
      ensures tables == AfterRound(old(tables), due, cutoff, fails, at, |due|)
      ensures deleted == |Deletable(old(tables), due, cutoff, fails)|
      ensures tables.users == WithTombstones(old(tables).users, Deletable(old(tables), due, cutoff, fails), at)
    {
      hide DeleteAccount, Tombstone, ImagesOf, Deletable, WithTombstones;
      deleted := 0;
      NoTombstones(tables.users, at);
      assert Deletable(tables, due[..0], cutoff, fails) == {} by { NothingDeletable(tables, cutoff, fails); }
      for i := 0 to |due|
        invariant tables == AfterRound(old(tables), due, cutoff, fails, at, i)
        invariant deleted == |Deletable(old(tables), due[..i], cutoff, fails)|
        invariant tables.users == WithTombstones(old(tables).users, Deletable(old(tables), due[..i], cutoff, fails), at)
      {
        DeletableOneMore(old(tables), due, cutoff, fails, i);
        TombstonesOneMore(old(tables).users, Deletable(old(tables), due[..i], cutoff, fails), due[i], at);
        if due[i] in fails { continue; }
        UsersAfterDeletion(tables, due[i], Some(cutoff), at);
        var images := DeleteUserAccount(due[i], Some(cutoff), at);
        if images.Some? { deleted := deleted + 1; }
      }
      assert due[..|due|] == due;
    }
  }

  lemma UpdatedInOrder(t: Tables, u: nat, at: int)
    ensures UpdatedTastings(t, u, at) ==
            UntaggedTastings(TastingsWithoutFlights(TastingsRemoved(TastingsWithoutImage(ToastsCounted(CommentsCounted(
              t.tastings, t.comments, u), t.toasts, u), u), u, Removal(at, Some(u), ACCOUNT_DELETED_REASON)),
              OwnedBy(t.flights, u)), u)
  {}
}
