/** When the scheduled worker deletes accounts, and what holds in every state it can bring about. */
module AccountDeletionRuns {
  import opened Wrappers
  import opened AccountDeletion
  import opened AccountDeletionLaws

  // ---------- The scheduled worker ----------

  /** The worker reads the due accounts once and then deletes them one by one, each under its own lock;
      a failing transaction changes nothing. A lot that becomes available is announced to its Bottle's watches,
      one step for each. */
  datatype Scheduler = Scheduler(tables: Tables, due: seq<nat>, cutoff: int)

  datatype Step =
    | RequestDeletion(user: nat, at: int)
    | CancelDeletion(user: nat)
    | ReadDue(now: int, due: seq<nat>)
    | DeleteNext(at: int, fails: bool)
    | NotifyWatch(watch: nat, lot: nat, bottle: nat, availableSince: int, alert: nat, notice: nat)

  function WithRequest(t: Tables, u: nat, request: Option<int>): Tables {
    if u in t.users then t.(users := t.users[u := t.users[u].(deletionRequestedAt := request)]) else t
  }

  predicate IsDue(t: Tables, u: nat, cutoff: int) {
    u in t.users && t.users[u].deletedAt.None? && t.users[u].deletionRequestedAt.Some?
    && t.users[u].deletionRequestedAt.value <= cutoff
  }

  /** Whoever watches the Bottle since before the lot became available is told once for each lot: the code does not
      look at the account. `alert` and `notice` are the ids of the new rows. */
  predicate Announces(t: Tables, watch: nat, lot: nat, bottle: nat, since: int, alert: nat, notice: nat) {
    && watch in t.watches && t.watches[watch].bottleId == bottle && t.watches[watch].createdAt <= since
    && alert !in t.alerts && notice !in t.notifications
    && forall id | id in t.alerts :: !(t.alerts[id].userId == t.watches[watch].userId && t.alerts[id].lotId == lot)
  }

  function Announced(t: Tables, watch: nat, lot: nat, bottle: nat, since: int, alert: nat, notice: nat): Tables {
    if Announces(t, watch, lot, bottle, since, alert, notice) then
      var user := t.watches[watch].userId;
      t.(alerts := t.alerts[alert := Alert(user, lot, bottle)],
         notifications := t.notifications[notice := Notification(user, None, AuctionAvailable, alert)])
    else t
  }

  function Next(s: Scheduler, step: Step): Scheduler {
    match step
    case RequestDeletion(u, at) => s.(tables := WithRequest(s.tables, u, Some(at)))
    case CancelDeletion(u) => s.(tables := WithRequest(s.tables, u, None))
    case ReadDue(now, due) =>
      if |due| <= 100 && (forall u | u in due :: IsDue(s.tables, u, now - GRACE_MS))
      then s.(due := due, cutoff := now - GRACE_MS) else s
    case DeleteNext(at, fails) =>
      if s.due == [] then s
      else if fails then s.(due := s.due[1..])
      else s.(tables := DeleteAccount(s.tables, s.due[0], Some(s.cutoff), at), due := s.due[1..])
    case NotifyWatch(watch, lot, bottle, since, alert, notice) =>
      s.(tables := Announced(s.tables, watch, lot, bottle, since, alert, notice))
  }

  function Run(initial: Tables, steps: seq<Step>): Scheduler {
    if steps == [] then Scheduler(initial, [], 0) else Next(Run(initial, steps[..|steps| - 1]), steps[|steps| - 1])
  }

  /** The member's last word: the newest request or cancellation, else what was there before the run. */
  function LastRequest(initial: Tables, steps: seq<Step>, u: nat): Option<int> {
    if steps == [] then (if u in initial.users then initial.users[u].deletionRequestedAt else None)
    else
      match steps[|steps| - 1]
      case RequestDeletion(v, at) => if v == u then Some(at) else LastRequest(initial, steps[..|steps| - 1], u)
      case CancelDeletion(v) => if v == u then None else LastRequest(initial, steps[..|steps| - 1], u)
      case _ => LastRequest(initial, steps[..|steps| - 1], u)
  }

  /** The start of the worker's last round. */
  function LastRound(steps: seq<Step>, initial: Tables): Option<int> {
    if steps == [] then None
    else
      var front, last := steps[..|steps| - 1], steps[|steps| - 1];
      if last.ReadDue? && |last.due| <= 100
         && (forall u | u in last.due :: IsDue(Run(initial, front).tables, u, last.now - GRACE_MS))
      then Some(last.now) else LastRound(front, initial)
  }

  lemma DeletionKeepsRequests(t: Tables, v: nat, cutoff: int, at: int)
    ensures var after := DeleteAccount(t, v, Some(cutoff), at);
            && after.users.Keys == t.users.Keys
            && (forall u :: u in t.users ==> after.users[u].deletionRequestedAt == t.users[u].deletionRequestedAt)
  {
    hide ErasedTastings, ErasedReviews, ClosedReports;
  }

  lemma NextRemembersRequests(s: Scheduler, step: Step, u: nat)
    ensures u in Next(s, step).tables.users <==> u in s.tables.users
    ensures u in s.tables.users ==>
              Next(s, step).tables.users[u].deletionRequestedAt ==
                if step.RequestDeletion? && step.user == u then Some(step.at)
                else if step.CancelDeletion? && step.user == u then None
                else s.tables.users[u].deletionRequestedAt
  {
    hide DeleteAccount;
    if step.DeleteNext? && s.due != [] { DeletionKeepsRequests(s.tables, s.due[0], s.cutoff, step.at); }
  }

  lemma {:induction false} RunRemembersRequests(initial: Tables, steps: seq<Step>, u: nat)
    ensures u in Run(initial, steps).tables.users <==> u in initial.users
    ensures u in initial.users ==>
              Run(initial, steps).tables.users[u].deletionRequestedAt == LastRequest(initial, steps, u)
    ensures var round := LastRound(steps, initial); var s := Run(initial, steps);
            if round.Some? then s.cutoff == round.value - GRACE_MS else s.due == []
  {
    hide DeleteAccount, WithRequest, Announced;
    if steps != [] {
      var front := steps[..|steps| - 1];
      RunRemembersRequests(initial, front, u);
      NextRemembersRequests(Run(initial, front), steps[|steps| - 1], u);
    }
  }

  /** Over any run, the worker deletes an account only if the member's last word is still a request, made at least
      the grace period before the round began; a later cancellation or newer request wins. */
  lemma GraceIsHonoured(initial: Tables, steps: seq<Step>, u: nat, at: int)
    requires u in initial.users
    requires var before := Run(initial, steps).tables; u in before.users && before.users[u].deletedAt.None?
    requires var after := Run(initial, steps + [DeleteNext(at, false)]).tables;
             u in after.users && after.users[u].deletedAt.Some?
    ensures LastRequest(initial, steps, u).Some? && LastRound(steps, initial).Some?
            && LastRequest(initial, steps, u).value + GRACE_MS <= LastRound(steps, initial).value
  {
    hide ErasedTastings, ErasedReviews, ClosedReports;
    assert (steps + [DeleteNext(at, false)])[..|steps|] == steps;
    RunRemembersRequests(initial, steps, u);
  }

  // ---------- Notices to watchers ----------

  /** A notice goes only to whoever watches that Bottle since before the lot was available, and adds one alert for the
      lot and one notification that names it. */
  lemma WatchersAreToldExactly(s: Scheduler, step: Step)
    requires step.NotifyWatch? && Next(s, step) != s
    ensures var t, after := s.tables, Next(s, step).tables;
            && step.watch in t.watches
            && t.watches[step.watch].bottleId == step.bottle && t.watches[step.watch].createdAt <= step.availableSince
            && var user := t.watches[step.watch].userId;
               after == t.(alerts := t.alerts[step.alert := Alert(user, step.lot, step.bottle)],
                           notifications := t.notifications[step.notice :=
                             Notification(user, None, AuctionAvailable, step.alert)])
  {}

  /** A member is told of a lot once, however many of the member's watches the lot meets. */
  lemma ToldOncePerLot(s: Scheduler, first: Step, second: Step)
    requires first.NotifyWatch? && second.NotifyWatch? && first.lot == second.lot
    requires first.watch in s.tables.watches && second.watch in s.tables.watches
    requires s.tables.watches[first.watch].userId == s.tables.watches[second.watch].userId
    requires Next(s, first) != s
    ensures Next(Next(s, first), second) == Next(s, first)
  {
    var told := Next(s, first);
    assert first.alert in told.tables.alerts && told.tables.alerts[first.alert].lotId == second.lot;
  }

  // ---------- What a step does to the tables ----------

  ghost predicate Watches(t: Tables, u: nat) {
    exists id :: id in t.watches && t.watches[id].userId == u
  }

  ghost predicate OnlyRequestsDiffer(users: map<nat, User>, after: map<nat, User>) {
    && after.Keys == users.Keys
    && (forall u :: u in users ==> after[u] == users[u].(deletionRequestedAt := after[u].deletionRequestedAt))
  }

  /** Rows are only added, and only for members with a watch. */
  ghost predicate OnlyAnnouncements(t: Tables, notifications: map<nat, Notification>, alerts: map<nat, Alert>) {
    && (forall id :: id in t.notifications ==> id in notifications && notifications[id] == t.notifications[id])
    && (forall id :: id in notifications && id !in t.notifications ==>
          && notifications[id].kind == AuctionAvailable && notifications[id].fromUserId.None?
          && Watches(t, notifications[id].userId))
    && (forall id :: id in t.alerts ==> id in alerts && alerts[id] == t.alerts[id])
    && (forall id :: id in alerts && id !in t.alerts ==> Watches(t, alerts[id].userId))
  }

  /** Requests come and go, and watchers are told of auctions; nothing else changes. */
  ghost predicate MinorChange(t: Tables, after: Tables) {
    && after == t.(users := after.users, notifications := after.notifications, alerts := after.alerts)
    && OnlyRequestsDiffer(t.users, after.users) && OnlyAnnouncements(t, after.notifications, after.alerts)
  }

  ghost predicate Erases(s: Scheduler, step: Step) {
    && step.DeleteNext? && s.due != [] && s.due[0] in s.tables.users && s.tables.users[s.due[0]].deletedAt.None?
    && Next(s, step).tables == Erase(s.tables, s.due[0], step.at)
  }

  lemma OneRequestDiffers(users: map<nat, User>, u: nat, request: Option<int>)
    requires u in users
    ensures OnlyRequestsDiffer(users, users[u := users[u].(deletionRequestedAt := request)])
  {}

  lemma NothingDiffers(t: Tables)
    ensures OnlyRequestsDiffer(t.users, t.users) && OnlyAnnouncements(t, t.notifications, t.alerts)
  {}

  lemma RequestIsMinor(t: Tables, u: nat, request: Option<int>)
    ensures MinorChange(t, WithRequest(t, u, request))
  {
    hide OnlyRequestsDiffer, OnlyAnnouncements;
    NothingDiffers(t);
    if u in t.users { OneRequestDiffers(t.users, u, request); }
  }

  lemma AnnouncementIsMinor(t: Tables, watch: nat, lot: nat, bottle: nat, since: int, alert: nat, notice: nat)
    ensures MinorChange(t, Announced(t, watch, lot, bottle, since, alert, notice))
  {
    hide OnlyRequestsDiffer, OnlyAnnouncements, Watches;
    NothingDiffers(t);
    if Announces(t, watch, lot, bottle, since, alert, notice) {
      var user := t.watches[watch].userId;
      assert Watches(t, user) by { WatcherWatches(t, watch); }
      RowsAdded(t, user, alert, Alert(user, lot, bottle), notice, Notification(user, None, AuctionAvailable, alert));
    }
  }

  lemma WatcherWatches(t: Tables, watch: nat)
    requires watch in t.watches
    ensures Watches(t, t.watches[watch].userId)
  {}

  lemma RowsAdded(t: Tables, u: nat, alert: nat, row: Alert, notice: nat, notification: Notification)
    requires Watches(t, u) && row.userId == u && notification.userId == u
    requires notification.kind == AuctionAvailable && notification.fromUserId.None?
    requires alert !in t.alerts && notice !in t.notifications
    ensures OnlyAnnouncements(t, t.notifications[notice := notification], t.alerts[alert := row])
  {
    hide Watches;
  }

  lemma NothingIsMinor(t: Tables)
    ensures MinorChange(t, t)
  {
    hide OnlyRequestsDiffer, OnlyAnnouncements;
    NothingDiffers(t);
  }

  lemma StepChanges(s: Scheduler, step: Step)
    ensures MinorChange(s.tables, Next(s, step).tables) || Erases(s, step)
  {
    hide Erase, MinorChange, WithRequest, Announced;
    NothingIsMinor(s.tables);
    match step {
      case RequestDeletion(u, at) => RequestIsMinor(s.tables, u, Some(at));
      case CancelDeletion(u) => RequestIsMinor(s.tables, u, None);
      case NotifyWatch(watch, lot, bottle, since, alert, notice) =>
        AnnouncementIsMinor(s.tables, watch, lot, bottle, since, alert, notice);
      case _ =>
    }
  }

  predicate Gone(t: Tables, u: nat) {
    u in t.users && t.users[u].deletedAt.Some?
  }

  lemma GoneAfter(s: Scheduler, step: Step, u: nat)
    ensures u in Next(s, step).tables.users <==> u in s.tables.users
    ensures Gone(Next(s, step).tables, u) <==> Gone(s.tables, u) || (Erases(s, step) && s.due[0] == u)
  {
    hide Next, Erase;
    StepChanges(s, step);
    if Erases(s, step) { ErasedUsers(s.tables, s.due[0], step.at); }
  }

  lemma ErasedUsers(t: Tables, v: nat, at: int)
    requires v in t.users
    ensures Erase(t, v, at).users == t.users[v := Tombstone(t.users[v], v, at)]
  {}

  // ---------- Counters and links in every reachable state ----------

  /** Over any run, tastings stay and counters that equalled their row counts still do. */
  lemma {:induction false} RunKeepsCounters(initial: Tables, steps: seq<Step>, id: nat)
    requires id in initial.tastings && CountersAgree(initial, id)
    ensures id in Run(initial, steps).tables.tastings && CountersAgree(Run(initial, steps).tables, id)
  {
    hide Next, Erase, OnTasting;
    if steps != [] {
      var front, step := steps[..|steps| - 1], steps[|steps| - 1];
      var s := Run(initial, front);
      RunKeepsCounters(initial, front, id);
      StepChanges(s, step);
      if Erases(s, step) { CountersStayEqual(s.tables, s.due[0], step.at, id); }
    }
  }

  ghost predicate Linked(t: Tables) {
    RemarksLinked(t) && NoticesLinked(t) && AwardsLinked(t) && FlightsLinked(t) && CollectionsLinked(t)
  }

  lemma MinorChangeKeepsNotices(t: Tables, after: Tables)
    requires NoticesLinked(t) && MinorChange(t, after)
    ensures NoticesLinked(after)
  {
    forall id | id in after.notifications ensures NoticeLinked(after, after.notifications[id]) {
      assert id in t.notifications ==> NoticeLinked(t, t.notifications[id]);
    }
  }

  lemma MinorChangeKeepsLinks(t: Tables, after: Tables)
    requires Linked(t) && MinorChange(t, after)
    ensures Linked(after)
  {
    hide NoticesLinked, OnlyRequestsDiffer, OnlyAnnouncements;
    MinorChangeKeepsNotices(t, after);
  }

  /** Over any run no link comes to dangle. */
  lemma {:induction false} RunKeepsLinks(initial: Tables, steps: seq<Step>)
    requires Linked(initial)
    ensures Linked(Run(initial, steps).tables)
  {
    hide Next, Erase, MinorChange, RemarksLinked, NoticesLinked, AwardsLinked, FlightsLinked, CollectionsLinked;
    if steps != [] {
      var front, step := steps[..|steps| - 1], steps[|steps| - 1];
      var s := Run(initial, front);
      RunKeepsLinks(initial, front);
      StepChanges(s, step);
      if Erases(s, step) {
        NothingDangles(s.tables, s.due[0], step.at);
      } else {
        MinorChangeKeepsLinks(s.tables, Next(s, step).tables);
      }
    }
  }

  // ---------- What is left of a deleted member ----------

  /** Nothing is left in the tables that deletion covers but a tombstone, removed content without pictures, closed
      reports, and what later auctions sent. */
  ghost predicate LeavesNoTrace(t: Tables, u: nat) {
    && OwnsNoRows(t, u) && IsNotNamed(t, u) && ContentIsRemoved(t, u) && ReportsAreClosed(t, u)
    && ImagesOf(t, u) == {} && OnlyAuctionNotices(t, u)
  }

  ghost predicate OnlyAuctionNotices(t: Tables, u: nat) {
    forall id :: id in t.notifications && Names(t.notifications[id], u) ==>
      t.notifications[id].kind == AuctionAvailable && Watches(t, u)
  }

  lemma ErasedLeavesNoTrace(t: Tables, u: nat, at: int)
    requires u in t.users
    ensures LeavesNoTrace(Erase(t, u, at), u) && HasNoNotices(Erase(t, u, at), u)
  {
    hide Erase, OwnsNoRows, IsNotNamed, ContentIsRemoved, ReportsAreClosed, ImagesOf;
    MemberOwnsNoRows(t, u, at);
    MemberIsNotNamed(t, u, at);
    MemberHasNoNotices(t, u, at);
    MemberContentIsRemoved(t, u, at);
    NoImageIsLeft(t, u, at);
  }

  lemma OthersKeepOwningNothing(t: Tables, v: nat, at: int, u: nat)
    requires v in t.users && OwnsNoRows(t, u)
    ensures OwnsNoRows(Erase(t, v, at), u)
  {
    hide ErasedTastings, ErasedReviews, ClosedReports, WithoutFriend, ConcernsMember;
    var after := Erase(t, v, at);
    assert OwnRemarks(after.comments, u) <= OwnRemarks(t.comments, u);
    assert OwnRemarks(after.toasts, u) <= OwnRemarks(t.toasts, u);
    assert OwnedBy(after.awards, u) <= OwnedBy(t.awards, u) && OwnedBy(after.flights, u) <= OwnedBy(t.flights, u);
    assert OwnedBy(after.collections, u) <= OwnedBy(t.collections, u)
           && OwnedBy(after.signIns, u) <= OwnedBy(t.signIns, u);
    assert Uploads(after.pendingUploads, u) <= Uploads(t.pendingUploads, u);
    assert Uploads(after.wrongPhotoMatches, u) <= Uploads(t.wrongPhotoMatches, u);
    assert Drafts(after.drafts, u) <= Drafts(t.drafts, u);
  }

  lemma OthersStayUnnamed(t: Tables, v: nat, at: int, u: nat)
    requires v in t.users && IsNotNamed(t, u)
    ensures IsNotNamed(Erase(t, v, at), u)
  {
    hide OwnOnTasting, OwnedBy, OwnRemarks, ClosedReports, WithoutFriend;
    var after := Erase(t, v, at);
    forall id | id in t.tastings { NoTagToRemove(t.tastings[id].friends, v); }
    forall id | id in t.reviews { NoTagToRemove(t.reviews[id].friends, v); }
    forall id | id in t.drafts { NoTagToRemove(t.drafts[id].friends, v); }
    assert Naming(after.follows, u) <= Naming(t.follows, u) && Naming(after.blocks, u) <= Naming(t.blocks, u);
    assert From(after.entityFollows, {u}) <= From(t.entityFollows, {u});
  }

  lemma OthersContentStaysRemoved(t: Tables, v: nat, at: int, u: nat)
    requires v in t.users && ContentIsRemoved(t, u)
    ensures ContentIsRemoved(Erase(t, v, at), u)
  {
    hide OwnOnTasting, OwnedBy, OwnRemarks, ClosedReports, WithoutFriend;
  }

  lemma OthersNoticesStayGone(t: Tables, v: nat, at: int, u: nat)
    requires v in t.users
    ensures ReportsAreClosed(t, u) ==> ReportsAreClosed(Erase(t, v, at), u)
    ensures OnlyAuctionNotices(t, u) ==> OnlyAuctionNotices(Erase(t, v, at), u)
    ensures HasNoNotices(t, u) ==> HasNoNotices(Erase(t, v, at), u)
  {
    hide ErasedTastings, ErasedReviews, ConcernsMember;
    var after := Erase(t, v, at);
    assert after.watches == t.watches;
    assert forall id :: id in after.notifications ==>
      id in t.notifications && after.notifications[id] == t.notifications[id];
  }

  ghost predicate ShowsNoPicture(t: Tables, u: nat) {
    && (u in t.users ==> !IsUrl(t.users[u].pictureUrl))
    && (forall id :: id in t.tastings && t.tastings[id].createdById == u ==> !IsUrl(t.tastings[id].imageUrl))
    && (forall id :: id in t.reviews && t.reviews[id].createdById == u ==> !IsUrl(t.reviews[id].imageUrl))
    && (forall id :: id in t.collectionBottles && t.collectionBottles[id].collectionId in OwnedBy(t.collections, u) ==>
          !IsUrl(t.collectionBottles[id].imageUrl))
    && (forall id :: id in t.pendingUploads && t.pendingUploads[id].createdById == u ==>
          !IsUrl(t.pendingUploads[id].imageUrl))
    && (forall id :: id in t.drafts && t.drafts[id].createdById == u ==> !IsUrl(t.drafts[id].imageUrl))
    && (forall id :: id in t.wrongPhotoMatches && t.wrongPhotoMatches[id].createdById == u ==>
          !IsUrl(t.wrongPhotoMatches[id].imageUrl))
  }

  lemma NoImagesNoPictures(t: Tables, u: nat)
    ensures ImagesOf(t, u) == {} ==> ShowsNoPicture(t, u)
  {
    var images := ImagesOf(t, u);
    assert u in t.users && IsUrl(t.users[u].pictureUrl) ==> t.users[u].pictureUrl.value in images;
    assert forall id | id in t.tastings && t.tastings[id].createdById == u && IsUrl(t.tastings[id].imageUrl) ::
      t.tastings[id].imageUrl.value in images;
    assert forall id | id in t.reviews && t.reviews[id].createdById == u && IsUrl(t.reviews[id].imageUrl) ::
      t.reviews[id].imageUrl.value in images;
    assert forall id | id in t.collectionBottles && t.collectionBottles[id].collectionId in OwnedBy(t.collections, u)
                       && IsUrl(t.collectionBottles[id].imageUrl) ::
      t.collectionBottles[id].imageUrl.value in images;
    assert forall id | id in t.pendingUploads && t.pendingUploads[id].createdById == u
                       && IsUrl(t.pendingUploads[id].imageUrl) ::
      t.pendingUploads[id].imageUrl.value in images;
    assert forall id | id in t.drafts && t.drafts[id].createdById == u && IsUrl(t.drafts[id].imageUrl) ::
      t.drafts[id].imageUrl.value in images;
    assert forall id | id in t.wrongPhotoMatches && t.wrongPhotoMatches[id].createdById == u
                       && IsUrl(t.wrongPhotoMatches[id].imageUrl) ::
      t.wrongPhotoMatches[id].imageUrl.value in images;
  }

  lemma NoPicturesNoImages(t: Tables, u: nat)
    ensures ShowsNoPicture(t, u) ==> ImagesOf(t, u) == {}
  {}

  lemma OthersShowNoPicture(t: Tables, v: nat, at: int, u: nat)
    requires v in t.users && ShowsNoPicture(t, u)
    ensures ShowsNoPicture(Erase(t, v, at), u)
  {
    hide OwnOnTasting, ConcernsMember, ClosedReports, WithoutFriend;
  }

  /** Deleting someone else's account brings no trace back. */
  lemma TracesStayAway(t: Tables, v: nat, at: int, u: nat)
    requires v in t.users && LeavesNoTrace(t, u)
    ensures LeavesNoTrace(Erase(t, v, at), u)
  {
    hide Erase, OwnsNoRows, IsNotNamed, ContentIsRemoved;
    hide ReportsAreClosed, ImagesOf, ShowsNoPicture, OnlyAuctionNotices;
    OthersKeepOwningNothing(t, v, at, u);
    OthersStayUnnamed(t, v, at, u);
    OthersContentStaysRemoved(t, v, at, u);
    OthersNoticesStayGone(t, v, at, u);
    NoImagesNoPictures(t, u);
    OthersShowNoPicture(t, v, at, u);
    NoPicturesNoImages(Erase(t, v, at), u);
  }

  lemma MinorChangeAddsNoPicture(t: Tables, after: Tables, u: nat)
    requires ShowsNoPicture(t, u) && MinorChange(t, after)
    ensures ShowsNoPicture(after, u)
  {
    hide OnlyAnnouncements, OwnedBy;
  }

  lemma MinorChangeAddsOnlyAuctions(t: Tables, after: Tables, u: nat)
    requires OnlyAuctionNotices(t, u) && MinorChange(t, after)
    ensures OnlyAuctionNotices(after, u)
  {
    hide OnlyRequestsDiffer;
  }

  lemma MinorChangeLeavesNoTrace(t: Tables, after: Tables, u: nat)
    requires LeavesNoTrace(t, u) && MinorChange(t, after)
    ensures LeavesNoTrace(after, u)
  {
    hide OwnsNoRows, IsNotNamed, ContentIsRemoved, ReportsAreClosed, ImagesOf, ShowsNoPicture, OnlyAuctionNotices;
    hide OnlyRequestsDiffer, OnlyAnnouncements;
    SameRowsSameTraces(t, after, u);
    MinorChangeAddsOnlyAuctions(t, after, u);
    NoImagesNoPictures(t, u);
    MinorChangeAddsNoPicture(t, after, u);
    NoPicturesNoImages(after, u);
  }

  lemma SameRowsSameTraces(t: Tables, after: Tables, u: nat)
    requires after == t.(users := after.users, notifications := after.notifications, alerts := after.alerts)
    ensures OwnsNoRows(t, u) ==> OwnsNoRows(after, u)
    ensures IsNotNamed(t, u) ==> IsNotNamed(after, u)
    ensures ContentIsRemoved(t, u) ==> ContentIsRemoved(after, u)
    ensures ReportsAreClosed(t, u) ==> ReportsAreClosed(after, u)
  {}

  /** Over any run, every account the run deleted leaves no trace in the covered tables, whatever happens later. */
  lemma {:induction false} DeletedAccountsLeaveNoTrace(initial: Tables, steps: seq<Step>, u: nat)
    requires u in initial.users && !Gone(initial, u)
    ensures var t := Run(initial, steps).tables; u in t.users && (Gone(t, u) ==> LeavesNoTrace(t, u))
  {
    hide Next, Erase, MinorChange, LeavesNoTrace;
    if steps != [] {
      var front, step := steps[..|steps| - 1], steps[|steps| - 1];
      var s := Run(initial, front);
      var after := Next(s, step).tables;
      DeletedAccountsLeaveNoTrace(initial, front, u);
      StepChanges(s, step);
      GoneAfter(s, step, u);
      if Erases(s, step) {
        ErasedLeavesNoTrace(s.tables, s.due[0], step.at);
        if Gone(s.tables, u) { TracesStayAway(s.tables, s.due[0], step.at, u); }
      } else if Gone(s.tables, u) {
        MinorChangeLeavesNoTrace(s.tables, after, u);
      }
    }
  }

  // ---------- What deletion does not cover ----------

  /** The member's watches and alerts stay, because the user row that they hang on stays. */
  ghost predicate HasAuctionRows(t: Tables, u: nat) {
    Watches(t, u) || exists id :: id in t.alerts && t.alerts[id].userId == u
  }

  /** Reports by the member or about the member, and staff references that are not cleared. */
  ghost predicate IsReferenced(t: Tables, u: nat) {
    || (exists id :: id in t.reports && (t.reports[id].createdById == u || t.reports[id].reportedUserId == Some(u)))
    || (exists id :: id in t.keptReferences && t.keptReferences[id] == Some(u))
  }

  /** No row of any table owns to the member or names the member, but the tombstone and removed content. */
  ghost predicate IsGoneEverywhere(t: Tables, u: nat) {
    LeavesNoTrace(t, u) && HasNoNotices(t, u) && !HasAuctionRows(t, u) && !IsReferenced(t, u)
  }

  lemma StepKeepsUncovered(s: Scheduler, step: Step, u: nat)
    ensures var t, after := s.tables, Next(s, step).tables;
            && (HasAuctionRows(after, u) <==> HasAuctionRows(t, u)) && (Watches(after, u) <==> Watches(t, u))
            && (IsReferenced(after, u) <==> IsReferenced(t, u))
  {
    hide Next, Erase, ClosedReports;
    StepChanges(s, step);
    if Erases(s, step) { ErasureKeepsUncovered(s.tables, s.due[0], step.at, u); }
    var t, after := s.tables, Next(s, step).tables;
    if MinorChange(t, after) {
      if id :| id in t.alerts && t.alerts[id].userId == u { assert id in after.alerts; }
    }
  }

  lemma ErasureKeepsUncovered(t: Tables, v: nat, at: int, u: nat)
    requires v in t.users
    ensures var after := Erase(t, v, at);
            && (HasAuctionRows(after, u) <==> HasAuctionRows(t, u)) && (Watches(after, u) <==> Watches(t, u))
            && (IsReferenced(after, u) <==> IsReferenced(t, u))
  {
    hide ErasedTastings, ErasedReviews;
    var after := Erase(t, v, at);
    if id :| id in t.reports && (t.reports[id].createdById == u || t.reports[id].reportedUserId == Some(u)) {
      assert id in after.reports;
    }
  }

  lemma {:induction false} RunKeepsUncovered(initial: Tables, steps: seq<Step>, u: nat)
    ensures var t := Run(initial, steps).tables;
            && (HasAuctionRows(t, u) <==> HasAuctionRows(initial, u)) && (Watches(t, u) <==> Watches(initial, u))
            && (IsReferenced(t, u) <==> IsReferenced(initial, u))
  {
    hide Next, HasAuctionRows, Watches, IsReferenced;
    if steps != [] {
      RunKeepsUncovered(initial, steps[..|steps| - 1], u);
      StepKeepsUncovered(Run(initial, steps[..|steps| - 1]), steps[|steps| - 1], u);
    }
  }

  lemma NoticesNeedWatches(t: Tables, u: nat)
    requires OnlyAuctionNotices(t, u) && !Watches(t, u)
    ensures HasNoNotices(t, u)
  {}

  /** Over any run, a deleted member is gone from every table exactly when the member had no watch or alert, made no
      report, was the subject of none, and stood in no staff reference that deletion leaves. */
  lemma DeletedAccountIsGoneExactly(initial: Tables, steps: seq<Step>, u: nat)
    requires u in initial.users && !Gone(initial, u) && Gone(Run(initial, steps).tables, u)
    ensures IsGoneEverywhere(Run(initial, steps).tables, u) <==>
            !HasAuctionRows(initial, u) && !IsReferenced(initial, u)
  {
    hide Run, IsReferenced;
    var t := Run(initial, steps).tables;
    DeletedAccountsLeaveNoTrace(initial, steps, u);
    RunKeepsUncovered(initial, steps, u);
    if !HasAuctionRows(t, u) { NoticesNeedWatches(t, u); }
  }

  lemma {:induction false} UnusedId(ids: set<nat>) returns (unused: nat)
    ensures forall id :: id in ids ==> id < unused
  {
    if ids == {} { return 0; }
    var id :| id in ids;
    var rest := UnusedId(ids - {id});
    unused := if id < rest then rest else id + 1;
    forall other | other in ids ensures other < unused { assert other == id || other in ids - {id}; }
  }

  ghost predicate IsNotifiedBy(s: Scheduler, step: Step, u: nat) {
    exists id :: id in Next(s, step).tables.notifications && id !in s.tables.notifications
                 && Next(s, step).tables.notifications[id].userId == u
  }

  /** A member, deleted or not, can be sent another notification exactly while the member has a watch. */
  lemma NotifiedWhileWatchingExactly(s: Scheduler, u: nat)
    ensures (exists step :: IsNotifiedBy(s, step, u)) <==> Watches(s.tables, u)
  {
    hide Next, IsNotifiedBy;
    if step :| IsNotifiedBy(s, step, u) { OnlyWatchersAreNotified(s, step, u); }
    if watch :| watch in s.tables.watches && s.tables.watches[watch].userId == u {
      var step := NoticeFor(s, watch);
    }
  }

  lemma OnlyWatchersAreNotified(s: Scheduler, step: Step, u: nat)
    requires IsNotifiedBy(s, step, u)
    ensures Watches(s.tables, u)
  {
    hide Erase;
    StepChanges(s, step);
    if Erases(s, step) { ErasureAddsNoNotice(s.tables, s.due[0], step.at); }
  }

  lemma NoticeFor(s: Scheduler, watch: nat) returns (step: Step)
    requires watch in s.tables.watches
    ensures IsNotifiedBy(s, step, s.tables.watches[watch].userId)
  {
    var t, w := s.tables, s.tables.watches[watch];
    var alert := UnusedId(t.alerts.Keys);
    var notice := UnusedId(t.notifications.Keys);
    var lots := set id | id in t.alerts :: t.alerts[id].lotId;
    var lot := UnusedId(lots);
    forall id | id in t.alerts ensures t.alerts[id].lotId != lot { assert t.alerts[id].lotId in lots; }
    step := NotifyWatch(watch, lot, w.bottleId, w.createdAt, alert, notice);
    assert Announces(t, watch, lot, w.bottleId, w.createdAt, alert, notice);
    assert notice in Next(s, step).tables.notifications;
  }

  lemma ErasureAddsNoNotice(t: Tables, v: nat, at: int)
    requires v in t.users
    ensures forall id :: id in Erase(t, v, at).notifications ==> id in t.notifications
  {
    hide ErasedTastings, ErasedReviews, ClosedReports, ConcernsMember;
  }

  const WATCHER := User("ada", "ada@peated.invalid", None, None, true, false, true, false, false, false, Some(0), None)

  /** One member, who asked for deletion at time 0 and watches Bottle 7. */
  const ONE_WATCH := Tables(map[0 := WATCHER], map[], map[], map[], map[], map[], map[], map[], map[], map[], map[], {},
    map[], map[], {}, {}, {}, map[], map[], map[], map[], map[], map[], map[0 := Watch(0, 7, 0)], map[], map[])

  /** A deleted member with one watch is sent a notification when a lot of that Bottle becomes available. */
  lemma DeletedWatcherIsNotified()
    ensures var steps := [ReadDue(GRACE_MS, [0]), DeleteNext(GRACE_MS, false), NotifyWatch(0, 5, 7, 0, 0, 0)];
            var t := Run(ONE_WATCH, steps).tables;
            Gone(t, 0) && 0 in t.notifications && t.notifications[0].userId == 0 && !IsGoneEverywhere(t, 0)
  {
    hide Erase, IsGoneEverywhere, ErasedTastings, ErasedReviews;
    var a, b, c := ReadDue(GRACE_MS, [0]), DeleteNext(GRACE_MS, false), NotifyWatch(0, 5, 7, 0, 0, 0);
    assert [a, b, c][..2] == [a, b] && [a, b][..1] == [a] && [a][..0] == [];
    var one := Next(Scheduler(ONE_WATCH, [], 0), a);
    assert Run(ONE_WATCH, []) == Scheduler(ONE_WATCH, [], 0) && Run(ONE_WATCH, [a]) == one;
    assert IsDue(ONE_WATCH, 0, 0) && one == Scheduler(ONE_WATCH, [0], 0);
    var two := Next(one, b);
    assert two.tables == Erase(ONE_WATCH, 0, GRACE_MS);
    OneWatchErased();
    var three := Next(two, c);
    assert Run(ONE_WATCH, [a, b]) == two && Run(ONE_WATCH, [a, b, c]) == three;
    assert Announces(two.tables, 0, 5, 7, 0, 0, 0);
    NamedIsNotGone(three.tables);
  }

  lemma OneWatchErased()
    ensures var t := Erase(ONE_WATCH, 0, GRACE_MS);
            && t.watches == ONE_WATCH.watches && t.alerts == map[] && t.notifications == map[] && Gone(t, 0)
  {
    hide ErasedTastings, ErasedReviews, ClosedReports, ConcernsMember;
  }

  lemma NamedIsNotGone(t: Tables)
    requires 0 in t.notifications && t.notifications[0].userId == 0
    ensures !IsGoneEverywhere(t, 0)
  {
    hide LeavesNoTrace;
  }

  /** Over any run an account is deleted once: its tombstone stays as it is, but for later requests. */
  lemma {:induction false} TombstonesStay(initial: Tables, steps: seq<Step>, i: nat, u: nat)
    requires i <= |steps| && Gone(Run(initial, steps[..i]).tables, u)
    ensures var was, now := Run(initial, steps[..i]).tables.users[u], Run(initial, steps).tables;
            u in now.users && now.users[u] == was.(deletionRequestedAt := now.users[u].deletionRequestedAt)
  {
    hide Next, Erase;
    if i == |steps| {
      assert steps[..i] == steps;
    } else {
      var front, step := steps[..|steps| - 1], steps[|steps| - 1];
      var s := Run(initial, front);
      assert front[..i] == steps[..i];
      TombstonesStay(initial, front, i, u);
      StepChanges(s, step);
      if Erases(s, step) { OtherUsersAreKept(s.tables, s.due[0], step.at, u); }
    }
  }

  lemma OtherUsersAreKept(t: Tables, v: nat, at: int, u: nat)
    requires v in t.users && u in t.users && u != v
    ensures u in Erase(t, v, at).users && Erase(t, v, at).users[u] == t.users[u]
  {
    hide ErasedTastings, ErasedReviews, ClosedReports, ConcernsMember;
  }

  // ---------- The rows of members who stay ----------

  ghost predicate RowsKept<V>(before: map<nat, V>, after: map<nat, V>, ids: set<nat>) {
    forall id :: id in ids && id in before ==> id in after && after[id] == before[id]
  }

  /** Rows are only ever removed. */
  ghost predicate Shrinks(t: Tables, after: Tables) {
    && RowsKept(after.comments, t.comments, after.comments.Keys) && RowsKept(after.toasts, t.toasts, after.toasts.Keys)
    && RowsKept(after.flights, t.flights, after.flights.Keys)
  }

  /** The member's own rows are as before. */
  ghost predicate OwnRowsKept(t: Tables, after: Tables, u: nat) {
    && RowsKept(t.comments, after.comments, OwnRemarks(t.comments, u))
    && RowsKept(t.toasts, after.toasts, OwnRemarks(t.toasts, u))
    && RowsKept(t.flights, after.flights, OwnedBy(t.flights, u))
    && RowsKept(t.awards, after.awards, OwnedBy(t.awards, u))
    && RowsKept(t.collections, after.collections, OwnedBy(t.collections, u))
    && RowsKept(t.signIns, after.signIns, OwnedBy(t.signIns, u))
    && RowsKept(t.pendingUploads, after.pendingUploads, Uploads(t.pendingUploads, u))
    && RowsKept(t.wrongPhotoMatches, after.wrongPhotoMatches, Uploads(t.wrongPhotoMatches, u))
  }

  /** So are the parts of what the member owns, and what the member follows in the catalog. */
  ghost predicate OwnPartsKept(t: Tables, after: Tables, u: nat) {
    && From(t.flightBottles, OwnedBy(t.flights, u)) <= after.flightBottles
    && From(t.entityFollows, {u}) <= after.entityFollows
    && RowsKept(t.tastingAwards, after.tastingAwards, OfAwards(t.tastingAwards, OwnedBy(t.awards, u)))
    && RowsKept(t.awardObjects, after.awardObjects, PartsOf(t.awardObjects, OwnedBy(t.awards, u)))
    && RowsKept(t.collectionBottles, after.collectionBottles,
                InCollections(t.collectionBottles, OwnedBy(t.collections, u)))
  }

  /** A follow or block is lost only with one of its two members. */
  ghost predicate LinksKept(t: Tables, after: Tables) {
    && (forall pair :: pair in t.follows && pair !in after.follows ==> Gone(after, pair.0) || Gone(after, pair.1))
    && (forall pair :: pair in t.blocks && pair !in after.blocks ==> Gone(after, pair.0) || Gone(after, pair.1))
  }

  /** A staff reference is cleared, or a report closed, only with the member it names. */
  ghost predicate ReferencesKept(t: Tables, after: Tables) {
    && (forall id :: id in t.staffReferences ==>
          && id in after.staffReferences
          && (after.staffReferences[id] == t.staffReferences[id]
              || (t.staffReferences[id].Some? && Gone(after, t.staffReferences[id].value))))
    && (forall id :: id in t.reports ==>
          && id in after.reports
          && (after.reports[id] == t.reports[id]
              || (t.reports[id].reportedUserId.Some? && Gone(after, t.reports[id].reportedUserId.value))))
  }

  /** Tags are only lost, and only those of deleted members. */
  ghost predicate TagsKept(friends: seq<nat>, now: seq<nat>, after: Tables) {
    && (forall v :: v in now ==> v in friends)
    && (forall v :: v in friends && v !in now ==> Gone(after, v))
  }

  /** A counter changes only with the remark of a deleted member. */
  ghost predicate CounterKept(remarks: map<nat, Remark>, id: nat, count: int, now: int, after: Tables) {
    now == count || exists c :: c in remarks && remarks[c].tastingId == id && Gone(after, remarks[c].createdById)
  }

  /** A flight is lost only when its owner was deleted. */
  ghost predicate FlightKept(t: Tables, flight: Option<nat>, now: Option<nat>, after: Tables) {
    now == flight
    || (now.None? && flight.Some? && flight.value in t.flights && Gone(after, t.flights[flight.value]))
  }

  ghost predicate TastingKept(t: Tables, after: Tables, id: nat)
    requires id in t.tastings
  {
    && id in after.tastings
    && var row, now := t.tastings[id], after.tastings[id];
       && now == row.(comments := now.comments, toasts := now.toasts, friends := now.friends, flightId := now.flightId)
       && TagsKept(row.friends, now.friends, after) && FlightKept(t, row.flightId, now.flightId, after)
       && CounterKept(t.comments, id, row.comments, now.comments, after)
       && CounterKept(t.toasts, id, row.toasts, now.toasts, after)
  }

  ghost predicate ReviewKept(t: Tables, after: Tables, id: nat)
    requires id in t.reviews
  {
    && id in after.reviews
    && after.reviews[id] == t.reviews[id].(friends := after.reviews[id].friends)
    && TagsKept(t.reviews[id].friends, after.reviews[id].friends, after)
  }

  ghost predicate DraftKept(t: Tables, after: Tables, id: nat)
    requires id in t.drafts
  {
    && id in after.drafts
    && after.drafts[id] == t.drafts[id].(friends := after.drafts[id].friends)
    && TagsKept(t.drafts[id].friends, after.drafts[id].friends, after)
  }

  ghost predicate OwnContentKept(t: Tables, after: Tables, u: nat) {
    && (forall id :: id in t.tastings && t.tastings[id].createdById == u ==> TastingKept(t, after, id))
    && (forall id :: id in t.reviews && t.reviews[id].createdById == u ==> ReviewKept(t, after, id))
    && (forall id :: id in t.drafts && t.drafts[id].createdById == u ==> DraftKept(t, after, id))
  }

  ghost predicate Keeps(t: Tables, after: Tables, u: nat) {
    && Shrinks(t, after) && OwnRowsKept(t, after, u) && OwnPartsKept(t, after, u) && OwnContentKept(t, after, u)
    && LinksKept(t, after) && ReferencesKept(t, after)
  }

  lemma ErasureShrinks(t: Tables, s: Tables, v: nat, at: int)
    requires v in s.users && Shrinks(t, s)
    ensures Shrinks(t, Erase(s, v, at))
  {
    hide ErasedTastings, ErasedReviews, ClosedReports, ConcernsMember;
  }

  lemma ErasureKeepsOwnRows(t: Tables, s: Tables, v: nat, at: int, u: nat)
    requires v in s.users && u != v && OwnRowsKept(t, s, u)
    ensures OwnRowsKept(t, Erase(s, v, at), u)
  {
    hide ErasedTastings, ErasedReviews, ClosedReports, ConcernsMember;
  }

  lemma ErasureKeepsOwnParts(t: Tables, s: Tables, v: nat, at: int, u: nat)
    requires v in s.users && u != v && OwnRowsKept(t, s, u) && OwnPartsKept(t, s, u)
    ensures OwnPartsKept(t, Erase(s, v, at), u)
  {
    hide ErasedTastings, ErasedReviews, ClosedReports, ConcernsMember;
  }

  lemma ErasureKeepsLinks(t: Tables, s: Tables, v: nat, at: int)
    requires v in s.users && LinksKept(t, s)
    ensures LinksKept(t, Erase(s, v, at))
  {
    hide ErasedTastings, ErasedReviews, ClosedReports, ConcernsMember, Tombstone;
    GoneGrows(s, v, at);
  }

  lemma ErasureKeepsReferences(t: Tables, s: Tables, v: nat, at: int)
    requires v in s.users && ReferencesKept(t, s)
    ensures ReferencesKept(t, Erase(s, v, at))
  {
    hide ErasedTastings, ErasedReviews, ConcernsMember, Tombstone;
    GoneGrows(s, v, at);
  }

  lemma GoneGrows(s: Tables, v: nat, at: int)
    requires v in s.users
    ensures Gone(Erase(s, v, at), v) && forall w :: Gone(s, w) ==> Gone(Erase(s, v, at), w)
  {
    ErasedUsers(s, v, at);
  }

  lemma TagsKeptAgain(friends: seq<nat>, now: seq<nat>, s: Tables, after: Tables, v: nat)
    requires TagsKept(friends, now, s) && Gone(after, v) && forall w :: Gone(s, w) ==> Gone(after, w)
    ensures TagsKept(friends, WithoutFriend(now, v), after)
  {
    NoTagToRemove(now, v);
  }

  lemma CounterKeptAgain(remarks: map<nat, Remark>, current: map<nat, Remark>, id: nat, count: int, now: int,
      s: Tables, after: Tables, v: nat, later: int)
    requires CounterKept(remarks, id, count, now, s) && RowsKept(current, remarks, current.Keys)
    requires Gone(after, v) && forall w :: Gone(s, w) ==> Gone(after, w)
    requires OwnOnTasting(current, v, id) == {} ==> later == now
    ensures CounterKept(remarks, id, count, later, after)
  {
    if OwnOnTasting(current, v, id) != {} {
      var c :| c in OwnOnTasting(current, v, id);
      assert c in remarks && remarks[c] == current[c];
    }
  }

  lemma ErasureKeepsTasting(t: Tables, s: Tables, v: nat, at: int, id: nat)
    requires v in s.users && id in t.tastings && t.tastings[id].createdById != v
             && Shrinks(t, s) && TastingKept(t, s, id)
    ensures TastingKept(t, Erase(s, v, at), id)
  {
    hide WithoutFriend, OwnOnTasting, TagsKept, CounterKept, RowsKept, ErasedReviews, ClosedReports, ConcernsMember;
    var after := Erase(s, v, at);
    GoneGrows(s, v, at);
    var row, now := t.tastings[id], s.tastings[id];
    assert after.tastings[id] == ErasedTasting(s, v, at, id, now);
    TagsKeptAgain(row.friends, now.friends, s, after, v);
    CounterKeptAgain(t.comments, s.comments, id, row.comments, now.comments, s, after, v, after.tastings[id].comments);
    CounterKeptAgain(t.toasts, s.toasts, id, row.toasts, now.toasts, s, after, v, after.tastings[id].toasts);
    FlightKeptAgain(t, s, v, at, row.flightId, now.flightId);
  }

  lemma FlightKeptAgain(t: Tables, s: Tables, v: nat, at: int, flight: Option<nat>, now: Option<nat>)
    requires v in s.users && Shrinks(t, s) && FlightKept(t, flight, now, s)
    ensures var later := if now.Some? && now.value in OwnedBy(s.flights, v) then None else now;
            FlightKept(t, flight, later, Erase(s, v, at))
  {
    hide Erase;
    GoneGrows(s, v, at);
  }

  lemma ErasureKeepsReviews(t: Tables, s: Tables, v: nat, at: int, u: nat)
    requires v in s.users && u != v && OwnContentKept(t, s, u)
    ensures var after := Erase(s, v, at);
            && (forall id :: id in t.reviews && t.reviews[id].createdById == u ==> ReviewKept(t, after, id))
            && (forall id :: id in t.drafts && t.drafts[id].createdById == u ==> DraftKept(t, after, id))
  {
    hide WithoutFriend, TagsKept, ErasedTastings, ClosedReports, ConcernsMember, TastingKept;
    var after := Erase(s, v, at);
    GoneGrows(s, v, at);
    forall id | id in t.reviews && t.reviews[id].createdById == u ensures ReviewKept(t, after, id) {
      assert ReviewKept(t, s, id);
      TagsKeptAgain(t.reviews[id].friends, s.reviews[id].friends, s, after, v);
    }
    forall id | id in t.drafts && t.drafts[id].createdById == u ensures DraftKept(t, after, id) {
      assert DraftKept(t, s, id);
      TagsKeptAgain(t.drafts[id].friends, s.drafts[id].friends, s, after, v);
    }
  }

  lemma ErasureKeeps(t: Tables, s: Tables, v: nat, at: int, u: nat)
    requires v in s.users && u != v && Keeps(t, s, u)
    ensures Keeps(t, Erase(s, v, at), u)
  {
    hide Erase, Shrinks, OwnRowsKept, OwnPartsKept, LinksKept, ReferencesKept, TastingKept, ReviewKept, DraftKept;
    ErasureShrinks(t, s, v, at);
    ErasureKeepsOwnRows(t, s, v, at, u);
    ErasureKeepsOwnParts(t, s, v, at, u);
    ErasureKeepsLinks(t, s, v, at);
    ErasureKeepsReferences(t, s, v, at);
    ErasureKeepsReviews(t, s, v, at, u);
    forall id | id in t.tastings && t.tastings[id].createdById == u ensures TastingKept(t, Erase(s, v, at), id) {
      ErasureKeepsTasting(t, s, v, at, id);
    }
  }

  lemma MinorChangeKeepsRows(t: Tables, s: Tables, after: Tables, u: nat)
    requires MinorChange(s, after)
    ensures Shrinks(t, s) ==> Shrinks(t, after)
    ensures OwnRowsKept(t, s, u) ==> OwnRowsKept(t, after, u)
    ensures OwnPartsKept(t, s, u) ==> OwnPartsKept(t, after, u)
    ensures LinksKept(t, s) ==> LinksKept(t, after)
    ensures ReferencesKept(t, s) ==> ReferencesKept(t, after)
  {
    hide RowsKept, OwnRemarks, OwnedBy, Uploads, From, OnlyAnnouncements;
  }

  lemma MinorChangeKeepsContent(t: Tables, s: Tables, after: Tables, u: nat)
    requires MinorChange(s, after) && OwnContentKept(t, s, u)
    ensures OwnContentKept(t, after, u)
  {
    hide OnlyAnnouncements;
    assert forall v :: Gone(s, v) ==> Gone(after, v);
    hide Gone, OnlyRequestsDiffer;
    forall id | id in t.tastings && t.tastings[id].createdById == u ensures TastingKept(t, after, id) {
      assert TastingKept(t, s, id);
    }
    forall id | id in t.reviews && t.reviews[id].createdById == u ensures ReviewKept(t, after, id) {
      assert ReviewKept(t, s, id);
    }
    forall id | id in t.drafts && t.drafts[id].createdById == u ensures DraftKept(t, after, id) {
      assert DraftKept(t, s, id);
    }
  }

  lemma KeepsAll(t: Tables, u: nat)
    ensures Keeps(t, t, u)
  {
    hide OwnedBy, OwnRemarks, Uploads, OfAwards, PartsOf, InCollections;
  }

  /** Over any run, a member whose account was not deleted keeps all own rows and their parts; own tastings, reviews
      and drafts lose only tags, flights and remarks of members who were deleted, and no link between members is lost
      unless one of the two was. */
  lemma {:induction false} SurvivorsKeepTheirRows(initial: Tables, steps: seq<Step>, u: nat)
    requires u in initial.users && !Gone(Run(initial, steps).tables, u)
    ensures Keeps(initial, Run(initial, steps).tables, u)
  {
    hide Next, Erase, MinorChange, Shrinks, OwnRowsKept, OwnPartsKept, LinksKept, ReferencesKept, OwnContentKept;
    if steps == [] {
      KeepsAll(initial, u);
    } else {
      var front, step := steps[..|steps| - 1], steps[|steps| - 1];
      var s := Run(initial, front);
      var after := Next(s, step).tables;
      GoneAfter(s, step, u);
      SurvivorsKeepTheirRows(initial, front, u);
      StepChanges(s, step);
      if Erases(s, step) {
        ErasureKeeps(initial, s.tables, s.due[0], step.at, u);
      } else {
        MinorChangeKeepsRows(initial, s.tables, after, u);
        MinorChangeKeepsContent(initial, s.tables, after, u);
      }
    }
  }

  // ---------- A round of the worker is such a run ----------

  /** The deletions of the first `n` due accounts; those in `fails` throw. */
  function RoundSteps(due: seq<nat>, fails: set<nat>, at: int, n: nat): seq<Step>
    requires n <= |due|
  {
    if n == 0 then [] else RoundSteps(due, fails, at, n - 1) + [DeleteNext(at, due[n - 1] in fails)]
  }

  lemma {:induction false} RoundIsARunSoFar(t: Tables, due: seq<nat>, now: int, fails: set<nat>, at: int, n: nat)
    requires n <= |due| <= 100 && forall u :: u in due ==> IsDue(t, u, now - GRACE_MS)
    ensures Run(t, [ReadDue(now, due)] + RoundSteps(due, fails, at, n)) ==
            Scheduler(AfterRound(t, due, now - GRACE_MS, fails, at, n), due[n..], now - GRACE_MS)
  {
    hide DeleteAccount;
    var steps := [ReadDue(now, due)] + RoundSteps(due, fails, at, n);
    if n == 0 {
      assert steps == [ReadDue(now, due)] && steps[..0] == [] && due[0..] == due;
    } else {
      assert steps[..|steps| - 1] == [ReadDue(now, due)] + RoundSteps(due, fails, at, n - 1);
      RoundIsARunSoFar(t, due, now, fails, at, n - 1);
      assert due[n - 1..][0] == due[n - 1] && due[n - 1..][1..] == due[n..];
    }
  }

  /** What `ProcessDueAccountDeletions` leaves of all tables is what a run leaves, so all of the above holds of it. */
  lemma RoundIsARun(t: Tables, due: seq<nat>, now: int, fails: set<nat>, at: int)
    requires |due| <= 100 && forall u :: u in due ==> IsDue(t, u, now - GRACE_MS)
    ensures AfterRound(t, due, now - GRACE_MS, fails, at, |due|) ==
            Run(t, [ReadDue(now, due)] + RoundSteps(due, fails, at, |due|)).tables
  {
    RoundIsARunSoFar(t, due, now, fails, at, |due|);
  }
}
