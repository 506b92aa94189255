/** What storing twice and every run of store and publish transactions leave true of review rows. */
module ReviewRuns {
  import opened Wrappers
  import opened Text
  import opened ReviewStore

  // ---------- Storing the same article again ----------

  /** The input schema refuses an article that uses a source key twice. */
  ghost predicate KeysAreUnique(input: ArticleInput) {
    forall i, j :: 0 <= i < j < |input.reviews| ==> input.reviews[i].sourceKey != input.reviews[j].sourceKey
  }

  /** The review under `key` is not among the first `n`. */
  ghost predicate NotAmong(input: ArticleInput, n: nat, key: ReviewKey)
    requires n <= |input.reviews|
  {
    forall i :: 0 <= i < n ==> KeyOf(input, input.reviews[i]) != key
  }

  function BodyAfter(existing: Option<Body>, input: ArticleInput, item: Incoming, origin: Origin): Option<Body> {
    if origin == Source && item.body.Some? && input.article.fetchedAt.Some?
    then Some(Body(item.body.value, input.article.fetchedAt.value)) else existing
  }

  lemma {:induction false} UntouchedReview(rows: Rows, input: ArticleInput, origin: Origin, approved: bool,
      active: set<nat>, n: nat, key: ReviewKey)
    requires n <= |input.reviews| && NotAmong(input, n, key)
    ensures var after := WithReviews(rows, input, origin, approved, active, n);
            Find(after.reviews, key) == Find(rows.reviews, key) && Find(after.bodies, key) == Find(rows.bodies, key)
  {
    hide StoredReview;
    if n > 0 { UntouchedReview(rows, input, origin, approved, active, n - 1, key); }
  }

  /** Each review's row depends on its own earlier row and item only, and nothing else is written. */
  lemma {:induction false} StoredExactly(rows: Rows, input: ArticleInput, origin: Origin, approved: bool,
      active: set<nat>, n: nat, i: nat)
    requires i < n <= |input.reviews| && KeysAreUnique(input)
    ensures var after := WithReviews(rows, input, origin, approved, active, n);
            var item := input.reviews[i];
            var key := KeyOf(input, item);
            && Find(after.reviews, key) == Some(StoredReview(Find(rows.reviews, key), item, origin, approved, active))
            && Find(after.bodies, key) == BodyAfter(Find(rows.bodies, key), input, item, origin)
  {
    hide StoredReview;
    if i == n - 1 {
      UntouchedReview(rows, input, origin, approved, active, n - 1, KeyOf(input, input.reviews[i]));
    } else {
      StoredExactly(rows, input, origin, approved, active, n - 1, i);
    }
  }

  lemma {:induction false} ArticleStored(rows: Rows, input: ArticleInput, origin: Origin, approved: bool,
      active: set<nat>, n: nat)
    requires n <= |input.reviews|
    ensures WithReviews(rows, input, origin, approved, active, n).articles ==
            rows.articles[input.key := StoredArticle(Find(rows.articles, input.key), input.article, origin)]
  {
    hide StoredReview;
    if n > 0 { ArticleStored(rows, input, origin, approved, active, n - 1); }
  }

  /** Storing a review again changes nothing, except a manually created one with an inactive Bottle. */
  lemma ReviewStoredTwice(existing: Option<Review>, item: Incoming, origin: Origin, approved: bool, active: set<nat>)
    ensures var once := StoredReview(existing, item, origin, approved, active);
            StoredReview(Some(once), item, origin, approved, active) == once <==>
              origin == Source || existing.Some? || !HasInvalidBottle(item, active)
  {
    hide Sort, DistinctOf;
    var once := StoredReview(existing, item, origin, approved, active);
    var twice := StoredReview(Some(once), item, origin, approved, active);
    assert twice.bottleId == once.bottleId;
    assert twice == once.(hidden := twice.hidden);
  }

  lemma SameTables(a: Rows, b: Rows)
    requires a.articles == b.articles
    requires forall key :: Find(a.reviews, key) == Find(b.reviews, key) && Find(a.bodies, key) == Find(b.bodies, key)
    ensures a == b
  {
    assert forall key :: key in a.reviews <==> Find(a.reviews, key).Some?;
    assert forall key :: key in b.reviews <==> Find(b.reviews, key).Some?;
    assert forall key :: key in a.bodies <==> Find(a.bodies, key).Some?;
    assert forall key :: key in b.bodies <==> Find(b.bodies, key).Some?;
    assert a.reviews == b.reviews;
    assert a.bodies == b.bodies;
  }

  /** Some review would be created by hand with a Bottle that is not active. */
  ghost predicate CreatesWithoutItsBottle(rows: Rows, input: ArticleInput, origin: Origin, active: set<nat>) {
    && origin == Manual
    && (exists i :: 0 <= i < |input.reviews| && HasInvalidBottle(input.reviews[i], active)
                    && KeyOf(input, input.reviews[i]) !in rows.reviews)
  }

  lemma RowsStoredTwice(rows: Rows, input: ArticleInput, origin: Origin, approved: bool, active: set<nat>)
    requires KeysAreUnique(input) && !CreatesWithoutItsBottle(rows, input, origin, active)
    ensures var once := WithReviews(rows, input, origin, approved, active, |input.reviews|);
            WithReviews(once, input, origin, approved, active, |input.reviews|) == once
  {
    hide StoredReview, WithReviews, HasInvalidBottle;
    var n := |input.reviews|;
    var once := WithReviews(rows, input, origin, approved, active, n);
    var twice := WithReviews(once, input, origin, approved, active, n);
    ArticleStored(rows, input, origin, approved, active, n);
    ArticleStored(once, input, origin, approved, active, n);
    forall key
      ensures Find(twice.reviews, key) == Find(once.reviews, key)
              && Find(twice.bodies, key) == Find(once.bodies, key) {
      if NotAmong(input, n, key) {
        UntouchedReview(once, input, origin, approved, active, n, key);
      } else {
        var i :| 0 <= i < n && KeyOf(input, input.reviews[i]) == key;
        StoredExactly(rows, input, origin, approved, active, n, i);
        StoredExactly(once, input, origin, approved, active, n, i);
        ReviewStoredTwice(Find(rows.reviews, key), input.reviews[i], origin, approved, active);
      }
    }
    SameTables(twice, once);
  }

  /** Storing an article again changes nothing; only a hand-made review staged without its Bottle is hidden later. */
  lemma StoringTwiceExactly(rows: Rows, input: ArticleInput, origin: Origin, action: InvalidBottleAction, w: World)
    requires KeysAreUnique(input) && StoreOutcome(input, origin, action, w) == Stored
    ensures var once := StoreArticle(rows, input, origin, action, w);
            StoreArticle(once, input, origin, action, w) == once <==>
              !CreatesWithoutItsBottle(rows, input, origin, w.active)
  {
    hide StoredReview, WithReviews, HasInvalidBottle, StoreOutcome;
    var n, approved := |input.reviews|, input.key.site in w.approved;
    var once := StoreArticle(rows, input, origin, action, w);
    if CreatesWithoutItsBottle(rows, input, origin, w.active) {
      var i :| 0 <= i < n && HasInvalidBottle(input.reviews[i], w.active)
               && KeyOf(input, input.reviews[i]) !in rows.reviews;
      StoredExactly(rows, input, origin, approved, w.active, n, i);
      StoredExactly(once, input, origin, approved, w.active, n, i);
      ReviewStoredTwice(None, input.reviews[i], origin, approved, w.active);
    } else {
      RowsStoredTwice(rows, input, origin, approved, w.active);
    }
  }

  /** Importing the same source article again changes nothing. */
  lemma SourceImportIsIdempotent(rows: Rows, input: ArticleInput, action: InvalidBottleAction, w: World)
    requires KeysAreUnique(input)
    ensures var once := StoreArticle(rows, input, Source, action, w);
            StoreArticle(once, input, Source, action, w) == once
  {
    hide StoreOutcome, WithReviews;
    if StoreOutcome(input, Source, action, w) == Stored { StoringTwiceExactly(rows, input, Source, action, w); }
  }

  /** A review made by hand for a staged Bottle is visible at first and hidden by storing it once more. */
  lemma StoredTwiceExample()
    ensures var item := Incoming("k", "n", None, None, None, Some(1), None, None, None, None, None);
            var key := ArticleKey(0, "u");
            var input := ArticleInput(key, Article(None, None, None, None, None), [item]);
            var w := World({0}, {}, {}, map[]);
            var once := StoreArticle(Rows(map[], map[], map[]), input, Manual, Stage, w);
            var twice := StoreArticle(once, input, Manual, Stage, w);
            && ReviewKey(key, "k") in once.reviews && !once.reviews[ReviewKey(key, "k")].hidden
            && ReviewKey(key, "k") in twice.reviews && twice.reviews[ReviewKey(key, "k")].hidden
  {
    hide StoredReview;
    var item := Incoming("k", "n", None, None, None, Some(1), None, None, None, None, None);
    var input := ArticleInput(ArticleKey(0, "u"), Article(None, None, None, None, None), [item]);
    var none := Rows(map[], map[], map[]);
    var once := WithReviews(none, input, Manual, false, {}, 1);
    StoredExactly(none, input, Manual, false, {}, 1, 0);
    StoredExactly(once, input, Manual, false, {}, 1, 0);
    ShownThenHidden(item);
  }

  lemma ShownThenHidden(item: Incoming)
    requires HasInvalidBottle(item, {})
    ensures var once := StoredReview(None, item, Manual, false, {});
            !once.hidden && StoredReview(Some(once), item, Manual, false, {}).hidden
  {}

  // ---------- What a stored row holds ----------

  /** Sorted, each value once, and exactly the values of `values`. */
  ghost predicate SortedOnce(tags: seq<string>, values: seq<string>) {
    Ascending(tags) && forall tag :: tag in tags <==> tag in values
  }

  lemma {:induction false} DistinctOfKeepsOnce(tags: seq<string>)
    ensures Distinct(DistinctOf(tags)) && forall tag :: tag in DistinctOf(tags) <==> tag in tags
  {
    if tags != [] {
      var front := tags[..|tags| - 1];
      DistinctOfKeepsOnce(front);
      assert tags == front + [tags[|tags| - 1]];
    }
  }

  /** Category, reviewer, clip, version and tags: an import replaces what it supplies, and a review made by hand keeps
      what the row had. */
  ghost predicate TakesDetails(existing: Option<Review>, item: Incoming, origin: Origin, row: Review) {
    var had := existing.GetOr(row);
    if origin == Source then
      && row.category == item.category && row.reviewerName == item.reviewerName
      && (item.clip.Some? ==> row.clip == item.clip.value)
      && (item.clip.None? ==> row.clip == if existing.Some? then had.clip else None)
      && (item.version.Some? ==> row.version == item.version.value)
      && (item.version.None? ==> row.version == if existing.Some? then had.version else 0)
      && (item.tags.Some? ==> SortedOnce(row.tags, item.tags.value))
      && (item.tags.None? ==> row.tags == if existing.Some? then had.tags else [])
    else if existing.Some? then
      row.category == had.category && row.reviewerName == had.reviewerName && row.clip == had.clip
      && row.version == had.version && row.tags == had.tags
    else
      row.category.None? && row.reviewerName.None? && row.clip.None? && row.version == 0 && row.tags == []
  }

  /** The Bottle, the reference it was matched by and the recorded failure to match: an assigned Bottle stays with its
      reference, an active one is taken with the item's, and a new name is a new question. */
  ghost predicate TakesMatch(existing: Option<Review>, item: Incoming, row: Review, active: set<nat>) {
    && (if existing.Some? && existing.value.bottleId.Some? then
          row.bottleId == existing.value.bottleId && row.matchedReferenceId == existing.value.matchedReferenceId
        else if item.bottleId.Some? && item.bottleId.value in active then
          row.bottleId == item.bottleId && row.matchedReferenceId == item.matchedReferenceId
        else row.bottleId.None? && row.matchedReferenceId.None?)
    && (if existing.Some? && existing.value.name == item.name then row.noMatchAt == existing.value.noMatchAt
        else row.noMatchAt.None?)
  }

  /** A new review made by hand is visible, and a new import only with a Bottle on a site whose reviews are published.
      An existing review is hidden when its own or an unassigned Bottle is not active, shown when such an import assigns
      its first Bottle, and otherwise left as it was. */
  ghost predicate TakesVisibility(existing: Option<Review>, item: Incoming, origin: Origin, approved: bool, row: Review,
      active: set<nat>)
  {
    var inactive := item.bottleId.Some? && item.bottleId.value !in active;
    var shows := origin == Source && approved && row.bottleId.Some?;
    if existing.None? then row.hidden <==> origin == Source && !shows
    else
      var had := existing.value;
      && (inactive && (had.bottleId.None? || had.bottleId == item.bottleId) ==> row.hidden)
      && (inactive && had.bottleId.Some? && had.bottleId != item.bottleId ==> row.hidden == had.hidden)
      && (!inactive ==> (row.hidden <==> had.hidden && !(shows && had.bottleId.None?)))
  }

  /** What one stored row takes from the item and what it keeps of the row before. */
  lemma StoredRowFollowsItem(existing: Option<Review>, item: Incoming, origin: Origin, approved: bool, active: set<nat>)
    ensures var row := StoredReview(existing, item, origin, approved, active);
            && row.name == item.name && row.nativeScore == item.nativeScore
            && TakesDetails(existing, item, origin, row)
            && TakesMatch(existing, item, row, active)
            && TakesVisibility(existing, item, origin, approved, row, active)
  {
    hide Sort, DistinctOf;
    if item.tags.Some? {
      DistinctOfKeepsOnce(item.tags.value);
      SortSorts(DistinctOf(item.tags.value));
    }
  }

  /** An article is stored exactly when its site exists, no Bottle is refused, every named reference is an accepted one
      for its Bottle, and no body lacks its fetch date. */
  lemma StoredOutcomeExactly(input: ArticleInput, origin: Origin, action: InvalidBottleAction, w: World)
    ensures StoreOutcome(input, origin, action, w) == Stored <==>
            && input.key.site in w.sites
            && (forall item | item in input.reviews && item.bottleId.Some? ::
                  && (action == Reject ==> item.bottleId.value in w.active)
                  && (item.matchedReferenceId.Some? ==>
                        item.matchedReferenceId.value in w.references
                        && w.references[item.matchedReferenceId.value] == Reference(item.bottleId.value, false)))
            && (origin == Source && input.article.fetchedAt.None? ==>
                  forall item | item in input.reviews :: item.body.None?)
  {}

  /** A stored import saves the article as it is, and every supplied body with the fetch date. Made by hand, an article
      that exists only gets its issue, and no body is touched. */
  lemma StoredArticleFollowsInput(rows: Rows, input: ArticleInput, origin: Origin, action: InvalidBottleAction,
      w: World, i: nat)
    requires KeysAreUnique(input) && StoreOutcome(input, origin, action, w) == Stored && i < |input.reviews|
    ensures var after := StoreArticle(rows, input, origin, action, w);
            var item := input.reviews[i];
            var key := KeyOf(input, item);
            && input.key in after.articles
            && after.articles[input.key] ==
                 (if origin == Manual && input.key in rows.articles
                  then rows.articles[input.key].(issue := input.article.issue) else input.article)
            && (if origin == Source && item.body.Some? then
                  input.article.fetchedAt.Some?
                  && Find(after.bodies, key) == Some(Body(item.body.value, input.article.fetchedAt.value))
                else Find(after.bodies, key) == Find(rows.bodies, key))
  {
    hide StoredReview, WithReviews, HasInvalidBottle, ReferenceHolds;
    var n, approved := |input.reviews|, input.key.site in w.approved;
    ArticleStored(rows, input, origin, approved, w.active, n);
    StoredExactly(rows, input, origin, approved, w.active, n, i);
    assert input.reviews[i] in input.reviews;
  }

  // ---------- Publishing ----------

  /** Publishing all of a site's reviews publishes each of them, so publishing one before or after changes nothing. */
  lemma PublishAllCoversEach(rows: Rows, site: nat, key: ReviewKey, active: set<nat>)
    ensures PublishAll(PublishOne(rows, site, key, active), site, active) == PublishAll(rows, site, active)
    ensures PublishOne(PublishAll(rows, site, active), site, key, active) == PublishAll(rows, site, active)
  {
    var one, all := PublishOne(rows, site, key, active), PublishAll(rows, site, active);
    assert PublishAll(one, site, active).reviews == all.reviews;
    assert PublishOne(all, site, key, active).reviews == all.reviews;
  }

  // ---------- Runs ----------

  datatype Step =
    | Store(input: ArticleInput, origin: Origin, action: InvalidBottleAction, world: World)
    | PublishReview(site: nat, key: ReviewKey, active: set<nat>)
    | PublishSite(site: nat, active: set<nat>)

  function Next(rows: Rows, step: Step): Rows {
    match step
    case Store(input, origin, action, w) => StoreArticle(rows, input, origin, action, w)
    case PublishReview(site, key, active) => PublishOne(rows, site, key, active)
    case PublishSite(site, active) => PublishAll(rows, site, active)
  }

  function Run(steps: seq<Step>): Rows {
    if steps == [] then Rows(map[], map[], map[]) else Next(Run(steps[..|steps| - 1]), steps[|steps| - 1])
  }

  predicate VisibleOnlyWithBottle(row: Review) {
    !row.hidden ==> row.bottleId.Some?
  }

  /** What storing may do to a row that exists. */
  ghost predicate KeptByStoring(row: Review, after: Review, origin: Origin, approved: bool, active: set<nat>) {
    && (row.bottleId.Some? ==> after.bottleId == row.bottleId)
    && (row.hidden && row.bottleId.Some? ==> after.hidden)
    && (VisibleOnlyWithBottle(row) ==> VisibleOnlyWithBottle(after))
    && (row.hidden && !after.hidden ==>
          origin == Source && approved && after.bottleId.Some? && after.bottleId.value in active)
  }

  lemma StoredReviewIsKept(row: Review, item: Incoming, origin: Origin, approved: bool, active: set<nat>)
    ensures KeptByStoring(row, StoredReview(Some(row), item, origin, approved, active), origin, approved, active)
  {
    hide Sort, DistinctOf;
  }

  lemma {:induction false} StoringKeepsRow(rows: Rows, input: ArticleInput, origin: Origin, approved: bool,
      active: set<nat>, n: nat, key: ReviewKey)
    requires n <= |input.reviews| && key in rows.reviews
    ensures var after := WithReviews(rows, input, origin, approved, active, n);
            key in after.reviews && KeptByStoring(rows.reviews[key], after.reviews[key], origin, approved, active)
  {
    hide StoredReview;
    if n > 0 {
      StoringKeepsRow(rows, input, origin, approved, active, n - 1, key);
      var before := WithReviews(rows, input, origin, approved, active, n - 1).reviews[key];
      StoredReviewIsKept(before, input.reviews[n - 1], origin, approved, active);
    }
  }

  /** A source import never creates a visible review without a Bottle. */
  lemma {:induction false} CreatedVisibleOnlyWithBottle(rows: Rows, input: ArticleInput, approved: bool,
      active: set<nat>, n: nat, key: ReviewKey)
    requires n <= |input.reviews| && key !in rows.reviews
    ensures var after := WithReviews(rows, input, Source, approved, active, n);
            key in after.reviews ==> VisibleOnlyWithBottle(after.reviews[key])
  {
    hide Sort, DistinctOf;
    if n > 0 {
      CreatedVisibleOnlyWithBottle(rows, input, approved, active, n - 1, key);
      var before := WithReviews(rows, input, Source, approved, active, n - 1);
      if key in before.reviews {
        StoredReviewIsKept(before.reviews[key], input.reviews[n - 1], Source, approved, active);
      }
    }
  }

  /** The step publishes this review, if its Bottle is active. */
  predicate Publishes(step: Step, key: ReviewKey, row: Review) {
    row.bottleId.Some? && match step
      case Store(_, _, _, _) => false
      case PublishReview(site, k, active) => k == key && key.article.site == site && row.bottleId.value in active
      case PublishSite(site, active) => key.article.site == site && row.bottleId.value in active
  }

  /** Rows stay, an assigned Bottle stays, and a visible row with no Bottle is never made. */
  lemma NextKeepsRow(rows: Rows, step: Step, key: ReviewKey)
    requires key in rows.reviews
    ensures key in Next(rows, step).reviews
    ensures var row, after := rows.reviews[key], Next(rows, step).reviews[key];
            && (row.bottleId.Some? ==> after.bottleId == row.bottleId)
            && (VisibleOnlyWithBottle(row) ==> VisibleOnlyWithBottle(after))
  {
    hide WithReviews, StoreOutcome, StoredReview;
    if step.Store? {
      var input := step.input;
      StoringKeepsRow(rows, input, step.origin, input.key.site in step.world.approved,
                      step.world.active, |input.reviews|, key);
    }
  }

  /** A hidden review that has its Bottle becomes visible exactly by a publish step while that Bottle is active. */
  lemma HiddenReviewsAreShownByPublishing(rows: Rows, step: Step, key: ReviewKey)
    requires key in rows.reviews && rows.reviews[key].hidden && rows.reviews[key].bottleId.Some?
    ensures key in Next(rows, step).reviews
    ensures !Next(rows, step).reviews[key].hidden <==> Publishes(step, key, rows.reviews[key])
  {
    hide WithReviews, StoreOutcome, StoredReview;
    if step.Store? {
      var input := step.input;
      StoringKeepsRow(rows, input, step.origin, input.key.site in step.world.approved,
                      step.world.active, |input.reviews|, key);
    }
  }

  /** A hidden review without a Bottle is shown only by a source import of an approved site that finds its Bottle. */
  lemma ImportsShowWhatTheyResolve(rows: Rows, step: Step, key: ReviewKey)
    requires key in rows.reviews && rows.reviews[key].hidden && rows.reviews[key].bottleId.None?
    requires key in Next(rows, step).reviews && !Next(rows, step).reviews[key].hidden
    ensures step.Store? && step.origin == Source && step.input.key.site in step.world.approved
    ensures Next(rows, step).reviews[key].bottleId.Some?
            && Next(rows, step).reviews[key].bottleId.value in step.world.active
  {
    hide WithReviews, StoreOutcome, StoredReview;
    if step.Store? {
      var input := step.input;
      StoringKeepsRow(rows, input, step.origin, input.key.site in step.world.approved,
                      step.world.active, |input.reviews|, key);
    }
  }

  /** Over any run an assigned Bottle never changes. */
  lemma {:induction false} AssignedBottleNeverChanges(steps: seq<Step>, i: nat, key: ReviewKey)
    requires i <= |steps| && key in Run(steps[..i]).reviews && Run(steps[..i]).reviews[key].bottleId.Some?
    ensures key in Run(steps).reviews && Run(steps).reviews[key].bottleId == Run(steps[..i]).reviews[key].bottleId
  {
    hide Next;
    if i == |steps| {
      assert steps[..i] == steps;
    } else {
      var front := steps[..|steps| - 1];
      assert front[..i] == steps[..i];
      AssignedBottleNeverChanges(front, i, key);
      NextKeepsRow(Run(front), steps[|steps| - 1], key);
    }
  }

  /** The row under `key` exists after the run and was created by a source import. */
  ghost predicate SourceCreated(steps: seq<Step>, key: ReviewKey) {
    && steps != [] && key in Run(steps).reviews
    && var front, last := steps[..|steps| - 1], steps[|steps| - 1];
       if key in Run(front).reviews then SourceCreated(front, key) else last.Store? && last.origin == Source
  }

  /** Over any run a review created by a source import is visible only with a Bottle. */
  lemma {:induction false} SourceReviewsAreVisibleOnlyWithBottle(steps: seq<Step>, key: ReviewKey)
    requires SourceCreated(steps, key)
    ensures VisibleOnlyWithBottle(Run(steps).reviews[key])
  {
    hide WithReviews, StoreOutcome;
    var front, last := steps[..|steps| - 1], steps[|steps| - 1];
    if key in Run(front).reviews {
      SourceReviewsAreVisibleOnlyWithBottle(front, key);
      NextKeepsRow(Run(front), last, key);
    } else {
      CreatedVisibleOnlyWithBottle(Run(front), last.input, last.input.key.site in last.world.approved,
                                   last.world.active, |last.input.reviews|, key);
    }
  }
}
