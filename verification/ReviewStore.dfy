/** External review articles and their reviews: ingestion, staging and publication. */
module ReviewStore {
  import opened Wrappers
  import opened Text

  // ---------- Rows ----------

  datatype Score = Score(value: real, scale: real, display: string)

  datatype Review = Review(
    name: string,
    category: Option<string>,
    reviewerName: Option<string>,
    nativeScore: Option<Score>,
    bottleId: Option<nat>,
    matchedReferenceId: Option<nat>,
    hidden: bool,
    noMatchAt: Option<int>,
    clip: Option<string>,
    version: nat,
    tags: seq<string>
  )

  datatype Article = Article(
    title: Option<string>, issue: Option<string>, publishedAt: Option<int>, contentHash: Option<string>,
    fetchedAt: Option<int>)

  datatype Body = Body(text: string, fetchedAt: int)

  datatype ArticleKey = ArticleKey(site: nat, url: string)
  datatype ReviewKey = ReviewKey(article: ArticleKey, sourceKey: string)

  datatype Rows = Rows(
    articles: map<ArticleKey, Article>,
    reviews: map<ReviewKey, Review>,
    bodies: map<ReviewKey, Body>)

  // ---------- Input ----------

  /** A missing outer value was not supplied. */
  datatype Incoming = Incoming(
    sourceKey: string,
    name: string,
    category: Option<string>,
    reviewerName: Option<string>,
    nativeScore: Option<Score>,
    bottleId: Option<nat>,
    matchedReferenceId: Option<nat>,
    clip: Option<Option<string>>,
    version: Option<nat>,
    tags: Option<seq<string>>,
    body: Option<string>)

  datatype ArticleInput = ArticleInput(key: ArticleKey, article: Article, reviews: seq<Incoming>)

  datatype Origin = Manual | Source
  datatype InvalidBottleAction = Reject | Stage

  datatype Reference = Reference(bottleId: nat, ignored: bool)

  /** What the transaction reads besides the review tables. */
  datatype World = World(sites: set<nat>, approved: set<nat>, active: set<nat>, references: map<nat, Reference>)

  datatype Outcome = Stored | SiteMissing | BottleInactive | ReferenceChanged | FetchDateMissing

  // ---------- One review ----------

  /** The distinct values in the order of first mention. */
  function DistinctOf(tags: seq<string>): seq<string> {
    if tags == [] then []
    else
      var front, last := tags[..|tags| - 1], tags[|tags| - 1];
      if last in front then DistinctOf(front) else DistinctOf(front) + [last]
  }

  predicate HasInvalidBottle(item: Incoming, active: set<nat>) {
    item.bottleId.Some? && item.bottleId.value !in active
  }

  function BottleOf(existing: Option<Review>): Option<nat> {
    if existing.Some? then existing.value.bottleId else None
  }

  /** A Bottle once assigned stays; else the incoming one, if active, is taken. */
  function StoredBottle(existing: Option<Review>, item: Incoming, active: set<nat>): Option<nat> {
    if BottleOf(existing).Some? then BottleOf(existing)
    else if HasInvalidBottle(item, active) then None
    else item.bottleId
  }

  function StoredHidden(existing: Option<Review>, item: Incoming, origin: Origin,
      approved: bool, active: set<nat>): bool
  {
    var publishes := origin == Source && approved;
    if existing.None? then origin == Source && !(publishes && StoredBottle(existing, item, active).Some?)
    else
      var row := existing.value;
      if HasInvalidBottle(item, active) && (row.bottleId.None? || row.bottleId == item.bottleId) then true
      else if publishes && row.bottleId.None? && StoredBottle(existing, item, active).Some? then false
      else row.hidden
  }

  function StoredReview(existing: Option<Review>, item: Incoming, origin: Origin,
      approved: bool, active: set<nat>): Review
  {
    var was := existing.GetOr(Review(item.name, None, None, None, None, None, false, None, None, 0, []));
    var bottleId := StoredBottle(existing, item, active);
    var source := origin == Source;
    Review(
      item.name,
      if source then item.category else was.category,
      if source then item.reviewerName else was.reviewerName,
      item.nativeScore,
      bottleId,
      if was.bottleId.Some? then was.matchedReferenceId else if bottleId.Some? then item.matchedReferenceId else None,
      StoredHidden(existing, item, origin, approved, active),
      if was.name == item.name then was.noMatchAt else None,
      if source && item.clip.Some? then item.clip.value else was.clip,
      if source && item.version.Some? then item.version.value else was.version,
      if source && item.tags.Some? then Sort(DistinctOf(item.tags.value)) else was.tags)
  }

  function Find<K, V>(table: map<K, V>, key: K): Option<V> {
    if key in table then Some(table[key]) else None
  }

  // ---------- One article ----------

  predicate ReferenceHolds(item: Incoming, references: map<nat, Reference>) {
    item.matchedReferenceId.Some? && item.bottleId.Some? ==>
      && item.matchedReferenceId.value in references
      && !references[item.matchedReferenceId.value].ignored
      && references[item.matchedReferenceId.value].bottleId == item.bottleId.value
  }

  function StoredArticle(existing: Option<Article>, article: Article, origin: Origin): Article {
    if existing.Some? && origin == Manual then existing.value.(issue := article.issue) else article
  }

  function KeyOf(input: ArticleInput, item: Incoming): ReviewKey {
    ReviewKey(input.key, item.sourceKey)
  }

  function WithReview(rows: Rows, input: ArticleInput, item: Incoming,
      origin: Origin, approved: bool, active: set<nat>): Rows
  {
    var key := KeyOf(input, item);
    rows.(
      reviews := rows.reviews[key := StoredReview(Find(rows.reviews, key), item, origin, approved, active)],
      bodies :=
        if origin == Source && item.body.Some? && input.article.fetchedAt.Some?
        then rows.bodies[key := Body(item.body.value, input.article.fetchedAt.value)] else rows.bodies)
  }

  /** The rows after the article and its first `n` reviews are stored. */
  function WithReviews(rows: Rows, input: ArticleInput, origin: Origin, approved: bool, active: set<nat>, n: nat): Rows
    requires n <= |input.reviews|
  {
    if n == 0 then
      rows.(articles := rows.articles[input.key :=
        StoredArticle(Find(rows.articles, input.key), input.article, origin)])
    else
      WithReview(WithReviews(rows, input, origin, approved, active, n - 1),
                 input, input.reviews[n - 1], origin, approved, active)
  }

  function StoreOutcome(input: ArticleInput, origin: Origin, action: InvalidBottleAction, w: World): Outcome {
    if input.key.site !in w.sites then SiteMissing
    else if action == Reject && exists item | item in input.reviews :: HasInvalidBottle(item, w.active)
      then BottleInactive
    else if exists item | item in input.reviews :: !ReferenceHolds(item, w.references) then ReferenceChanged
    else if origin == Source && input.article.fetchedAt.None?
            && exists item | item in input.reviews :: item.body.Some? then FetchDateMissing
    else Stored
  }

  function StoreArticle(rows: Rows, input: ArticleInput, origin: Origin, action: InvalidBottleAction, w: World): Rows {
    if StoreOutcome(input, origin, action, w) != Stored then rows
    else WithReviews(rows, input, origin, input.key.site in w.approved, w.active, |input.reviews|)
  }

  // ---------- Publication ----------

  predicate Publishable(review: Review, active: set<nat>) {
    review.hidden && review.bottleId.Some? && review.bottleId.value in active
  }

  function Published(review: Review, active: set<nat>): Review {
    if Publishable(review, active) then review.(hidden := false) else review
  }

  function PublishOne(rows: Rows, site: nat, key: ReviewKey, active: set<nat>): Rows {
    if key in rows.reviews && key.article.site == site
    then rows.(reviews := rows.reviews[key := Published(rows.reviews[key], active)]) else rows
  }

  function PublishAll(rows: Rows, site: nat, active: set<nat>): Rows {
    rows.(reviews := map key | key in rows.reviews ::
      if key.article.site == site then Published(rows.reviews[key], active) else rows.reviews[key])
  }

  // ---------- The transactions ----------

  /** The distinct Bottles named by the reviews that are not active; stops at the first one when they are rejected. */
  method ResolveBottles(reviews: seq<Incoming>, action: InvalidBottleAction, active: set<nat>)
      returns (invalidBottleIds: Option<set<nat>>)
    ensures invalidBottleIds.None? <==>
              action == Reject && exists item | item in reviews :: HasInvalidBottle(item, active)
    ensures invalidBottleIds.Some? ==> forall item | item in reviews && item.bottleId.Some? ::
              item.bottleId.value in invalidBottleIds.value <==> HasInvalidBottle(item, active)
  {
    var invalid: set<nat> := {};
    for i := 0 to |reviews|
      invariant action == Reject ==> forall k :: 0 <= k < i ==> !HasInvalidBottle(reviews[k], active)
      invariant forall id :: id in invalid ==> id !in active
      invariant forall k :: 0 <= k < i && HasInvalidBottle(reviews[k], active) ==> reviews[k].bottleId.value in invalid
    {
      var bottleId := reviews[i].bottleId;
      if bottleId.Some? && bottleId.value !in active {
        if action == Reject {
          assert HasInvalidBottle(reviews[i], active) && reviews[i] in reviews;
          return None;
        }
        invalid := invalid + {bottleId.value};
      }
    }
    invalidBottleIds := Some(invalid);
  }

  method ReferencesHold(reviews: seq<Incoming>, references: map<nat, Reference>) returns (hold: bool)
    ensures hold <==> forall item | item in reviews :: ReferenceHolds(item, references)
  {
    for i := 0 to |reviews|
      invariant forall k :: 0 <= k < i ==> ReferenceHolds(reviews[k], references)
    {
      var item := reviews[i];
      if item.matchedReferenceId.None? || item.bottleId.None? { continue; }
      var reference := Find(references, item.matchedReferenceId.value);
      if reference.None? || reference.value.ignored || reference.value.bottleId != item.bottleId.value {
        assert !ReferenceHolds(item, references) && item in reviews;
        return false;
      }
    }
    hold := true;
  }

  /** The values written for one review. */
  method ReviewValues(existing: Option<Review>, item: Incoming, origin: Origin, publishesAutomatically: bool,
      hasInvalidBottle: bool, ghost approved: bool, ghost active: set<nat>) returns (values: Review)
    requires hasInvalidBottle == HasInvalidBottle(item, active)
    requires publishesAutomatically == (origin == Source && approved)
    ensures values == StoredReview(existing, item, origin, approved, active)
  {
    hide Sort, DistinctOf;
    var incomingBottleId := if hasInvalidBottle then None else item.bottleId;
    var existingBottleId := if existing.Some? then existing.value.bottleId else None;
    var bottleId :=
      if incomingBottleId.Some? && (existingBottleId.None? || existingBottleId == incomingBottleId)
      then incomingBottleId else existingBottleId;
    var hidden :=
      if existing.Some? then
        (if hasInvalidBottle && (existingBottleId.None? || existingBottleId == item.bottleId) then true
         else if origin == Source && publishesAutomatically && existingBottleId.None? && bottleId.Some? then false
         else existing.value.hidden)
      else if origin == Source then !(publishesAutomatically && bottleId.Some?)
      else false;
    assert bottleId == StoredBottle(existing, item, active);
    assert hidden == StoredHidden(existing, item, origin, approved, active);
    hide StoredBottle, StoredHidden, HasInvalidBottle;
    values := existing.GetOr(Review(item.name, None, None, None, None, None, false, None, None, 0, []));
    values := values.(
      bottleId := bottleId,
      matchedReferenceId :=
        if existingBottleId.Some? then values.matchedReferenceId
        else if bottleId.Some? then item.matchedReferenceId else None,
      name := item.name, nativeScore := item.nativeScore, hidden := hidden);
    if existing.Some? && existing.value.name != item.name { values := values.(noMatchAt := None); }
    if origin == Source {
      values := values.(category := item.category, reviewerName := item.reviewerName);
      if item.clip.Some? { values := values.(clip := item.clip.value); }
      if item.version.Some? { values := values.(version := item.version.value); }
      if item.tags.Some? { values := values.(tags := Sort(DistinctOf(item.tags.value))); }
    }
  }

  lemma NoBottleIsValid(item: Incoming, active: set<nat>)
    ensures item.bottleId.None? ==> !HasInvalidBottle(item, active)
  {}

  class ReviewTables {
    var rows: Rows

    constructor ()
      ensures rows == Rows(map[], map[], map[])
    {
      rows := Rows(map[], map[], map[]);
    }

    /** Stores an article, or changes nothing. */
    method StoreExternalReviewArticle(input: ArticleInput, origin: Origin, action: InvalidBottleAction, w: World)
        returns (outcome: Outcome)
      modifies this
      ensures outcome == StoreOutcome(input, origin, action, w)
      ensures rows == StoreArticle(old(rows), input, origin, action, w)
    {
      hide StoredReview, HasInvalidBottle, ReferenceHolds;
      if input.key.site !in w.sites { return SiteMissing; }
      var approved := input.key.site in w.approved;
      var tables := rows;
      var article := Find(tables.articles, input.key);
      tables := tables.(articles := tables.articles[input.key :=
        if article.None? then input.article
        else if origin == Manual then article.value.(issue := input.article.issue)
        else input.article]);
      var invalidBottleIds := ResolveBottles(input.reviews, action, w.active);
      if invalidBottleIds.None? { return BottleInactive; }
      var hold := ReferencesHold(input.reviews, w.references);
      if !hold { return ReferenceChanged; }
      for i := 0 to |input.reviews|
        invariant rows == old(rows)
        invariant tables == WithReviews(old(rows), input, origin, approved, w.active, i)
        invariant origin == Source && input.article.fetchedAt.None? ==>
                    forall k :: 0 <= k < i ==> input.reviews[k].body.None?
      {
        var item := input.reviews[i];
        var key := KeyOf(input, item);
        var existing := Find(tables.reviews, key);
        assert item in input.reviews;
        var hasInvalidBottle := item.bottleId.Some? && item.bottleId.value in invalidBottleIds.value;
        NoBottleIsValid(item, w.active);
        var values := ReviewValues(existing, item, origin, origin == Source && approved, hasInvalidBottle,
          approved, w.active);
        tables := tables.(reviews := tables.reviews[key := values]);
        if origin == Source && item.body.Some? {
          if input.article.fetchedAt.None? { return FetchDateMissing; }
          tables := tables.(bodies := tables.bodies[key := Body(item.body.value, input.article.fetchedAt.value)]);
        }
      }
      rows := tables;
      outcome := Stored;
    }

    method PublishResolvedReview(site: nat, key: ReviewKey, active: set<nat>)
      modifies this
      ensures rows == PublishOne(old(rows), site, key, active)
      ensures rows.articles == old(rows).articles && rows.bodies == old(rows).bodies
      ensures rows.reviews.Keys == old(rows).reviews.Keys
      ensures forall other :: other in rows.reviews && other != key ==> rows.reviews[other] == old(rows).reviews[other]
      ensures key in rows.reviews ==>
                var row := old(rows).reviews[key];
                var shown := key.article.site == site && row.bottleId.Some? && row.bottleId.value in active;
                rows.reviews[key] == row.(hidden := row.hidden && !shown)
    {
      if key !in rows.reviews || key.article.site != site || !Publishable(rows.reviews[key], active) {
        assert key in rows.reviews ==> rows.reviews[key := rows.reviews[key]] == rows.reviews;
        return;
      }
      rows := rows.(reviews := rows.reviews[key := rows.reviews[key].(hidden := false)]);
    }

    /** Selects, then updates what it selected. */
    method PublishResolvedReviews(site: nat, active: set<nat>)
      modifies this
      ensures rows == PublishAll(old(rows), site, active)
    {
      var publishable :=
        set key | key in rows.reviews && key.article.site == site && Publishable(rows.reviews[key], active);
      rows := rows.(reviews := map key | key in rows.reviews ::
        if key in publishable then rows.reviews[key].(hidden := false) else rows.reviews[key]);
    }
  }
}
