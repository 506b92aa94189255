# Verified models of Peated's core rules

Peated collects whisky records from websites, auctions, reviews and members. This project models the
parts of it that decide something, and proves what they promise. Each module states what its piece of
code computes in terms that do not follow the code's control flow, proves the code's own loops and
transactions against that statement, and then proves what holds over all inputs, all runs or all
interleavings.

| part | modules |
|---|---|
| robots.txt engine (RFC 9309) | `RobotsPattern`, `RobotsGroups`, `RobotsParser`, `RobotsRoundTrip` |
| activity feed | `ActivityPaging`, `ActivityWalk`, `ActivityCursor`, `ActivitySessions` |
| auction lots: rows, transactions, the concurrent protocol, its history, twin lots | `AuctionRows`, `AuctionTables`, `AuctionProtocol`, `AuctionHistory`, `AuctionTwins` |
| batch queue | `BatchQueue` |
| external reviews | `ReviewTags`, `ReviewTagOrder`, `ReviewScoring`, `ReviewStore`, `ReviewRuns` |
| account deletion | `AccountDeletion`, `AccountDeletionLaws`, `AccountDeletionRuns` |
| comparison and scoring | `CheckScoring`, `JsonInclusion`, `JsonPaths`, `FieldConflicts` |
| bounded page reads | `BoundedRead`, `ReadCauses` |
| shared helpers | `Wrappers`, `Text`, `Decimals` |

Database tables are maps and sets, and one transaction or guarded update is one atomic step. In the
auction protocol a step belongs to a scraper, a detail read, a moderator, or a worker that may have read
the row long before; a run is any sequence of such steps. The batch queue runs without interruption
between two waits, so its interleavings are sequences of those stretches. What the world supplies (clocks,
answers of websites, classifier results, text normalisation) is a parameter or part of a step.

Verify everything with `dafny verify dfyconfig.toml`.

## Where the code does less than one would expect

Each of these has a concrete input in a lemma, and next to it the exact condition under which the expected
property does hold.

- Feed pages can repeat entries: `getActivitySourceWindow` counts a full secondary quota for every earlier
  page, so the page after the last one with secondary entries starts too early when that page's quota was
  not filled (`RepeatedEntryExample`). `PrimaryWindowsOverlap` gives the exact overlap, `DisjointExactly`
  when there is none, and `WalkShowsPrimary` what a reader of all pages sees.
- Storing a hand-made review whose staged Bottle is not active creates it visible, and storing it again
  hides it (`StoredTwiceExample`, `StoringTwiceExactly`). The two callers in the repository never combine a
  hand-made review with staging, and source imports are idempotent (`SourceImportIsIdempotent`).
- A failed callback can leave `BatchQueue` at rest with a full queue (`FailureLeavesFullQueue`,
  `RestsFullExactly`).
- When two tags have names with the same words, the tag listed last wins (`LastTagIsReported`).
  `OrderMattersExactly` is exact for what phrases mean, `OrderNeverShowsExactly` for what texts report.
- `docs/architecture/bottle-classifier.md:266-280` and the edition tests say that edition wording without
  digits is ignored. An added word can turn an agreement into a conflict: `S2 B13` agrees with `S2B13`
  only because the joined texts are equal, and `Batch S2 B13` conflicts with it (`WordingCanMatter`,
  `WordingIsIgnoredExactly`, `OtherWordsAreIgnoredExactly`). `NumeralEditions` gives a class of editions in
  which wording never matters.
- Canonical JSON depends on key order where the collation ties different keys, as `localeCompare` does for
  composed and decomposed accents (`CanonicalIgnoresKeyOrderExactly`, `TiedPairsDiffer`). The exported
  functions only see operations and findings, whose keys are plain names of their schemas and do not tie, so
  no input of theirs shows it; `SeparatedValuesIgnoreKeyOrder` is the statement for such values.
- Of two observations of a lot with one time, the first to arrive is listed, so the order of arrival shows
  when they differ (`TiedObservationsShowOrder`, `ArrivalOrderShowsExactly`).
- `docs/architecture/account-access.md:148-156` says that everything else the member owns is deleted. Auction
  watches and alerts stay: their rows would go with the user row, but that row stays as a tombstone. A
  deleted member with a watch is even sent new notifications (`DeletedWatcherIsNotified`,
  `NotifiedWhileWatchingExactly`). Reports and some staff references also keep the member's id;
  `DeletedAccountIsGoneExactly` gives the exact condition for being gone everywhere.

## Model

| member | source | states |
|---|---|---|
| `RobotsPattern.RobotsPatternMatches` | packages/bot/src/robots.ts:96-112 | the greedy search returns true exactly when some string for each `*` makes the pattern a prefix of the path, or the whole path when it ends in `$` (RFC 9309 section 2.2.3) |
| `RobotsPattern.LeftmostSuffices` | packages/bot/src/robots.ts:103-108 | committing to the leftmost occurrence of a middle part never loses a solution and never invents one |
| `RobotsPattern.FitsEarlier` | packages/bot/src/robots.ts:103-108 | parts that fit after a later position fit after any earlier one, because the wildcard absorbs the difference |
| `RobotsPattern.MatchesIsFits` | packages/bot/src/robots.ts:96-112 | some filling of the wildcards exists exactly when the text between wildcards occurs in order, first part at the start |
| `RobotsPattern.PlainMatchesPrefix` | packages/bot/src/robots.ts:96-112 | a pattern without `*` and `$` matches exactly the paths that begin with it |
| `RobotsPattern.AnchoredMatchesWhole` | packages/bot/src/robots.ts:96-112 | such a text followed by `$` matches that path alone |
| `RobotsPattern.WildcardMatchesAnyText` | packages/bot/src/robots.ts:96-112 | `before*after` matches exactly the paths that begin with `before`, some text and `after`, and with `$` exactly the paths made of these |
| `RobotsPattern.PlainWeighsLength` | packages/bot/src/robots.ts:126-126 | a pattern without `*` and `$` weighs its length |
| `RobotsPattern.WeightsAdd` | packages/bot/src/robots.ts:126-126 | weights add up under concatenation |
| `RobotsPattern.MarksWeighNothing` | packages/bot/src/robots.ts:126-126 | a `*` or `$` weighs nothing wherever it stands, which with the two rows above settles every weight |
| `RobotsGroups.MatchingUserAgentGroups` | packages/bot/src/robots.ts:69-89 | the one-pass collection returns, in file order, the groups of the best match over all groups |
| `RobotsGroups.SelectedExactly` | packages/bot/src/robots.ts:69-89 | a group is followed exactly when one of its agents matches and no group of the file matches with a longer agent (RFC 9309 section 2.2.1) |
| `RobotsGroups.NamedGroupsComeFirst` | packages/bot/src/robots.ts:69-89 | when some group names the bot, exactly the groups with the longest name are followed; a `*` group is followed exactly when none does |
| `RobotsGroups.RobotsAllowsUrl` | packages/bot/src/robots.ts:118-135 | filter, sort and take the first decides: no followed rule forbids the path without an allow rule of at least its weight, which the rows on weights and plain rules settle |
| `RobotsGroups.FirstRuleDecides` | packages/bot/src/robots.ts:122-134 | the first rule of the sorted matches decides that verdict for every way the sort may place ties |
| `RobotsGroups.SortRulesSorts` | packages/bot/src/robots.ts:127-133 | sorting puts longer patterns first and allow before disallow among equals |
| `RobotsGroups.AllowedIsBestAllow` | packages/bot/src/robots.ts:118-135 | a path is allowed exactly when nothing disallows it or the best matching allow is at least as specific as the best matching disallow |
| `RobotsGroups.LongestPlainRuleWins` | packages/bot/src/robots.ts:118-135 | among rules without `*` and `$` the longest one that the path begins with decides, and an allow rule wins a tie (RFC 9309 section 2.2.2) |
| `RobotsGroups.LongerOfTwoWins` | packages/bot/src/robots.ts:118-135 | of one allow and one disallow rule that the path begins with, it is allowed exactly when the allow rule is at least as long |
| `RobotsGroups.PrivatePathExample` | packages/bot/src/robots.ts:118-135 | `Disallow: /private` with `Allow: /` forbids `/private/x` |
| `RobotsGroups.OrderDoesNotMatter` | packages/bot/src/robots.ts:69-135 | reordering groups, agents inside groups or rules inside groups never changes the verdict |
| `RobotsGroups.AddedRuleIsMonotone` | packages/bot/src/robots.ts:118-135 | an allow rule added anywhere in a followed group never forbids a path, and a disallow rule added there never permits one |
| `RobotsParser.ParseRobotsRules` | packages/bot/src/robots.ts:40-67 | the line loop with its open group computes the fold of the lines' meanings |
| `RobotsParser.ReturnsDoNotMatter` | packages/bot/src/robots.ts:43-43 | a carriage return before a newline is no part of the line, anywhere in the file |
| `RobotsParser.LowerAt` | packages/bot/src/robots.ts:49-56 | field names and agents are read in small letters: each capital becomes its small letter and nothing else changes |
| `RobotsParser.ParsedIsWellFormed` | packages/bot/src/robots.ts:40-67 | for every text: agent lists and rule paths are non-empty and trimmed, agents are lower-case, and only the last group may have no rules |
| `RobotsParser.RulesKeepFileOrder` | packages/bot/src/robots.ts:48-65 | the rules of all groups, put end to end, are the file's rule lines from the first agent line on, in file order |
| `RobotsRoundTrip.ParseUndoesRender` | packages/bot/src/robots.ts:40-67 | parsing the file written for any canonical group list gives that list back |
| `RobotsRoundTrip.RoundTripExactly` | packages/bot/src/robots.ts:40-67 | well-formed groups without newlines are read back from their file exactly when no agent or path would lose a comment on a line of its own |
| `RobotsRoundTrip.ReparseExactly` | packages/bot/src/robots.ts:40-67 | for every file, writing what was parsed and parsing again gives the same groups exactly when no parsed value would lose a comment |
| `RobotsRoundTrip.ReparseIsStable` | packages/bot/src/robots.ts:40-67 | a condition on the file itself that suffices: when no line holds a stray carriage return or U+2028/2029, no parsed value would lose a comment |
| `ActivityPaging.NextWindow` | apps/server/src/lib/activityFeed.ts:98-164 | each page's secondary window starts where the last one ended; its primary window starts there too, less the unfilled secondary quota after the last page with secondary entries |
| `ActivityPaging.WindowSizes` | apps/server/src/lib/activityFeed.ts:109-163 | a page never holds more than `limit` entries |
| `ActivityPaging.EveryPrimaryIsRead` | apps/server/src/lib/activityFeed.ts:98-164 | every primary entry is in the window of some page |
| `ActivityPaging.EverySecondaryIsRead` | apps/server/src/lib/activityFeed.ts:98-164 | every secondary entry is in the window of some page |
| `ActivityPaging.SecondaryWindowsPartition` | apps/server/src/lib/activityFeed.ts:98-164 | no two pages read the same secondary entry |
| `ActivityPaging.PrimaryWindowsOverlap` | apps/server/src/lib/activityFeed.ts:144-159 | two pages share a primary entry exactly when they are the last page with secondary entries and the one after it, and the entry lies in the unfilled part of the quota |
| `ActivityPaging.DisjointExactly` | apps/server/src/lib/activityFeed.ts:144-159 | primary windows are disjoint exactly when the quota is always filled (it divides the secondary total) or the primary entries end before the repeat |
| `ActivityPaging.RepeatedEntryExample` | apps/server/src/lib/activityFeed.ts:144-159 | with three entries a page, five primary and one secondary entry, one entry is read by two pages |
| `ActivityWalk.ComposeActivity` | apps/server/src/lib/activityFeed.ts:167-218 | the push loops show exactly the two windows' entries, and `hasNext` follows the totals |
| `ActivityWalk.AlternateInterleaves` | apps/server/src/lib/activityFeed.ts:182-211 | alternating the two lists is an order-preserving interleaving of exactly their entries |
| `ActivityWalk.SecondaryAt` | apps/server/src/lib/activityFeed.ts:182-211 | the k-th secondary entry of a page stands after k + 1 primary entries, or after all there are |
| `ActivityWalk.PrimaryAt` | apps/server/src/lib/activityFeed.ts:182-211 | the k-th primary entry of a page stands after k secondary entries, or after all there are |
| `ActivityWalk.ReadPage` | apps/server/src/lib/activityFeed.ts:98-218 | a page read by offset and limit interleaves exactly the entries of its two windows |
| `ActivityWalk.HasNextExactly` | apps/server/src/lib/activityFeed.ts:182-217 | `hasNext` is false exactly when the pages so far cover every entry of both sources |
| `ActivityWalk.NextPageIsNew` | apps/server/src/lib/activityFeed.ts:182-217 | the page after a true `hasNext` shows an entry that no earlier page showed |
| `ActivityWalk.WalkEnds` | apps/server/src/lib/activityFeed.ts:182-217 | a page is followed by another only while its number is at most the number of entries, so walking ends |
| `ActivityWalk.WalkShowsSecondary` | apps/server/src/lib/activityFeed.ts:98-218 | walking the pages shows every secondary entry once, in order |
| `ActivityWalk.WalkShowsPrimary` | apps/server/src/lib/activityFeed.ts:98-218 | walking the pages shows every primary entry in order, once, except the repeated entries around the last page with secondary entries |
| `ActivityWalk.WalkIsExact` | apps/server/src/lib/activityFeed.ts:98-218 | the walk shows each primary entry exactly once precisely when it does not reach that repeat |
| `ActivityCursor.ParseUndoesEncode` | apps/server/src/lib/activityCursor.ts:6-27 | parsing an encoded cursor gives it back for exactly the cursors in range, and refuses the text of any other |
| `ActivityCursor.EncodeUndoesParse` | apps/server/src/lib/activityCursor.ts:10-27 | an accepted text is its cursor's encoding up to leading zeros |
| `ActivitySessions.NeighboursShareNumber` | apps/server/src/lib/activityFeed.ts:220-314 | neighbouring rows of one owner get the same running-sum number exactly when their gap is within the limit |
| `ActivitySessions.SessionsAreMaximalRuns` | apps/server/src/lib/activityFeed.ts:220-314 | two rows of one owner share a session exactly when every gap between them is within the limit |
| `ActivitySessions.SessionsAreSeparated` | apps/server/src/lib/activityFeed.ts:220-314 | rows of one owner in different sessions lie more than the limit apart |
| `ActivitySessions.StartsCountGroups` | apps/server/src/lib/activityFeed.ts:423-497 | the sum of start marks used for the total equals the number of session groups used for paging |
| `AuctionTables.Tables.UpsertAuctionObservation` | apps/server/src/lib/auctions.ts:193-388 | keeps the tables valid and all other lots; refuses only an observation from the future; a stale one changes nothing, a newer one decides listing, end, volume and facts, and the match survives exactly with the identity |
| `AuctionTables.ObservationIsFollowed` | apps/server/src/lib/auctions.ts:259-358 | the row an observation leaves: supplied volume, facts and end are taken, omitted ones kept under the same title only; the match is kept or forgotten with the identity and a request for details with identity and URL; a matched lot seen live is available since then |
| `AuctionProtocol.ObservationsAreTakenExactly` | apps/server/src/lib/auctions.ts:193-388 | in the protocol an observation is taken exactly when it is at most a minute ahead of the clock and of the site the lot is listed on |
| `AuctionTables.Tables.SaveAuctionLotDetails` | apps/server/src/lib/auctions.ts:113-187 | keeps the tables valid and all other lots; a saved read never touches the listing or the Bottle, saves exactly what a page under the lot's own title knows and forgets no known fact, and puts the lot back to pending exactly when it changes the identity |
| `AuctionTables.Tables.AssignAuctionLot` | apps/server/src/lib/auctions.ts:546-614 | keeps the tables valid; a refusal changes nothing; accepts exactly an assignment that fits the lot: expected identity, match and check, active Bottle, accepted reference, a check that speaks for the lot, and, when automatic, that check's own decision, eligible for automation, on a pending lot without conflicts; then the lot has just the asked Bottle, check and reference, with listing and identity as they were |
| `AuctionProtocol.ModeratorAssignsExactly` | apps/server/src/lib/auctions.ts:546-614 | a moderator's assignment takes effect exactly when it fits the lot as it stands, and then on that lot only |
| `AuctionTables.Tables.IgnoreAuctionLot` | apps/server/src/lib/auctions.ts:667-736 | keeps the tables valid; accepts exactly a request against the identity, match and check as they stand, on a lot that is not ignored; then the lot loses its Bottle, reference and availability but not its listing, identity or check |
| `AuctionTables.Tables.ReopenAuctionLot` | apps/server/src/lib/auctions.ts:743-779 | keeps the tables valid; accepts exactly a request against the identity and check as they stand, on an ignored lot; then the lot is in review, and has no Bottle because no ignored lot has one |
| `AuctionProtocol.ReopeningUndoesIgnoring` | apps/server/src/lib/auctions.ts:667-779 | a moderator who ignores any lot as it stands and then reopens it gets the same row back for review, less the match |
| `AuctionProtocol.RepeatedModerationChangesNothing` | apps/server/src/lib/auctions.ts:667-779 | a request to ignore or reopen that arrives twice takes effect once, in every state |
| `AuctionTables.Tables.MarkCheck` | apps/server/src/lib/auctionMatching.ts:270-281 | keeps the tables valid, so the marked check is one of the lot's own identity; changes only the check id, and only of a lot still pending for that identity without a Bottle |
| `AuctionTables.Tables.HoldLot` | apps/server/src/lib/auctionMatching.ts:316-333 | keeps the tables valid and changes only the status; the lot stops being pending, has no Bottle, and is ignored exactly on the classifier's ignored outcome |
| `AuctionProtocol.MatchedOnlyWhenEligible` | apps/server/src/lib/auctionMatching.ts:282-300 | a worker's decision matches a lot only when its check is eligible for automation, for the lot the worker remembers and for the lot as it stands, and only to the Bottle the check points to |
| `AuctionProtocol.SafeDecisionsAreApplied` | apps/server/src/lib/auctionMatching.ts:270-313 | on a lot left as its marking left it, the decision is applied exactly when the check speaks for the lot, decided on a Bottle and is eligible, the Bottle is active without conflicts, and an exact reference is still accepted; otherwise no lot changes and the last update follows |
| `AuctionProtocol.ReferenceIsReusedExactly` | apps/server/src/lib/auctionMatching.ts:77-112 | a worker reuses an accepted reference exactly when neither the facts it remembers nor those of the lot as it stands contradict the Bottle, and the lot still waits for a Bottle under that identity |
| `AuctionProtocol.HeldExactly` | apps/server/src/lib/auctionMatching.ts:314-333 | the last update holds a lot exactly while it waits with the worker's check; a check that speaks for it and says that it is not one bottle ignores it, every other leaves it for review |
| `AuctionProtocol.GoesOnWhilePending` | apps/server/src/lib/auctionMatching.ts:97-148 | a worker that reads the lot again goes on, as far as a model run, exactly while the lot still waits for a Bottle under its identity; otherwise it stops |
| `AuctionProtocol.DetailsAreAskedExactly` | apps/server/src/scraper/auctionDetails.ts:7-29 | the details of a lot are asked for exactly while it waits without a Bottle under that identity, has none yet and its site has lot pages; the first request time stays |
| `AuctionProtocol.AwaitedReadsAreSaved` | apps/server/src/lib/auctions.ts:113-187 | a page read for the present request of a lot that still waits for it is saved, as its contract says |
| `AuctionProtocol.RepeatedReadChangesNothing` | apps/server/src/lib/auctions.ts:133-140 | a detail read that is delivered twice takes effect once, in every state |
| `AuctionProtocol.OutdatedReadChangesNothing` | apps/server/src/lib/auctions.ts:113-153 | a detail read changes nothing once the lot has another identity, URL or check than when it was asked for, has a Bottle, is ignored, or was asked for again or answered; nor does one of another site or from the future |
| `AuctionProtocol.SettledByTheMarkedCheck` | apps/server/src/lib/auctionMatching.ts:270-333 | a worker's step settles its lot only while the check it carries is still the marked one |
| `AuctionProtocol.LaterMarkIsHeld` | apps/server/src/lib/auctionMatching.ts:270-333 | when two workers mark one lot in turn, the first one's later steps leave every lot as it is and the second can still settle it |
| `AuctionTables.Tables.SaveCheck` | apps/server/src/lib/auctionMatching.ts:164-194 | keeps the tables valid; the returned check was saved for the site and identity, and a check is added exactly when the identity had none, while its owners keep the identity |
| `AuctionTables.SecondSaveReusesFirst` | apps/server/src/lib/auctionMatching.ts:164-194 | of two identical lots that finish a model run, the second to save gets the first one's check and adds nothing |
| `AuctionTables.OwnCheckSpeaksFor` | apps/server/src/lib/auctionMatching.ts:164-194 | the check that a model run makes for a lot speaks for that lot |
| `AuctionTables.TwinCheckIsOldest` | apps/server/src/lib/auctionMatching.ts:215-228 | the shared check is the oldest one saved for another lot of the site with this identity |
| `AuctionRows.ObservationKeepsSound` | apps/server/src/lib/auctions.ts:229-344 | an observation keeps: matched exactly with a Bottle, available only with a Bottle, fingerprint of its own identity, check of that identity |
| `AuctionRows.DetailsKeepSound` | apps/server/src/lib/auctions.ts:141-187 | a detail read keeps the same four facts |
| `AuctionRows.AssignmentKeepsSound` | apps/server/src/lib/auctions.ts:546-614 | an assignment keeps the same four facts |
| `AuctionRows.ModerationKeepsSound` | apps/server/src/lib/auctions.ts:667-779 | ignoring and reopening keep the same four facts |
| `AuctionHistory.AvailableSinceMeans` | apps/server/src/lib/auctions.ts:339-344 | in every reachable state a lot with `availableSince` was live at a step of that time, or relisted then as live, and has had its present Bottle and that time in every state since |
| `AuctionRows.AvailabilityExactly` | apps/server/src/lib/auctions.ts:58-73 | each availability is told exactly by state, age of the listing and end: nothing is said before the reading or six hours after it, and a sale that is over is neither live nor upcoming |
| `AuctionRows.LiveExactly` | apps/server/src/lib/auctions.ts:58-73 | a lot is live while its listing says so, not past its end, for six hours from the reading on |
| `AuctionProtocol.NextKeepsInv` | apps/server/src/lib/auctionMatching.ts:48-200 | every step of scrapers, detail reads, moderators and workers, however stale what a worker read, keeps all lots sound, check keys unique, and each check a worker carries one saved for its site and identity |
| `AuctionProtocol.RunKeepsInv` | apps/server/src/lib/auctionMatching.ts:48-348 | those facts hold in every reachable state, under every interleaving |
| `AuctionProtocol.SettledStatusIsKept` | apps/server/src/lib/auctionMatching.ts:63-76 | a step changes the status of a matched or ignored lot exactly when it is a moderator ignoring or reopening that very lot without being refused, or a timely observation of it with another identity |
| `AuctionProtocol.SettledUntilUnsettled` | apps/server/src/lib/auctions.ts:193-388 | over any run a lot once matched or ignored has that status in every later state exactly while no such step on this lot occurs |
| `AuctionHistory.FirstNewestIsListed` | apps/server/src/lib/auctions.ts:207-344 | in every reachable state a lot's name, URL, state and `lastCheckedAt` are those of the newest observation delivered to it, and of several with that time those of the first to arrive |
| `AuctionHistory.ArrivalOrderDoesNotMatter` | apps/server/src/lib/auctions.ts:207-344 | two runs that deliver the same observations, in any order and among any other steps, list the same facts if the newest observations agree on name, URL and state |
| `AuctionHistory.ArrivalOrderShowsExactly` | apps/server/src/lib/auctions.ts:207-344 | all orders of delivering a list of observations list the same facts exactly when its newest observations agree on name, URL and state |
| `AuctionHistory.TiedObservationsShowOrder` | apps/server/src/lib/auctions.ts:259-260 | two observations of one time with different URLs list the URL that arrived first |
| `AuctionHistory.LastCheckedOnlyGrows` | apps/server/src/lib/auctions.ts:207-344 | no step moves `lastCheckedAt` back |
| `AuctionTwins.RunKeepsOneCheck` | apps/server/src/lib/auctionMatching.ts:164-194 | in any run whose identical lots keep their identity, at most one check is ever saved for that site and identity |
| `AuctionTwins.TwinsApplyOneCheck` | apps/server/src/lib/auctionMatching.ts:159-199 | any two workers of that identity that apply a check, at the same moment or at different moments of the run, apply the same one |
| `AuctionTwins.WaitExactly` | apps/server/src/lib/auctionMatching.ts:208-232 | a lot is told to wait exactly while no twin has a check and a smaller-id twin is pending |
| `AuctionTwins.SomePendingTwinGoesOn` | apps/server/src/lib/auctionMatching.ts:208-232 | whenever a lot is told to wait, the smallest pending twin has a smaller id and is not, so twins cannot wait for each other |
| `AuctionTwins.FirstTwinIsNotSentAway` | apps/server/src/lib/auctionMatching.ts:159-163 | a classifying worker of the smallest pending lot takes the shared check or goes on to classify |
| `AuctionTwins.FirstTwinGetsACheck` | apps/server/src/lib/auctionMatching.ts:164-194 | after its model run there is a check for the identity, which it applies |
| `AuctionTwins.GroupCanAlwaysGetACheck` | apps/server/src/lib/auctionMatching.ts:48-200 | from every reachable state in which lots of an identity other than a miniature's wait and none has a check, steps of one worker on the smallest of them, with a read of its details where the site asks for it, save a check |
| `AuctionTwins.MiniaturesAreIgnored` | apps/server/src/lib/auctionMatching.ts:63-76 | starting work on a waiting miniature ignores it and does nothing else |
| `AuctionTwins.NoCheckForMiniatures` | apps/server/src/lib/auctionMatching.ts:63-76 | over any run no check is ever saved for a miniature |
| `BatchQueue.Batches.Push` | apps/server/src/lib/batchQueue.ts:16-19 | up to its first wait, a push queues the item and starts a batch exactly when the queue is full and none is being processed |
| `BatchQueue.BatchesKeepOrder` | apps/server/src/lib/batchQueue.ts:16-41 | over every interleaving of pushes, callback ends, failures and `processRemaining`, batches started so far followed by the queue are the pushed items in order |
| `BatchQueue.CallsAreTheirOwn` | apps/server/src/lib/batchQueue.ts:16-41 | over every interleaving a call that starts is one of its own and never takes the place of one still waiting |
| `BatchQueue.BatchesAreBounded` | apps/server/src/lib/batchQueue.ts:16-41 | over every interleaving no batch is empty or longer than `batchSize` |
| `BatchQueue.OneFullBatchAtATime` | apps/server/src/lib/batchQueue.ts:26-41 | in push-only runs at most one batch is in flight and every batch is full |
| `BatchQueue.QuiescentQueueIsShort` | apps/server/src/lib/batchQueue.ts:26-41 | a push-only run without failures comes to rest only with less than a batch queued |
| `BatchQueue.RestsFullExactly` | apps/server/src/lib/batchQueue.ts:26-41 | a push-only run comes to rest with a full queue exactly when the callback of its last call failed while a full batch was queued and nothing was pushed since |
| `BatchQueue.FailureLeavesFullQueue` | apps/server/src/lib/batchQueue.ts:26-41 | such a run exists: two pushes and a failure at batch size 1 |
| `ReviewTags.ExtractReviewTags` | apps/server/src/externalReviews/extractTags.ts:18-70 | the result is sorted and names exactly the tags of which some part of the text, cut into longest known phrases, is neither negated nor followed by "free" |
| `Text.AscendingIsUnique` | apps/server/src/externalReviews/extractTags.ts:70-70 | only one ascending list has given members, so the names alone determine the extracted list |
| `ReviewTags.BuildPatterns` | apps/server/src/externalReviews/extractTags.ts:22-44 | the patterns are, longest first, exactly the phrases with one meaning: a tag's own words, else a synonym that tags of one name only share |
| `ReviewTags.FindPatternIsLongest` | apps/server/src/externalReviews/extractTags.ts:42-61 | the first pattern found is the longest known phrase at that token, however equally long patterns are ordered |
| `ReviewTags.PartsCoverText` | apps/server/src/externalReviews/extractTags.ts:48-68 | the parts cover the text in order without gap or overlap, each as long as its longest known phrase |
| `ReviewTags.NegationAfterOneMore` | apps/server/src/externalReviews/extractTags.ts:47-58 | the running flag is true exactly when an unexcepted negator started a part and no later part started with a reset |
| `ReviewTags.VocabularyOrderDoesNotMatter` | apps/server/src/externalReviews/extractTags.ts:22-70 | when tag names have distinct words, listing the tags in another order reports the same names |
| `ReviewTags.OrderMattersExactly` | apps/server/src/externalReviews/extractTags.ts:22-38 | every order of a vocabulary gives phrases the same meaning exactly when names with the same words are the same name |
| `ReviewTagOrder.OrderNeverShowsExactly` | apps/server/src/externalReviews/extractTags.ts:22-70 | the order of named tags shows in no text exactly when tags with the same reportable words have the same name, where a phrase is reportable unless it starts with a negator that nothing can exempt |
| `ReviewTagOrder.LastTagIsReported` | apps/server/src/externalReviews/extractTags.ts:36-38 | of two tags with the one word "oak" the one listed last is reported |
| `ReviewScoring.CountedExactly` | apps/server/src/externalReviews/scoring.ts:37-62 | under valid settings a score counts exactly when a rule of its scale and date has a table that covers it |
| `ReviewScoring.CountedByItsRule` | apps/server/src/externalReviews/scoring.ts:37-69 | a score counts only as the nearest whole number to what the table of a rule of its scale and date makes of it, and the only such rule that holds it counts it |
| `ReviewScoring.ReasonExactly` | apps/server/src/externalReviews/scoring.ts:9-69 | which reason is given when a score does not count, for every score and setting |
| `ReviewScoring.UnconfiguredExactly` | apps/server/src/externalReviews/scoring.ts:23-36 | without settings a score counts exactly when it is a whole score out of 100, as itself |
| `ReviewScoring.CountedIsPercent` | apps/server/src/externalReviews/scoring.ts:9-69 | a counted score is present, and from 0 to 100 when the targets are |
| `ReviewScoring.InterpolatedIsBetween` | apps/server/src/externalReviews/scoring.ts:51-63 | the unrounded value lies between the targets of its segment even in an unordered table |
| `ReviewScoring.InterpolatedIsProportional` | apps/server/src/externalReviews/scoring.ts:51-63 | for every table the unrounded value lies on the line through the two points around the score: it moved between their targets in the proportion of the score between their sources |
| `ReviewScoring.HalfWayExample` | apps/server/src/externalReviews/scoring.ts:37-69 | 3.5 out of 5 between (3, 70) and (4, 90) becomes 80 |
| `ReviewScoring.RoundIsNearest` | apps/server/src/externalReviews/scoring.ts:64-68 | rounding gives the nearest whole number and a half goes up |
| `ReviewScoring.RoundedIsBetween` | apps/server/src/externalReviews/scoring.ts:51-68 | the rounded score lies between the rounded targets of its segment, even in an unordered table |
| `ReviewScoring.PointsAreExact` | apps/server/src/externalReviews/scoring.ts:51-63 | a score that is a point of a rising table gets that point's target |
| `ReviewScoring.RisingTableCovers` | apps/server/src/externalReviews/scoring.ts:51-56 | a rising table covers exactly the scores from its first to its last point |
| `ReviewScoring.ConversionIsMonotone` | apps/server/src/externalReviews/scoring.ts:37-69 | a higher native score never converts to a lower rounded score |
| `ReviewScoring.DatesOverlapExactly` | apps/server/src/schemas/externalReviewScoring.ts:86-103 | the settings' overlap test finds exactly the pairs of rules that some review date would both apply to |
| `ReviewScoring.RuleOrderDoesNotMatter` | apps/server/src/externalReviews/scoring.ts:37-50 | under valid settings the order of the rules never changes a conversion |
| `ReviewScoring.AdjacentRulesSelectOne` | apps/server/src/externalReviews/scoring.ts:43-50 | rules that each end where the next begins select exactly one rule for every date |
| `ReviewStore.ReviewTables.StoreExternalReviewArticle` | apps/server/src/externalReviews/store.ts:66-280 | the transaction reports exactly why it stores or refuses; a refusal leaves all three tables as they were |
| `ReviewStore.ReviewTables.PublishResolvedReview` | apps/server/src/externalReviews/publication.ts:33-63 | only this review's visibility can change, and it is hidden afterwards exactly when it was hidden and is not of that site with an active Bottle |
| `ReviewRuns.PublishAllCoversEach` | apps/server/src/externalReviews/publication.ts:33-99 | publishing a site's reviews publishes each of them: publishing one of them before or after changes nothing |
| `ReviewStore.ReviewTables.PublishResolvedReviews` | apps/server/src/externalReviews/publication.ts:66-99 | shows exactly the site's hidden reviews with an active Bottle and no other row changes |
| `ReviewRuns.StoredExactly` | apps/server/src/externalReviews/store.ts:171-270 | each review's row and body depend only on its own earlier row and its own item |
| `ReviewRuns.StoredRowFollowsItem` | apps/server/src/externalReviews/store.ts:183-256 | what a stored row takes from the item and what it keeps: name and score always; category, reviewer, and any supplied clip, version and sorted tags from an import only; Bottle and reference once; the failed match while the name stays; and visibility by origin, approval and Bottle |
| `ReviewRuns.StoredOutcomeExactly` | apps/server/src/externalReviews/store.ts:118-150 | an article is stored exactly when its site exists, no Bottle is refused, every named reference is an accepted one for its Bottle and no imported body lacks its fetch date |
| `ReviewRuns.StoredArticleFollowsInput` | apps/server/src/externalReviews/store.ts:86-115 | a stored import saves the article as it is and every supplied body with its fetch date; made by hand, an existing article only gets its issue and no body is touched |
| `ReviewRuns.StoringTwiceExactly` | apps/server/src/externalReviews/store.ts:171-256 | storing the same article again changes nothing exactly unless a hand-made review is created without its inactive Bottle, which the second store hides |
| `ReviewRuns.StoredTwiceExample` | apps/server/src/externalReviews/store.ts:191-204 | such a review is visible after the first store and hidden after the second |
| `ReviewRuns.SourceImportIsIdempotent` | apps/server/src/externalReviews/store.ts:171-256 | importing the same source article again changes no article, review or body |
| `ReviewRuns.AssignedBottleNeverChanges` | apps/server/src/externalReviews/store.ts:184-190 | over any run of store and publish transactions an assigned Bottle stays the same |
| `ReviewRuns.SourceReviewsAreVisibleOnlyWithBottle` | apps/server/src/externalReviews/store.ts:191-204 | over any run a review created by a source import is visible only with a Bottle |
| `ReviewRuns.HiddenReviewsAreShownByPublishing` | apps/server/src/externalReviews/publication.ts:33-99 | a hidden review that has its Bottle becomes visible exactly by a publish step of its site while that Bottle is active |
| `ReviewRuns.ImportsShowWhatTheyResolve` | apps/server/src/externalReviews/store.ts:191-204 | a hidden review without a Bottle is shown only by a source import of an approved site that finds it an active Bottle |
| `AccountDeletion.Database.DeleteUserAccount` | apps/server/src/lib/accountDeletion.ts:128-419 | the ordered statements leave every table as the table-by-table description says, in terms of the tables before; an account that may not be deleted leaves everything |
| `AccountDeletion.Database.ProcessDueAccountDeletions` | apps/server/src/lib/accountDeletion.ts:65-90 | the loop leaves all tables as the deletions of the due accounts one after another leave them; it deletes each account that may still be deleted and does not fail, counts them, and changes no other user row |
| `AccountDeletionRuns.RoundIsARun` | apps/server/src/lib/accountDeletion.ts:65-90 | what the loop leaves of all tables is what a run of the scheduler leaves, so the laws of runs hold of it |
| `AccountDeletion.TastingsErased` | apps/server/src/lib/accountDeletion.ts:234-340 | the separate updates of the tasting table add up to one row-by-row description of what is left |
| `AccountDeletionLaws.CountersStayEqual` | apps/server/src/lib/accountDeletion.ts:234-258 | a tasting whose comment and toast counters equalled its row counts has counters equal to its row counts afterwards |
| `AccountDeletionLaws.NothingDangles` | apps/server/src/lib/accountDeletion.ts:215-310 | if no comment, toast, notification, award, flight or collection link dangled before, none dangles after |
| `AccountDeletionRuns.RunKeepsCounters` | apps/server/src/lib/accountDeletion.ts:234-258 | over any run of requests, cancellations, rounds, deletions and failures, counters that equalled their row counts still do |
| `AccountDeletionRuns.RunKeepsLinks` | apps/server/src/lib/accountDeletion.ts:215-310 | over any such run no link comes to dangle |
| `AccountDeletionRuns.DeletedAccountsLeaveNoTrace` | apps/server/src/lib/accountDeletion.ts:186-390 | over any run of requests, cancellations, deletions and auction notices, an account that was deleted owns no row of the tables that deletion covers, is named in none of them but by closed reports and later auction notices, and has only removed content without pictures |
| `AccountDeletionRuns.DeletedAccountIsGoneExactly` | apps/server/src/lib/accountDeletion.ts:186-390 | a deleted member is gone from every modelled table exactly when the member had no watch or alert, made no report, was the subject of none, and stood in no staff reference that deletion leaves |
| `AccountDeletionRuns.NotifiedWhileWatchingExactly` | apps/server/src/lib/auctions.ts:802-832 | a member, deleted or not, can be sent another notification exactly while the member has a watch |
| `AccountDeletionRuns.WatchersAreToldExactly` | apps/server/src/lib/auctions.ts:802-832 | a notice goes only to whoever watches that Bottle since before the lot was available, and adds one alert and one notification that names it |
| `AccountDeletionRuns.ToldOncePerLot` | apps/server/src/lib/auctions.ts:817-823 | a member is told of a lot once, however many of the member's watches it meets |
| `AccountDeletionRuns.DeletedWatcherIsNotified` | apps/server/src/lib/auctions.ts:802-832 | a concrete run: a member with one watch is deleted and then sent a notification |
| `AccountDeletionRuns.TombstonesStay` | apps/server/src/lib/accountDeletion.ts:142-150 | over any run an account is deleted once: the tombstone stays as it is but for later requests |
| `AccountDeletionRuns.SurvivorsKeepTheirRows` | apps/server/src/lib/accountDeletion.ts:215-390 | over any such run a member whose account was not deleted keeps all own comments, toasts, flights, collections, awards, sign-ins and uploads with their parts and catalog follows; own tastings, reviews and drafts lose only tags, remarks and flights of members who were deleted; and a follow, block, staff reference or open report between members is lost only with one of them |
| `AccountDeletionLaws.OthersTastingsAreKept` | apps/server/src/lib/accountDeletion.ts:234-340 | another member's tasting changes only in counted remarks, the member's friend tag and a link to the member's flight |
| `AccountDeletionLaws.OthersRowsAreKept` | apps/server/src/lib/accountDeletion.ts:215-310 | other members' comments, toasts, flights, collections, awards, users and actors are unchanged, and so are notifications that do not concern the member |
| `AccountDeletionLaws.OwnTastingIsRemovedOnce` | apps/server/src/lib/accountDeletion.ts:262-275 | a tasting of the member stays for its Bottle, without its picture and removed in the member's name; an earlier removal stays |
| `AccountDeletionLaws.OwnReviewIsRemovedOnce` | apps/server/src/lib/accountDeletion.ts:275-287 | and so does a review of the member |
| `AccountDeletionLaws.AccountIsAnonymous` | apps/server/src/lib/accountDeletion.ts:97-111 | no name, address, password, picture or role is left of the account, and its actor keeps only the name all deleted members share |
| `AccountDeletionLaws.ReportsAreClosedExactly` | apps/server/src/lib/accountDeletion.ts:372-379 | exactly the open reports about the member and the member's content are closed with the note; all other reports stay as they are |
| `AccountDeletionLaws.ImagesExactly` | apps/server/src/lib/accountDeletion.ts:186-213 | the images to remove after the commit are exactly the pictures the member's rows show |
| `AccountDeletionLaws.RepeatChangesNothing` | apps/server/src/lib/accountDeletion.ts:142-150 | deleting a deleted account, by any route and at any time, changes nothing |
| `AccountDeletionLaws.TombstonesAreDistinct` | apps/server/src/lib/accountDeletion.ts:97-111 | tombstones of different members have different user names and addresses |
| `AccountDeletionRuns.GraceIsHonoured` | apps/server/src/lib/accountDeletion.ts:65-90 | over any run with requests and cancellations between the worker's read and its locks, an account is deleted only if the member's last word is a request at least the grace period old when the round began |
| `CheckScoring.ScoreExactSet` | packages/bottle-classifier/src/bottleCheckEvalScoring.ts:69-119 | the single pass with a count map scores the multiset intersection of the keys, so the order of either list does not matter |
| `CheckScoring.CountsAreConserved` | packages/bottle-classifier/src/bottleCheckEvalScoring.ts:76-119 | matched and extra make up the actual keys, matched and missing the expected keys, and both differences are exact |
| `CheckScoring.PenalisedExactly` | packages/bottle-classifier/src/bottleCheckEvalScoring.ts:100-107 | a score above zero, times the expected keys, is the matched keys less the weight of each extra key; it is zero exactly when nothing is gained |
| `CheckScoring.ScoresExactly` | packages/bottle-classifier/src/bottleCheckEvalScoring.ts:91-118 | score, precision and recall are those shares of the keys both sides have, with each case where there is nothing to divide by |
| `CheckScoring.ScoreIsOneExactly` | packages/bottle-classifier/src/bottleCheckEvalScoring.ts:99-107 | with a positive penalty the score is at most 1, and 1 exactly for equal multisets |
| `CheckScoring.SelectedSetIsBest` | packages/bottle-classifier/src/bottleCheckEvalScoring.ts:420-446 | the selector takes the first of the sets that score best, by score, then recall, then precision, and the semantic score is that set's score |
| `CheckScoring.KeysOfEach` | packages/bottle-classifier/src/bottleCheckEvalScoring.ts:393-399 | an operation list is scored by the keys of all its operations, one for each |
| `CheckScoring.SemanticScoreIsOneExactly` | packages/bottle-classifier/src/bottleCheckEvalScoring.ts:379-418 | the semantic score is 1 exactly when the proposed operations equal one of the accepted sets |
| `JsonInclusion.CanonicalExactly` | packages/bottle-classifier/src/bottleCheckEvalScoring.ts:48-67 | for every collation, two values have one canonical form exactly when they differ at most in the order of keys that the collation tells apart |
| `JsonInclusion.CanonicalIgnoresKeyOrderExactly` | packages/bottle-classifier/src/bottleCheckEvalScoring.ts:48-67 | canonical form ignores key order and nothing else exactly when the collation ties no two different keys |
| `JsonInclusion.SeparatedValuesIgnoreKeyOrder` | packages/bottle-classifier/src/bottleCheckEvalScoring.ts:48-148 | for values whose keys do not tie, equal canonical forms and inclusion both ways each mean differing in key order only |
| `JsonInclusion.IncludesIsReflexive` | packages/bottle-classifier/src/bottleCheckEvalScoring.ts:128-148 | every value includes itself |
| `JsonInclusion.IncludesIsTransitive` | packages/bottle-classifier/src/bottleCheckEvalScoring.ts:128-148 | inclusion is transitive |
| `JsonInclusion.IncludesBothWaysIsSame` | packages/bottle-classifier/src/bottleCheckEvalScoring.ts:128-148 | two values that include each other differ in key order only, under every collation |
| `JsonInclusion.IncludesBothWaysExactly` | packages/bottle-classifier/src/bottleCheckEvalScoring.ts:128-148 | including each other is the same as differing in key order only exactly when the collation ties no two different keys |
| `JsonInclusion.OperationInclusionIsAPreorder` | packages/bottle-classifier/src/bottleCheckEvalScoring.ts:150-177 | inclusion of proposed operations is reflexive and transitive |
| `JsonPaths.IncludesExactly` | packages/bottle-classifier/src/bottleCheckEvalScoring.ts:128-148 | a value includes another exactly when under every path of keys where something is required it has an object for an object and the same value for any other value |
| `JsonPaths.RefusedWithout` | packages/bottle-classifier/src/bottleCheckEvalScoring.ts:128-148 | a required key that is not there, or a required scalar that differs, refuses the value at any depth |
| `JsonPaths.AddedFieldKeepsInclusion` | packages/bottle-classifier/src/bottleCheckEvalScoring.ts:143-147 | a field more in the actual value, at any depth, keeps the inclusion |
| `JsonPaths.AddedFieldIsNotIncludedBack` | packages/bottle-classifier/src/bottleCheckEvalScoring.ts:143-147 | a value never includes what it became by getting a field more, at any depth |
| `JsonPaths.OneMoreRequirementExactly` | packages/bottle-classifier/src/bottleCheckEvalScoring.ts:143-147 | one more required field, at any depth, asks for exactly that field, so a field dropped from what is required keeps the inclusion |
| `JsonPaths.OperationIncludesExactly` | packages/bottle-classifier/src/bottleCheckEvalScoring.ts:150-177 | a proposed update includes a required one exactly when it is of the same Bottle or Entity and its patch meets the required patch under every path; a proposed merge must be the same merge of the same input |
| `JsonPaths.ProposalsMaySayMore` | packages/bottle-classifier/src/bottleCheckEvalScoring.ts:150-177 | a proposed update may say more than is required, at any depth of its patch, but may leave out nothing |
| `JsonPaths.StatedAgeExample` | packages/bottle-classifier/src/bottleCheckEvalScoring.ts:150-177 | a patch of strength and age includes the patch of the age alone, and not the other way round |
| `FieldConflicts.CompareBottleFields` | packages/bottle-classifier/src/fieldConflicts.ts:143-175 | the loop lists, in field order, exactly the fields with each outcome: a field only the source states is missing; a plain field both state agrees exactly when the values are equal and conflicts exactly when they differ, a cask number by its normalised text, an edition by its words; no field is in two lists, and every stated one but the edition is in one |
| `FieldConflicts.EditionsAreSymmetric` | packages/bottle-classifier/src/fieldConflicts.ts:75-132 | two editions compare the same with the sides swapped |
| `FieldConflicts.ComparisonIsSymmetric` | packages/bottle-classifier/src/fieldConflicts.ts:143-175 | agreements and conflicts of two records are the same with the sides swapped |
| `FieldConflicts.EmptyFieldsNeverConflict` | packages/bottle-classifier/src/fieldConflicts.ts:134-175 | a field is missing exactly when only the source states it, and agrees or conflicts only when both sides state it |
| `FieldConflicts.NoConflictWithItself` | packages/bottle-classifier/src/fieldConflicts.ts:143-175 | a record never conflicts with itself |
| `FieldConflicts.SharedWordsNeverConflict` | packages/bottle-classifier/src/fieldConflicts.ts:117-132 | editions never conflict when every marker word of one is a word of the other |
| `FieldConflicts.NumeralEditions` | packages/bottle-classifier/src/fieldConflicts.ts:75-132 | editions of plain numerals and words agree exactly when they name the same numbers and conflict exactly when each names one the other does not, for all zeros, order and wording |
| `FieldConflicts.GluedNumbersAreCompared` | packages/bottle-classifier/src/fieldConflicts.ts:75-132 | letters glued to a number agree with the same letters and number apart exactly when the numbers are equal, and conflict otherwise |
| `FieldConflicts.WordingIsIgnoredExactly` | packages/bottle-classifier/src/fieldConflicts.ts:75-132 | a word without digits, wherever it stands, leaves the outcome as it was exactly when: no digits stand beside it; or the text with it joins to the other edition's and the markers agreed already; or the text without it did and the markers agree with it; or neither does and the markers compare the same |
| `FieldConflicts.OtherWordsAreIgnoredExactly` | packages/bottle-classifier/src/fieldConflicts.ts:75-132 | a word that takes no code's letters off is ignored exactly when there are no digits beside it, the markers already agree, or neither joined text equals the other edition's |
| `FieldConflicts.MarkersWithWord` | packages/bottle-classifier/src/fieldConflicts.ts:75-102 | with one more word each side lacks exactly the markers it lacked before, less those of codes whose letters the word spells and whose number the other side prints alone |
| `FieldConflicts.WordsOnlyReconcileMarkers` | packages/bottle-classifier/src/fieldConflicts.ts:75-132 | a word that repeats a code's letters can turn a conflict of markers towards agreement, never the other way |
| `FieldConflicts.WordingCanMatter` | packages/bottle-classifier/src/fieldConflicts.ts:117-125 | one added word turns an agreement of a spaced code with its glued form into a conflict |
| `BoundedRead.ReadBody` | packages/bot/src/bot.ts:285-319 | for every chunking the result is the whole stream when it fits, its first `maxBytes` when it may be cut off, and nothing when it may not or the declared length is too large |
| `BoundedRead.BodyIsBoundedPrefix` | packages/bot/src/bot.ts:285-319 | a body is a prefix of the stream of at most `maxBytes`, and shorter than the stream only when cut off at exactly `maxBytes` |
| `BoundedRead.BodyOutcomeExactly` | packages/bot/src/bot.ts:285-319 | a body is refused exactly when it may not be cut off and is sent or declared longer than the bound, and broken exactly when the stream breaks within the bound |
| `BoundedRead.FetchDirect` | packages/bot/src/bot.ts:401-489 | the loop's outcome and the URLs it requested are those of following the chain of checked redirects |
| `BoundedRead.RequestsAreAllowed` | packages/bot/src/bot.ts:420-469 | at most six requests are sent, each to an address that passed the address check and, after the first, the redirect check, and each where the previous answer redirected |
| `BoundedRead.PageIsLastAnswer` | packages/bot/src/bot.ts:470-486 | a page is the bounded body of the last requested URL's successful answer |
| `BoundedRead.TooManyMeansAllRedirected` | packages/bot/src/bot.ts:420-488 | "too many redirects" is reported exactly when all six requests were sent and the last answer redirected once more |
| `ReadCauses.OutcomeHasItsCause` | packages/bot/src/bot.ts:231-489 | every outcome has its cause where the chain of requests ended: which refusal of the address or the redirect check, which failure of the last request, a header by which Cloudflare, Vercel or DataDome wall the bot off, the status, or the body |

## Left out

- Network, DNS, request signing, Firecrawl, classifier and model calls, job dispatch, logging, notification
  texts, routes and user interface: input and output only.
- SQL execution, row locks and the advisory lock: a transaction or guarded update is one atomic step, and
  the next holder of the advisory lock sees what the last one saved. `backgroundEventKey` is unique.
- Robots text: lower-casing is modelled for ASCII letters. The caching of rules and the status codes of
  robots.txt requests are not part of this model.
- RobotsGroups.SortRules: stands for a sort whose comparator answers "before" both ways for two equally long
  allow rules, which the language leaves open; the model assumes that the sort still puts longer rules first
  and allow before disallow among equals, and `FirstRuleDecides` holds for every such order.
- Cursor numbers of 10^21 and more, which JavaScript prints with an exponent: they are out of range and refused.
- Activity entries are rows of already ordered queries; serialising entries and the collection queries' joins
  are not modelled, and the session numbering is stated on the meaning of LAG, SUM OVER and GROUP BY.
- Auction fingerprints: the hash is taken to be injective, so the hashed text stands for it.
- Auction listings: a row id stands for the listing's own key and an observation brings its auction's end
  date; lot number, image, condition and bid columns, notifications, results and detail run ids are not modelled.
- Other writers of auction rows (the recheck route, Bottle merges, reference corrections) and remembering a
  global alias when assigning are not steps of the protocol.
- Waking of waiting twins: the model shows that a twin can always go on, not that the job queue runs it.
- `conflicts` and `eligible` of the auction rules, which call the field comparison and the Bottle resolution
  assessment, are parameters.
- Batch queue: mutual exclusion is stated for pushes only, since `processRemaining` beside `push` does not
  give it; bounds assume a batch size of at least 1.
- Tag and edition tokenizing, Unicode normalisation and cask number normalisation: the models start from words,
  and cask normalisation is a parameter. Strings compare by code point.
- Scores and ratios are real numbers with halves rounded up, not IEEE doubles; dates are day numbers.
- Review article schema checks other than unique source keys, `updatedAt`, removal by a moderator and the
  locks on store prices: not modelled. A missing `hidden` value counts as false.
- Account deletion: identities, passkeys and authorization codes stand in one `signIns` table, the four staff
  reference columns that deletion clears in one `staffReferences` table, and those it leaves (matched lots,
  closed checks, reviewed operations and attempts, scrape sources, suspensions, closed reports, robots
  exceptions) in one `keptReferences` table; removing files from storage, recomputing Bottle statistics and
  the audit log come after the commit and are not modelled. In runs other members add no rows.
- JSON: `localeCompare` is any weak order of keys, and the text of a canonical value is taken to identify it;
  integer-like keys, which objects list first, are not treated apart. Grounding scores and finding keys are
  left out: they only list missing references.
- A body stream that fails while being cancelled, and abort timing, are transport failures outside the model.
- `packages/bot/src/passages.ts`, the text rewriting in `normalize.ts` and `smws.ts`, drafts, prompts and the
  automation tier table: string-library behaviour or finite tables.
