# A verified model of dflybot's link service, monitors and caches

The project models the stateful core of dflybot in Dafny and proves what that
core promises: the `urlshort` link store with its keys, namespaces, pages and
routes; the `github-monitor` and `redmine-monitor` feeds with their watermark and
message batcher; and four small in-memory structures - the rate-bucket table, the
TTL cache, the `seen` database and the Jenkins job state.

`dafny verify dfyconfig.toml` checks everything.

## How it is built

Code that updates state in place is a class (`BoltStore`, `Handlers`, `Limiter`,
`Cache`, `SeenStore`, `RepoMonitor`, `ProjectMonitor`, `JobMonitor`), and loops are
loops. Each such method is proved equal to a function of its inputs and the old
state; the properties are then proved about these functions, over all inputs and
over whole runs. A Go string is a sequence of bytes, each byte a character. A
bbolt transaction is one atomic method; whether its commit succeeds is an input.
Clock readings, random ids, HTTP replies, file write failures and the store that
a request reads before its transaction are inputs too.

| files | modelled part |
|---|---|
| `KeyOrder`, `KeyScan`, `Lists` | byte order of keys, cursor scans, pages |
| `LinkStore`, `LinkInvariants`, `BackupCheck` | the two buckets, their transactions, the backup check |
| `KeyRules`, `HashKeys` | key validation, rules, hash prefixes, random keys |
| `Access`, `AccessControl`, `RequestOutcome`, `AccessList`, `MovingList`, `Api` | namespaces, the link handlers, batches, listings |
| `Routing` | request paths, namespaces of the configuration, short URLs |
| `Watermark`, `GithubMonitor`, `RedmineMonitor`, `MessageBatcher` | feed deduplication, paging, issue states, announcing |
| `RateLimiter`, `TtlCache`, `SeenFlush`, `Nicks`, `NickLookup`, `JenkinsJobs` | the in-memory structures |

## Where the code keeps less than one would expect

In each case the code is modelled as written, and the exact condition is proved
next to a concrete input.

- A creation writes the link before the index entry, and bbolt refuses an empty
  or oversized target. A single creation rolls back; in a batch the transaction
  goes on, and the link stays without an index entry. The API refuses empty and
  long raw targets, but not those that only become too long when they are put in
  canonical form (`BatchKeepsInverseIff`, `BatchCanLoseTheIndexEntry`,
  `RequestKeepsSoundIff`, `RunKeepsSoundIff`, `BatchCanKeepAHalfWrite`).
- `List` returns nothing for a cursor that sorts before its prefix when another
  key lies in between (`ScanIsCompleteIff`, `ForeignCursorHidesKeys`).
- The backup check only compares counts above 100000 links (`CheckIsExactIff`,
  `AcceptsExactlyInverse`, `LargeDatabasesAreOnlyCounted`).
- A batch is not its items sent one by one: it keeps half writes, and an item can
  be refused although the link it asks for was published by an earlier item
  (`BatchVersusSingles`, `BatchCanKeepAHalfWrite`,
  `BatchCanRefuseWhatASingleResolves`).
- The short URL of a key with an empty inner segment does not lead back to it
  (`ShortUrlReachesLinkIff`, `EmptySegmentsAreValid`).
- The watermark is stored in whole seconds, so an event with a fraction would look
  new for ever (`RedeliveryIsSilentIff`, `FractionIsNewAgain`).
- Paging stops at a page that ends in the watermark's second, so an event of that
  second on the next page can be missed (`FetchMissesNothingNewIff`,
  `NewEventsAreAcceptedIff`, `SameSecondCanBeMissed`).
- The events of one poll are not compared with each other: when the feed grows
  between two page requests, an event comes on both pages and is announced twice
  (`NoEventIsAcceptedTwiceIff`, `GrowingFeedIsAcceptedTwice`).
- A failed write of a `seen` file is not retried (`WrittenIff`,
  `FailedWriteIsForgotten`).
- Renaming a nick and back restores the entry under the spelling of the second
  rename (`RenameAndBack`, `RenameBackCanRespell`).
- A transient error during a Jenkins round makes the next round announce the
  failures before it again (`RetryRepeatsFailures`, `FailureCanBeAnnouncedTwice`).
- A negative default TTL expires at once; only a negative TTL argument means
  "for ever" (`StoredValueIsFoundIff`, `NegativeDefaultExpiresAtOnce`).

## Model

| member | source | states |
|---|---|---|
| LinkStore.BoltStore.Open | urlshort/store_bbolt.go:47-89 | missing buckets are created empty and existing ones keep their contents, a file without version gets the current one, and a corrupt or newer version is refused without a change |
| LinkStore.BoltStore.Resolve | urlshort/store_bbolt.go:91-102 | the key a target is mapped to, or not found, exactly as the index bucket says |
| LinkStore.BoltStore.Get | urlshort/store_bbolt.go:104-120 | the link under a key with that key filled in, or not found |
| LinkStore.BoltStore.CreateInTx | urlshort/store_bbolt.go:158-218 | the shared creation step refines its specification, including the partial write before an error |
| LinkStore.BoltStore.Create | urlshort/store_bbolt.go:122-133 | one creation is one transaction: its effect remains only if it succeeds and commits |
| LinkStore.BoltStore.CreateBatch | urlshort/store_bbolt.go:138-154 | a batch is the left fold of creations over the evolving store, with one result per request; a failed commit restores everything |
| LinkStore.BoltStore.Update | urlshort/store_bbolt.go:220-262 | retargeting in one transaction; an error or failed commit restores both buckets |
| LinkStore.BoltStore.Delete | urlshort/store_bbolt.go:264-281 | deletion from both buckets in one transaction |
| LinkStore.BoltStore.List | urlshort/store_bbolt.go:283-323 | a page is the first links, in key order, of the scanned key set, with a cursor exactly when the page is full |
| LinkStore.BoltStore.ScanLinks | urlshort/store_bbolt.go:306-316 | the cursor loop stops at the page size or at the end of the run of keys with the prefix |
| LinkStore.BoltStore.CountPrefix | urlshort/store_bbolt.go:325-336 | counts every stored key with the prefix, although it stops at the first one without |
| LinkInvariants.CreateIsAtomicIff | urlshort/store_bbolt.go:158-218 | a creation keeps the buckets inverse, and a failing one keeps them unchanged, exactly when it does not pick an acceptable key for a target bbolt refuses |
| LinkInvariants.BatchKeepsInverseIff | urlshort/store_bbolt.go:138-218 | a batch keeps the buckets inverse exactly when none of its items is such a half write |
| LinkInvariants.ApplyKeepsInverseIff | urlshort/store_bbolt.go:122-281 | every operation, failing or not, keeps the buckets inverse, except exactly a committed batch with a half write |
| LinkInvariants.BatchCanLoseTheIndexEntry | urlshort/store_bbolt.go:143-149 | a batch with an empty target leaves a link without index entry |
| LinkInvariants.CreateMeaning | urlshort/store_bbolt.go:158-218 | a creation changes no existing link; afterwards Resolve and Get find the link for its target, under the explicit key if there was one, and a new link carries the request's rule, owner and time |
| LinkInvariants.ExplicitKeyIsGrantedIff | urlshort/store_bbolt.go:162-189 | an explicit key is granted exactly if it already belongs to the target, or is free and the buckets accept key and target; taken keys and mapped targets are conflicts |
| LinkInvariants.GeneratedKeyIsUsedIff | urlshort/store_bbolt.go:180-202 | a generated key is used exactly if it is not empty, free and accepted by the buckets; each other outcome has its error |
| LinkInvariants.FailedOpChangesNothing | urlshort/store_bbolt.go:122-281 | an operation whose body or commit fails leaves both buckets as they were |
| LinkInvariants.CreateIsIdempotent | urlshort/store_bbolt.go:162-178 | a second request for the same target gets the first one's link, or a conflict for another explicit key, and writes nothing |
| LinkInvariants.UpdateMeaning | urlshort/store_bbolt.go:220-262 | retargeting frees the old target, maps the new one, touches no other link, and fails exactly for a missing key, a target of another key or a refused target |
| LinkInvariants.DeleteMeaning | urlshort/store_bbolt.go:264-281 | deletion frees key and target, touches no other link, and fails exactly for a missing key |
| LinkInvariants.ResolveInvertsGet | urlshort/store_bbolt.go:91-120 | with inverse buckets, Resolve gives a key exactly when Get of that key gives the target |
| LinkInvariants.BatchResultBelongsToRequest | urlshort/store_bbolt.go:143-149 | result i is what request i gets on the store its predecessors left |
| LinkInvariants.RunKeepsInverseIff | urlshort/store_bbolt.go:122-281 | over every run of operations with any mix of failures the buckets are inverse all the time exactly when no operation is a committed batch with a half write |
| LinkInvariants.RunChangesOnlyNamed | urlshort/store_bbolt.go:122-281 | over every run, from any buckets, a published link changes only by an update or deletion of its key, so no creation ever changes one |
| BackupCheck.Verify | urlshort/store_bbolt.go:399-421 | the check returns both counts and its verdict |
| BackupCheck.AcceptsExactlyInverse | urlshort/store_bbolt.go:399-421 | up to 100000 links, equal counts and the pass over the links accept exactly the inverse buckets |
| BackupCheck.LargeDatabasesAreOnlyCounted | urlshort/store_bbolt.go:402-406 | at every larger size an accepted database without any right index entry exists |
| BackupCheck.LargeNeedsOnlyCounts | urlshort/store_bbolt.go:402-406 | above 100000 links the counts alone decide |
| BackupCheck.CheckIsExactIff | urlshort/store_bbolt.go:399-421 | the check decides "full inverses" for every database of n links exactly when n is at most 100000 |
| KeyOrder.PrefixIsInterval | urlshort/store_bbolt.go:306 | the keys that share a prefix are contiguous in key order |
| KeyScan.ScanIsCompleteIff | urlshort/store_bbolt.go:297-306 | List scans all matching keys after the cursor exactly when no key separates cursor and prefix, or nothing matches |
| KeyScan.ForeignCursorHidesKeys | urlshort/store_bbolt.go:297-306 | two stored keys and a cursor in front of the prefix: the matching key is not found |
| KeyScan.CursorWithPrefixHasNoGap | urlshort/store_bbolt.go:297-306 | an empty cursor, or one with the prefix, never misses a key |
| KeyScan.ScanIsRun | urlshort/store_bbolt.go:297-316 | what the cursor walks is the scanned set in increasing order |
| KeyScan.FirstPageMeaning | urlshort/store_bbolt.go:306-316 | a page is increasing, within the limit, and leaves out only keys behind its cursor |
| KeyScan.PageLength | urlshort/store_bbolt.go:306-316 | a page has as many links as there are, up to the limit |
| KeyScan.ListNeverRepeats | urlshort/store_bbolt.go:283-323 | following the cursors of List under arbitrary creations and deletions gives increasing keys with the prefix, so none twice, each stored when it was read |
| KeyScan.ListMissesNothing | urlshort/store_bbolt.go:283-323 | following the cursors of List, a key with the prefix that is stored throughout is returned before the cursor comes back empty |
| KeyScan.ListEnds | urlshort/store_bbolt.go:283-323 | on a fixed store, following the cursors of List ends and returns exactly the keys with the prefix |
| KeyScan.ListIsFollow | urlshort/store_bbolt.go:297-316 | a client that starts without cursor, or with one that has the prefix, only gets cursors that have it, so no call hides a key |
| KeyRules.GenerateKey | urlshort/rules.go:108-153 | the generation loop refines its specification for plain and hash rules and all errors |
| KeyRules.ExtendMeaning | urlshort/rules.go:138-152 | the loop gives the candidate of the first length that is not taken, and a conflict exactly when all are |
| KeyRules.HashKeyMeaning | urlshort/rules.go:126-152 | for any template, a hash key uses at least the configured number of hash characters, or all of a shorter hash, and is the first from there on that is not both valid and taken |
| KeyRules.PlainKeyMeaning | urlshort/rules.go:109-124 | a rule without hash gives its rendered key if valid and free, a conflict if taken, an error if not valid |
| KeyRules.ValidKeyIff | urlshort/rules.go:156-197 | valid keys position by position: one to 256 allowed characters, a slash in front, no dot or tilde behind a slash, not reserved |
| KeyRules.KeyForIsFree | urlshort/rules.go:108-153 | a generated key is valid and was reported free |
| KeyRules.Match | urlshort/rules.go:72-90 | the rule loop gives the first covering rule |
| KeyRules.FirstMatchMeaning | urlshort/rules.go:72-90 | a rule is matched exactly when it covers the target and no earlier one does |
| KeyRules.GenerateRandomKey | urlshort/rules.go:222-241 | at most ten drawn ids, under a namespace that ends with a slash |
| KeyRules.FirstFreeIdMeaning | urlshort/rules.go:226-240 | the result is the first drawn id whose key is free, and an error only if there is none among ten |
| KeyRules.RandomKeysAreNotValidKeys | urlshort/rules.go:156-241 | no random key is a valid explicit or rule key, so the two kinds never collide |
| HashKeys.NewLinkGetsShortestFreePrefix | urlshort/rules.go:126-152 | a new target of a hash rule gets the shortest free hash prefix of at least the minimum length that its client may access; each error names its cause: all lengths taken, that key not accessible, no hash, a refused target, or an invalid key before any free one |
| HashKeys.PreparedHashRequest | urlshort/api.go:516-541 | the requests of these theorems are those that the handler prepares for a matching rule |
| HashKeys.ConflictMeansSameHashStored | urlshort/rules.go:126-152 | if the rule's key space holds only its own keys, a conflict means that a link from the very same hash is stored |
| HashKeys.MakeAddsOwnKey | urlshort/rules.go:126-152 | the only key such a creation adds is made from its own hash |
| HashKeys.CreationAddsAtMostOne | urlshort/store_bbolt.go:158-218 | a creation changes no link and adds none but the one under the key it picked |
| HashKeys.RunHolds | urlshort/store_bbolt.go:122-281 | over every run of transactions, batches and failed commits included, in which nobody else stores keys of the space, it holds only keys the rule made |
| HashKeys.UnstoredHashNeverConflicts | urlshort/rules.go:126-152 | after every such run, the request prepared for a new target whose hash is not stored never gets a conflict |
| Access.CheckAccess | urlshort/auth.go:80-92 | access means being admin or owning a namespace that is a prefix |
| AccessControl.PreparedKeysAreAccessible | urlshort/api.go:475-541 | explicit, rule-made, hash-extended or random: the key picked for a client lies in its namespaces |
| AccessControl.RequestIsConfined | urlshort/api.go:544-757 | no request changes a key its client may not access |
| AccessControl.RunIsConfined | urlshort/api.go:544-757 | over every run of requests by any clients, a key changes only through a client that may access it |
| AccessControl.BatchAnswersAreExclusive | urlshort/api.go:621-656 | every batch answer is for its own target, has exactly one of link and error, and says created only for a key that was free |
| AccessControl.BatchItemVersusSingle | urlshort/api.go:624-656 | a batch item changes the store like a single request exactly if it is no half write, and is answered alike exactly if an earlier item has not overtaken its rejection |
| AccessControl.BatchVersusSingles | urlshort/api.go:601-663 | a batch and its items sent one by one leave the same store exactly when no item is a half write; up to the first one, answer i agrees exactly when item i was not overtaken |
| AccessControl.BatchCanRefuseWhatASingleResolves | urlshort/api.go:624-637 | a batch whose second item is forbidden although a single request would get the link |
| AccessControl.BatchCanKeepAHalfWrite | urlshort/store_bbolt.go:143-149 | a committed one-item batch whose canonical target exceeds the bucket limit leaves a link without index entry; the same item alone leaves nothing |
| AccessControl.RepeatedPostResolves | urlshort/api.go:496-502 | whoever asks again for a published target without naming a key gets the very same link, and nothing changes |
| RequestOutcome.ExplicitPost | urlshort/api.go:482-494 | a creation with a key: bad request if not valid, forbidden if foreign, the link if the target has it, a conflict if key or target is taken otherwise, and else created with the client as owner |
| RequestOutcome.PublishedPost | urlshort/api.go:496-502 | without a key, a published target is answered with its link, whoever owns it |
| RequestOutcome.UncoveredPost | urlshort/api.go:505-517 | an unpublished target that no rule covers is created under the first namespace, or the root for an admin without any, with a tilde and the first free of ten ids, and refused exactly for lack of a namespace, an id or fitting records |
| RequestOutcome.PlainRulePost | urlshort/api.go:519-541 | a covered target gets the rendered key of the first covering rule, if that is valid, the client's, and free; each other case has its error |
| RequestOutcome.HashRulePost | urlshort/api.go:519-541 | for a hash rule, the first key from the configured length on that is not both valid and taken, if the client owns it |
| RequestOutcome.ForeignRulePost | urlshort/api.go:521-531 | a rule whose whole key is not valid or not the client's refuses before the store is touched |
| RequestOutcome.BadTargetPost | urlshort/api.go:476-480 | a target that is not accepted is a bad request |
| RequestOutcome.PutMeaning | urlshort/api.go:708-743 | a retargeting request in all cases: refused, not found, conflict, nothing to do, or the link moved with all else kept |
| RequestOutcome.RemoveMeaning | urlshort/api.go:745-765 | a deletion request in all cases, with its whole effect |
| RequestOutcome.BatchSizes | urlshort/api.go:609-617 | batches of one to a hundred items are carried out, others are bad requests without effect |
| RequestOutcome.BatchItemAt | urlshort/api.go:621-656 | item i is carried out on the store that the items before it left |
| RequestOutcome.CreatedIff | urlshort/api.go:651-655 | an item says created exactly if its link is new to the store |
| RequestOutcome.UncommittedChangesNothing | urlshort/api.go:544-757 | without its commit no request changes anything |
| RequestOutcome.UncommittedAnswers | urlshort/api.go:559-563 | a creation whose commit fails is never answered as created |
| AccessControl.BatchKeepsSoundIff | urlshort/api.go:619-656 | a batch request leaves inverse buckets exactly when none of its items is a half write |
| AccessControl.RequestKeepsSoundIff | urlshort/api.go:544-757 | every request, whatever it saw and whether it commits, leaves inverse buckets, except exactly a committed batch of allowed size with a half write |
| AccessControl.RunKeepsSoundIff | urlshort/api.go:544-757 | over every run of API requests the buckets are inverse all the time exactly when no visit is such a batch |
| AccessList.ListingIsConfined | urlshort/api.go:404-420 | a listing never selects a key outside the client's namespaces |
| AccessList.ListingIsComplete | urlshort/api.go:404-420 | without a namespace parameter it selects exactly the accessible keys after the cursor, however many namespaces there are |
| AccessList.ListingIsFollow | urlshort/api.go:404-420 | every cursor of a listing is one of its own keys, so following a listing never falls into the gap of List |
| AccessList.ListingNeverRepeats | urlshort/api.go:382-463 | following a listing under arbitrary creations and deletions gives increasing keys that the client asked for, none twice |
| AccessList.ListingMissesNothing | urlshort/api.go:382-463 | a key that was asked for and is stored throughout is listed before the listing ends |
| AccessList.ListingEnds | urlshort/api.go:382-463 | on a fixed store the listing ends with exactly the selected keys |
| AccessList.FilteredPage | urlshort/api.go:437-463 | filtering unfiltered pages until the limit gives the page of accessible keys |
| MovingList.CallFits | urlshort/api.go:437-463 | however the store changes between the inner pages of a call, its page is full or the last one, and the cursor is its last key |
| MovingList.FollowFilteredCovers | urlshort/api.go:437-463 | with arbitrary changes between any two inner pages, following listFiltered gives accessible keys in increasing order, each stored when it was read, and misses none that was stored throughout |
| MovingList.CallOnFixedStore | urlshort/api.go:437-463 | while the store does not change, a call ends after at most one read more than there are keys, with the page of the accessible keys |
| Api.Handlers.CreateLink | urlshort/api.go:544-567 | one creation request: answer and store |
| Api.Handlers.CreateLinks | urlshort/api.go:601-663 | the handler with its index list answers every item as if the items were taken in turn, and changes the store alike |
| Api.Handlers.UpdateLink | urlshort/api.go:708-743 | one retargeting request: validation order, answer and store |
| Api.Handlers.DeleteLink | urlshort/api.go:745-765 | one deletion request: answer and store |
| Api.Handlers.ListLinks | urlshort/api.go:382-435 | a listing is the first page of the selected keys with the stored links; it fails exactly for a bad limit or a foreign namespace |
| Api.Handlers.ListFiltered | urlshort/api.go:437-463 | terminates with exactly the first accessible keys after the cursor, although it reads unfiltered pages |
| Api.Handlers.FillIn | urlshort/api.go:640-655 | the second loop puts each store answer at the item that waits for it and changes no other |
| Api.Handlers.PrepareItems | urlshort/api.go:619-637 | the first loop answers what needs no store, and indexes the rest in order |
| Api.BatchIsCarried | urlshort/api.go:619-656 | the batch as items in turn equals preparing all and then carrying out |
| Api.TwoPhasesChangeAlike | urlshort/api.go:619-656 | one store batch changes the store like the items in turn |
| Api.TwoPhasesAnswerAlike | urlshort/api.go:619-656 | the answer of item i is store answer number rank(i), or the immediate one |
| Routing.StorableKeysAreRedirected | urlshort/server.go:594-618 | every key that creation can store is routed to the redirect handler and to no reserved path |
| Routing.RoutesMeaning | urlshort/server.go:594-618 | exactly the API tree, the well-known tree and three paths do not reach the redirect handler |
| Routing.ValidNamespaceIff | urlshort/config.go:704-727 | valid namespaces position by position: slashes at both ends, allowed characters, a proper start behind every inner slash, not reserved |
| Routing.RunKeepsStorable | urlshort/config.go:704-727 | over every run of clients with valid namespaces only such keys are stored |
| Routing.EveryStoredKeyIsReached | urlshort/redirect.go:15-49 | after every such run a path is answered with the target of the link stored under it, and not found if there is none |
| Routing.PatternEndsWithSlash | urlshort/config.go:704-715 | a valid namespace ends with a slash |
| Routing.ShortPathRoundTripsIff | urlshort/api.go:314-319 | the joined path equals the key exactly when the key has no two slashes in a row |
| Routing.ShortPathMergesRuns | urlshort/api.go:314-319 | the joined path has the same non-empty segments in the same order, and no empty inner one |
| Routing.ShortUrlReachesLinkIff | urlshort/api.go:314-319 | the short URL answers with the link's target exactly when the key has no empty inner segment |
| Routing.StoredShortUrlsReachIff | urlshort/api.go:314-319 | over every run of clients with valid namespaces without such a batch, the same holds for every stored link |
| Routing.EmptySegmentsAreValid | urlshort/rules.go:183-190 | a valid key whose short URL is the home page |
| MessageBatcher.Batch | github-monitor/monitor.go:501-528 | the loop splits the lines, in order and without loss, into non-empty messages that fit or are a single line, and never starts a message early; curLen is always the joined length |
| MessageBatcher.GreedyIsOptimal | redmine-monitor/monitor.go:508-535 | no other order-preserving valid split uses fewer messages |
| MessageBatcher.PostsFit | github-monitor/monitor.go:489-499 | a post with its prompt exceeds the poster's limit only for one line that is too long by itself |
| MessageBatcher.JoinMeaning | github-monitor/monitor.go:501-528 | the text of a message is its lines with the separator between any two |
| Watermark.NewestOf | github-monitor/monitor.go:322-327 | the newest time of a list |
| Watermark.IdsOf | github-monitor/monitor.go:332-336 | the ids of a list at one time, in order |
| Watermark.NewsMembers | github-monitor/monitor.go:292-300 | accepted are exactly the events newer than the watermark, or of its second and not recorded |
| Watermark.NewsDistinctIff | github-monitor/monitor.go:292-300 | a list is not compared with itself: an id is accepted twice from it exactly if two new events carry it |
| Watermark.AdvanceIsExact | github-monitor/monitor.go:318-337 | after an advance an event is new exactly if it was new before and is neither accepted nor older than an accepted one |
| Watermark.AdvanceForgetsNothing | github-monitor/monitor.go:294-339 | after a poll nothing it was shown is new any more, nor anything handled before |
| Watermark.RedeliveryIsSilentIff | github-monitor/monitor.go:172-175 | the same list again is silent exactly when the newest accepted time is a whole second |
| Watermark.FractionIsNewAgain | github-monitor/monitor.go:172-175 | an event with half a second is accepted again from the same list |
| Watermark.SeedIsExact | github-monitor/monitor.go:269-281 | after seeding exactly those events are new that are not in the seeding list and not older than one of it |
| Watermark.SeedRemembers | github-monitor/monitor.go:269-281 | a seeding list counts as handled from then on |
| Watermark.AcceptRemembers | github-monitor/monitor.go:288-339 | what is accepted was not handled before, and the invariant on handled events is kept |
| Watermark.PollsAreOnePoll | github-monitor/monitor.go:288-339 | consecutive polls that see all parts of a history accept together what one poll accepts and leave the same watermark |
| GithubMonitor.FetchEvents | github-monitor/github.go:137-169 | the paging loop: unchanged only from the first page, an error on any failing page, the concatenated pages otherwise |
| GithubMonitor.FetchMeaning | github-monitor/github.go:137-169 | for any mix of pages that arrive or fail: the fetch fails exactly if a page that is asked for does not arrive, and otherwise gives all events up to the last linked page, the tenth, or one that reaches back |
| GithubMonitor.FailingPageLosesNothing | github-monitor/monitor.go:243-253 | when any page that is asked for fails, the poll accepts nothing and keeps its state, so what was new stays new |
| GithubMonitor.PollMeaning | github-monitor/monitor.go:241-357 | one poll: only a changed list moves the state, the first one is silent, and later ones accept exactly what is newer than the watermark or of its second and not recorded |
| GithubMonitor.FetchReadsPages | github-monitor/github.go:137-169 | when all pages arrive, the result is a prefix of the feed |
| GithubMonitor.StopsSafely | github-monitor/github.go:160-166 | paging stops before the cap only where the rest of the feed is not newer than the watermark |
| GithubMonitor.FetchMissesNothingNewerIff | github-monitor/github.go:137-169 | of a newest-first feed no strictly newer event is missed exactly when none lies beyond the page cap |
| GithubMonitor.FetchMissesNothingNewIff | github-monitor/github.go:137-169 | no event that is new to the watermark is missed exactly when nothing newer lies beyond the page cap and the unread events of its own second are recorded |
| GithubMonitor.SameSecondCanBeMissed | github-monitor/github.go:163 | two pages of one second: the second event is new, and is not fetched |
| GithubMonitor.RepoMonitor.constructor | github-monitor/monitor.go:564-582 | a start resumes from the saved state, or from an unseeded one |
| GithubMonitor.RestartsAreInvisible | github-monitor/monitor.go:241-357 | as long as the state file can be written, restarts between polls change neither the state nor what is accepted |
| GithubMonitor.RepoMonitor.Poll | github-monitor/monitor.go:241-357 | one poll refines its specification in memory and in the file, whether the file can be written or not |
| GithubMonitor.RepoMonitor.NewEvents | github-monitor/monitor.go:288-303 | accepts, oldest first, exactly what the watermark and the boundary ids let through |
| GithubMonitor.PollRemembers | github-monitor/monitor.go:241-357 | the invariant of every poll: what it accepted or was seeded with is older than the watermark, or of its second and recorded |
| GithubMonitor.NoEventIsAcceptedTwiceIff | github-monitor/monitor.go:258-339 | over every sequence of polls - seeding, failures, unchanged replies, redelivered lists - nothing handled is accepted again, and an id is accepted twice exactly if one fetched list repeats it while it is new |
| GithubMonitor.DistinctListsDoNotRepeat | github-monitor/monitor.go:292-300 | lists that name every event once never do that |
| GithubMonitor.GrowingFeedIsAcceptedTwice | github-monitor/github.go:141-168 | an event that ends one page and starts the next is fetched and accepted twice |
| GithubMonitor.SeedingListStaysSilent | github-monitor/monitor.go:258-287 | the events of the seeding list are never accepted, then or later |
| GithubMonitor.NewerEventsAreAccepted | github-monitor/github.go:137-169 | fetching and accepting together: every strictly newer event of a complete feed within the cap is accepted |
| GithubMonitor.NewEventsAreAcceptedIff | github-monitor/github.go:137-169 | fetching and accepting together: every new event of the feed, of the same second too, is accepted exactly when paging hides none |
| RedmineMonitor.ProjectMonitor.constructor | redmine-monitor/monitor.go:585-606 | a start resumes from the saved state, or from an unseeded one |
| RedmineMonitor.ProjectMonitor.Poll | redmine-monitor/monitor.go:267-368 | one poll refines its specification for every outcome of fetching: state, file, announced activities, overflow warning, block warning |
| RedmineMonitor.RestartsAreInvisible | redmine-monitor/monitor.go:585-615 | as long as the state file can be written, restarts between polls change neither the state nor what is announced |
| RedmineMonitor.ProjectMonitor.HandleAnubis | redmine-monitor/monitor.go:571-581 | an interception extends the streak, and posts if the streak is long enough and was not reported |
| RedmineMonitor.WarnsOncePerStreak | redmine-monitor/monitor.go:267-287 | over every run the block warning is posted exactly at the third interception since the server last answered, however many other failures lie between |
| RedmineMonitor.ProjectMonitor.SeedState | redmine-monitor/monitor.go:371-400 | seeding remembers every issue of the page, the last one read winning, and announces nothing |
| RedmineMonitor.ProjectMonitor.WarnIfOverflow | redmine-monitor/monitor.go:404-414 | warns exactly for a full page that does not reach back to a known watermark |
| RedmineMonitor.ProjectMonitor.ClassifyAll | redmine-monitor/monitor.go:296-349 | classifies in order against the evolving issue states, which are updated for silent actions too |
| RedmineMonitor.StatusIsLastStated | redmine-monitor/monitor.go:473-491 | the remembered status of an issue is the last one stated in the entries, however many polls they took |
| RedmineMonitor.ReopenedIff | redmine-monitor/monitor.go:440-457 | a change is announced as a reopening exactly when it states an open status and the last stated one was closed |
| RedmineMonitor.ClassifyMeaning | redmine-monitor/monitor.go:419-472 | which entries count, and all fields of their announcement; each of the six actions has its exact condition |
| RedmineMonitor.WantedMeaning | redmine-monitor/monitor.go:73-78 | without a filter the six actions are wanted, with one exactly those it names |
| RedmineMonitor.RememberMeaning | redmine-monitor/monitor.go:473-491 | empty fields keep what is known, and no other issue changes |
| RedmineMonitor.SeedingKeepsLastRead | redmine-monitor/monitor.go:380-384 | after seeding, the status of an issue is the last one read, that is the oldest stated on the page |
| RedmineMonitor.AnnouncedIff | redmine-monitor/monitor.go:311-328 | every accepted entry is announced as it classifies at its moment, if the action is wanted, and nothing else is |
| RedmineMonitor.UnfilteredPollAnnounces | redmine-monitor/monitor.go:288-328 | a poll of a seeded monitor without filter announces an entry of the page exactly if it is newer than the watermark or of its second and not recorded, has a time, and is a readable issue entry |
| RedmineMonitor.PollMeaning | redmine-monitor/monitor.go:267-400 | what each outcome of fetching leaves: a failure nothing, an answer an ended block streak, a changed feed its etag; the first one announces nothing |
| RedmineMonitor.PollBoundariesDoNotMatter | redmine-monitor/monitor.go:296-491 | once seeded, any split of the history into polls, with any etags, gives the same announcements, issue states and watermark as one poll over all of it |
| RedmineMonitor.DroppedNewsAreReported | redmine-monitor/monitor.go:404-414 | with a known watermark and no warning, every strictly newer activity was in the page |
| RedmineMonitor.NewerActivitiesAreAccepted | redmine-monitor/monitor.go:293-309 | fetching and accepting together: with a known watermark and no warning, every strictly newer activity of the project is accepted |
| RedmineMonitor.NoActivityIsAnnouncedTwice | redmine-monitor/monitor.go:288-349 | over every sequence of polls no activity is announced twice |
| RedmineMonitor.SeedingPageStaysSilent | redmine-monitor/monitor.go:371-400 | the activities of the seeding page are never announced, then or later |
| RateLimiter.Limiter.constructor | urlshort/server.go:154-165 | an empty table with room for max keys, 10000 by default |
| RateLimiter.Limiter.Allow | urlshort/server.go:168-188 | one call moves or inserts the key at the front, evicting the last when full; map and list keep agreeing element by element |
| RateLimiter.ListIsMostRecent | urlshort/server.go:168-188 | after any history the list is exactly the max most recently used distinct keys, most recent first |
| RateLimiter.TrackedUntilMaxOthers | urlshort/server.go:173-180 | a key stays tracked while fewer than max other keys were used since, and is forgotten once max were |
| RateLimiter.BucketIsKept | urlshort/server.go:168-188 | until then it keeps the very same bucket object |
| RateLimiter.BucketsAreOwn | urlshort/server.go:168-188 | over every history no two tracked keys share a bucket |
| RateLimiter.NewKeyGetsNewBucket | urlshort/server.go:179-184 | a key that is not tracked gets a bucket that nobody had before |
| TtlCache.Cache.Add | ttlcache/ttlcache.go:87-103 | stores under a missing or expired key, otherwise refuses; no other entry changes although items are reused |
| TtlCache.Cache.Set | ttlcache/ttlcache.go:106-114 | replaces one entry and no other |
| TtlCache.Cache.Get | ttlcache/ttlcache.go:117-130 | finds exactly the unexpired entries |
| TtlCache.Cache.Pop | ttlcache/ttlcache.go:135-153 | removes the entry and returns what it held, although its item is already pooled |
| TtlCache.Cache.Delete | ttlcache/ttlcache.go:156-166 | removes the entry and evicts its value, if there is one |
| TtlCache.Cache.Clean | ttlcache/ttlcache.go:197-213 | one pass removes and evicts exactly the expired entries, in any map order |
| TtlCache.CleaningIsInvisible | ttlcache/ttlcache.go:87-214 | under a monotone clock every Add, Get and Pop answers as if nothing was ever cleaned |
| TtlCache.AddMeaning | ttlcache/ttlcache.go:87-103 | Add refuses exactly a live key, which keeps its value; otherwise it stores the value with its expiry; no other key changes |
| TtlCache.FoundIff | ttlcache/ttlcache.go:117-130 | a value is found exactly if it is stored without an expiry in the past |
| TtlCache.CleanDivides | ttlcache/ttlcache.go:197-213 | a cleaning pass hands exactly the expired entries to the callback and keeps all others |
| TtlCache.StoredValueIsFoundIff | ttlcache/ttlcache.go:168-176 | how long a stored value is found, for every kind of TTL |
| TtlCache.NegativeDefaultExpiresAtOnce | ttlcache/ttlcache.go:168-176 | with default TTL -1 a stored value is gone at once, while the argument -1 keeps it for ever |
| SeenFlush.StepKeepsSafe | seen.go:171-217 | each step of updaters and flusher keeps every clean channel in the pending snapshot or on disk, and dirty channels loaded |
| SeenFlush.RunIsSafe | seen.go:171-217 | so does every interleaving; without a failed write nothing is lost |
| SeenFlush.DiskHoldsASnapshot | seen.go:203-237 | the file of a channel is always one whole state that the memory had at one moment |
| SeenFlush.FailedWriteIsForgotten | seen.go:203-217 | after a failed write the channel is clean but not on disk |
| SeenFlush.WrittenIff | seen.go:203-217 | with updates of other channels in between, a written channel is on disk exactly if the write succeeded or the file held it before |
| SeenFlush.CallIsAStep | seen.go:171-331 | every call of the store is an enabled step of the protocol and keeps one spelling per nick and dirty channels loaded |
| SeenFlush.CallsAreARun | seen.go:171-331 | any sequence of calls, with updates between the snapshot and the file, is a run of the protocol |
| SeenFlush.StoreIsSafe | seen.go:171-331 | after any sequence of calls on a loaded store: clean channels are pending or on disk unless their latest write failed, and every file is one whole state its channel had |
| SeenFlush.SetMeaning | seen.go:241-264 | an event changes one time of one record in its channel, which is marked, and nothing else |
| SeenFlush.QuitMeaning | seen.go:282-297 | a quit sets the exit time in every channel that knows the nick, marks exactly these, and changes nothing else |
| SeenFlush.RenameMeaning | seen.go:301-331 | a rename changes and marks exactly the channels that know the nick |
| SeenFlush.SeenStore.TakeSnapshot | seen.go:203-213 | the half of write under the lock is the snapshot step |
| SeenFlush.SeenStore.WriteFile | seen.go:215-237 | the half without the lock replaces the file by the snapshot, or leaves it when it fails |
| SeenFlush.SeenStore.Set | seen.go:241-264 | one record changes, in one channel, which is created if needed and marked; nothing for an empty channel or nick |
| SeenFlush.SeenStore.QuitAll | seen.go:282-297 | the exit is recorded in exactly the channels that know the nick, and these are marked |
| SeenFlush.SeenStore.RenameAll | seen.go:301-331 | the record moves in every channel that knows the nick, and these are marked |
| SeenFlush.SeenStore.Write | seen.go:203-217 | without an update in between: snapshot and file in turn; the flag is cleared whether the write succeeds or not |
| SeenFlush.SeenStore.FlushDirty | seen.go:171-187 | terminates with no flag set; what was dirty is on disk exactly if its write succeeded or the file held it before, and no other file changes |
| SeenFlush.SeenStore.SaveAll | seen.go:189-199 | every loaded channel is written as it is, except failed ones, and no other file changes |
| Nicks.CiKey | seen.go:365-372 | finds the one recorded spelling, whatever the map order |
| Nicks.UpdatesKeepOneSpelling | seen.go:241-331 | recording, quitting and renaming keep one spelling per nick |
| Nicks.RecordedIsFound | seen.go:241-264 | a record is found under every spelling, with exactly the time of the event changed, and no other nick changes |
| Nicks.QuitIsRecorded | seen.go:282-297 | a quit changes the exit time of that nick in every spelling, and no other record |
| Nicks.RenamedIsFound | seen.go:301-331 | after a rename the old nick is gone; the new one keeps its own times and gets the old one's where it had none; no other record changes |
| Nicks.RenameAndBack | seen.go:301-331 | renaming to an unused nick and back keeps the entry, and restores all records exactly if the spelling is the recorded one |
| Nicks.RenameBackCanRespell | seen.go:301-331 | "Bob", renamed as "bob" and back, ends as "bob" |
| NickLookup.Lookup | seen.go:392-503 | the loops over maps in any order give one answer, a function of their contents |
| NickLookup.Collect | seen.go:430-452 | the candidates: present spelling first, recorded times, whatever the map order |
| NickLookup.AnswerMeaning | seen.go:392-503 | something is found exactly if a present or recorded nick starts with the query; an ambiguous answer lists at least two sorted candidates |
| NickLookup.AmbiguousListIsComplete | seen.go:476-502 | an ambiguous answer lists exactly the candidates that are present, or all of them if none is present, each as it is shown |
| NickLookup.NamedNickWins | seen.go:411-428 | whoever is named in full is the answer, in the present spelling or else in that of the query |
| NickLookup.StartedNickIsShown | seen.go:455-488 | a nick that the query only starts is given in its first present spelling, or as recorded |
| NickLookup.AnswerFields | seen.go:392-503 | without a single nick no other field of the answer is set |
| NickLookup.SingleAnswerIsForced | seen.go:411-488 | a single answer is the query itself, the only present candidate, or the only candidate, with its recorded times and presence |
| JenkinsJobs.JobMonitor.PollJob | jenkins-monitor/monitor.go:233-288 | one poll of a job refines its specification: collapse, range of builds, missing ones, transient errors |
| JenkinsJobs.JobMonitor.CollapseCurrent | jenkins-monitor/monitor.go:293-313 | only the current build counts after a long gap; a success is adopted silently |
| JenkinsJobs.JobMonitor.ProcessBuild | jenkins-monitor/monitor.go:316-338 | one build changes the job and announces a failure or a recovery |
| JenkinsJobs.RunIsConsistent | jenkins-monitor/monitor.go:233-338 | over every run a job is failed exactly while its count is positive, every recovery names the failure messages since the last success, and the recorded announcement is the last failure message |
| JenkinsJobs.WholeHistoryIsConsistent | jenkins-monitor/monitor.go:233-338 | the same from a job's first poll on |
| JenkinsJobs.RecoveriesAreAnnounced | jenkins-monitor/monitor.go:316-338 | build by build, a success is silent only when no failure message is open |
| JenkinsJobs.RangeAnnounces | jenkins-monitor/monitor.go:267-287 | a round reports exactly the failing and succeeding builds it reaches before a transient error |
| JenkinsJobs.RegularPollAnnounces | jenkins-monitor/monitor.go:247-287 | a poll that is not the first, with a gap of at most twenty builds, reports build k exactly if it lies in the gap, ended so, and no transient error comes before it |
| JenkinsJobs.RegularPollRecovers | jenkins-monitor/monitor.go:316-338 | in it a success is announced as a recovery exactly if failure messages are open, with their number, and failures count on |
| JenkinsJobs.RegularPollMovesOn | jenkins-monitor/monitor.go:264-287 | it moves to the latest build, and succeeds, exactly if no transient error came up; its numbers rise |
| JenkinsJobs.RegularPollShowsLast | jenkins-monitor/monitor.go:316-338 | it shows the result, URL and health of the last build that counts, or leaves them |
| JenkinsJobs.CollapsingPollMeaning | jenkins-monitor/monitor.go:254-271 | a first poll, a new job or a gap of more than twenty: only the latest build is announced, exactly if it failed, with the count raised by one, and the job adopts it |
| JenkinsJobs.IdlePollMeaning | jenkins-monitor/monitor.go:233-252 | without a new build or an answer nothing is announced and nothing but the time seen changes |
| JenkinsJobs.ProcessMeaning | jenkins-monitor/monitor.go:316-338 | one build by its result: message, count, health and every field it leaves |
| JenkinsJobs.AnnouncedNumbersRise | jenkins-monitor/monitor.go:258-287 | with rising build numbers and no transient error the announced numbers strictly increase over the whole run |
| JenkinsJobs.RetryRepeatsFailures | jenkins-monitor/monitor.go:267-287 | after a transient error at build m, a failing build is announced twice exactly if it lies before m |
| JenkinsJobs.FailureCanBeAnnouncedTwice | jenkins-monitor/monitor.go:267-287 | a failing build before an unreadable one is announced in two rounds |

## Left out

- JSON, TOML, regular expressions, templates and URL parsing. A rule is a match
  function and a template function; `canonicalizeTarget` is an arbitrary partial
  function of the raw target, so URL canonicalization itself is not part of this
  model.
- HTTP, TLS, IRC, Telegram, sub-processes, the file system and bbolt's pages: their
  results are inputs. A database that does not decode is not modelled.
- Tokens and API rate limits; requests start after authentication.
- `randomID`: the drawn ids are inputs, of any length.
- Real goroutine scheduling: each locked operation or transaction is one atomic
  step.
- Config validation other than that of namespaces, status pages, logging,
  message texts, history files, URL shortening of announced links.
- The GitHub classification of events and its pull request fetches; the time at
  which a monitor's state was last updated.
- The node and queue polls of the Jenkins monitor, and its queue watchdog.
- `rate.Limiter`: a bucket stands for its token bucket; its number is its identity.
- The garbage collection of `sync.Pool`, and its sharing between caches: one cache
  with its own pool.
- Nick case folding outside ASCII.
- RedmineMonitor.ProjectMonitor.SeedState: times before Go's zero time, which the
  code's running maximum would ignore, do not occur.
- The web monitor, the git monitor and its tag tracking, backup retention and the
  daily log writer.
- Crashes between posting and saving; restarts are orderly.
- LinkStore.BoltStore.Open: a failing read or write of the file is not modelled; a
  file without schema record is one without buckets or with readable ones.
- Api.Handlers.ListFiltered: the method reads one state of the store; the theorems
  of `MovingList` have one state per inner page. No key is empty, which bbolt
  guarantees.
- AccessControl.BatchVersusSingles: between what an item saw and the batch nothing
  was retargeted or deleted.
- HashKeys.UnstoredHashNeverConflicts: hashes have one length and go unmodified into
  the template; a rule that shortens or transforms the hash is outside the theorem.
- GithubMonitor.NoEventIsAcceptedTwiceIff: an id always comes with the same
  whole-second time, as the feed sends it.
- RedmineMonitor.NoActivityIsAnnouncedTwice: the same, and a page, which is fetched
  in one request, names an activity once.
- GithubMonitor.RestartsAreInvisible: needs every write of the state file to
  succeed; after a failed one a restart resumes from the state last written.
- RedmineMonitor.RestartsAreInvisible: the same.
- RedmineMonitor.PollBoundariesDoNotMatter: needs a watermark, or an etag in every
  reply, because the code takes a state with neither for a new one. It starts from
  a seeded state, because seeding folds the page newest first and lets the oldest
  status win.
