# What the ytsaurus-rs client promises, proved

A Dafny model of the transport of `ytsaurus-client`: where a heavy command is sent, how often a
command is repeated, what a redirect may do, how a body is bounded and read, and how rows, errors
and certificates are told from other bytes. Each module follows one part of the program. Parts
that update state in place are classes and methods with loops, proved against functions on values;
the theorems are about those functions and about every run of them.

`dafny verify dfyconfig.toml` checks everything.

| files | what they model |
|---|---|
| `Text`, `HostNames`, `DomainRule`, `HostSpellings` | the names `/hosts` gives, the rules that admit them, the URL built of one, and what all of that makes of names as they are written |
| `Router`, `RouterRuns`, `RouterLaws`, `RouterHeap` | the shared lookup cell; every interleaving of the operations on it, stated against the run's log; when the cluster is asked, where a command goes and what a failure costs, by the log alone; and the objects themselves, aliasing included, as a refinement of those runs |
| `Failures`, `ErrorTrees` | what a command fails with, which failures are worth what, and the three copies of the walk that tells the cause |
| `Retry`, `Mutations` | backoff, the retry loop, and a mutation sent over a network that loses, copies, delays and reorders |
| `BatchRuns`, `Batch`, `BatchWhole` | the class of a batch and what its parts do at the cluster; rendering, splitting and reading answers; and a whole split batch from end to end |
| `Urls`, `Dispatch` | reference resolution, origins and the redirect loop |
| `BodyCap`, `Der`, `Chunked`, `Utf8` | the response cap, the certificate check, the chunked-body drainer, cutting text |
| `Yson`, `YsonCodec`, `YsonRoundTrip`, `YsonScan`, `YsonFaithful`, `YsonSyntax` | the binary YSON codec the row fragment relies on, and where its scanner and its reader disagree |
| `RowFragment`, `RowRoundTrip` | rows of dynamic tables as a list fragment, and back |

## What is assumed

- The cluster's mutation cache is the documented one (`retry.rs:6-12`, `retry.rs:223-230`) and
  outlives a run; a `3xx` answer applied nothing; a fresh mutation id is nobody else's.
- The k-th part of a batch runs under the batch's id plus k (`lib.rs:1296-1297`), ids being
  numbers without an upper bound.
- `base_for` holds the lock across its lookup, so lookup and write are one step; the clock is
  monotone; durations are nanoseconds, bounded where the standard library bounds them.
- `usize` has 64 bits, and additions in the benchmark wrap, as in an optimised build.

## Where the code falls short of its words

The model follows the code. Each point has a lemma with a concrete input, and the theorem beside it
says for exactly which inputs the words hold.

- Round trip of a YSON value (`node.rs:154`): lost on map keys that start with an at sign or are
  `$value`, on attributed empty maps and on empty attribute sets.
  `YsonFaithful.RoundTripsExactlyWhenClean`, `YsonFaithful.AttributedEmptyMapIsLost`,
  and for rows `RowRoundTrip.NamedRowsComeBackExactlyWhen`.
- "Anything this accepts can also be decoded" and "matches the deserializer's limit"
  (`scan.rs:18-19`): not with a doubled separator, a map of two bodies, or attributed lists nested
  past half the limit. `YsonSyntax.DecodedExactlyWhenReadable`, `YsonSyntax.DoubledSeparatorIsRefused`,
  `YsonScan.TwoBodiesAreRefused`, `YsonSyntax.AttributedListsCountTwice`.
- A port is added to a name that has none (`http.rs:1577`): unreadable behind a stray bracket.
  `HostNames.HeavyBaseReadsBack`, `HostNames.StrayBracketLosesThePort`.
- The shared domain is never below two labels (`http.rs:1640`): with a trailing dot one of them is
  empty, and another domain's host is admitted. `DomainRule.StaysInDomainExactlyWhen`,
  `DomainRule.TrailingDotWidensTheRule`.
- The backoff doubles (`retry.rs:212`): up to attempt 32. `Retrying.BackoffDoubles`,
  `Retrying.The33rdWaitIsNotDoubled`.
- A chunked body is consumed to its end (`benches/rows.rs:155`): not with white space before a
  semicolon, an extension that is not text, or trailer fields. `Chunked.DrainedExactlyWhenPlain`,
  `Chunked.SpaceBeforeSemicolonStops`, `Chunked.TrailerIsLeft`.
- The two YSON walks are twins (`batch.rs:683`): as long as the deepest message is text.
  `ErrorTrees.WalksAgreeExactlyOnText`, `ErrorTrees.LinesAgreeExactlyOnText`,
  `ErrorTrees.BrokenMessageSplitsThem`.

## Model

| member | source | states |
|---|---|---|
| RouterRuns.SharersAgreeAlways | crates/ytsaurus-client/src/http.rs:709-715 | In every run of opening, cloning, setters, placing and finishing, transports that share a cell agree on base, discovery and host rule: a rule change replaces the cell and never writes through it |
| RouterRuns.PoolIsWhatIsLeft | crates/ytsaurus-client/src/http.rs:321-355 | In every run a pool is exactly the last accepted answer, as each sharer would read it, less the hosts dropped since; it is never empty, so picking cannot divide by zero |
| RouterRuns.HandedJustlyAlways | crates/ytsaurus-client/src/http.rs:855-936 | In every run each discovered address a command was sent to came from the last answer its cell had accepted, had not been dropped since, and is admitted by the rule of the transport that used it |
| RouterRuns.LookupsAreSpread | crates/ytsaurus-client/src/http.rs:862-936 | Over any run, from the end of one lookup on a cell to the start of any later one passes at least `m`, for every `m` not above the intervals of those who looked and the retry interval of those whose drop emptied the pool; failed refreshes, emptied pools and late drops included |
| RouterRuns.LookupsPerWindow | crates/ytsaurus-client/src/http.rs:263-271 | n lookups spread by `m` take at least n - 1 times `m`: the cluster is asked at most once per interval |
| RouterRuns.ToldOnce | crates/ytsaurus-client/src/http.rs:905-928 | The declined warning is given at most once per cell in any run, and a cell is unasked exactly as long as no lookup was made for it, so it never goes back |
| RouterLaws.AsksExactlyWhenDue | crates/ytsaurus-client/src/http.rs:855-890 | In every run a heavy command of a discovering transport makes a lookup, one, for its own cell, exactly when by the log the cell has none yet, its rest is over, or the asker's own refresh has passed since the end of the last lookup |
| RouterLaws.LeavesInItsCell | crates/ytsaurus-client/src/http.rs:863-935 | What such a command leaves: nothing new without a lookup; else a usable answer replaces the pool, any other answer keeps the pool with its age counted from now, and without a pool a failure about the address rests the cell for the retry interval and anything else leaves it on the configured address; no other cell changes |
| RouterLaws.GoesToThePool | crates/ytsaurus-client/src/http.rs:876-917 | Where it goes and what is logged of it: the pool's host the word falls on while there is a pool, and the configured address otherwise; the operator is told exactly on a cell's first answer when it named somebody and nobody usable |
| RouterLaws.EveryHostIsPicked | crates/ytsaurus-client/src/http.rs:334-342 | Some word falls on each host of the pool |
| RouterLaws.FinishDropsExactly | crates/ytsaurus-client/src/http.rs:1005-1048 | A finished command drops its host exactly when it was heavy, discovered its destination, and failed in a way that is the host's: any transport failure, a passing one, a control proxy's refusal or a refused redirect; an emptied pool rests; a success or the command's own fault changes no cell and logs nothing |
| RouterLaws.OwnFaultKeepsThePool | crates/ytsaurus-client/src/http.rs:995-1004 | A resolve error keeps a pool of one, and a lost connection empties it |
| RouterLaws.LightCommandsTouchNothing | crates/ytsaurus-client/src/http.rs:856-858 | Light commands, and heavy ones without discovery, ask nothing and change nothing |
| RouterLaws.OpensUnasked | crates/ytsaurus-client/src/http.rs:573-587 | A new transport has an unasked cell, discovers unless local, keeps to its own domain, rests ten seconds and refreshes after sixty |
| RouterLaws.HandedKeepsTheScheme | crates/ytsaurus-client/src/http.rs:1560-1576 | In every run no discovered address leaves the configured one's scheme: no answer downgrades a client that speaks TLS |
| RouterLaws.UsableInOrder | crates/ytsaurus-client/src/http.rs:940-953 | An answer's usable names keep their order and number, each as its own URL |
| RouterRuns.RoutedStaysQuiet | crates/ytsaurus-client/src/http.rs:862-936 | Whatever a lookup comes to, the state it leaves holds the next lookup off from the end of this one |
| RouterRuns.BlamedStaysQuiet | crates/ytsaurus-client/src/http.rs:1036-1045 | A late drop, even one that empties the pool, does not bring the next lookup forward below the retry interval |
| RouterRuns.CommandHandsJustly | crates/ytsaurus-client/src/http.rs:876-897 | One placed command hands out only a host its own rule admits from the answer in force |
| RouterRuns.StepKeepsAgreement | crates/ytsaurus-client/src/http.rs:601-670 | No single operation makes two sharers of a cell disagree |
| RouterHeap.Fleet.Command | crates/ytsaurus-client/src/http.rs:855-936 | The objects refine the run model: the heap after placing a command is the run with that event added, and a discovered address is justified by the log |
| RouterHeap.Fleet.Finish | crates/ytsaurus-client/src/http.rs:1005-1048 | The heap after a finished command is the run with that event added, for every transport sharing the cell |
| RouterHeap.Fleet.Clone | crates/ytsaurus-client/src/http.rs:492-498 | A clone points to the same cell object, and the heap mirrors the run with that event added |
| RouterHeap.Fleet.Open | crates/ytsaurus-client/src/http.rs:555-595 | A new transport has a cell of its own, unasked, and the heap mirrors the run with that event added |
| RouterHeap.Fleet.SetProxyDiscovery | crates/ytsaurus-client/src/http.rs:602-605 | The setter gives its own transport a new cell and leaves every other transport's alone |
| RouterHeap.Fleet.SetHeavyProxiesAnywhere | crates/ytsaurus-client/src/http.rs:608-615 | As above, for the rule that lets every name in |
| RouterHeap.Fleet.SetHeavyProxiesIn | crates/ytsaurus-client/src/http.rs:618-621 | As above, for a list of names |
| RouterHeap.Fleet.SetHeavyProxiesUnder | crates/ytsaurus-client/src/http.rs:637-670 | As above, for added domains |
| RouterHeap.Fleet.SetHostsRetryAfter | crates/ytsaurus-client/src/http.rs:678-680 | The interval changes for this transport alone, and the shared cell is kept |
| RouterHeap.Fleet.SetHostListRefreshInterval | crates/ytsaurus-client/src/http.rs:683-685 | The interval changes for this transport alone, and the shared cell is kept |
| Router.Transport.BaseFor | crates/ytsaurus-client/src/http.rs:855-936 | Under the lock: looks exactly when the cell was never asked, is as old as this transport's interval or has rested; leaves the cell a new pool, the old one as of now, a rest or the configured address, by the answer; places the command by the word; and warns exactly on a first answer that named somebody and nobody usable |
| Router.Transport.AfterHeavy | crates/ytsaurus-client/src/http.rs:1005-1048 | Drops the addressed host by value exactly after a heavy command's failure that is the host's, one of a spelled-out list; an emptied pool becomes a rest until at plus the retry interval; anything else leaves the cell alone |
| Router.Transport.Admitted | crates/ytsaurus-client/src/http.rs:940-953 | The loop over an answer keeps the usable names in order, and every name is either usable or refused |
| Router.Usable | crates/ytsaurus-client/src/http.rs:958-972 | An address is usable exactly when some name of the answer gives it under the rule |
| Router.WithoutIsRetain | crates/ytsaurus-client/src/http.rs:351-354 | Dropping goes piece by piece, so what is kept stays in its place and as often as it was |
| Router.WithoutOne | crates/ytsaurus-client/src/http.rs:351-354 | Of one host dropping leaves it or nothing |
| Router.DropsCommute | crates/ytsaurus-client/src/http.rs:344-354 | A second drop of one host, or two drops in either order, leave the same pool: no neighbour is evicted |
| Router.Transport.SetHeavyProxiesUnder | crates/ytsaurus-client/src/http.rs:637-670 | The loop over the entries comes to the rule on values, in a fresh cell |
| Router.UnderRuleKeeps | crates/ytsaurus-client/src/http.rs:641-663 | Kept are exactly the normalised entries with a dot left, each once |
| Router.UnderRuleIgnores | crates/ytsaurus-client/src/http.rs:654-663 | Remembered as unusable are exactly the entries with a name but no dot, each once and as written |
| Router.KeptDomainsAreDotted | crates/ytsaurus-client/src/http.rs:632-636 | A kept domain is lower case, holds a dot and neither starts nor ends with one, so no top-level domain is admitted whole |
| HostNames.HeavyBaseReadsBack | crates/ytsaurus-client/src/http.rs:1577-1607 | The URL built for an accepted name starts with `https://` exactly when the configured one does and with `http://` otherwise, reads back as the name's host and, exactly when no stray bracket hides a configured port, as the name's port or else the configured one |
| HostSpellings.UsedExactlyWhen | crates/ytsaurus-client/src/http.rs:1577-1607 | A name is used exactly when, trimmed, it has no delimiter or space, is an authority and is admitted, and then as itself behind the configured scheme with its own or the configured port; it is malformed under every rule or under none |
| HostSpellings.AdmitsExactlyWhen | crates/ytsaurus-client/src/http.rs:411-443 | What each rule admits, on hosts, label suffixes and ports: nothing more and nothing less |
| HostSpellings.NameReadsBack | crates/ytsaurus-client/src/http.rs:1706-1731 | Whatever scheme, user, port and path stand around it, a plain name in an address is its host and the digits behind it its port |
| HostSpellings.LiteralReadsBack | crates/ytsaurus-client/src/http.rs:1954-1967 | The same for a bracketed literal, whose host is without the brackets |
| HostSpellings.NameIsAuthority | crates/ytsaurus-client/src/http.rs:1617-1636 | A name without a colon is an authority; with one, exactly when the name is not empty and only digits follow |
| HostSpellings.LiteralIsAuthority | crates/ytsaurus-client/src/http.rs:1617-1636 | A bracketed name is one exactly when an IPv6 literal is closed and nothing or a port follows |
| HostSpellings.Ipv4Exactly | crates/ytsaurus-client/src/http.rs:1661-1665 | An IPv4 address is exactly four decimal numbers below 256 without leading zeros |
| HostSpellings.FullIpv6 | crates/ytsaurus-client/src/http.rs:1620-1626 | Written in full an IPv6 literal has exactly eight hexadecimal groups |
| HostSpellings.ElidedIpv6 | crates/ytsaurus-client/src/http.rs:1620-1626 | With a double colon it has at most seven, on both sides together |
| HostSpellings.SpellingsOfADomain | crates/ytsaurus-client/src/http.rs:626-631 | `*.d`, `.d`, `d.`, `https://d./` and `d:443` are all kept as `d` in lower case, for every ordinary domain |
| HostSpellings.DomainIsBared | crates/ytsaurus-client/src/http.rs:644-649 | Stars, then dots, come off the front of a domain and dots off its end, and nothing else does |
| HostNames.StrayBracketLosesThePort | crates/ytsaurus-client/src/http.rs:1706-1716 | `foo]bar` is accepted and the configured port cannot be read out of the result |
| HostNames.AppendKeepsHost | crates/ytsaurus-client/src/http.rs:1954-1967 | Appending a port keeps the host, bracketed or not |
| HostNames.AppendGivesPort | crates/ytsaurus-client/src/http.rs:1698-1716 | Appending a port gives an authority that port, or none behind a stray bracket |
| HostNames.PortIsAPort | crates/ytsaurus-client/src/http.rs:1617-1636 | In an accepted authority whatever stands where a port would is a port |
| DomainRule.DomainRuleIsOnLabels | crates/ytsaurus-client/src/http.rs:1654-1684 | The rule on any two names is the one on label lists: equal but for case, or neither an IP literal and the shared labels are the discovered name's last labels, or the dotless name stands among its labels after the first |
| DomainRule.SuffixIsLabels | crates/ytsaurus-client/src/http.rs:1691-1695 | Ending with a dot and a domain is having the domain's labels last |
| DomainRule.SharedDomainLabels | crates/ytsaurus-client/src/http.rs:1670-1683 | The shared domain drops the leftmost of three or more labels |
| DomainRule.StaysInDomainExactlyWhen | crates/ytsaurus-client/src/http.rs:1640-1644 | For every dotted name that is no address: each other name it admits ends in its own last two labels, both real, exactly when those two labels are not empty |
| DomainRule.SharedEndsInLastTwo | crates/ytsaurus-client/src/http.rs:1670-1683 | What is shared always ends in the configured name's last two labels |
| DomainRule.TrailingDotWidensTheRule | crates/ytsaurus-client/src/http.rs:1668-1673 | With a trailing dot the one real label shared is `net`, and `example.net.` admits `evil.net.` |
| DomainRule.NoTrailingDotKeepsTheRule | crates/ytsaurus-client/src/http.rs:1668-1673 | Without the dot that name is refused |
| DomainRule.RulesNest | crates/ytsaurus-client/src/http.rs:411-428 | Default rule, added domains, more of them, anywhere: each admits all the one before does; no added domain is the default |
| DomainRule.WiderRuleSameSpelling | crates/ytsaurus-client/src/http.rs:1577-1607 | A wider rule never changes an accepted address, nor whether a name is malformed |
| Retrying.BackoffIsCappedProduct | crates/ytsaurus-client/src/retry.rs:212-218 | No overflow ever shows in a wait |
| Retrying.BackoffDoubles | crates/ytsaurus-client/src/retry.rs:212-218 | The wait is the capped initial wait doubled per failure exactly up to attempt 32, or where the cap or a zero wait hides the difference |
| Retrying.The33rdWaitIsNotDoubled | crates/ytsaurus-client/src/retry.rs:212-218 | A policy whose 33rd wait is one nanosecond short of doubling, with the cap not reached |
| Retrying.BackoffNeverShrinks | crates/ytsaurus-client/src/retry.rs:212-218 | A later failure never waits less, and none more than the cap |
| Retrying.SleepIsBounded | crates/ytsaurus-client/src/retry.rs:456-487 | However a run goes it sleeps at most the cap once per retry |
| Retrying.NewPolicy | crates/ytsaurus-client/src/retry.rs:161-168 | A policy allows the attempts asked for, and one where none were |
| Failures.ContainsCodeIsReachability | crates/ytsaurus-client/src/retry.rs:378-389 | The walk finds a wanted code exactly when a document reachable through inner errors carries it |
| Failures.QuestionsExactly | crates/ytsaurus-client/src/retry.rs:403-438 | Which failures are worth repeating, worth asking the cluster again and the host's, as spelled-out lists of statuses, codes and kinds, for every failure there is |
| Failures.WrappedCodeIsFound | crates/ytsaurus-client/src/retry.rs:366-389 | A banned proxy's code under a wrapper is found, and a resolve error is not repeated |
| Failures.RetriableIsReachable | crates/ytsaurus-client/src/retry.rs:314-326 | A cluster's failure is worth repeating exactly when a code that says so is its own or stands anywhere in its document's inner errors |
| Failures.WrappingKeepsRetriable | crates/ytsaurus-client/src/retry.rs:366-376 | An error wrapped in another keeps its say, whatever the wrapper's code |
| Failures.InnermostIsDeepest | crates/ytsaurus-client/src/error.rs:380-389 | The innermost message is that of the deepest document with one on the first-child chain |
| Mutations.Run | crates/ytsaurus-client/src/retry.rs:456-487 | A class that may be repeated is sent up to the policy's attempts and goes on exactly while each failure will pass, any other once; request k carries the given id, marked when k > 0 or it was; the answer is to what was seen last; it sleeps the sum of the waits; and the master kept the mutation at most once |
| Mutations.GoesOnUntilItIsOver | crates/ytsaurus-client/src/retry.rs:469-485 | While every attempt fails for now it sends as often as the policy allows, and the first attempt that does not answers the call |
| Mutations.LossIsWaitedOut | crates/ytsaurus-client/src/retry.rs:469-485 | Over a network that cuts the first k attempts off and lets the next through, a call that may be repeated gets to that attempt |
| Mutations.CallWith | crates/ytsaurus-client/src/http.rs:767-802 | The whole promise of a run under the id given, or a fresh one for a class that needs it, or none; a tagged call applies its mutation at most once, a success is the response kept for it, and its own replay is never refused as unmarked |
| Mutations.AtMostOnce | crates/ytsaurus-client/src/retry.rs:6-12 | Whatever reaches the master, in whatever order and however often, each id is applied at most once and its first response is kept for good |
| Mutations.KeptIsTheFirst | crates/ytsaurus-client/src/retry.rs:10-12 | The response kept under a new id is that of the first request to arrive under it |
| Mutations.NeverRefusedWhenMarkedOrFresh | crates/ytsaurus-client/src/retry.rs:229-230 | No marked request and no first one is refused, and each is answered with what is kept |
| Mutations.TaggedAttempt | crates/ytsaurus-client/src/http.rs:786-799 | One tagged attempt over a network that loses, copies, delays and reorders keeps the master's promise |
| Mutations.ReplayReturnsTheFirst | crates/ytsaurus-client/src/retry.rs:223-226 | A restarted process that replays its kept id marked gets what the first run got, and nothing is applied again |
| Mutations.ReplayIsNeverRefused | crates/ytsaurus-client/src/retry.rs:259-265 | A replay marked as one is always answered, and applies nothing that is known |
| Mutations.UnmarkedReuseIsRefused | crates/ytsaurus-client/src/retry.rs:229-230 | A first request under an id already used is refused and applies nothing |
| Mutations.Wire.Send | crates/ytsaurus-client/src/http.rs:1053-1070 | One request over the network: late copies and strangers first, then this one as far as it gets |
| BatchRuns.NoPartTwice | crates/ytsaurus-client/src/batch.rs:474-489 | For any batch and any run of the retry loop: a raw part goes out once, a tagged master mutation is applied at most once even over a copying network, and without copies so is every part |
| BatchRuns.ClassIsLeastUpperBound | crates/ytsaurus-client/src/batch.rs:474-489 | The class is the least cautious one no bolder than any part |
| BatchRuns.ClassIgnoresOrder | crates/ytsaurus-client/src/batch.rs:474-489 | The class depends on which kinds occur, not on order or number |
| BatchRuns.MorePartsAreNoBolder | crates/ytsaurus-client/src/batch.rs:474-489 | Adding parts never makes the class bolder |
| BatchRuns.BolderWouldNotDo | crates/ytsaurus-client/src/batch.rs:61-76 | Sent freely, a mutation would be applied twice: the class is needed |
| BatchRuns.OneAnswerPerPart | crates/ytsaurus-client/src/batch.rs:67-70 | Every two responses to a tagged part are the same, whichever attempt's gets through, and a retry of it is never refused |
| BatchRuns.RecognisedOnce | crates/ytsaurus-client/src/batch.rs:67-70 | A part under an id of its own is applied once however often and in whatever order it runs |
| Batch.ExecuteBatchWith | crates/ytsaurus-client/src/lib.rs:1319-1395 | Parts go out in order in full pieces, each rendered with the bound transaction, under the class of the whole batch and the given id; all are answered in order, or the batch stops with the answers of the requests before, none sent after the failure; an id never covers two requests |
| BatchWhole.NoPartOfABatchTwice | crates/ytsaurus-client/src/lib.rs:1345-1395 | A whole batch as it is sent, each request repeated as its class allows and all of it interleaving with itself and with strangers: no raw part goes out twice, no tagged master mutation is applied twice, and without copies no part at all is |
| BatchWhole.ViewIsTheRun | crates/ytsaurus-client/src/lib.rs:1345-1395 | To each request of a batch the others are strangers, in any interleaving |
| Batch.EachPartGetsItsAnswer | crates/ytsaurus-client/src/lib.rs:1319-1395 | However the batch is split there is one answer per part, from the request that carried it and from its place there |
| Batch.EndsByWhatCameBack | crates/ytsaurus-client/src/lib.rs:1345-1395 | Each part's answer was told by the body of the request that carried it; and what stops a batch is the failed call's own error, or that its body told no answers |
| Batch.ReadingTells | crates/ytsaurus-client/src/lib.rs:1366-1369 | A request's answers are exactly those its body tells of its parts, and its error its own |
| Batch.AcceptedExactlyWhenTold | crates/ytsaurus-client/src/batch.rs:540-642 | An answer is accepted exactly when it is a dict whose results are, part for part, of a known shape, and each part then gets what was told of it |
| Batch.KeyedAnswersCarryTheirKey | crates/ytsaurus-client/src/batch.rs:595-617 | An accepted success of a part with a key has that key |
| Batch.ChunkReadsBack | crates/ytsaurus-client/src/batch.rs:498-533 | The k-th request of the rendered document is the k-th part; the concurrency is the number asked for or absent; and there is nothing else in it |
| Batch.PartReadsBack | crates/ytsaurus-client/src/batch.rs:503-520 | The cluster reads off a rendered part its command, its stamped parameters and its input |
| Batch.StampAddsOneField | crates/ytsaurus-client/src/batch.rs:505-511 | Stamping a transaction adds that one field, only where the part has none, and touches no other |
| Batch.BatchRequest.RawWith | crates/ytsaurus-client/src/batch.rs:369-419 | A part is taken exactly when its name is bare, its parameters a dict, the cluster and the client take the command and the class is not heavy; its kind is as cautious as the class asked for |
| Batch.BulkCommandsAreNotTaken | crates/ytsaurus-client/src/batch.rs:378-403 | No command that moves bulk data or that the cluster refuses is taken as a part, name by name |
| Batch.CommandNamesExactly | crates/ytsaurus-client/src/lib.rs:3345-3364 | A command name is letters, digits and underscores, and at least one of them |
| Batch.BatchRequest.Raw | crates/ytsaurus-client/src/batch.rs:338-345 | A raw part makes the whole batch send-once |
| Batch.BatchRequest.Create | crates/ytsaurus-client/src/batch.rs:190-203 | A master mutation keyed by `node_id`, added last, with exactly these fields: path, type, recursive, and accepting an existing node |
| Batch.BatchRequest.CreateTable | crates/ytsaurus-client/src/batch.rs:214-235 | As above with the schema in the attributes and no acceptance of an existing node; a refused schema adds nothing |
| Batch.BatchRequest.Ask | crates/ytsaurus-client/src/batch.rs:238-272 | A read keyed by `value`, added last, with the path as its one field |
| Batch.BatchRequest.Remove | crates/ytsaurus-client/src/batch.rs:275-303 | A master mutation with exactly a path and both flags as asked |
| Batch.BatchRequest.SetAttribute | crates/ytsaurus-client/src/batch.rs:308-316 | The attribute's path is the one field, the value travels as input, and the answer is unchecked |
| Batch.BatchRequest.WithConcurrency | crates/ytsaurus-client/src/batch.rs:165-168 | With no cap a request then carries five parts to one of concurrency, zero counting as one, saturated; with a cap nothing changes |
| Batch.BatchRequest.WithMaxPartSize | crates/ytsaurus-client/src/batch.rs:179-182 | A request then carries that many parts, and at least one, whatever the concurrency is or becomes |
| Batch.CollectsEach | crates/ytsaurus-client/src/batch.rs:592-592 | Collecting gives each item's result in its place, and fails only where an item is refused |
| Dispatch.Dispatch | crates/ytsaurus-client/src/http.rs:1278-1385 | Against any server and clock: at most eleven requests, each answer before the last a 3xx followed to where it pointed; with a token or data all of one origin; a stream handed over once; every hop's time ends at the one deadline. A last answer that points somewhere is an error, and which: credentials, body, payload, too many at eleven, no TLS, no time; one that does not is the result as it stands |
| Dispatch.RedirectSpelledOut | crates/ytsaurus-client/src/http.rs:1407-1458 | The verdict on one answer by status, location, token, origin, body and number of requests, in the order the refusals apply |
| Dispatch.TemporaryRedirects | crates/ytsaurus-client/src/http.rs:1390-1402 | A 307 within the origin is followed, and one that takes a token elsewhere refused |
| Dispatch.HopsShareOneTimeout | crates/ytsaurus-client/src/http.rs:1974-1986 | On a monotone clock no hop gets more time than the one before, and none more than the timeout |
| Urls.RelativeKeepsOrigin | crates/ytsaurus-client/src/http.rs:2404-2441 | A reference without scheme or authority keeps the request's origin, whatever it says |
| Urls.ResolveIsRfc3986 | crates/ytsaurus-client/src/http.rs:2404-2441 | For every request with an origin and every non-blank reference, resolving is section 5.2.2 of RFC 3986 recomposed by section 5.3, without dot-segment removal |
| Urls.RecomposeParse | crates/ytsaurus-client/src/http.rs:2390-2399 | Taking any reference apart and putting it together gives it back |
| Urls.OriginIsSchemeHostPort | crates/ytsaurus-client/src/http.rs:2473-2499 | A URL's origin is its lower-case scheme and host and its port or the scheme's own, userinfo and everything after the authority aside; none when the port does not fit 16 bits |
| Urls.OtherSchemesHaveNone | crates/ytsaurus-client/src/http.rs:2476-2481 | A URL of another scheme has no origin, so nothing shares one with it |
| Urls.SchemeExactly | crates/ytsaurus-client/src/http.rs:2443-2457 | What has a scheme: a letter, then letters, digits, plus, minus and dots up to the first colon |
| Urls.BlankOrAbsolute | crates/ytsaurus-client/src/http.rs:2405-2411 | A blank reference leads nowhere and an absolute one to itself, whatever was requested |
| Urls.SameOriginIsEquivalence | crates/ytsaurus-client/src/http.rs:2458-2471 | Sharing an origin is reflexive on URLs that have one, symmetric and transitive |
| BodyCap.ReadToEnd | crates/ytsaurus-client/src/http.rs:1843-1855 | Whatever pieces the decoder hands over and whatever buffers are used, the body is returned whole exactly when it is within the limit and nothing failed; nothing past the limit is kept |
| BodyCap.CapReader.Read | crates/ytsaurus-client/src/http.rs:1802-1816 | One read lets through what it was given, or fails one byte past the cap with none of it returned |
| BodyCap.Decoder.Read | crates/ytsaurus-client/src/http.rs:1807-1807 | A reader below the cap: at least one byte while there are any and room, none only at the end, or a failure |
| BodyCap.BudgetPermitsTheCap | crates/ytsaurus-client/src/http.rs:1831-1836 | Every body within the cap fits the wire budget compressed by deflateBound and framed by gzip, unless the budget is the largest 64-bit number |
| BodyCap.BudgetIsOneSum | crates/ytsaurus-client/src/http.rs:1831-1836 | Saturating at each step is saturating once |
| BodyCap.BudgetStaysBounded | crates/ytsaurus-client/src/http.rs:1818-1830 | The budget grows with the cap and stays within a sixth and 64 bytes of it |
| BodyCap.BudgetOfTheDefault | crates/ytsaurus-client/src/http.rs:1827-1828 | At the default cap the budget is 612 368 448 |
| Der.TlvIsTheEncoding | crates/ytsaurus-client/src/http.rs:2305-2337 | An element is read off exactly when the input is its canonical encoding and the rest: low-form tag, length below 2^32 in minimal form (section 10.1 of X.690) |
| Der.ExpectIsTheEncoding | crates/ytsaurus-client/src/http.rs:2292-2297 | The same for one expected tag |
| Der.IsX509 | crates/ytsaurus-client/src/http.rs:2243-2262 | Accepts exactly the encodings of a certificate's skeleton |
| Der.IsTbsCertificate | crates/ytsaurus-client/src/http.rs:2269-2288 | Accepts exactly an optional version, a serial number and five sequences, with anything behind |
| Der.NoCertificateContinues | crates/ytsaurus-client/src/http.rs:2247-2249 | No accepted input is a proper prefix of another |
| Der.LengthReadsBack | crates/ytsaurus-client/src/http.rs:2314-2333 | Every length below 2^32 is read back from its minimal form, whatever follows |
| Der.LengthWritesBack | crates/ytsaurus-client/src/http.rs:2314-2333 | Every length that is read was in its minimal form |
| Chunked.DrainChunked | crates/ytsaurus-client/benches/rows.rs:157-179 | The loop over the connection does to its bytes what the function on bytes says |
| Chunked.DrainedExactlyWhenPlain | crates/ytsaurus-client/benches/rows.rs:157-179 | Of all well-formed chunked bodies (section 7.1 of RFC 9112) followed by any bytes, those drained with the connection left exactly at what follows are the ones with no white space before a semicolon, no extension that is not text and no trailer fields |
| Chunked.SpaceBeforeSemicolonStops | crates/ytsaurus-client/benches/rows.rs:165-168 | A well-formed body with `1 ;a` for a header is not drained to its end |
| Chunked.TrailerIsLeft | crates/ytsaurus-client/benches/rows.rs:169-173 | A trailer field is left on the connection |
| Chunked.SentIsDrained | crates/ytsaurus-client/benches/rows.rs:125-131 | Any data cut into any chunks, as a sender writes it, is drained exactly |
| Chunked.HexReadsBack | crates/ytsaurus-client/benches/rows.rs:166-166 | A size printed in hexadecimal is parsed back, as far as 64 bits go |
| Chunked.HexDigitsExactly | crates/ytsaurus-client/benches/rows.rs:166-166 | The sixteen digits are read in both cases, and nothing else |
| Chunked.SizeOfLine | crates/ytsaurus-client/benches/rows.rs:163-168 | A header line's size is read exactly when nothing but the size precedes the semicolon |
| Chunked.BufReader.ReadLine | crates/ytsaurus-client/benches/rows.rs:160-162 | Takes exactly the first line off the connection, text or not |
| Utf8.BoundaryIsACut | crates/ytsaurus-client/src/error.rs:396-396 | On every valid text the reported boundaries are exactly the places where both pieces are texts |
| Utf8.Truncate | crates/ytsaurus-client/src/error.rs:391-400 | Keeps the longest text prefix within the limit, stepping at most three bytes, and says how much there was; the result is a text |
| Utf8.Tail | crates/ytsaurus-client/src/error.rs:404-419 | Keeps the longest text suffix within the limit, stepping at most three bytes, and says how much there was and is left; the result is a text |
| Utf8.NearBoundary | crates/ytsaurus-client/src/error.rs:395-397 | A boundary is never more than three bytes away on either side |
| Utf8.EncodeDecode | crates/ytsaurus-yson/src/node.rs:18-24 | Bytes are accepted as text exactly when they are the encoding of the text read (section 3 of RFC 3629) |
| ErrorTrees.ThreeWalksAgree | crates/ytsaurus-client/src/batch.rs:654-694 | A document that exists in both notations, and so is text throughout, gives the same code and line from the header walk, the batch walk and the job walk, but that one with no top message has no summary |
| ErrorTrees.SameInnermost | crates/ytsaurus-client/src/jobs.rs:93-99 | Both YSON walks find the JSON walk's innermost message |
| ErrorTrees.LineIsTopAndCause | crates/ytsaurus-client/src/error.rs:341-376 | The line is the top message alone or with a different cause from the deepest document |
| ErrorTrees.WalksAgreeExactlyOnText | crates/ytsaurus-client/src/batch.rs:683-694 | For any document and any reading that marks what it loses: the two YSON walks find the same cause exactly when the deepest string on the first-child chain is text or there is none |
| ErrorTrees.LinesAgreeExactlyOnText | crates/ytsaurus-client/src/jobs.rs:85-91 | The lines of the batch and of the job are the same exactly when there is a top message and both it and the deepest string below are text |
| ErrorTrees.BrokenMessageSplitsThem | crates/ytsaurus-client/src/jobs.rs:109-116 | A document whose cause is not text: the batch shows the top message alone, the job something else |
| ErrorTrees.SameFields | crates/ytsaurus-client/src/batch.rs:676-681 | A field is found in one notation exactly when it is in the other |
| RowFragment.RowsToFragment | crates/ytsaurus-client/src/dynamic.rs:22-34 | The loop writes the fragment of the rows' values, or fails where a value has none |
| RowFragment.FragmentToRows | crates/ytsaurus-client/src/dynamic.rs:73-117 | The loop over separators and values reads the rows the function says, names read lossily |
| RowFragment.ReadRow | crates/ytsaurus-client/src/dynamic.rs:119-136 | A value is a row of its entries in order, names read lossily; no row for an entity; an empty one for anything else |
| RowFragment.CutIsPrefix | crates/ytsaurus-client/src/dynamic.rs:73-117 | A fragment cut at any byte is refused or reads as a prefix of its rows, for any bytes at all |
| RowRoundTrip.NamedRowsComeBackExactlyWhen | crates/ytsaurus-client/src/dynamic.rs:22-136 | Rows with distinct names and no `Any` cell come back with the same columns, in order, exactly when no column is named `$value` or with a leading at sign |
| RowRoundTrip.RowsComeBackExactlyWhen | crates/ytsaurus-client/src/dynamic.rs:22-136 | The same on names as the fragment spells them, text or not |
| RowRoundTrip.AnswerNamesAreWritten | crates/ytsaurus-yson/src/de.rs:589-604 | Every column of an answer has the name of a column that was written |
| RowRoundTrip.AnyCellsComeBack | crates/ytsaurus-client/src/dynamic.rs:138-158 | A list or dict in a row is passed on as the YSON it is, and written back as that value wherever it can be read at all and is clean |
| RowRoundTrip.AnyCellsAreEmbedded | crates/ytsaurus-client/src/dynamic.rs:57-69 | An `Any` cell is taken in binary or else in text, and a row with one that is neither is refused |
| RowRoundTrip.LaterColumnCounts | crates/ytsaurus-client/src/dynamic.rs:36-43 | Of two columns of one name the later is the one written |
| RowRoundTrip.OddValuesKeepTheirPlace | crates/ytsaurus-client/src/dynamic.rs:119-136 | A lone `#` is a null row and another scalar an empty one, so answers and keys stay lined up |
| RowRoundTrip.SeparatorsSayNothing | crates/ytsaurus-client/src/dynamic.rs:79-86 | White space and semicolons between values say nothing |
| RowRoundTrip.OrdinaryRowComesBack | crates/ytsaurus-client/src/dynamic.rs:36-43 | A row without reserved names is answered with its own columns |
| RowRoundTrip.ReservedColumnIsLost | crates/ytsaurus-yson/src/de.rs:589-604 | No answer ever has a column with a reserved name |
| RowRoundTrip.FragmentReadsBack | crates/ytsaurus-client/src/dynamic.rs:22-117 | A written fragment reads as the normal forms of its values, one answer each, with `#` kept as none |
| YsonRoundTrip.DecodeEncoded | crates/ytsaurus-yson/src/de.rs:164-222 | Reading a written value gives its normal form and stops at what follows it, for every value |
| YsonRoundTrip.FromSliceOfToVec | crates/ytsaurus-yson/src/node.rs:154-158 | Reading what was written gives the normal form, and fails where there is none |
| YsonRoundTrip.TrailingBytesAreRefused | crates/ytsaurus-yson/src/de.rs:104-113 | A value with anything behind it is refused |
| YsonFaithful.RoundTripsExactlyWhenClean | crates/ytsaurus-yson/src/node.rs:154-158 | The promised round trip holds exactly on values with no reserved map key, no empty attributed map, no empty attribute set, within the depth limit |
| YsonFaithful.AttributedEmptyMapIsLost | crates/ytsaurus-yson/src/de.rs:606-632 | An attributed empty map comes back as an attributed entity |
| YsonScan.ScanEncoded | crates/ytsaurus-yson/src/scan.rs:76-187 | Scanning a written value ends exactly where it does, whatever follows |
| YsonScan.TruncationIsIncomplete | crates/ytsaurus-yson/src/scan.rs:30-36 | A value cut short anywhere is incomplete: never malformed, and never another value |
| YsonSyntax.DecodedExactlyWhenReadable | crates/ytsaurus-yson/src/scan.rs:16-20 | Of all bytes the scanner accepts to the end, those that can be decoded are exactly the ones whose syntax tree doubles no separator in a list or plain map, gives no map two bodies, and is not too deep counted the reader's way |
| YsonSyntax.DecodeIsReadable | crates/ytsaurus-yson/src/de.rs:164-222 | On a value that is there, decoding succeeds exactly when its tree is readable, and ends where the value does |
| YsonSyntax.ScanIsWalk | crates/ytsaurus-yson/src/scan.rs:76-187 | The scanner follows a value to its end exactly when there is one and no container in it is past the limit |
| YsonSyntax.ReadableIsShallow | crates/ytsaurus-yson/src/scan.rs:16-20 | A readable tree is never too deep for the scanner |
| YsonSyntax.AttributedListsCountTwice | crates/ytsaurus-yson/src/access.rs:46-72 | Of lists with an attribute, one in another, the scanner follows 128 and the deserializer takes 64 |
| YsonSyntax.DoubledSeparatorIsRefused | crates/ytsaurus-yson/src/access.rs:391-415 | `[#;;#]` is scanned to its end and refused |
| YsonScan.TwoBodiesAreRefused | crates/ytsaurus-yson/src/de.rs:616-622 | A map with `$value` beside another key is scanned to its end and refused |
| Yson.ScanTreeStable | crates/ytsaurus-yson/src/scan.rs:62-135 | More bytes never change what a finished scan found |
| Yson.NextTokenStable | crates/ytsaurus-yson/src/lexer.rs:49-115 | More bytes never change a token already read |
| Yson.ReadWriteUvarint | crates/ytsaurus-yson/src/varint.rs:4-49 | Every 64-bit number is read back from its varint, whatever follows |
| Yson.ReadFits | crates/ytsaurus-yson/src/varint.rs:4-33 | What is read from a varint fits in 64 bits and took at most ten bytes |

## Left out

- Mutations.CallWith: the transaction stamp on parameters, and the routing around the run, are not in this method; `RouterHeap` models routing and `Batch.Stamped` the stamp on parts.
- Dispatch.Dispatch: the verb, the headers, the text encoding of parameters and the per-phase limits of a streaming transfer are not modelled; a response is its status, its location and its parsed error.
- Router.Transport.BaseFor: `heavy_hosts`, its HTTP request and its timeout are the `lookup` argument; of a warning there is only whether it falls due, not its words nor the policy that may silence it.
- Router.Transport.constructor: takes the base URL as already normalised and whether it is local; rendering headers, reading the environment and building the agent are not modelled.
- Batch.ExecuteBatchWith: each request's outcome is an argument, its text body already parsed; what the retry loop and the cluster make of each request is `BatchWhole`.
- Mutations.Wire.Send: reading the body and checking the status are folded into the fate of the attempt.
- Batch.BatchRequest.CreateTable: validating a schema and writing it as YSON are the `schema` argument.
- BodyCap.ReadToEnd: an interrupted read, which the standard library repeats, and the growth of the vector are not modelled; which error a failed read becomes is left out.
- Chunked.DrainChunked: a connection fails only by ending; a buffer is refused only above the largest size a vector can have.
- ErrorTrees.ThreeWalksAgree: the raw document kept beside the line, and the header document that does not parse, are not modelled; a lossy reading is a parameter that keeps text as it is.
- RowFragment.FragmentToRows: how bytes of a name that are not text are shown is a parameter; the theorems ask only that text is kept.
- RowFragment.RowsToFragment: the text parser an `Any` cell may fall back on is a parameter.
- YsonRoundTrip.DecodeEncoded: the serializer's and deserializer's mutable buffers and cursors are modelled as the bytes still to be read; text YSON, typed structs and enums are left out; doubles are opaque bytes.
- Sockets, TLS handshakes, gzip, files, the environment, tracing and stderr lines.
- Certificate-verdict text matching: a flag on a transport failure.
- The wording of errors, hints and refusals.
- `fetch` with its own redirect loop, `open` and `upload`: the same decisions as in `Dispatch`, without the retry loop.
- Operation polling, transaction pinging, `lock_waiting`, schemas, operation specs and the examples.
- The quality of the random words, which are arguments.
