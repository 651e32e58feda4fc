# gNMIc verification model

A Dafny model of five parts of gNMIc, the gNMI client and collector: how the
cluster leader places targets, how subscriptions are read from the cache, how
gNMI paths are parsed and printed, how subscribe streams are put together, and
how dynamically loaded targets and event tags are merged. `dafny verify
dfyconfig.toml` checks the whole project.

- **Paths.** `PathSyntax` holds the path values, the scanners of the parser as
  functions, and an independent grammar of section 2.2.2 of the gNMI
  specification as the code reads it. `PathGrammar` proves that parser and
  grammar agree on every string. `PathPrint` and `PathRoundTrip` say exactly when
  a printed path is read back. `PathParser` is the code itself, loops over one
  string, proved against the functions. `PathPieces` parses text that is put
  together from parts. `PrefixCollapse` is the path transformation built on top,
  and `CollapseTwice` what becomes of its result when it is read back or collapsed
  again. `Ordering` is Go's string order and sort; `Basics` holds small shared
  notions.
- **Cluster.** `ClusterLoad` has lock tables, loads, and the arithmetic of
  rebalancing moves; `ClusterBalance` says how far these get. `ClusterApp` is the
  leader: a class with the service table and the lock table. The locker and the
  instances' APIs are methods that may fail at any call, and that log every call
  and answer; `ClusterCalls` says what such a log means. An instance takes the lock of a target only after it was asked to, possibly
  late. `reliable` says that none of this happens. `Leadership` is the election,
  as a transition system and as the loop that takes its steps.
- **Cache reads.** `OnChangeRead` is a transition system of writers and one
  on-change reader whose steps interleave freely. `SampledRead` is the sampled
  reader with its suppress-redundant state.
- **Subscribe streams.** `ProxyOnce` is the proxy's fan-in of many targets into
  one client stream; `SubscribeServer` is the server's STREAM, ONCE and POLL
  handlers. Every send may fail.
- **Merging.** `LoaderDiff` is the difference of two target maps, its application
  and whole runs of a loader. `EventTags` is the merge of path tags into prefix
  tags, and `EventPaths` says that names of event paths are paths.

Go's map iteration is an arbitrary choice of the next key everywhere, so each
result holds for every iteration order. Clocks and tickers are arbitrary choices
or parameters. A deadline of a dispatch is the number of times its context is
looked at before it is done.

Where the code does not keep a promise for all inputs, the exact condition under
which it does is a theorem, with an input that fails beside it:

- The printer does not escape brackets. A parsed path is printed so that it
  parses back if and only if no key name or value holds a bracket
  (`CanonicalRoundTrip`); `EscapedBracketLost` is an input that fails.
- Collapsing prefixes twice is not always collapsing them once. For every string
  it is if and only if the collapsed text cannot be parsed, or it is what printing
  the parsed elements gives and no two neighbours in it share a non-empty prefix
  (`CollapsedTwiceIff`). `PlainTwiceIff` says the same of a path whose keys hold no
  bracket by recursion on its names, whatever these and the origin are. It follows that a
  path without origin, whose names have at most one ":" with something behind it
  and whose keys hold no bracket, is collapsed for good (`AbsoluteIdempotent`).
  Three inputs fail: one with an origin, which comes back as an element
  (`OriginNotIdempotent`), one with two colons in a name (`ColonsNotIdempotent`)
  and one with brackets in a key (`BracketsNotIdempotent`).
- Suppress-redundant compares by a name without path keys. The client's view is
  right for all updates of a set of leaves if and only if no two of them share
  that name (`ViewRefinedIff`); `SecondInterfaceLost` shows two that do.
- The tag merge keeps all tags in every order if and only if the name a clashing
  tag is moved to has room (`NothingLostIff`). There is room for all paths with
  names as the parser gives them, whatever their keys, if the origin of the
  prefix has no "_" (`PathsMerge`). An element without a name
  (`NamelessTagLost`), or an origin with "_" (`OriginTagLost`), can lose a tag.
- A loaded target that has the name of a target from another source is ignored
  when it comes, and its removal deletes the other one (`ClashDeletes`). Applying
  a difference is right if and only if every shared name that the new reading does
  not leave alone comes back as what the other source holds (`DiffThenApplyIff`).
- The value an on-change reader receives last for a leaf is the current one if and
  only if it was current at the moment it was sent (`LastIsCurrentIff`);
  `StaleComesLast` is a run in which it was not.
- Rebalancing stops at half of the first load difference. A cluster of any size
  ends balanced if and only if the moves that are needed do not exceed that
  (`GroupBalanceIff`); `CapStopsEarly` is a cluster of three where they do.
- The proxy's producers hand responses to the forwarder without looking at
  anything else. Once the forwarder has ended, the handler can return if and only
  if no producer holds a response (`ReturnIff`); `HandlerStuck` is a run in which
  one does.
- Draining an instance releases a target before looking for its configuration: a
  target is held again if and only if it has a configuration and another service
  shares its longest tag prefix (`DrainInstance`); `UnknownTargetLost` is a state
  in which one is lost.

The comment of `collapsePrefixes` speaks of prefixes of keys; the code, and the
model, only change element names.

## Model

| member | source | states |
|---|---|---|
| PathParser.ParseXPathKeys | pkg/api/path/path.go:157-207 | the key scanner over start index, previous character and flag gives, on every string, the key map or error of its specification, which the grammar theorem characterises |
| PathParser.ToPathElem | pkg/api/path/path.go:129-154 | the element scanner splits name and keys at the first unescaped "[" and rejects empty names |
| PathParser.ToPathElems | pkg/api/path/path.go:75-126 | the bracket automaton that replaces separators by NUL, with its errors, then the elements of the non-empty pieces |
| PathParser.ParsePath | pkg/api/path/path.go:49-72 | the whole parser, origin detection included, equals the specification that `ParseIffDenotes` characterises |
| PathParser.GnmiPathToXPath | pkg/api/path/path.go:215-257 | the printer, with keys in ascending order whatever the map order, equals the printed text of the round-trip theorems |
| PathParser.WriteKeys | pkg/api/path/path.go:236-249 | all keys of an element, each once, in ascending order, as bracketed name=value |
| PathGrammar.ParseIffDenotes | pkg/api/path/path.go:49-207 | for every string and path: the parser gives that path if and only if the grammar (escapes, separators, origin) says the string denotes it |
| PathGrammar.OriginSplitIff | pkg/api/path/path.go:54-63 | the origin test on the first ":" is the grammar's unique way to write a string with an origin, or without one if it cannot have any |
| PathGrammar.MalformedIff | pkg/api/path/path.go:75-121 | a path is malformed if and only if its unescaped brackets do not open and close in turn or the last one stays open |
| PathGrammar.PiecesErrors | pkg/api/path/path.go:109-154 | the other errors are those of the first element that cannot be parsed: no name if it starts with "[", malformed keys otherwise |
| PathGrammar.KeyMapLast | pkg/api/path/path.go:157-207 | of a repeated key the last value stays, and there are no other keys |
| PathRoundTrip.ParseSound | pkg/api/path/path.go:75-154 | every accepted string gives names that are non-empty and free of "/" and NUL, non-empty keys and values, keys without "=", and an origin without ":" and "/" |
| PathRoundTrip.EscapedRoundTrip | pkg/api/path/path.go:24-26 | with every bracket of a key escaped, the written path parses back to exactly itself if and only if it is a path the parser can produce |
| PathRoundTrip.UnescapeEscape | pkg/api/path/path.go:24-26 | the unescaping replacer undoes escaping on every string |
| PathRoundTrip.PrintRoundTrip | pkg/api/path/path.go:215-265 | the unescaped print, made absolute, parses back if and only if the path is sound and its keys hold no bracket |
| PathRoundTrip.CanonicalRoundTrip | pkg/api/path/path.go:215-265 | for every accepted string, printing and parsing again gives the same path if and only if its keys hold no bracket |
| PathRoundTrip.NoBackslashRoundTrip | pkg/api/path/path.go:49-207 | for every accepted string without a backslash, printing and parsing again gives the same origin, names and key maps |
| PathRoundTrip.EscapedBracketLost | pkg/api/path/path.go:259-265 | a path with a bracket in a key value that parses back when escaped and does not when printed by the source |
| PathPieces.JoinStripped | pkg/api/path/path.go:231-255 | printing without keys prints the path that has none |
| PrefixCollapse.CollapsePrefixes | pkg/app/path.go:449-465 | the loop over the elements and the printed result equal the specification on every string, unparsable ones coming back unchanged |
| PrefixCollapse.CollapseAt | pkg/app/path.go:454-463 | a name drops its prefix if and only if that is non-empty and the prefix of the name before it |
| PrefixCollapse.CollapseLossless | pkg/app/path.go:454-478 | on names prefix:name, letting bare names inherit the last prefix seen restores every name |
| CollapseTwice.CollapsedParsesIff | pkg/app/path.go:449-465 | for every accepted string: the returned text is read back as the collapsed elements, behind the origin as an element, if and only if keys hold no bracket, no name is dropped as a whole, and the origin is readable and without NUL |
| CollapseTwice.CollapsedTextRestores | pkg/app/path.go:449-465 | under that condition, for names prefix:name, inheritance gives back all names and keys behind the origin |
| CollapseTwice.CollapsedTwiceIff | pkg/app/path.go:449-465 | for every string: collapsing twice is collapsing once if and only if the collapsed text cannot be parsed, or is the print of what it is parsed to and no neighbours share a non-empty prefix |
| CollapseTwice.PlainTwiceIff | pkg/app/path.go:449-465 | for every accepted string whose keys hold no bracket, any names and any origin: idempotent if and only if the origin is unreadable or an element with keys drops its whole name, or, walking the names of the path, none is dropped and no prefix repeats the one before it after the first pass |
| CollapseTwice.AbsoluteIdempotent | pkg/app/path.go:449-465 | without origin, with bare names or prefix:name and keys without brackets, collapsing the collapsed text changes nothing |
| CollapseTwice.OriginIdempotentIff | pkg/app/path.go:449-465 | with any origin, such names and keys: idempotent if and only if the origin is unreadable as an element, or it has no NUL and there are elements of which the first has another prefix |
| CollapseTwice.OriginNotIdempotent | pkg/app/path.go:464-464 | o:/o:a is a string on which collapsing twice differs from collapsing once |
| CollapseTwice.ColonsNotIdempotent | pkg/app/path.go:469-478 | so is /p:x/p:p:y, because only the first colon is looked at |
| CollapseTwice.BracketsNotIdempotent | pkg/app/path.go:464-464 | so is /x:e with the key k and the value "a][b=c", which is printed unescaped and read back as two keys |
| Ordering.SortStrings | pkg/api/path/path.go:236-243 | the sort of key names; the sorted list has each key once in ascending order (SortedKeysAscending) |
| Ordering.SortedKeysAscending | pkg/api/path/path.go:236-243 | the key order used for printing is strictly ascending, hence unique |
| Ordering.LessIff | pkg/api/path/path.go:246-246 | the order compares the first characters in which two strings differ, and a proper prefix comes first |
| ClusterApp.App.UpdateServices | pkg/app/clustering.go:213-259 | whatever was registered before, the service table has exactly the ids of the last update, each with the last service that has it |
| ClusterApp.App.MatchTags | pkg/app/clustering.go:579-588 | the number of leading tags in which service and target agree, up to the first difference or the end of either |
| ClusterApp.App.GetInstancesTagsMatches | pkg/app/clustering.go:570-591 | that number for every instance |
| ClusterLoad.CommonIff | pkg/app/clustering.go:579-588 | the common prefix length by which services are compared is the number of leading tags that agree and no more |
| ClusterApp.App.GetHighestTagsMatches | pkg/app/clustering.go:593-607 | exactly the instances with the highest count |
| ClusterApp.App.GetInstancesLoad | pkg/app/clustering.go:462-501 | exact load of every lock holder and registered instance, restricted to the instances asked for |
| ClusterApp.App.GetLowLoadInstance | pkg/app/clustering.go:503-515 | an instance of least load |
| ClusterApp.App.GetHighAndLowInstance | pkg/app/clustering.go:517-532 | an instance of most and one of least load |
| ClusterApp.App.SelectService | pkg/app/clustering.go:395-460 | a returned service is registered, not denied, has the longest common tag prefix and least load among such; no more suitable services exactly when all longest-prefix services are denied; not found exactly for an empty table |
| ClusterApp.App.DispatchTarget | pkg/app/clustering.go:307-380 | touches only its own target's lock; of the calls made, assignments go to registered services, never to denied ones or again to one that refused, with bounded waiting in between; no error without a lock seen held, no more suitable services only when every longest-prefix service was denied or refused, canceled only after a context check that said so, a locker error only after a failed locker call; in a reliable cluster a free target goes to an optimal service or the dispatch fails exactly when none is suitable |
| ClusterApp.App.AssignAndWait | pkg/app/clustering.go:339-379 | one selection: an assignment call with its answer, then only lock reads and releases of that target, the empty ones among them counted |
| ClusterApp.App.WaitForLock | pkg/app/clustering.go:355-379 | of the lock reads made, at most max(1, ceil(timeout / wait) - 1) are empty, exactly that many when it gives up, and then the target is released from the service |
| ClusterCalls.FailuresBounded | pkg/app/clustering.go:339-345 | failed assignments never outnumber the registered services that were not denied |
| ClusterCalls.FailuresAre | pkg/app/clustering.go:339-345 | these failed assignments are the assignment calls that were refused |
| ClusterCalls.CallsWithin | pkg/app/clustering.go:339-379 | bounds on a trace of selections are bounds on the calls: which services are assigned, none again after it refused, and how many reads find the lock free between two assignments |
| ClusterCalls.MaxEmptyReadsIs | pkg/app/clustering.go:364-371 | that bound is the first number of reads, at least one, at which one more waiting time reaches the timeout |
| ClusterCalls.BoundedSnoc | pkg/app/clustering.go:339-345 | a selection that avoids denied and failed services keeps the dispatch bounds |
| ClusterApp.App.GetInstanceTargets | pkg/app/api.go:679-695 | the targets an instance holds, ascending |
| ClusterApp.App.RebalanceOne | pkg/app/clustering.go:789-834 | one rebalance move: of the targets of the highest instance the first by name with a configuration is released from it and dispatched; none is moved without an error only if none has one |
| ClusterApp.App.ClusterRebalanceTargets | pkg/app/clustering.go:756-837 | at most 100 moves; the targets released, read off the calls, are the moved ones, each known; an error only for a call that failed or refused; without one, for every lock table, loads differ by less than two, or the cap of the first difference is used up, or a most loaded instance has no target with a configuration; the set of locked targets is unchanged without error, and at most one is lost with one; under the descent assumptions the lock tables form a run of maximal-to-minimal moves up to the cap |
| ClusterLoad.MoveDescends | pkg/app/clustering.go:771-830 | a move between loads that differ by delta >= 2 lowers the sum of squared loads by exactly 2 * (delta - 1), never raises the maximum or lowers the minimum, and keeps the locked targets |
| ClusterLoad.LeastAfterRelease | pkg/app/clustering.go:503-515 | after the highest instance released a target, a least loaded instance is one that was least loaded before |
| ClusterLoad.RunDescends | pkg/app/clustering.go:756-837 | along a whole rebalance the sum of squares falls by at least two a move and loads stay within the first extremes |
| ClusterLoad.TwoInstanceBalance | pkg/app/clustering.go:771-788 | a two-instance cluster that starts d apart ends max(d mod 2, d - 200) apart |
| ClusterBalance.MoveNeeded | pkg/app/clustering.go:783-835 | in a cluster of any size each move lowers the number of moves still needed by exactly one |
| ClusterBalance.GroupBalanceIff | pkg/app/clustering.go:771-788 | a rebalance makes as many moves as are needed and the cap allows, and ends with loads at most one apart if and only if the cap allows all |
| ClusterBalance.CapStopsEarly | pkg/app/clustering.go:772-777 | with loads 3, 3 and 0 two moves are needed and the cap is one |
| ClusterApp.App.DrainInstance | pkg/app/api.go:598-614 | once the locks could be listed, every target of the instance is released, and dispatched if that succeeded and it has a configuration; other instances keep their locks; in a reliable cluster the drained one ends empty, and each drained target is held again if and only if it has a configuration and another service shares its longest tag prefix |
| ClusterApp.App.DrainOne | pkg/app/api.go:599-613 | a drained target leaves the instance and lands elsewhere exactly when it can be relocated |
| ClusterApp.UnknownTargetLost | pkg/app/api.go:599-608 | a state of two instances with one target without configuration: it can be drained and another service would suit, but it cannot be relocated |
| ClusterApp.DrainUnknownTarget | pkg/app/api.go:599-608 | draining in that state leaves nobody with the target |
| Leadership.AtMostOneLeadership | pkg/app/clustering.go:134-180 | in every state of every run at most one leadership context is live, a live one implies the flag, and while the lock is attempted none is live and the flag is cleared |
| Leadership.CancelledBeforeCleared | pkg/app/clustering.go:168-175 | whenever the flag is cleared no context is live any more |
| Leadership.NeverLiveAgain | pkg/app/clustering.go:153-154 | a cancelled context stays cancelled, so each leadership has its own |
| Leadership.LeadershipIsWon | pkg/app/clustering.go:139-151 | a leadership begins only after a positive answer without an error, with nothing but that in between |
| Leadership.WonIsTaken | pkg/app/clustering.go:139-151 | after such an answer the lock is not tried again first |
| Leadership.FlagAtStart | pkg/app/clustering.go:136-146 | between leaderships the flag is set only by an answer that came with an error, until the next attempt |
| Leadership.Instance.StartCluster | pkg/app/clustering.go:134-180 | the loop, with any answers and losses, takes a run of that transition system, with one answer a round until it is stopped |
| OnChangeRead.NoLostUpdate | pkg/cache/oc_cache.go:335-379 | in every interleaving, once no write is on its way, the reader has received the final value of every matching leaf, whichever caches and targets existed when it began |
| OnChangeRead.NoLostUpdateSince | pkg/cache/oc_cache.go:340-356 | with updates_only the same for every leaf stored after its query was registered |
| OnChangeRead.OnlyGenuineUpdates | pkg/cache/oc_cache.go:491-507 | every received value is one the leaf had, and the leaf matches a query of the read |
| OnChangeRead.MatchesLeaf | pkg/cache/oc_cache.go:348-351 | a live query matches the leaves it names, with globs and cut anywhere, and no leaf of another subscription, target or path |
| OnChangeRead.LastIsCurrentIff | pkg/cache/oc_cache.go:335-379 | once settled, the value received last for a matching leaf is the current one if and only if it was current when it was sent |
| OnChangeRead.StaleComesLast | pkg/cache/oc_cache.go:364-371 | a run that ends with a stale value: the walk has read it before a writer's newer value and sends it after |
| OnChangeRead.RunInvariant | pkg/cache/oc_cache.go:85-168 | in every state of every run the current value of every due leaf was received, is being published or sent, or will be visited by the reader's own walk |
| SampledRead.ReadOpts.HandleLeaf | pkg/cache/oc_cache.go:237-288 | without suppression the whole notification, with it exactly the updates that differ from the last value under their name, then the deletes; the last-sent map is kept exact |
| SampledRead.ReadOpts.HandleSingleQuery | pkg/cache/oc_cache.go:203-301 | one sample sends exactly the news among the visited leaves, given everything visited before, and exactly the deletes of the visited notifications |
| SampledRead.ReadOpts.HandleSampledQuery | pkg/cache/oc_cache.go:303-325 | over the initial read and all ticks the client gets exactly the updates that were news when visited, and all deletes; without suppression every visited notification |
| SampledRead.ReadOpts.constructor | pkg/cache/cache.go:170-187 | a read starts with nothing sent |
| SampledRead.SentIsSeen | pkg/cache/oc_cache.go:257-276 | the last value sent under a name is always the last value seen under it, so a value is dropped only if it equals the last one sent |
| SampledRead.ConsecutiveValues | pkg/cache/oc_cache.go:257-276 | consecutive values sent under one name differ |
| SampledRead.ConsecutiveDiffer | pkg/cache/oc_cache.go:257-276 | filtering what was sent drops nothing |
| SampledRead.ViewRefined | pkg/cache/oc_cache.go:249-276 | when no two leaves share a keyless name, the client builds the same view as from the unfiltered stream |
| SampledRead.ViewRefinedIff | pkg/cache/oc_cache.go:258-263 | for a set of leaves this holds for all update streams if and only if no two of them share a name |
| SampledRead.SharedNameLost | pkg/cache/oc_cache.go:258-263 | two leaves with one name and equal values: the second never reaches the client |
| SampledRead.NameIff | pkg/cache/oc_cache.go:255-259 | two leaves share a name if and only if they have the same target and the same element names in prefix and path, whatever their keys |
| SampledRead.SecondInterfaceLost | pkg/cache/oc_cache.go:258-263 | two interfaces of one target, told apart by a key, are such leaves |
| SampledRead.SampleComplete | pkg/cache/oc_cache.go:303-325 | after a sample of all present leaves the client's view holds the cached value of each |
| ProxyOnce.Forward | pkg/app/proxy.go:330-365 | the forwarder's loop sends the updates it is given, in order and without a gap, each with its target's name where the prefix named none and otherwise unchanged, and behaves as the transition system's steps |
| ProxyOnce.RunInvariant | pkg/app/proxy.go:319-423 | in every interleaving each target's forwarded updates are its own stream's, cut where the forwarder is, and a target counts as synced exactly if its handled responses hold a sync |
| ProxyOnce.ClientStream | pkg/app/proxy.go:328-412 | in every interleaving the client stream is Update* and at most one final sync, and each target's updates arrive in order without gaps or repeats |
| ProxyOnce.EachUpdate | pkg/app/proxy.go:340-352 | in every run the update of a target that reaches the client after r others of it is the one after r others in its stream, with the target's name in the prefix where that was empty and otherwise unchanged |
| ProxyOnce.EveryUpdate | pkg/app/proxy.go:353-362 | before the client's sync comes every update a target sent before its own |
| ProxyOnce.SyncIsSent | pkg/app/proxy.go:353-362 | undisturbed, the client has its sync as soon as every target has had one handled |
| ProxyOnce.SyncComesLast | pkg/app/proxy.go:353-362 | the client's sync comes only after every target has synced, and after all updates a target sent before its own sync |
| ProxyOnce.ReturnIff | pkg/app/proxy.go:386-421 | in every run, once the forwarder has ended, the handler can return if and only if no producer holds a response |
| ProxyOnce.HandlerStuck | pkg/app/proxy.go:393-401 | a run of one target that sends a response behind its sync, after which the handler cannot return |
| SubscribeServer.SendRead | pkg/gnmiserver/subscribe.go:128-141 | a read's notifications are attempted in order up to its first error or the first failed send, all of them if there is neither |
| SubscribeServer.SentInOrder | pkg/gnmiserver/subscribe.go:128-141 | the i-th attempt of a read sends its i-th notification; all are sent, or the last attempt failed, or the read has an error next |
| SubscribeServer.HandleStream | pkg/gnmiserver/subscribe.go:189-262 | initial reads in order; a sync attempt after all of them were sent, and none exactly when one of them broke off; then all live notifications if the sync was sent |
| SubscribeServer.NotesAt | pkg/gnmiserver/subscribe.go:234-255 | every live notification is sent in its place among them, errors being skipped |
| SubscribeServer.Accepted | pkg/gnmiserver/subscribe.go:317-335 | the polls that are accepted are those before the first other request |
| SubscribeServer.StreamFrames | pkg/gnmiserver/subscribe.go:189-262 | what the client receives is a prefix of Update* Sync Update*, and of Sync Update* with updates_only; it has a sync exactly if the sync was sent |
| SubscribeServer.HandleOnce | pkg/gnmiserver/subscribe.go:66-73 | a read and then a sync attempt, whatever happened to the read |
| SubscribeServer.HandlePoll | pkg/gnmiserver/subscribe.go:311-343 | the attempts are one round for the initial read and one for each accepted Poll, each its read's updates and then a sync, so exactly that many sync attempts, at the ends of the rounds |
| SubscribeServer.PollSyncs | pkg/gnmiserver/subscribe.go:311-343 | in a sequence of attempts made of such rounds, syncs stand at the ends of rounds and nowhere else |
| LoaderDiff.Diff | pkg/loaders/loaders.go:84-128 | for every iteration order: added are exactly the new and changed targets, deleted, each once, exactly the gone and changed ones; unchanged ones are in neither |
| LoaderDiff.App.AddTargetConfig | pkg/app/target.go:121-138 | an existing name keeps its configuration; a new one is stored with its positive buffer size and retry timer or the configured ones, and otherwise as it is |
| LoaderDiff.App.DeleteTarget | pkg/app/target.go:69-97 | removes the configuration and the operational target, or reports that the name does not exist and changes nothing |
| LoaderDiff.App.ApplyOperation | pkg/app/loaders.go:54-90 | deletes first, then adds in any order with refused configurations skipped; targets outside the deletes are never touched |
| LoaderDiff.DiffThenApplyIff | pkg/app/loaders.go:54-90 | applying the difference turns the configured targets for one reading into those for the next, around targets of other sources, if and only if shared names are left alone or come back as the other source has them |
| LoaderDiff.DiffThenApply | pkg/app/loaders.go:54-90 | so it does whenever the current reading shares no name with other sources |
| LoaderDiff.ReadingsThenApply | pkg/app/loaders.go:54-90 | over any list of readings, the configured targets are the current reading and the other targets all along if and only if every step is harmless to the others in that sense |
| LoaderDiff.ClashDeletes | pkg/app/target.go:127-129 | a target of another source is lost when a loaded one with its name comes and goes |
| LoaderDiff.DiffTransforms | pkg/loaders/loaders.go:100-126 | for entries under other keys than their names, as long as no two have the same name, the difference still leads from one set of names to the next, deleting what it adds again |
| LoaderDiff.SharedNameOrder | pkg/app/loaders.go:75-83 | of two entries with one name the one added first stays, so the order decides |
| LoaderDiff.Loader.Update | pkg/loaders/file_loader/file_loader.go:263-297 | one reading keeps loader and collector in step if and only if it is harmless to targets of other sources, although both share configuration objects that the collector completes in place |
| LoaderDiff.Loader.Run | pkg/loaders/file_loader/file_loader.go:154-173 | over any number of readings the collector holds the current one, completed, and its other targets all along if and only if every change is harmless to those; so it ends with the last reading when no name is shared |
| EventTags.EventTags | pkg/formatters/event.go:109-137 | path and tags of an update's event are those of a merge in some order, and the order-free result whenever there is room |
| EventTags.MergeTags | pkg/formatters/event.go:166-174 | the merge loop in an arbitrary order; with room it loses nothing |
| EventTags.MergeIsOrderFree | pkg/formatters/event.go:129-137 | with room for the moved tags every order gives the same tags, all prefix tags keep their values and every path tag's value is found |
| EventTags.NothingLostIff | pkg/formatters/event.go:129-137 | all orders keep everything if and only if each clashing tag's new name has room |
| EventTags.SlashFreeNames | pkg/formatters/event.go:116-137 | when no tag name holds a "/", every order gives the same tags, clashing tags are under path_name, all others under their own name, and there are no further tags |
| EventTags.MarkedNames | pkg/formatters/event.go:116-137 | the same when a "/" or ":" stands before the first "_" of the path and of no tag name |
| EventTags.PathsMerge | pkg/formatters/event.go:109-137 | the same for every prefix and path whose element names are non-empty and free of "/", whatever their keys, if the prefix's origin has no "_" |
| EventTags.TakenNameLost | pkg/formatters/event.go:129-137 | when the new name of a clashing tag is another tag of the path, two orders differ and one loses a value |
| EventTags.NamelessTagLost | pkg/formatters/event.go:204-207 | a path with a nameless element, whose keys become tags as they are, on which an order loses a tag |
| EventTags.OriginTagLost | pkg/formatters/event.go:125-133 | a path with ordinary names and a prefix origin with "_" on which an order loses a tag |
| EventTags.SlashFreeTags | pkg/formatters/event.go:196-217 | tag names of a path hold no "/" when its element names and key names hold none |
| EventTags.TagsFromGnmiPath | pkg/formatters/event.go:182-222 | the tags of a path are its target and, for each element, its name behind the last colon, "_" and the key, or the key alone for a nameless element, the last element that has a tag giving its value; whatever the order of each key map |
| EventPaths.PathNameParses | pkg/formatters/event.go:192-200 | the name of a path, parsed, gives its origin and its elements without their keys |
| EventPaths.EventPathIs | pkg/formatters/event.go:125-128 | the path of an event is the name of prefix and path as one path |

## Left out

- Invalid UTF-8: strings are sequences of characters, and the range loops of the source are over those.
- The target of a parsed path, `CreatePrefix` and `PathElems`: no parsing.
- A nil key map and an empty one are the same value here.
- CollapseTwice.PlainTwiceIff: for keys without brackets; with brackets, whose print is cut into other keys and elements, the exact condition is on the collapsed text (`CollapsedTwiceIff`).
- CollapseTwice.CollapsedTextRestores: for names prefix:name, as inheritance gives a bare name a prefix it did not have.
- ClusterApp.App.SelectService: optimality assumes service ids made of a non-empty instance name and "-api", with instance names that do not end in "-api", and deny lists of such ids; with other ids suffix trimming mixes names up.
- ClusterApp.App.DispatchTarget: its termination comes from the deadline alone, since the lock timeout reselects without denying.
- ClusterApp.App.ClusterRebalanceTargets: descent and balance assume registered holders, known untagged targets and a reliable cluster; lock conservation needs no such assumption. "Reliable" lets an assigned instance take the lock before its first read.
- Target names with "/": lock keys are target names here, while the source takes the last path component of a key.
- Duplicate members of a service update are kept by the last one; watching members and registering the own service are calls of the locker and not modelled.
- The loops that dispatch all targets and the clustered branch of the loader, which overwrites an existing configuration.
- Leadership.Instance.StartCluster: the goroutines started under a leadership context are represented by the context only.
- OnChangeRead.NoLostUpdate: says that the final value arrives; which value arrives last is `LastIsCurrentIff`. Deletes, timestamps, expiry and atomic notifications are not modelled, and repeated publications of one leaf are allowed at any time.
- Early returns of the cache's Write (no target, empty path, nil value) and path completion errors; a write is its steps "prepare caches", "store" and "publish", as they interleave with readers.
- The on-change heartbeat, which is a sampled read without suppression.
- SampledRead.ReadOpts.HandleSingleQuery: one subscription cache, whose leaves come in an arbitrary given order; several caches share the last-sent map concurrently in the source.
- `streamReadOpts` clamping and `mergedPath`, which join or bound single values.
- SubscribeServer.HandleStream: live notifications of all subscriptions are one given interleaving, and cancellation is the end of that sequence.
- The proxy's STREAM handler, Get and Set; of the ONCE handler, whether it does return when it can.
- LoaderDiff.Loader.Run: target defaults keep names and are settled by one application, and no two entries of a reading have the same name, as the order decides between those (`SharedNameOrder`); loader actions are left out.
- EventTags.PathsMerge: sufficient for all iteration orders, while the exact condition is on the tags (`NothingLostIff`).
- LoaderDiff.App.DeleteTarget: the operational target map exists, as it does from the constructor on; stopping subscriptions and releasing target locks are effects outside the configuration.
- Values of events (JSON flattening) and `addMetaTags`.
- HTTP, gRPC, Consul, NATS and Redis clients, the command line, configuration files, YANG and message builders.
