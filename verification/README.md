# Verified model of the 3x-ui backend core

This project models the stateful core of the Go backend in Dafny and proves what that core is for:

- **Hot-apply planner** (`HotConfig`, `HotDiff`, `HotReference`, `HotApply`, `HotCorrect`, `HotDrift`,
  `HotPartial`, `HotCore`): the loops that compare two Xray configurations and list add and remove operations,
  the same told element by element, a strict and a tolerant executor, the proof that a run ends in the state of
  the new configuration, which edits of the running core it repairs, what is left when it breaks off, and the
  restarts around it.
- **Shared-port front** (`TlsHello`, `TlsEncoding`, `TlsAcceptance`, `Classifier`, `HelloClassification`,
  `PlainClassification`, `Routes`, `RouteValidation`, `GroupRules`, `RunningRoutes`, `Connections`,
  `RoutedTraffic`, `AcceptLoops`): the incremental TLS, HTTP and raw classifier over a connection read in
  arbitrary pieces, the ClientHello parser against an independent encoder in both directions, each kind of
  traffic told from its bytes, group validation and route selection, one connection from its first byte to its
  backend, and the accept loops with their two semaphores as a state machine over all interleavings.
- **IP-limit leases** (`LeaseTable`, `LeaseListing`, `Coordinator`, `LeaseRuns`, `LeaseHistory`): the lease
  table as one atomic transaction per call, with a clock; convergence, caps, invisibility of the background
  sweep and the history of every row over whole runs.
- **Presence** (`Names`, `PresenceState`, `PresenceRestarts`, `Presence`): the process object with its cached
  lists as a class with an invariant, and what its lazily pruned sources mean over a run and over restarts of
  the core.
- **mtg sidecars** (`MtprotoConfig`, `MtprotoManager`, `MtprotoReconcile`, `MtprotoTraffic`, `MtprotoRuns`):
  fingerprints, the manager that starts, updates and stops one process per inbound, traffic counted across
  restarts, and whole runs of manager, processes and collections.
- **Xray statistics** (`XrayStats`): delta baselines and their pruning.
- **Arithmetic and loops** (`Jalali`, `SessionRoom`, `ProxyNames`, `Decimals`): calendar conversion, the
  saturating bound on session identifiers, unique proxy names.

`Wrappers`, `Sequences` and `Ordering` hold what several parts share: options and results, duplicate-free and
mapped sequences, and the order of `sort.Strings`.

Code that updates fields, maps or slices step by step is modelled as methods and classes, proved against
functions; the theorems are lemmas about those functions and hold for every input and every run. Dafny
checks the proofs; nothing of the Go program was executed.

## Assumptions

- JSON decoding, IDNA, IP, URL, UUID and regular-expression libraries are function-valued parameters
  (the `Library` datatypes, `Classify`), so results hold whatever these compute. Two JSON texts are
  equal when they decode to the same value.
- `Read` returns bytes or an error, never both, and at least one byte when it returns bytes.
- `sort.Slice` by route id is modelled by insertion sort by id.
- The core refuses to remove what is absent and to add what is present. On a core in step with the recorded
  configuration a plan never meets such a refusal (`HotApplyCorrect`); on one edited behind it the calling code
  skips or replaces, which `HotDrift` models. Users live in inbounds and vanish with them.
- A process started on a configuration has the state that configuration describes.
- Each public method of the coordinator, of the presence store and of the sidecar manager is one atomic
  step, as their locks and transactions make them, except `CollectTraffic`, whose three parts are
  separate steps.
- A process that is told to stop stops.
- A replaced core process is told nothing between the copy of its auxiliary presence
  (internal/web/service/xray.go:1264) and its end; reports made to it in that window would be lost.
- SQL text columns sort by code point; on Postgres that depends on the collation.
- A hot-apply call that fails may have taken effect or not; no later call is made.

## Where the code and its words differ

- The comment on `secretsFingerprint` says it moves whenever a client changes. That is so between clients whose
  fields are free of separators (`SecretsFingerprintIsExact`; a sufficient condition, not the exact boundary),
  and false in general: every list of two clients or more shares its fingerprint with a list of one client fewer
  (`EveryListCollides`, and `BarsCanHideAClient` in the smallest case), so no condition
  on one such list alone suffices.
- A rejection of a five-byte TLS record header with an impossible length is not final when the group has a
  raw route: a sixth byte may overrule it (`RejectIsFinalIff`).
- Classification can depend on how the stream is cut into reads, for two reasons: such a header, and a decision
  that comes less than a read buffer of 4096 bytes before the inspection limit, which a large read jumps over into
  the limit. `SchedulesAgreeIff` gives the exact condition for every stream and every limit,
  `LongRawStreamDisagrees` the failure for any raw stream longer than a limit of at most 4096 bytes. A ClientHello
  is never classified by another name, and is sure to be classified exactly when everything the client sends is
  below the limit or the hello ends 4096 bytes before it (`HelloNeverMisclassified`, `HelloClassified`).
- `ensureUniqueProxyNames` gives distinct names exactly when no entry of the list is the same object as
  another (`EnsureUniqueProxyNames`).
- Traffic of inbounds and outbounds is kept in one record per tag, labelled by the first statistic of that tag to
  grow, and booked by that label alone. An inbound and an outbound of one name overwrite each other
  (`SharedTagOverwrites`), or the outbound's traffic goes to the inbound (`SharedTagMislabels`). Statistics with
  given names are always booked right exactly when any two of one tag are of one kind, inbound or outbound, and of
  different directions (`AllBookedIffOwnRecords`).
- The comment on `tryHotApply` says that a full restart cleans up whatever was partially applied. It does, except
  when stopping the old process fails and that process lives on: then it stays half changed under its old
  configuration (`RestartsStayInStep`, `SurvivorIsOutOfStep`).
- `Start` validates one canonicalisation further than the running group selects on, and canonical form is not a
  fixed point, so two running routes can share a name that has no canonical form of its own, and only such a name
  (`ConflictLasts`, `DotsEscapeValidation`). The order in which routes are listed never matters for a started
  group, and a TLS, HTTP/2 or raw connection is never ambiguous (`RelistingChangesNothing`,
  `RunningGroupIsUnambiguous`); but under host normalisation that drops up to two trailing dots and refuses
  what is then empty, as `NormalizeHTTPHost` does, routes that share the host "....." pass `Start` and answer a
  request with that Host header with an ambiguity (`DottedHostIsAmbiguous`). Where the missing host normalises to
  itself, as it does there, a group is never ambiguous exactly when no two of the HTTP routes it runs overlap, over
  all classifications (`NeverAmbiguousIff`) as over those that requests can lead to (`NeverAmbiguousToRequestsIff`).
- `saturatedPow` returns the limit for a power below it exactly when that power is the largest multiple of the
  base below a limit that is no multiple of it (`SaturationIsEarlyIff`; `SaturationCanBeEarly` is the smallest
  case); for the one limit and the alphabets it is called with it is exact (`SaturationIsExact`).

## Model

| member | source | states |
|---|---|---|
| HotDiff.ComputeHotDiff | internal/xray/hot_diff.go:48-98 | succeeds exactly on changes the core can take without restart, and then lists exactly their operations, each once |
| HotDiff.DiffInboundUsers | internal/xray/hot_diff.go:161-200 | succeeds exactly when only the clients of a user-diffable protocol changed; a refusal leaves the plan untouched |
| HotDiff.DiffInbounds | internal/xray/hot_diff.go:103-155 | refuses exactly when some changed tag needs a restart; otherwise the plan lists the inbound and user operations of all tags |
| HotDiff.CompareOutbounds | internal/xray/hot_diff.go:279-338 | None exactly when the default outbound changed or a changed outbound needs the custom core; otherwise the differing tags |
| HotDiff.DiffOutbounds | internal/xray/hot_diff.go:279-338 | as above from the raw sections, touching no other part of the plan |
| HotDiff.DiffRouting | internal/xray/hot_diff.go:344-366 | accepts exactly changes confined to rules and balancers, and plans the new routing |
| HotDiff.HotDiff.Empty | internal/xray/hot_diff.go:34-42 | true exactly for the plan with no operation |
| HotReference.ApplicableIff | internal/xray/hot_diff.go:48-366 | a change can be hot-applied exactly when each of the thirteen sections without a reload API means the same, every inbound in both configurations is alike or can be changed, no other touches the API's inbound, outbounds parse and need no custom core, and routing differs in rules and balancers only |
| HotReference.PlanIff | internal/xray/hot_diff.go:103-366 | operations are the plan exactly when they are, once each, those the element-by-element differences of the two configurations ask for |
| HotConfig.SplitSettingsClients | internal/xray/hot_diff.go:209-248 | the loop computes the specified index of clients and the rest of the settings, failing at the first client without an email of its own |
| HotConfig.ClientsByEmail | internal/xray/hot_diff.go:209-248 | clients can be diffed exactly when each has a non-empty email of its own; each is then found under it, and nothing else is |
| HotConfig.InboundsByTag | internal/xray/hot_diff.go:448-461 | the loop computes the specified index, failing at the first empty or repeated tag |
| HotConfig.IndexedIffTagged | internal/xray/hot_diff.go:448-461 | there is an index exactly when every inbound has a non-empty tag of its own |
| HotConfig.ByTagLists | internal/xray/hot_diff.go:448-461 | the index then holds exactly the listed inbounds |
| HotConfig.ParseOutbounds | internal/xray/hot_diff.go:472-503 | the loop computes the specified list, failing at the first element without a tag of its own |
| HotConfig.ParsedIffTagged | internal/xray/hot_diff.go:472-503 | a list parses exactly when every element is a document with a non-empty tag and no tag repeats; order and elements are kept |
| HotConfig.RawEqualIsSameSection | internal/xray/hot_diff.go:408-444 | the normalised comparison is equality of meaning |
| HotCorrect.HotApplyCorrect | internal/xray/hot_diff.go:48-366 | executing any plan of a successful diff on the state of the old configuration never meets a refusal and ends in the state of the new one: inbounds, users, outbounds, default outbound and routing |
| HotCorrect.RemovalsEnabled | internal/xray/hot_diff.go:161-200 | every user removal names a present user of an inbound that survives |
| HotCorrect.AdditionsEnabled | internal/xray/hot_diff.go:161-200 | every user addition names a user absent by then, with the value the new configuration gives it |
| HotCorrect.EmptyDiffMeansSameState | internal/xray/hot_diff.go:34-42 | an empty plan means both configurations describe one runtime state |
| HotCorrect.SelfDiffIsEmpty | internal/xray/hot_diff.go:48-98 | a configuration against itself is accepted exactly when its tags are well formed, and its only plan is empty |
| HotCorrect.ApiInboundUntouched | internal/xray/hot_diff.go:103-155 | no operation names the inbound the panel's API uses |
| HotPartial.BrokenOffPlan | internal/web/service/xray.go:1404-1448 | wherever a plan breaks off on a core that differs from the old configuration only where the plan points, every call up to there succeeds, and the inbound the panel's API uses, like any other the plan does not name, is as it was with its users |
| HotPartial.FirstOpsRun | internal/web/service/xray.go:1404-1448 | a plan that runs without refusal runs so up to any point |
| HotPartial.SoftFirstOpsRun | internal/web/service/xray.go:1404-1497 | so does one that runs with tolerant calls |
| HotDrift.DriftIsRepairedIff | internal/web/service/xray.go:1404-1497 | whatever was done to the core behind the recorded configuration, the tolerant run ends in the state of the new configuration exactly when it was done where the plan points |
| HotDrift.SucceedsIff | internal/web/service/xray.go:1404-1497 | whether a run succeeds does not depend on the order of its operations: the core needs every inbound that is given a client, and a router if routing changes |
| HotDrift.UnnamedIsKept | internal/web/service/xray.go:1404-1497 | the run leaves every inbound, user and outbound the plan does not name as it was, and makes no unnamed outbound the default |
| HotCore.Core.TryHotApply | internal/web/service/xray.go:1369-1451 | on any core: without shared ports, for an applicable change and with a connection, exactly the operations up to the first refusal or failing call take effect, and it succeeds exactly when that is all of them; with nothing to do it succeeds at once; otherwise nothing changes |
| HotCore.AppliedIff | internal/web/service/xray.go:1369-1497 | a hot apply succeeds exactly without shared ports, for a change that fits, with nothing to do or with a connection, no failing call, every inbound that is given a client, and a router if routing changes |
| HotCore.ReachIsFirstRefusal | internal/web/service/xray.go:1404-1448 | the operations that take effect end at the first refusal: every shorter part of a plan succeeds, no longer one |
| HotCore.AppliedRepairs | internal/web/service/xray.go:1369-1497 | on a core edited only where the plans point, it succeeds exactly with nothing to do or with a connection and no failing call, and leaves the state of the new configuration |
| HotCore.Core.Restart | internal/web/service/xray.go:1244-1362 | which of its eight outcomes a restart has, exactly: kept, hot-applied, survived, recovered, replaced, lingering, restored or down, told from the request, the two configurations, the core and what becomes of stops and starts; and what configuration and state each leaves |
| HotCore.RestartsStayInStep | internal/web/service/xray.go:1244-1362 | a restart leaves a core in step in step, unless it survives a failing stop half changed; a core edited where the plans point comes into step, unless it survives or is kept |
| HotCore.SurvivorIsOutOfStep | internal/web/service/xray.go:1291-1325 | any plan that removes a user, broken off after its first call, leaves a core out of step |
| TlsHello.ParseClientHelloSNI | internal/frontmux/classifier.go:150-188 | the record loop computes the specification of handshake reassembly |
| TlsHello.ParseClientHelloBodySNI | internal/frontmux/classifier.go:190-268 | the body walk computes the specification of ClientHello parsing, error by error |
| TlsHello.ParseServerNameExtension | internal/frontmux/classifier.go:270-303 | the list walk computes the specification of the server_name extension |
| TlsHello.RecordsStable | internal/frontmux/classifier.go:150-188 | a verdict other than incomplete never changes with more bytes |
| TlsEncoding.ClientHelloRoundTrip | internal/frontmux/classifier.go:150-303 | a well-formed ClientHello in any fragmentation into records parses to exactly its requested name, and no strict prefix parses to anything |
| TlsEncoding.BodyRoundTrip | internal/frontmux/classifier.go:190-268 | the encoded body parses to exactly the requested name |
| TlsEncoding.FragmentsWait | internal/frontmux/classifier.go:150-188 | cut anywhere before the last byte, the parser waits |
| TlsAcceptance.BodyAcceptedIff | internal/frontmux/classifier.go:190-303 | a body is accepted with a name exactly when it encodes a ClientHello without encrypted_client_hello, with at most one server_name whose host names normalise, that asks for the name |
| TlsAcceptance.AcceptedMeansHello | internal/frontmux/classifier.go:150-188 | a stream is accepted only if its records carry such a ClientHello within the limit |
| TlsAcceptance.EncryptedHelloIsRefused | internal/frontmux/classifier.go:262-263 | extensions with an encrypted_client_hello anywhere are refused |
| Classifier.InspectPrefix | internal/frontmux/classifier.go:83-129 | computes the specification of the inspection of a prefix |
| Classifier.IsPossibleHTTP1Prefix | internal/frontmux/classifier.go:327-345 | the loop computes the specified scan of the method token |
| Classifier.PossibleIffExtendable | internal/frontmux/classifier.go:327-345 | bytes pass exactly when some continuation starts with 3 to 15 capital letters and a space |
| Classifier.AcceptStable | internal/frontmux/classifier.go:83-129 | once a prefix is classified, every extension is classified the same |
| Classifier.RejectStable | internal/frontmux/classifier.go:83-129 | below the inspection limit a rejection is final too, a five-byte TLS header with a bad length apart |
| Classifier.RejectIsFinalIff | internal/frontmux/classifier.go:83-148 | a rejection below the limit is final exactly when it is not such a header in a group with a raw route |
| Classifier.Classify | internal/frontmux/classifier.go:46-81 | for any read schedule: the specified outcome, and the returned buffer is exactly the consumed prefix |
| Classifier.RunReachesVerdict | internal/frontmux/classifier.go:46-81 | every schedule within the limit ends in the verdict on the whole stream |
| Classifier.SchedulesAgreeWithinLimit | internal/frontmux/classifier.go:46-81 | any two schedules of one stream that end within the limit end in the same verdict |
| Classifier.SchedulesAgreeIff | internal/frontmux/classifier.go:46-148 | for every stream and limit: all schedules agree exactly when no inspection below the limit decides, or the stream has no overruled bad header and is below the limit or decided a read buffer before it |
| Classifier.UndecidableRuns | internal/frontmux/classifier.go:46-81 | a stream no inspection decides ends by its length and its ending alone |
| Classifier.EarlyIsNeverExceeded | internal/frontmux/classifier.go:46-81 | a stream decided a read buffer before the limit is never exceeded, however long it goes on |
| Classifier.LongRawStreamDisagrees | internal/frontmux/classifier.go:46-81 | raw traffic longer than a limit of at most 4096 bytes is accepted byte by byte and exceeded by one large read |
| HelloClassification.HelloInspected | internal/frontmux/classifier.go:83-129 | a hello in any fragmentation is undecided up to its last byte and decided, by its name, from there on |
| HelloClassification.HelloNeverMisclassified | internal/frontmux/classifier.go:46-129 | whatever follows a hello and however it is read, the verdict is its name or that the limit was exceeded |
| HelloClassification.HelloClassified | internal/frontmux/classifier.go:46-129 | every schedule classifies by the requested name exactly when all that is sent stays below the limit or the hello ends a read buffer before it |
| PlainClassification.DecidedIff | internal/frontmux/classifier.go:46-81 | a stream that some bytes decide first ends as they decide or at the limit, and as they decide under every schedule exactly when it stays below the limit or they end a read buffer before it |
| PlainClassification.PrefaceInspected | internal/frontmux/classifier.go:98-104 | the HTTP/2 preface with any tail is HTTP/2, and every proper prefix of it waits |
| PlainClassification.PrefaceClassified | internal/frontmux/classifier.go:46-104 | it is HTTP/2 under every schedule exactly when that shows early enough |
| PlainClassification.RequestInspected | internal/frontmux/classifier.go:105-123 | a method, a space and a head up to its first blank line give the selector's host and path, in those places, or its refusal; every proper prefix below the limit waits |
| PlainClassification.RequestClassified | internal/frontmux/classifier.go:46-123 | the same under every schedule exactly when the head ends early enough |
| PlainClassification.RawInspectedIff | internal/frontmux/classifier.go:83-148 | bytes are raw, or refused without a raw route, exactly when no continuation is TLS, the preface or an HTTP/1 method, two bytes after the first of TLS apart |
| PlainClassification.RawClassified | internal/frontmux/classifier.go:46-148 | such traffic is raw, or refused, under every schedule exactly when it shows early enough |
| PlainClassification.ClosedUndecided | internal/frontmux/classifier.go:71-80 | a stream no inspection decides is exceeded at the limit, raw if closed after some bytes with a raw route, and a failed read otherwise |
| PlainClassification.HeaderRefusedIff | internal/frontmux/classifier.go:159-162 | a five-byte TLS header is refused exactly when its length is not between 1 and 18432 |
| Connections.HandleConnection | internal/frontmux/manager.go:227-287 | a backend is connected exactly when classification and selectRoute lead to a route whose backend answers; it is sent the PROXY header and the inspected bytes, as far as it takes them, and copying goes on exactly when it took all; nothing the client sent is lost |
| Connections.OneRouteIff | internal/frontmux/manager.go:239-256 | for any routes and stream: all read schedules lead to one route exactly when they classify alike or the stream as a whole leads nowhere |
| Connections.RouteIsDeterminedIff | internal/frontmux/manager.go:239-256 | for a started group: bytes and routes determine the route, whatever the reads and the listing, exactly under that condition |
| Connections.HelloReachesItsRoute | internal/frontmux/manager.go:239-256 | a TLS client reaches the route that lists its name under every schedule, fragmentation and listing exactly when all it sends stays below the limit or its hello ends a read buffer before it |
| RoutedTraffic.PrefaceReachesItsRoute | internal/frontmux/manager.go:239-256 | in a started group, a client that opens with the HTTP/2 preface reaches the http2-preface route under every schedule and listing, exactly when it shows early enough |
| RoutedTraffic.RequestReachesItsRoute | internal/frontmux/manager.go:239-256 | a request reaches the http1 route that has its path, and its host unless the route has none, likewise |
| RoutedTraffic.RawReachesItsRoute | internal/frontmux/manager.go:239-256 | what can become nothing else reaches the raw-catch-all route, likewise |
| Routes.CanonicaliseAll | internal/frontmux/plan.go:400-453 | the shared loop of the three list normalisers: distinct canonical values, sorted |
| Routes.CollectIsDistinct | internal/frontmux/plan.go:400-453 | the values are pairwise distinct and are exactly the canonical forms that exist |
| Routes.CanonicalIsSorted | internal/frontmux/plan.go:88-98 | canonical routes are the normalised ones, each as often as listed, in the order of their ids |
| Routes.SelectRoute | internal/frontmux/classifier.go:458-522 | the first matching route in the order of ids, no route exactly when none matches, ambiguity exactly when two HTTP routes match |
| RouteValidation.ValidateGroup | internal/frontmux/plan.go:184-275 | accepts exactly groups with a valid header, valid routes, pairwise compatible routes and no repeated HTTP key |
| GroupRules.AcceptedIff | internal/frontmux/plan.go:184-365 | a group is accepted exactly when its header is in range, every canonical route has a loopback backend, one of the fourteen combinations of kind, security and network and the selectors of its kind, and any two routes are apart |
| GroupRules.KeyIsListed | internal/frontmux/plan.go:225-251 | the keys of an HTTP/1 route are its host variants and paths in every combination |
| RouteValidation.ScanRoutes | internal/frontmux/plan.go:207-251 | the loop with its seen-sets accepts exactly valid routes whose claims are pairwise distinct, and counts the raw and HTTP/2 routes |
| RouteValidation.FindHttpOverlap | internal/frontmux/plan.go:252-267 | finds an overlap exactly when two HTTP routes overlap |
| RouteValidation.CompatibleMeansChecked | internal/frontmux/plan.go:184-275 | seen-sets, counters and pair loops together amount to pairwise compatibility |
| RouteValidation.OverlapIsExact | internal/frontmux/plan.go:252-267 | two HTTP routes overlap exactly when some request suits both |
| RouteValidation.AtMostOneMatches | internal/frontmux/classifier.go:458-522 | compatible routes have distinct ids and in any reordering of them at most one matches a selector |
| RouteValidation.ValidatedIsUnambiguous | internal/frontmux/classifier.go:458-522 | for a validated group at most one route matches any classification |
| RouteValidation.OrderOfRoutesIsIrrelevant | internal/frontmux/classifier.go:458-522 | for a validated group the answer does not depend on the order of the routes and is never an ambiguity |
| RunningRoutes.ConflictLasts | internal/frontmux/plan.go:88-106 | two routes that match one name with a canonical form are still in conflict one canonicalisation later |
| RunningRoutes.RunningGroupIsUnambiguous | internal/frontmux/manager.go:76-128 | a group that passed Start answers every connection as under any relisting, and never with an ambiguity unless an HTTP name of the connection has no canonical form |
| RunningRoutes.RelistingChangesNothing | internal/frontmux/plan.go:71-106 | however a group that passed Start lists its routes, selection runs over the same sequence |
| RunningRoutes.NeverAmbiguousIff | internal/frontmux/classifier.go:422-522 | any group, validated or not, is never ambiguous exactly when no two HTTP routes selection runs over overlap |
| RunningRoutes.NeverAmbiguousToRequestsIff | internal/frontmux/classifier.go:347-522 | nor is a running group to any request, whose host was normalised once before, exactly under the same condition |
| RunningRoutes.DottedHostIsAmbiguous | internal/frontmux/plan.go:419-435 | two HTTP routes that share the host "....." pass Start and answer a request with that Host header with an ambiguity |
| RunningRoutes.DotsEscapeValidation | internal/frontmux/plan.go:400-417 | a group passes Start although two of the routes it runs match the name "." |
| AcceptLoops.GlobalLimit | internal/frontmux/manager.go:91-106 | the global capacity is the smaller of the sum of limits and 8192, despite stopping early |
| AcceptLoops.HandlersAreBounded | internal/frontmux/manager.go:165-225 | under every interleaving each group has at most its limit of live handlers, all together at most the global capacity |
| AcceptLoops.LoopsAreSerial | internal/frontmux/manager.go:165-225 | under every interleaving a group's loop deals with one connection at a time |
| AcceptLoops.GlobalSlotIsFree | internal/frontmux/manager.go:198-223 | when the limits sum to at most 8192, a connection with its group slot always finds a global slot |
| AcceptLoops.RejectionReachableIff | internal/frontmux/manager.go:198-223 | a global-capacity rejection can happen exactly when the limits sum to more than 8192 |
| Coordinator.Coordinator.Acquire | internal/iplimit/coordinator.go:118-222 | the transaction with all its error cases equals the specified step on the table |
| Coordinator.Coordinator.Release | internal/iplimit/coordinator.go:226-257 | removes exactly the named row and says whether it was there |
| Coordinator.Coordinator.Snapshot | internal/iplimit/coordinator.go:261-293 | prunes one client and returns its unexpired rows in the order of address and holder |
| Coordinator.Coordinator.PruneExpired | internal/iplimit/coordinator.go:297-306 | removes exactly the expired rows of all clients and counts them |
| Coordinator.Coordinator.ConvergeClientLimit | internal/iplimit/coordinator.go:338-367 | the query and delete equal the specified convergence |
| Coordinator.Coordinator.UpsertHolder | internal/iplimit/coordinator.go:379-402 | inserts or refreshes one row, keeping its creation time |
| Coordinator.SlotsAreStored | internal/iplimit/coordinator.go:154-217 | a decision reports exactly the distinct addresses stored after it, at most the limit; none with limit zero |
| Coordinator.RefusedIffOutranked | internal/iplimit/coordinator.go:154-217 | admission is refused exactly when the limit is spent on active slots that all outrank this address |
| Coordinator.OthersKeepRows | internal/iplimit/coordinator.go:154-217 | admitting one client changes no row of another |
| LeaseTable.OrderIsUnique | internal/iplimit/coordinator.go:338-367 | the order of slots by age and address is determined; any ordered listing is the one used |
| LeaseTable.EvictedIffOutranked | internal/iplimit/coordinator.go:338-367 | an active address is evicted exactly when at least the limit of others outrank it |
| LeaseTable.ConvergeKeepsOldest | internal/iplimit/coordinator.go:338-367 | convergence deletes every holder of an outranked address and changes no other row |
| LeaseTable.ConvergedAges | internal/iplimit/coordinator.go:338-367 | what is left are the oldest slots up to the limit, in order |
| LeaseTable.ConvergeComposes | internal/iplimit/coordinator.go:338-367 | converging to two limits at one instant is converging to the smaller |
| LeaseListing.ListedIsExact | internal/iplimit/coordinator.go:279-291 | a snapshot lists every row of the client once, strictly ascending by address and holder |
| LeaseListing.KeyOrderIsUnique | internal/iplimit/coordinator.go:279-291 | a listing of the rows is the one returned exactly when it is sorted so |
| LeaseRuns.SweepsAreInvisible | internal/iplimit/coordinator.go:295-332 | with a clock that never goes back, dropping every sweep from a run changes no decision and no snapshot |
| LeaseRuns.StepIsolated | internal/iplimit/coordinator.go:118-306 | a call on one client leaves the rows of every other client, a sweep drops only expired ones |
| LeaseRuns.CapHoldsUntilNextAcquire | internal/iplimit/coordinator.go:118-306 | after any admission the stored addresses equal the reported slots, within the limit, and never exceed them until that client's next admission |
| LeaseHistory.CreatedOnArrival | internal/iplimit/coordinator.go:118-402 | over every run, a row's creation time is the time of the admission that began its unbroken stay |
| LeaseHistory.LastsSinceLatestGrant | internal/iplimit/coordinator.go:118-402 | over every run, a row expires the time to live after the latest admission that granted it |
| LeaseHistory.FirstComersStay | internal/iplimit/coordinator.go:338-367 | under a limit, an admission keeps, of the client's other rows, exactly the live ones of addresses with fewer seniors than the limit |
| LeaseHistory.RenewingCallKeepsOrder | internal/iplimit/coordinator.go:379-402 | renewing a lease never changes the order of slots or their ages |
| LeaseHistory.AgesAreEarliest | internal/iplimit/coordinator.go:338-367 | a slot is as old as its oldest live holder |
| LeaseHistory.AnswerIsExact | internal/iplimit/coordinator.go:118-222 | every field of the answer, told from the limit, the live addresses and their seniority |
| LeaseHistory.ErrorsAreExact | internal/iplimit/coordinator.go:118-170 | each refused request gets the error of the first thing wrong with it and changes nothing |
| LeaseHistory.OtherCallsAreExact | internal/iplimit/coordinator.go:226-306 | which rows a release, a snapshot and a sweep remove |
| Presence.Process.constructor | internal/xray/process.go:292-299 | a new process is valid, empty and not exact |
| Presence.Process.RebuildLocalOnline | internal/xray/process.go:519-553 | the cached list is exactly the sorted, duplicate-free union of its sources; true exactly when it changed |
| Presence.Process.RebuildActiveInbounds | internal/xray/process.go:568-590 | the cached tags are exactly the sorted union of both maps |
| Presence.Process.CommitXrayOnlineSnapshot | internal/xray/process.go:618-635 | latches exact mode on the given names, keeps the invariant, stores the raw snapshot; true exactly when the list changed |
| Presence.Process.ReplaceXrayOnlineSnapshot | internal/xray/process.go:605-612 | the same without the raw snapshot |
| Presence.Process.ClearXrayOnlineSnapshot | internal/xray/process.go:639-648 | the same with no names, and the raw snapshot gone |
| Presence.Process.RefreshLegacyXrayOnline | internal/xray/process.go:702-718 | reports traffic to the legacy source unless latched, prunes all, keeps the invariant |
| Presence.Process.RefreshAuxiliaryOnline | internal/xray/process.go:722-736 | reports to the auxiliary source, prunes all, keeps the invariant |
| Presence.Process.PruneLocalPresence | internal/xray/process.go:740-752 | prunes all sources, keeps the invariant |
| Presence.Process.RestoreAuxiliaryPresence | internal/xray/process.go:783-806 | installs the non-empty saved maps, pruned, keeps the invariant |
| Presence.Process.GetOnlineClients | internal/xray/process.go:373-401 | the local list followed by what remote nodes add, nobody twice, on the fast path as well |
| Presence.Process.GetMergedNodeTrees | internal/xray/process.go:423-451 | under each non-empty GUID exactly the emails any node reports for it, each once |
| Presence.NormalizeOnlineEmails | internal/xray/process.go:468-484 | the trimmed non-empty names, sorted, each once |
| Names.TrimTakesSpaces | internal/xray/process.go:468-484 | trimming takes white space off both ends and nothing else |
| Presence.CachesAreDetermined | internal/xray/process.go:519-590 | the cached lists depend on the sources alone, not on the order in which maps yield their keys |
| PresenceState.LatchIsOneWay | internal/xray/process.go:592-601 | exact mode is on exactly when some call committed a snapshot, and stays on |
| PresenceState.LegacyCannotAdd | internal/xray/process.go:702-718 | once latched a traffic report lists nobody who was not listed |
| PresenceState.FreshIff | internal/xray/process.go:498-517 | a sighting counts for less than the grace period, and never without one |
| PresenceState.SourceTrace | internal/xray/process.go:498-517 | a pruned map holds a name exactly when its latest report is younger than the grace at the latest call, with that report's time |
| PresenceState.OnlineTrace | internal/xray/process.go:519-601 | who is listed after any run, told from the reports alone |
| PresenceState.TagsTrace | internal/xray/process.go:555-590 | which inbounds are active after any run, told from the reports alone |
| PresenceRestarts.AuxiliaryIsCarried | internal/xray/process.go:754-806 | after any number of restarts the auxiliary sources are those of one process that lived through all calls |
| PresenceRestarts.OnlineAcrossRestarts | internal/web/service/xray.go:1255-1333 | who is listed after any number of restarts: recent auxiliary reports to whichever process, and what the last process itself was told |
| PresenceRestarts.TagsAcrossRestarts | internal/web/service/xray.go:1255-1333 | the same for inbound activity |
| PresenceRestarts.OnlineRightAfterRestart | internal/xray/process.go:782-806 | right after a restart exactly those are listed whose latest auxiliary report is younger than the grace |
| MtprotoConfig.SecretsFingerprintForgetsOrder | internal/mtproto/manager.go:104-116 | reordering clients never changes the fingerprint |
| MtprotoConfig.SecretsFingerprintIsExact | internal/mtproto/manager.go:104-116 | for separator-free clients equal fingerprints mean equal clients up to order, and conversely |
| MtprotoConfig.BarsCanHideAClient | internal/mtproto/manager.go:104-116 | any two clients share their fingerprint with one client whose name holds a bar |
| MtprotoConfig.EveryListCollides | internal/mtproto/manager.go:104-116 | every list of two clients or more shares its fingerprint with a list of one client fewer |
| MtprotoConfig.StructuralFingerprintIsExact | internal/mtproto/manager.go:82-102 | for separator-free settings it moves exactly when something outside the secrets does, an empty listen address counting as 0.0.0.0 |
| MtprotoManager.Manager.EnsureLocked | internal/mtproto/manager.go:297-349 | equals the specified step, keeps the invariant, leaves no process running unknown |
| MtprotoManager.Manager.Reconcile | internal/mtproto/manager.go:366-386 | equals the specified run: stop the unwanted, then ensure each instance |
| MtprotoManager.Manager.StopAll | internal/mtproto/manager.go:389-397 | nothing stays managed and every managed process is stopped |
| MtprotoManager.Manager.Remove | internal/mtproto/manager.go:352-361 | stops and forgets exactly one inbound |
| MtprotoManager.Manager.WriteBack | internal/mtproto/manager.go:454-458 | replaces the baselines of whatever process is managed under the id by then |
| MtprotoManager.EnsureKeeps | internal/mtproto/manager.go:297-349 | every managed process serves a configuration with the recorded fingerprints, ids have different processes, nothing leaks |
| MtprotoReconcile.EnsureServes | internal/mtproto/manager.go:297-349 | an ensure succeeds exactly when a live process with both fingerprints is managed afterwards |
| MtprotoReconcile.EnsureRecords | internal/mtproto/manager.go:297-349 | after a successful ensure the tag is the new one; a new process has the answered port and token and no baselines, an old one keeps its own |
| MtprotoReconcile.SecretsChangeKeepsProcess | internal/mtproto/manager.go:287-331 | with an unchanged structure a live process is given up exactly when it was asked to take new secrets and did not |
| MtprotoReconcile.ReconcileManagesOnlyDesired | internal/mtproto/manager.go:366-386 | every managed id is desired and no process is left running unknown |
| MtprotoReconcile.ReconcileServes | internal/mtproto/manager.go:366-386 | with distinct ids an instance has a live process with both fingerprints at the end exactly when its ensure succeeded |
| MtprotoReconcile.ReconcileKeepsProcesses | internal/mtproto/manager.go:366-386 | with distinct ids a secrets-only change replaces a process exactly when its live update failed |
| MtprotoReconcile.SettledIsFixed | internal/mtproto/manager.go:366-386 | when all desired are served and nothing else is managed, reconciling changes nothing |
| MtprotoReconcile.ReconcileAgain | internal/mtproto/manager.go:366-386 | repeating a fully successful call with instances and clients in another order starts, stops and changes nothing |
| MtprotoReconcile.ServedIsDesired | internal/mtproto/manager.go:82-116 | for separator-free configurations a process with matching fingerprints serves the desired structure and clients |
| MtprotoTraffic.Scraped | internal/mtproto/manager.go:429-452 | the loop over users, in any order: the new baselines, one record per client credited anything, each connected client once |
| MtprotoTraffic.RecordsAreGrowth | internal/mtproto/manager.go:425-452 | bytes in count as upload, bytes out as download; a record is the growth of both since the baseline, online is who has a connection |
| MtprotoTraffic.EnsureIsLedgerStep | internal/mtproto/manager.go:297-349 | ensuring any instance leaves a client its process and baseline, or gives a new process and no baseline, or neither |
| MtprotoTraffic.CollectionIsLedgerSteps | internal/mtproto/manager.go:402-461 | the three parts of a collection on the manager's state are exactly the steps of a client's ledger |
| MtprotoTraffic.NeverOverReported | internal/mtproto/manager.go:402-461 | over every run of one client's ledger, with processes replaced, forgotten or reset at any point of a collection, credits never exceed what was moved |
| MtprotoTraffic.NothingIsLost | internal/mtproto/manager.go:402-461 | while a client stays listed and its counters only grow, what it moved is credited or outstanding, to the byte |
| MtprotoTraffic.CountersFollowTraffic | internal/mtproto/manager.go:402-461 | over such a run a client's counters grow by exactly what it moves |
| MtprotoRuns.ActionIsLedgerRun | internal/mtproto/manager.go:366-461 | whatever the manager, a process or a collection does is, for every client, a run of its ledger |
| MtprotoRuns.ScrapeCredits | internal/mtproto/manager.go:429-452 | the records of a scrape add up to each client's credit, once |
| MtprotoRuns.RecordsNeverExceedTraffic | internal/mtproto/manager.go:366-461 | over every run of reconciliations, removals, crashes, resets, transfers and interleaved collections, the records of a client add up to no more than it moved |
| MtprotoRuns.RecordsAccountForTraffic | internal/mtproto/manager.go:366-461 | over every run in which a client keeps its process, its counters and its place in the statistics, its records and what is outstanding account for its traffic to the byte, through reconciliations, removals of others, collections and whatever other clients do |
| MtprotoRuns.RecordsTelescope | internal/mtproto/manager.go:402-461 | over such a run of any number of collections the records add up to the growth of the client's baseline |
| MtprotoRuns.ReconcilingIsGentle | internal/mtproto/manager.go:366-386 | a reconciliation leaves a client its process when its inbound runs with its structure unchanged, unless it was asked to take new secrets and did not |
| MtprotoRuns.ReconcileKeepsLedger | internal/mtproto/manager.go:297-386 | a reconciliation that leaves an inbound its process changes nothing in its clients' accounts |
| XrayStats.XrayAPI.GetTraffic | internal/xray/api.go:693-743 | a failed query changes nothing; otherwise the specified traffic, and the baselines absorbed and pruned |
| XrayStats.ClientGetsItsGrowth | internal/xray/api.go:712-728 | a client is reported exactly the growth of its statistic, wherever it stands in the response |
| XrayStats.TagGetsItsGrowth | internal/xray/api.go:802-826 | the record holds exactly the growth of an inbound or outbound other than api, if no other statistic shares its tag and direction; it is booked to it, if no statistic of the other kind has its tag |
| XrayStats.SharedTagOverwrites | internal/xray/api.go:802-826 | an inbound and an outbound of one name, grown by 5 and by 7, are reported as 7 |
| XrayStats.SharedTagMislabels | internal/xray/api.go:802-826 | an inbound uplink grown by 5 and an outbound downlink of one name grown by 7 make one inbound record of both; the outbound is booked nothing |
| XrayStats.AllBookedIffOwnRecords | internal/xray/api.go:802-826 | for distinct names, every inbound and outbound but api is booked its growth, and nothing in a direction without a statistic, for all baselines and values exactly when any two names of one tag are of one kind and of different directions |
| XrayStats.ApiIsNotReported | internal/xray/api.go:807-809 | traffic of the api tag is never reported |
| XrayStats.PrunedNames | internal/xray/api.go:730-740 | up to twice the response nothing is dropped; beyond, exactly what the response does not hold |
| XrayStats.PruningIsInvisible | internal/xray/api.go:730-740 | pruning changes no credit of a statistic present in every response |
| XrayStats.PruningOnlyForgets | internal/xray/api.go:730-740 | for any other statistic pruning never credits more |
| XrayStats.PrunedIsSmall | internal/xray/api.go:730-740 | after a response the map holds at most twice as many baselines as the response has statistics |
| XrayStats.CreditsTelescope | internal/xray/api.go:712-728 | the credits of an always present, non-decreasing statistic sum to last value minus first baseline |
| XrayStats.NeverOverCredited | internal/xray/api.go:712-740 | with statistics missing, restarted or pruned, credits never exceed what really passed |
| Jalali.GregorianToJalali | internal/sub/remark_vars.go:382-423 | the month walk in either direction lands exactly as many days from 1402-10-11 as the day numbers differ |
| Jalali.ToJalali | internal/sub/remark_vars.go:382-423 | the result is a valid Jalali date |
| Jalali.JdnCountsDays | internal/sub/remark_vars.go:383-390 | consecutive Gregorian days, over month ends and the 4, 100 and 400 year rules, have consecutive day numbers |
| Jalali.ConsecutiveDays | internal/sub/remark_vars.go:382-446 | consecutive Gregorian days are consecutive Jalali days |
| Jalali.ConversionIsDetermined | internal/sub/remark_vars.go:382-446 | 2024-01-01 as 1402-10-11 and consecutive days determine the conversion of every valid Gregorian date, and it is this one |
| Jalali.ConversionIff | internal/sub/remark_vars.go:382-446 | a day converts to a valid Jalali date exactly when it is as many days after day 1948320 as that date is after 1-01-01, eight leap years in thirty-three spread evenly |
| Jalali.NewYears | internal/sub/remark_vars.go:438-446 | New Year's days around the leap years 1375, 1379, 1399 and 1403 |
| Jalali.CycleLength | internal/sub/remark_vars.go:438-446 | any thirty-three years have 12053 days |
| Jalali.OrderIsKept | internal/sub/remark_vars.go:382-446 | a later day converts to a later date |
| SessionRoom.SessionRoomLargeEnough | internal/profilevalidation/transport.go:327-352 | decides the exact unbounded sum against 2^31, despite saturation, the early exit at 31 and the capped range |
| SessionRoom.SaturatedPow | internal/profilevalidation/transport.go:354-363 | for every base, exponent and limit: the power, or the limit once the power before it reaches the divided limit |
| SessionRoom.SaturationIsExact | internal/profilevalidation/transport.go:354-363 | for alphabets of 2 to 256 symbols and 2^31 it is the exact power, capped |
| SessionRoom.SaturationCanBeEarly | internal/profilevalidation/transport.go:354-363 | 3 to the power 2 under a limit of 10 is reported as 10 |
| SessionRoom.SaturationIsEarlyIff | internal/profilevalidation/transport.go:354-363 | for every base, exponent and limit: a power below the limit is reported as the limit exactly when it is the limit less its non-zero remainder by the base |
| SessionRoom.GuardIsExact | internal/profilevalidation/transport.go:354-363 | the truncating division in the guard never saturates a power below 2^31, for alphabets of 2 to 256 symbols |
| SessionRoom.SessionAlphabetSize | internal/profilevalidation/transport.go:365-378 | the size of a named table, else the number of distinct bytes, at most 256 |
| SessionRoom.PredefinedSizes | internal/profilevalidation/transport.go:366-372 | the nine named tables and their sizes, and no other |
| ProxyNames.EnsureUniqueProxyNames | internal/sub/clash_service.go:117-138 | all names non-empty; distinct exactly when no entry is aliased, and then the specified names |
| ProxyNames.NamesAreUnique | internal/sub/clash_service.go:117-138 | the names are pairwise distinct, each made from its base against the names before it |
| ProxyNames.UniqueNameIsLeast | internal/sub/clash_service.go:117-138 | a name is its base, or its base with the smallest free suffix from 2 on |
| ProxyNames.FallbackNames | internal/sub/clash_service.go:128-147 | type, server and port, or the place from 1 on; suffixes follow a hyphen |
| ProxyNames.TakenIsBounded | internal/sub/clash_service.go:117-138 | taken candidates use up different seen names, so the search ends |
| ProxyNames.FreeName | internal/sub/clash_service.go:128-134 | the inner loop ends on the specified name |

## Left out

- HotDiff.ComputeHotDiff: the shared-port plan is not part of the diff (the caller checks it first), and added inbounds are planned as inbound values, not as their marshalled bytes.
- HotCore.Core.Restart: the shared-port listeners themselves (their failures count as failing stops and starts), a configuration that cannot be built, and the pending flag afterwards.
- HotConfig.ParseOutbounds: error texts.
- Connections.HandleConnection: deadlines, copying in both directions and half-closing; dialling is a parameter that says who answers and how many bytes it takes.
- Classifier.InspectPrefix: parsing of a complete HTTP/1 header (`parseHTTP1Selector`) is a parameter.
- Plan-level checks across groups (`Plan.Validate`, `Plan.Equal`, `listenersOverlap`) repeat the pairwise pattern of a group over IP libraries.
- AcceptLoops.HandlersAreBounded: shutdown; a backend tracked after the close sweep can outlive `Manager.Stop`, so no liveness is claimed.
- Coordinator.Coordinator.Acquire: SQL failures, a missing database handle, and error texts.
- LeaseRuns.SweepsAreInvisible: the flag of `Release` that says whether a row was removed, which a sweep can change.
- Presence.Process.CommitXrayOnlineSnapshot: cloning of the raw snapshot and the age check of cached snapshots.
- MtprotoManager.Manager.EnsureLocked: the text of the generated configuration file, its removal, and the one-time sweep of processes from a previous run.
- MtprotoRuns.RecordsNeverExceedTraffic: two collections at a time, which would both credit one growth.
- XrayStats.XrayAPI.GetTraffic: the records are maps here, where the code returns their values in any order.
- Jalali.GregorianToJalali: 64-bit overflow, far outside the dates a panel shows.
- Frontend, templates, controllers, database migrations, token cryptography, share-link and Clash field mapping: long lists of independent cases or plumbing.
