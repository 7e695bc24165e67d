# Skipper, modelled and verified in Dafny

Skipper is an HTTP router and reverse proxy. This project models the parts of it whose correctness
is hardest to see from the code, and proves what they promise for every input, run or interleaving.

- **Path tree** (`PathPattern`, `PathTree`, `PathTreeMeaning`, `PathTreeSearch`, `PathTreeRuns`,
  `PathNode`). Insertion with node splitting and priority reordering, and lookup with backtracking.
  `PathTree` is the tree as a value. `PathNode` has the linked nodes that are updated in place and
  refines it. The tree denotes a map from patterns to values, and a lookup returns the best eligible
  pattern of that map.
- **eskip** (`EskipEscape`, `EskipLexer`, `EskipLiterals`, `EskipGrammar`, `EskipPrinter`). Escaping,
  scanning, the filter productions, and printing. Printing a filter chain and parsing it again is the
  identity.
- **Load balancing** (`WeightedRoundRobin`, `RoundRobinFairness`, `ConsistentHash`, `RingRebuild`).
  Smooth weighted round robin is fair. The hash ring picks the closest available endpoint, within a
  load bound, and skipping endpoints is the same as building the ring without them.
- **Queue listener** (`ConnRing`, `ListenerModel`, `QueueListener`). The last-in-first-out connection
  queue and the select loop around it. `ListenerModel` is the loop as a state machine over its
  events; the class in `QueueListener` handles each event on the ring and refines it.
- **Circuit breaker window** (`BinarySampler`). The bit-packed window of the latest events.
- **Cluster rate limit** (`SlidingWindow`, `InterleavedLimiter`, `TimedLimiter`). The sliding window on a
  sorted set, one caller at a time and with any number of interleaved callers: the exact bounds on the
  size of the set and on the rate.
- **Valkey shard table** (`SortedStrings`, `ShardTable`, `ShardStart`, `ShardRuns`, `ValkeyRing`). The
  slot table rebuilt from the shard addresses, as a value with its runs, and as a class that fills the
  table in place.
- **Path patching** (`PatchPath`). The walk over the raw and the parsed path that restores escapes.

Shared helpers are `Options` and `Circular`.

Characters stand for bytes. The query-unescaping of captured segments and the ring hash are
function parameters, as are matchers. Clock readings, random offsets, failing addresses and the order
of events are parameters of the members they affect. Weights, loads and factors are real numbers.
The value of a leaf is set at the end of the same recursion that walks the tree.

Where the code does not do what its documentation says, the model follows the code:

- A window size that is a multiple of 64 never forgets an event (`BinarySampler.CountIsWindowCount`,
  `BinarySampler.MultipleOf64NeverForgets`).
- A refused path definition with a catch-all before its end leaves a node behind that a lookup can
  answer with, until a call is accepted there (`PathTreeRuns.RunLookup`,
  `PathTreeRuns.DanglingCatchAllAnswers`).
- A printed regular expression that is empty, has control characters or leaves a bracket group open is
  not read back (`EskipLiterals.RegexpRoundTrip`, `EskipLiterals.NotReadBack`).
- An address update that fails half way can make the next one return early with a stale table
  (`ShardRuns.RunIsCanonicalExactly`, `ShardTable.FailedUpdateLeavesStaleTable`).
- A start with repeated addresses can give another table than their set
  (`ShardStart.StartIsCanonicalExactly`, `ShardTable.RepeatedStartIsNotCanonical`).
- A call that creates clients for the same address twice loses all but the last: the others are never
  closed. This happens at a start and in an update, also in one that fails
  (`ShardRuns.NoneIsLost`, `ShardRuns.RepeatedStartLosesClient`, `ShardRuns.RepeatedAddressLosesClient`,
  `ShardRuns.FailedUpdateLosesClient`). A start that fails gives up the clients it had created
  (`ShardRuns.StartLoses`).
- A parsed path that differs from the raw one only at escapes of other than reserved characters is
  still patched (`PatchPath.OtherPathIsKept`, `PatchPath.OtherEscapeIsNotCompared`).

`dafny verify dfyconfig.toml` checks the project.

## Model

| member | source | states |
|---|---|---|
| `PathPattern.SlashIndex` | pathmux/tree.go:76-76 | the first `/`, or the length when there is none |
| `PathPattern.PrecedenceIsTotal` | pathmux/tree.go:189-272 | of two different patterns that match the same path exactly one takes precedence, so there is at most one best pattern |
| `PathPattern.PrecedenceIsTransitive` | pathmux/tree.go:189-272 | precedence at the first differing token (static over single wildcard over catch-all) is transitive |
| `PathPattern.CompileSuffix` | pathmux/tree.go:118-146 | cutting a path definition inside its first static token cuts its pattern at the same place |
| `PathTree.Find` | pathmux/tree.go:124-125 | the position of a byte in the child indices, or their length exactly when it is absent |
| `PathTree.CommonPrefixLen` | pathmux/tree.go:181-187 | the length of the longest common prefix: equal up to there and different after it |
| `PathTree.SplitCommonPrefix` | pathmux/tree.go:149-179 | the node returned covers exactly the shared prefix and keeps the priority |
| `PathTree.SplitKeepsShape` | pathmux/tree.go:149-179 | splitting a static node keeps the structural invariant |
| `PathTree.Slot` | pathmux/tree.go:61-67 | where bubbling stops: everything passed has a smaller priority, the next one does not |
| `PathTree.RotateKeepsPriority` | pathmux/tree.go:61-67 | siblings stay sorted by non-increasing priority when one gains priority and bubbles up |
| `PathTree.RotateKeepsInStep` | pathmux/tree.go:61-67 | indices and children move together, and first bytes stay distinct |
| `PathTree.ReorderKeepsShape` | pathmux/tree.go:124-133 | raising, moving and updating a child keeps the structural invariant and introduces no new first byte |
| `PathTree.AppendKeepsShape` | pathmux/tree.go:135-145 | a new last child keeps the structural invariant |
| `PathTree.AddCatchAll` | pathmux/tree.go:92-109 | adding a catch-all keeps the invariant, also when it is refused |
| `PathTree.AddPath` | pathmux/tree.go:69-147 | every insertion, accepted or refused, keeps the invariant: distinct first bytes in step with the children, priorities in order, wildcards and catch-alls only below the root and `/` nodes |
| `PathTree.AddStatic` | pathmux/tree.go:118-146 | the same for the static branch, through split, raise and reorder |
| `PathTree.Add` | pathmux/tree.go:282-290 | an insertion at the root keeps the invariant |
| `PathTreeMeaning.ReorderReach` | pathmux/tree.go:61-67 | reordering children changes what a pattern reaches only below the updated child |
| `PathTreeMeaning.AppendReach` | pathmux/tree.go:135-145 | a new child changes only the patterns that start with its first byte |
| `PathTreeMeaning.SplitInto` | pathmux/tree.go:149-179 | splitting a node changes neither the value stored for any pattern nor any catch-all node |
| `PathTreeMeaning.AddCatchAllUpdates` | pathmux/tree.go:92-109 | an accepted catch-all is one map update, a refused one changes no stored value |
| `PathTreeMeaning.WildcardUpdates` | pathmux/tree.go:110-116 | an insertion below the wildcard child is the update of the pattern with the wildcard in front |
| `PathTreeMeaning.AddStaticUpdates` | pathmux/tree.go:118-146 | the static branch is one map update whatever nodes it splits or moves |
| `PathTreeMeaning.AddPathUpdates` | pathmux/tree.go:69-147 | for every pattern: after an accepted insertion the inserted pattern has the new value and every other pattern its old one; a refused insertion changes none |
| `PathTreeSearch.StaticCandidate` | pathmux/tree.go:206-218 | a stored pattern that starts with a static byte can match only through the one child with that byte |
| `PathTreeSearch.StaticAnswers` | pathmux/tree.go:206-222 | the best candidate below the matching static child is the best of the whole node, with the same captures |
| `PathTreeSearch.WildAnswers` | pathmux/tree.go:224-251 | without a static candidate the best one below the wildcard child is the best, with its segment captured last |
| `PathTreeSearch.RestAnswers` | pathmux/tree.go:253-269 | without static and wildcard candidates the catch-all is the only one |
| `PathTreeSearch.SearchIsBest` | pathmux/tree.go:189-272 | for every well-shaped tree whose catch-alls carry values, every path and every matcher: the search returns the best stored pattern that matches and is accepted, with its captures last to first, and nothing exactly when there is none |
| `PathTreeRuns.AddPathSucceeds` | pathmux/tree.go:69-147 | an insertion is accepted if and only if the definition is well formed and repeats the name of the catch-all already at its position |
| `PathTreeRuns.AddPathNodes` | pathmux/tree.go:69-147 | after any insertion, accepted or refused, into any tree, there are exactly the catch-all nodes of before and the one it asked for |
| `PathTreeRuns.RunDenotesMap` | pathmux/tree.go:282-290 | after every sequence of calls the tree denotes the map built by one update per accepted call |
| `PathTreeRuns.NodesOfRun` | pathmux/tree.go:282-290 | after every sequence of calls, a catch-all node is there if and only if its pattern is stored or some call was refused at it with more segments after it |
| `PathTreeRuns.SettledIsFilled` | pathmux/tree.go:282-290 | after every sequence of calls, every catch-all node has a value if and only if every pattern at which a call was so refused is stored |
| `PathTreeRuns.AcceptedRunIsSettled` | pathmux/tree.go:282-290 | calls that were all accepted meet that condition |
| `PathTreeRuns.UnfilledHit` | pathmux/tree.go:253-269 | in every tree with a catch-all node without a value some path is answered with the missing value |
| `PathTreeRuns.RunLookup` | pathmux/tree.go:304-315 | after every sequence of calls, accepted or refused: lookups for all paths and matchers answer from the map (the pattern that matches, is accepted and takes precedence over all others that do, with its value and captures, or nothing exactly when there is none) if and only if every pattern at which a call was refused with more segments after its catch-all is stored |
| `PathTreeRuns.DanglingCatchAllAnswers` | pathmux/tree.go:92-109 | a refused `/*a/b` leaves a catch-all node that a later lookup reports with no value |
| `PathNode.Node.SortStaticChild` | pathmux/tree.go:61-67 | the in-place exchange loop moves the child and its index to the slot that its priority gives |
| `PathNode.Node.SplitCommonPrefix` | pathmux/tree.go:149-179 | the node in place becomes, or gets above it, the node that covers the shared prefix |
| `PathNode.Node.MakeRoom` | pathmux/tree.go:124-133 | split, raise and reorder in place, as one step on the tree value |
| `PathNode.Node.AddToStatic` | pathmux/tree.go:124-133 | refines the static branch with an existing child |
| `PathNode.Node.AddNewStatic` | pathmux/tree.go:135-145 | refines the static branch with a new child |
| `PathNode.Node.AddToWildcard` | pathmux/tree.go:110-116 | refines the wildcard branch |
| `PathNode.Node.AddToCatchAll` | pathmux/tree.go:92-109 | refines the catch-all branch, refusals included |
| `PathNode.Node.AddPath` | pathmux/tree.go:69-147 | the linked nodes, updated in place, stay disjoint subtrees and take on exactly the tree value after the insertion |
| `PathNode.Node.Search` | pathmux/tree.go:189-272 | the recursion over linked nodes returns what the search over the tree value returns |
| `PathNode.FindIndex` | pathmux/tree.go:124-125 | the loop finds the first position of a byte |
| `PathNode.CommonPrefix` | pathmux/tree.go:181-187 | the loop computes the longest common prefix |
| `PathNode.Mux.constructor` | pathmux/tree.go:58-59 | an empty tree, no calls |
| `PathNode.Mux.Add` | pathmux/tree.go:282-290 | the tree is the one of the sequence of calls so far, and the result says whether this one was accepted |
| `PathNode.Mux.LookupMatcher` | pathmux/tree.go:304-315 | a lookup in the tree of the calls so far, to which RunLookup applies |
| `EskipEscape.ReplacedByte` | eskip/string.go:17-32 | the chain of replacements turns one byte into its escape |
| `EskipEscape.ReplacedIsOnePass` | eskip/string.go:17-32 | the chain of ReplaceAll calls is a one-pass map over the bytes, for delimiters that later replacements cannot hit |
| `EskipEscape.ReplaceControl` | eskip/string.go:19-25 | one line of the chain |
| `EskipEscape.Escape` | eskip/string.go:17-32 | the step-by-step reassignment computes the chain, and the one-pass map |
| `EskipLexer.Span` | eskip/lexer.go:83-90 | the longest prefix of bytes that satisfy a predicate |
| `EskipLexer.ScanWhile` | eskip/lexer.go:83-90 | the loop splits the text at that prefix |
| `EskipLexer.ScanWhitespace` | eskip/lexer.go:234-244 | the loop skips exactly the leading white space |
| `EskipLexer.ReadVerbatim` | eskip/lexer.go:98-107 | text without delimiter and backslash is read as it stands: the fast path is the slow path |
| `EskipLexer.ScanEscaped` | eskip/lexer.go:97-152 | the fast path and the byte-by-byte loop both return the unescaped text up to the first unescaped delimiter, and the rest from there |
| `EskipLexer.ScanRegexp` | eskip/lexer.go:154-190 | the loop with its escape and group flags returns the text up to the first slash outside a bracket group |
| `EskipLexer.NumberSpanIsLongest` | eskip/lexer.go:251-279 | a number is the longest run of digits with at most one decimal point |
| `EskipLexer.ScanNumber` | eskip/lexer.go:251-279 | the loop with its decimal flag finds that run, after an optional sign, and refuses a trailing point |
| `EskipLexer.ScanTokenAdvances` | eskip/lexer.go:294-345 | a token or comment is never empty, so lexing ends |
| `EskipLexer.NextToken` | eskip/lexer.go:347-368 | a token leaves less text, and comments are never returned |
| `EskipLexer.Lexer.constructor` | eskip/lexer.go:16-26 | the lexer starts with the whole text |
| `EskipLexer.Lexer.Next` | eskip/lexer.go:347-368 | updating the lexer yields the next token, white space and comments skipped, and leaves exactly the rest |
| `EskipLexer.Lexer.ScanAt` | eskip/lexer.go:294-345 | the dispatch over the first bytes finds the token the text starts with |
| `EskipLiterals.ReadEscapedByte` | eskip/lexer.go:97-152 | scanning undoes the escaping of one byte |
| `EskipLiterals.StringRoundTrip` | eskip/lexer.go:97-152 | scanning the escaped text, a delimiter and anything else returns the text and stops at the delimiter, for every byte string |
| `EskipLiterals.StringTokenRoundTrip` | eskip/lexer.go:221-232 | a quoted text is one string token with the original value, for both delimiters |
| `EskipLiterals.ReadRegexpText` | eskip/lexer.go:154-190 | what scanning makes of an escaped text: control characters stay two bytes, and brackets carry over |
| `EskipLiterals.RegexpRoundTrip` | eskip/lexer.go:192-219 | a printed regular expression is scanned back to itself and the rest if and only if it is not empty, has no escaped control character and its bracket state ends closed |
| `EskipLiterals.NotReadBack` | eskip/lexer.go:192-219 | an empty expression, a newline and an open bracket are not read back |
| `EskipGrammar.StepExplains` | eskip/parser.go:664-716 | one token keeps the parser state explained by the productions |
| `EskipGrammar.FeedFilters` | eskip/parser.go:664-716 | a derivable chain takes the parser to the end of that chain |
| `EskipGrammar.ParseIsDerivation` | eskip/parser.go:664-716 | the parser returns a filter chain if and only if the productions derive the tokens with that chain |
| `EskipGrammar.ParseTokens` | eskip/parser.go:664-716 | the loop over the tokens returns that chain, or nothing when there is none |
| `EskipPrinter.Quote` | eskip/string.go:38-45 | a quoted, escaped argument |
| `EskipPrinter.ArgsString` | eskip/string.go:47-80 | the appending loop prints the arguments joined by commas |
| `EskipPrinter.FilterString` | eskip/string.go:134-143 | the appending loop prints the filters joined by arrows, also indented |
| `EskipPrinter.TokensObeysLaws` | eskip/lexer.go:347-368 | lexing goes token by token through symbols, parentheses, commas, quoted strings and separators |
| `EskipPrinter.LexesChain` | eskip/string.go:134-143 | the printed chain lexes to exactly the tokens of its filters |
| `EskipPrinter.PrintedTokens` | eskip/string.go:134-143 | for the lexer of this project the printed chain lexes to exactly the tokens of its filters |
| `EskipPrinter.FeedsChain` | eskip/parser.go:664-716 | these tokens parse to the chain |
| `EskipPrinter.ParseFilterText` | eskip/eskip.go:712-727 | lexing in a loop and parsing a text |
| `EskipPrinter.FilterChainRoundTrip` | eskip/eskip.go:780-787 | printing, lexing and parsing is the identity on every chain with symbol names and arbitrary string arguments, plain or indented |
| `EskipPrinter.PrintingIsInjective` | eskip/string.go:134-143 | two such chains never print alike |
| `WeightedRoundRobin.LeaderLeads` | loadbalancer/algorithm.go:312-328 | the pick is the first endpoint with the highest running weight |
| `WeightedRoundRobin.RaisedIs` | loadbalancer/algorithm.go:316-328 | a call raises a host by its total weight and no other |
| `WeightedRoundRobin.OrderDoesNotMatter` | loadbalancer/algorithm.go:315-328 | the random offset changes the pick among ties but not the raised weights |
| `WeightedRoundRobin.CallKeepsSum` | loadbalancer/algorithm.go:303-332 | a call keeps the sum of all accumulators, for every set of endpoints and weights |
| `WeightedRoundRobin.HistorySumsToZero` | loadbalancer/algorithm.go:303-332 | over every sequence of calls from the empty state, with endpoints and weights changing from call to call, the accumulators sum to zero |
| `WeightedRoundRobin.LeaderIsHighest` | loadbalancer/algorithm.go:312-328 | with distinct hosts no raised accumulator is above the picked one |
| `WeightedRoundRobin.Algorithm.constructor` | loadbalancer/algorithm.go:289-294 | no accumulators and no calls yet |
| `WeightedRoundRobin.Algorithm.RaiseAll` | loadbalancer/algorithm.go:312-328 | the loop from the offset raises every accumulator and notes the highest |
| `WeightedRoundRobin.Algorithm.Apply` | loadbalancer/algorithm.go:303-332 | appends to the history of calls a pick with the highest accumulator among distinct hosts, the first from the offset; the accumulators are those of the history and sum to zero |
| `RoundRobinFairness.AccumulatorIsBalance` | loadbalancer/algorithm.go:303-332 | over every run an accumulator is the weight received less the totals paid |
| `RoundRobinFairness.BalancesSumToZero` | loadbalancer/algorithm.go:303-332 | these balances sum to zero over every sequence of picks |
| `RoundRobinFairness.AccumulatorsStayAbove` | loadbalancer/algorithm.go:303-332 | no accumulator falls to minus the total weight |
| `RoundRobinFairness.FairShare` | loadbalancer/algorithm.go:303-332 | after t calls with total weight W an endpoint of weight w was picked fewer than t*w/W + 1 times, and at least t*w/W - (n - 1) times, however ties are broken |
| `RoundRobinFairness.FullPeriod` | loadbalancer/algorithm.go:303-332 | with integer weights the first W calls pick every endpoint exactly as often as its weight, and all accumulators are zero again |
| `RoundRobinFairness.PeriodRestarts` | loadbalancer/algorithm.go:303-332 | so the next period starts as the first did |
| `RoundRobinFairness.HistoryIsFair` | loadbalancer/algorithm.go:303-332 | with at least two distinct hosts of unchanging positive weight, the picks of the algorithm from its empty state are a fair run that leads to its accumulators |
| `RoundRobinFairness.CallsAreFair` | loadbalancer/algorithm.go:303-332 | so after any number of its calls every endpoint was picked within those bounds |
| `RoundRobinFairness.CallsCompletePeriod` | loadbalancer/algorithm.go:303-332 | and with integer weights its first W calls pick every endpoint exactly as often as its weight and leave its accumulators at zero |
| `Circular.WrapIsModulo` | loadbalancer/algorithm.go:167-167 | stepping with wrap-around is the index modulo the length |
| `Circular.Advance` | loadbalancer/algorithm.go:166-168 | one step forward, past the end to the start |
| `ConsistentHash.Sort` | loadbalancer/algorithm.go:121-137 | sorted by hash, with the same entries |
| `ConsistentHash.FillRow` | loadbalancer/algorithm.go:131-136 | the inner loop writes the row of an endpoint and nothing else |
| `ConsistentHash.Ring.constructor` | loadbalancer/algorithm.go:127-139 | the ring is the sorted sequence of all entries |
| `ConsistentHash.Ring.FirstNotBelow` | loadbalancer/algorithm.go:161-162 | binary search finds the first entry not below the key |
| `ConsistentHash.SkipEndpoint` | loadbalancer/algorithm.go:149-157 | whether no available endpoint has the host |
| `ConsistentHash.Ring.SkipUnavailable` | loadbalancer/algorithm.go:166-169 | the loop ends on the first available entry clockwise |
| `ConsistentHash.WalkIsClockwise` | loadbalancer/algorithm.go:160-170 | steps along the sorted ring go clockwise from the key |
| `ConsistentHash.FirstIsClosest` | loadbalancer/algorithm.go:160-170 | the first good entry of the walk is the closest good one |
| `ConsistentHash.Ring.SearchRing` | loadbalancer/algorithm.go:160-170 | the entry closest clockwise to the key among the available ones, for every ring with an available entry |
| `ConsistentHash.ComputeLoadAverage` | loadbalancer/algorithm.go:178-185 | the loop computes the average of the available loads with one more request |
| `ConsistentHash.SomeLoadIsAtMostAverage` | loadbalancer/algorithm.go:178-185 | pigeonhole: some available endpoint has at most the average load |
| `ConsistentHash.LightEntryExists` | loadbalancer/algorithm.go:201-205 | with a factor of at least 1, on a ring that covers the route, some entry is available and within the target load |
| `ConsistentHash.Ring.SkipLoaded` | loadbalancer/algorithm.go:194-207 | the loop of at most one round ends on the first entry within the target load, or where it began when there is none |
| `ConsistentHash.BoundedIsChosen` | loadbalancer/algorithm.go:189-210 | the first light entry after the first available one is the closest light entry to the key |
| `ConsistentHash.Ring.BoundedLoadSearch` | loadbalancer/algorithm.go:189-210 | for every factor the search ends on the closest entry within the target load, or on the closest available one when there is none; with a factor of at least 1 the load is within the target |
| `ConsistentHash.CoveredIsUsable` | loadbalancer/algorithm.go:149-157 | a ring that covers the route has an entry of an available endpoint, so the searches end |
| `ConsistentHash.Ring.Apply` | loadbalancer/algorithm.go:213-239 | a single endpoint as it is, else the closest available one within the load bound that applies; it is one of the available endpoints when hosts are distinct |
| `RingRebuild.RingHolds` | loadbalancer/algorithm.go:121-139 | the ring holds exactly the hashed labels of the endpoints |
| `RingRebuild.RingCovers` | loadbalancer/algorithm.go:121-139 | a ring with at least one entry per endpoint covers the route |
| `RingRebuild.ClosestIsUnique` | loadbalancer/algorithm.go:160-176 | with distinct hashes there is one closest entry |
| `RingRebuild.SkippingIsRebuilding` | loadbalancer/algorithm.go:160-176 | skipping unavailable endpoints on the full ring picks the endpoint that a ring built without them picks, for every selection of endpoints and every key |
| `RingRebuild.KeyStaysPut` | loadbalancer/algorithm.go:160-176 | a key whose endpoint stays available does not move when others leave |
| `ConnRing.Ring.constructor` | queuelistener/ring.go:11-13 | an empty ring of the given capacity |
| `ConnRing.Ring.Peek` | queuelistener/ring.go:15-22 | the newest element, if any |
| `ConnRing.Ring.PeekOldest` | queuelistener/ring.go:24-31 | the oldest element, if any |
| `ConnRing.Ring.Enqueue` | queuelistener/ring.go:33-47 | appends, and gives up the oldest element exactly when the ring is full |
| `ConnRing.Ring.Dequeue` | queuelistener/ring.go:49-59 | removes the newest element and keeps the rest in order |
| `ConnRing.Ring.DequeueOldest` | queuelistener/ring.go:61-71 | removes the oldest element and keeps the rest in order |
| `ConnRing.Ring.RangeOver` | queuelistener/ring.go:73-93 | visits every element once from oldest to newest, across the wrap |
| `ListenerModel.MaxConcurrency` | queuelistener/listener.go:116-130 | at least 1, and within the memory limit when calculated and above 1 |
| `ListenerModel.MaxQueueSize` | queuelistener/listener.go:132-143 | at least 1, and at most the calculated maximum when not set |
| `ListenerModel.StepKeepsInv` | queuelistener/listener.go:278-377 | every event keeps the invariant: concurrency counts what is handed out and stays within its limit, queue and deadlines are ordered by arrival, every connection is in one place |
| `ListenerModel.RunsKeepInv` | queuelistener/listener.go:278-377 | so does every run from the start |
| `ListenerModel.ConcurrencyIsConserved` | queuelistener/listener.go:278-377 | over every run concurrency is the number of accepted connections less the returned tokens, between 0 and the maximum |
| `ListenerModel.NewestIsHandedOut` | queuelistener/listener.go:291-302 | over every run Accept hands out one connection, and none that waits arrived later |
| `ListenerModel.ErrorComesLast` | queuelistener/listener.go:291-302 | when a permanent error can be delivered, every connection that arrived was handed out or dropped, and none can arrive any more |
| `ListenerModel.FateIsFinal` | queuelistener/listener.go:278-377 | nothing returns to the queue, and released and dropped connections stay so |
| `ListenerModel.ExpiredIsPrefix` | queuelistener/listener.go:349-360 | with ordered deadlines the expired connections are a prefix of the queue |
| `ListenerModel.SweepIsExact` | queuelistener/listener.go:349-360 | over every run the sweep drops exactly the waiting connections whose deadline has passed, and keeps the others |
| `QueueListener.Listener.constructor` | queuelistener/listener.go:278-290 | starts in the initial state with a queue of the configured size |
| `QueueListener.Listener.Offers` | queuelistener/listener.go:291-302 | a connection is offered exactly when Accept may take one, and it is the newest; the error exactly when the queue is empty |
| `QueueListener.Listener.OnReceive` | queuelistener/listener.go:320-337 | queues the connection with its deadline, and drops the oldest exactly when the queue was full |
| `QueueListener.Listener.OnExternalError` | queuelistener/listener.go:338-338 | keeps the permanent error |
| `QueueListener.Listener.OnAccept` | queuelistener/listener.go:339-342 | hands out the newest connection and counts it |
| `QueueListener.Listener.OnDeliverError` | queuelistener/listener.go:343-346 | delivers the error once and closes |
| `QueueListener.Listener.OnRelease` | queuelistener/listener.go:347-348 | counts a returned token |
| `QueueListener.Listener.OnTimeout` | queuelistener/listener.go:349-360 | closes the expired prefix of the queue |
| `QueueListener.Sweep` | queuelistener/listener.go:349-360 | the loop takes off exactly the expired prefix of the ring |
| `QueueListener.Listener.OnQuit` | queuelistener/listener.go:361-375 | closes everything that waits, oldest first, and ends |
| `QueueListener.Listener.CloseListener` | queuelistener/listener.go:397-411 | closing again has no effect |
| `BinarySampler.ShiftMovesBits` | circuit/binarysampler.go:30-39 | a 64-bit left shift moves every bit up by one |
| `BinarySampler.ShiftedMovesBits` | circuit/binarysampler.go:30-39 | the shift with carries moves every bit of the long word up by one |
| `BinarySampler.ShiftIn` | circuit/binarysampler.go:41-62 | after a tick, bit j of the frames is the event j ticks ago |
| `BinarySampler.Sampler.constructor` | circuit/binarysampler.go:15-24 | an empty window, of size 1 when the given size is not positive |
| `BinarySampler.Sampler.Shift` | circuit/binarysampler.go:30-39 | the downward loop shifts all frames with their carries |
| `BinarySampler.Sampler.EvictionBit` | circuit/binarysampler.go:26-28 | the bit looked at is the event that leaves the window, and for a size that is a multiple of 64 never set |
| `BinarySampler.Sampler.MakeRoom` | circuit/binarysampler.go:42-54 | uncounts exactly that event, or grows the frames |
| `BinarySampler.Sampler.Tick` | circuit/binarysampler.go:41-62 | over every sequence of ticks: the frames hold the events bit by bit, and count is the number of set events in the window, or of all events when the size is a multiple of 64 |
| `BinarySampler.CountedTick` | circuit/binarysampler.go:41-62 | one tick adds its event and takes off the one that leaves |
| `BinarySampler.CountIsWindowCount` | circuit/binarysampler.go:41-62 | the count is that of the window if and only if the size is not a multiple of 64 or no set event has left the window |
| `BinarySampler.MultipleOf64NeverForgets` | circuit/binarysampler.go:15-24 | for every size that is a multiple of 64 a failure is still counted after it left the window |
| `SlidingWindow.Limiter.constructor` | ratelimit/redis.go:149-185 | an empty sorted set |
| `SlidingWindow.Limiter.Allow` | ratelimit/redis.go:149-185 | clear, count, add and expire: denied exactly when the live scores in the window number at least maxHits |
| `SlidingWindow.ClearedIsRecent` | ratelimit/redis.go:153-167 | what a call counts are exactly the allowed calls within the window |
| `SlidingWindow.RunMirrors` | ratelimit/redis.go:149-185 | over every one-at-a-time run the set mirrors the allowed calls, expiry included |
| `SlidingWindow.AtMostMaxHits` | ratelimit/redis.go:149-185 | every half-open interval as long as the window holds at most maxHits allowed calls |
| `SlidingWindow.StoreIsBounded` | ratelimit/redis.go:149-185 | one caller at a time never stores more than maxHits entries |
| `SlidingWindow.RetryAfter` | ratelimit/redis.go:292-313 | the advised wait is at least one second |
| `SlidingWindow.RetryCoversDelta` | ratelimit/redis.go:191-199 | the advised wait reaches the time the oldest entry leaves, and one second less does not pass it unless it is the minimum |
| `SlidingWindow.AllowedAfterDenial` | ratelimit/redis.go:149-185 | after a denial a later call is allowed if and only if the oldest counted call has left the window |
| `SlidingWindow.RetryIsAllowed` | ratelimit/redis.go:227-313 | waiting the advised seconds without another call makes the next call allowed, whether the query finds an oldest entry or the key has expired |
| `InterleavedLimiter.StepKeepsBound` | ratelimit/redis.go:149-185 | every single command of any caller, failures and expiry included, keeps entries and pending additions within the bound |
| `InterleavedLimiter.InterleavingBound` | ratelimit/redis.go:149-185 | however n callers interleave, the set never holds more than maxHits + n - 1 entries |
| `TimedLimiter.TimedRunIsRun` | ratelimit/redis.go:149-185 | a run with a shared clock is a run of the interleaved callers |
| `TimedLimiter.IntactStep` | ratelimit/redis.go:149-185 | until a call starts after an interval, or the key expires after it, nothing added in the interval is removed |
| `TimedLimiter.OverStep` | ratelimit/redis.go:149-185 | after that only callers already under way add to it |
| `TimedLimiter.RateBound` | ratelimit/redis.go:149-185 | however n callers interleave and fail, every half-open interval as long as the window holds at most maxHits + 2 * (n - 1) added times, and one more if the key expired in the run |
| `TimedLimiter.BoundIsTight` | ratelimit/redis.go:149-185 | some interleaving stores maxHits + n - 1 entries, so no smaller bound on the set holds |
| `TimedLimiter.RateIsTight` | ratelimit/redis.go:149-185 | some interleavings reach the bound on the rate, without and with an expired key |
| `SortedStrings.Sort` | net/valkey.go:178-180 | sorted, with the same strings |
| `SortedStrings.AscendingIsUnique` | net/valkey.go:178-180 | a set of strings has one sorted list |
| `ShardTable.ShardsCoverRing` | net/valkey.go:608-613 | n shards of the computed size cover all slots |
| `ShardTable.SlotIndexInRange` | net/valkey.go:189-194 | a rebuild never indexes past the client list |
| `ShardTable.SlotStep` | net/valkey.go:189-194 | the running index is the slot number divided by the shard size |
| `ShardTable.OwnedSlots` | net/valkey.go:189-194 | address j of the sorted list owns exactly the slots from j times the size up to the next multiple |
| `ShardTable.ActiveShardsAre` | net/valkey.go:195-195 | the active shards number ceil(10000 / size), at most n |
| `ShardTable.OrderDoesNotMatter` | net/valkey.go:168-196 | the order in which a set of addresses is listed does not change the table |
| `ShardTable.SetAddrKeepsSound` | net/valkey.go:202-248 | every update, also one that fails, leaves every filled slot with a client that is still known and not closed |
| `ShardTable.SetAddrKeepsConnections` | net/valkey.go:220-239 | addresses that stay keep their client, new ones get new clients, and exactly the clients of removed addresses are closed |
| `ShardTable.StartIsCanonical` | net/valkey.go:145-165 | a start leaves exactly the listed addresses, every slot served, and the table of the set when no address is repeated |
| `ShardTable.SameAddressesSameShards` | net/valkey.go:172-177 | two rings over the same addresses, whatever their histories, send every slot to the same address |
| `ShardTable.RunKeepsSound` | net/valkey.go:202-248 | over every run of updates, failures included, no slot leads to a closed or forgotten client |
| `ShardTable.RunIsCanonical` | net/valkey.go:202-248 | after any run of successful updates the known addresses are those of the last list and the table is that of their set |
| `ShardTable.FailedUpdateLeavesStaleTable` | net/valkey.go:216-230 | after an update that failed half way, an update to the addresses it had reached returns early with every slot still empty |
| `ShardTable.RepeatedStartIsNotCanonical` | net/valkey.go:145-165 | a start with a repeated address gives another table than its set of addresses |
| `ShardStart.SizeOfActive` | net/valkey.go:189-195 | the shard size is determined by the number of active shards |
| `ShardStart.SameTableSameLead` | net/valkey.go:189-195 | equal tables and shard counts come only from lists that agree on the shard size and on the addresses in use |
| `ShardStart.StartIsCanonicalExactly` | net/valkey.go:145-165 | a start gives the table of its set of addresses if and only if its length and the number of different addresses give the same shard size and no address in use is repeated |
| `ShardRuns.AddedKeys` | net/valkey.go:223-230 | clients are created for exactly the addresses before the first failure, one each time, and nothing else changes |
| `ShardRuns.SetAddrFollows` | net/valkey.go:202-248 | the known addresses and the list of the last rebuild after an update, failed or not, follow from the addresses alone |
| `ShardRuns.CanonicalExactly` | net/valkey.go:168-196 | the table is that of the known addresses if and only if the list of the last rebuild gives the same shard size and the same addresses in use |
| `ShardRuns.RunIsCanonicalExactly` | net/valkey.go:202-248 | after any start and any run of updates, failed ones included, the table is that of the known addresses if and only if the calls so far meet that condition |
| `ShardRuns.UpdateLoses` | net/valkey.go:202-248 | every update, failed or not, loses (neither known nor closed) exactly as many clients as it creates for addresses it had already created one for |
| `ShardRuns.StartLoses` | net/valkey.go:145-165 | so does a start; it closes none of the clients it created before a failure |
| `ShardRuns.RunLosesExactly` | net/valkey.go:202-248 | over any start and any run of updates the number of lost clients is the sum of these repetitions |
| `ShardRuns.NoneIsLost` | net/valkey.go:202-248 | over any start and any run of updates, failed ones included, no client is lost if and only if no call creates clients for an address twice |
| `ShardRuns.RepeatedStartLosesClient` | net/valkey.go:150-156 | a start with an address listed twice loses a client |
| `ShardRuns.RepeatedAddressLosesClient` | net/valkey.go:223-230 | an update with a new address listed twice loses a client |
| `ShardRuns.FailedUpdateLosesClient` | net/valkey.go:223-230 | so does one that fails at a later address |
| `ValkeyRing.Difference` | net/valkey.go:615-628 | the loops compute the items not in the other list, in order, with repetitions |
| `ValkeyRing.Intersect` | net/valkey.go:630-644 | the loops compute the common items, each once |
| `ValkeyRing.KeyList` | net/valkey.go:209-213 | every key once, in whatever order |
| `ValkeyRing.EarlyReturn` | net/valkey.go:215-219 | the comparison of lengths tells exactly whether the list names the known addresses, each once |
| `ValkeyRing.RingClient.CreateClients` | net/valkey.go:223-230 | creates in order up to the first failure |
| `ValkeyRing.RingClient.FillTable` | net/valkey.go:189-195 | the in-place loop fills every slot and counts the active shards |
| `ValkeyRing.RingClient.UpdateShards` | net/valkey.go:168-196 | the table is rebuilt from the sorted list, nothing else changes |
| `ValkeyRing.RingClient.CloseClients` | net/valkey.go:232-239 | closes and forgets exactly the listed clients |
| `ValkeyRing.RingClient.Reconcile` | net/valkey.go:202-248 | intersect, difference, create, close and rebuild amount to the update of the ring value |
| `ValkeyRing.RingClient.Start` | net/valkey.go:145-165 | a new ring is the start of the ring value, keeps the class invariant, and succeeds exactly when no creation fails |
| `ValkeyRing.RingClient.SetAddr` | net/valkey.go:202-248 | refines the update of the ring value and keeps the class invariant; the table is that of the known addresses, and clients are lost, exactly as ShardRuns says for the calls so far |
| `PatchPath.UnescapeIsReserved` | rfc/patchpath.go:19-44 | the table holds exactly the escapes of the ten reserved characters, in either case, with their values |
| `PatchPath.PatchPath` | rfc/patchpath.go:66-129 | the walk with two cursors returns the patched path if and only if the raw path splits into as many pieces as the parsed one has characters, none contradicts, and one is a reserved escape; else the parsed path |
| `PatchPath.PatchedIsEscapedForm` | rfc/patchpath.go:46-66 | for all inputs the result is the parsed path with some reserved characters written as an escape of theirs |
| `PatchPath.DecodedIsPatched` | rfc/patchpath.go:46-66 | when the parsed path is the decoding of the raw one, the result is the raw path with every escape decoded except those of reserved characters |
| `PatchPath.OtherPathIsKept` | rfc/patchpath.go:53-57 | a parsed path that is not the decoding of the raw one is returned unchanged if and only if the raw path ends within an escape or escapes no reserved character, the lengths differ, or they differ at a plain character or a reserved escape |
| `PatchPath.OtherEscapeIsNotCompared` | rfc/patchpath.go:101-105 | the character at an escape of another character is taken over whatever it is |
| `PatchPath.PatchedDecodesBack` | rfc/patchpath.go:46-66 | the result of a decoded path still decodes to it if and only if it has no percent sign |

## Left out

- EskipPrinter.ArgsString: string arguments only, because how floating-point numbers are formatted is not modelled; the lexer and the grammar do have numbers.
- EskipPrinter.FilterString: filters with string arguments only, for the same reason.
- Predicates, backends and whole routes of eskip: backends are printed without escaping, so there is no round trip to prove.
- The generated parser tables and driver: the filter productions they encode are modelled as a token grammar and a state machine.
- Trimming of white space around a parsed text: the lexer skips it anyway.
- Floating-point rounding in weights, loads, shard sizes and sorted-set scores: real and integer arithmetic instead.
- The other load balancer algorithms (random, round robin, power of random choices, least requests): they would only add easy members.
- Sorting in place: the ring and the addresses are sorted by a function on sequences, which does not capture in-place exchange or the order of equal hashes.
- The loop that accepts from the network with its temporary-error back-off, and the metrics, hooks and log messages of the queue listener.
- The timer of the queue listener: a timeout may come at any time.
- The leaky bucket, the local rate limit and the circuit breaker states: they rest on a script and libraries that are not part of this model.
- The retries and connection handling of the Redis and Valkey clients, and health checks: a command either fails or takes effect, or both.
- ListenerModel.ConcurrencyIsConserved: a connection that is closed after the listener quit need not return its token, so it stays counted as handed out.
- WeightedRoundRobin.Algorithm.Apply: an empty list of endpoints, for which the source panics, is excluded.
- PathTree.Add: an empty path definition, for which the source panics, is excluded.
- ConsistentHash.Ring.Apply: an empty available list, or a ring without an entry of an available endpoint, on which the searches of the source do not end, is excluded; callers keep a non-empty part of the route's endpoints.
- TimedLimiter.RateBound: assumes that callers share a clock and that the key does not expire while an entry is within the window, which a caller that fails between adding and renewing the expiry can break; it counts different times, and calls at the same nanosecond are one time.
