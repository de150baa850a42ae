# A verified model of the mesh DHT and its commit-reveal consensus

The repository is a Kademlia-style distributed hash table on which a subnet runs an epoch-based
commit-reveal consensus. This project models the parts that decide what a node stores, finds, accepts
and submits, and proves what they promise over every input, every run and every interleaving.

* **Routing table** (`XorMetric`, `Buckets`, `RoutingSpec`, `NearestSpec`, `NearestSearch`,
  `RoutingTable`, `RoutingRuns`, `RoutingUpdates`, `Prefixes`, `MisplacedSearch`). Buckets split on demand
  and tile the id space; the neighbour search climbs the implicit binary trie and equals a brute-force search of the whole table.
  The width of ids is a parameter (160 in the program).
* **Search of the network** (`Ranked`, `Beam`, `SimpleTraverse`, `TraverseSystem`, `TraverseSafety`,
  `TraverseRuns`). The single-query beam search is a loop. The concurrent search is a step system:
  workers, requests in flight, answers in any order with any content.
* **Timed storage** (`TimedSpec`, `TimedStorage`, `LocalStorage`, `DhtStorage`). A dictionary with a heap
  of deadlines refines a plain map; dictionaries nested in it are objects updated in place.
* **Replies and replicas** (`SearchState`, `ReplicaStore`).
* **Commit and reveal** (`Epochs`, `CommitReveal`, `ProducerSpec`, `ProducerLiveness`, `Producer`). The
  predicate that accepts records, the loop that produces them, and their agreement on one block clock.
* **Scores** (`Scoring`, `ScoringLaws`, `ConsensusScores`, `Submission`, `SubmissionLaws`), **rate limits**
  (`RateLimit`), **replay protection** (`NonceAuth`) and **Base58** (`Base58`). `Basics` and `Counting` hold shared types and counting facts.

Conventions. A binary heap is the ascending list of its contents, because pushing, popping the root and
taking the n smallest is all that is done with it. A Python dictionary whose order matters is a list of
pairs with distinct keys. Objects that are updated in place are classes; each method is proved equal to
a function on values, and what the program promises is proved about that function. Time is read from a
clock that never goes back, or given as parameters in non-decreasing order. Percentages, scores and times
are exact reals. Replies of peers, answers of the chain, signatures and hashes are arbitrary inputs.

Where the code departs from its documentation the model follows the code:

* A split sends an id equal to the midpoint to the left half, whose range excludes it
  (`mesh/dht/routing.py:240`). A run keeps every node in its bucket exactly if no split meets a stored
  midpoint (`RunPlacedIff`). An id that is misplaced stays so for ever, whatever is added or removed
  (`MisplacedForEver`, `MisplacedRemoval`; `MidpointCannotBeRemoved` is such a run), and the neighbour
  search finds it only if the block it searches reaches the wrong bucket (`FoundIff`,
  `MidpointCannotBeFound`); `SearchExactIff` says exactly when it is right all the same. Ids that are not multiples of a power of two no larger than a bucket are safe
  (`UnalignedRunIsClean`).
* A rejected store still replaces the removal deadline of the value that is kept
  (`mesh/utils/timed_storage.py:78`). A value is kept to its expiration time exactly if the next store
  under its key does not expire earlier and leaves it room (`KeptIffNotShortened`), and `top` returns the
  earliest deadline, which is the earliest expiration exactly under the condition of `ShortenedTopIff`
  (`ShortenedComesFirst` is a case where it is not).
* `traverse_dht` may return nodes that were marked visited beforehand (`mesh/dht/traverse.py:144`,
  `PreVisitedReturned`); `ReturnedIff` says exactly which nodes are returned, and `SearchResult` that
  every other returned node was asked.
* A GET search takes an expiration of exactly 0.0 for a missing one (`mesh/dht/node.py:840`,
  `ZeroIsForgotten`); `LatestWinsIff` says exactly when the latest expiration is found all the same.
* By that same rejected store an older reply that is merged later shortens the life of the best entry
  found (`mesh/dht/node.py:839`, `OlderReplyLoses`): `BestShownIff` says exactly what is shown when, and
  `BestKeptIff` when no best entry is lost.
* A GET search that finds a dictionary in local storage merges replies into that very object
  (`mesh/dht/node.py:623`, `mesh/dht/node.py:841`), so reading changes local storage and can leave its
  outer entry behind (`GetOutgrowsStorage`), exactly under the condition of `MergeKeepsIff`.
* Two empty score lists compare as 100.0 (`mesh/subnet/consensus/utils.py:16`), so nobody attests an
  empty list (`AttestsIff`) and revealing one earns a hundred times the full score (`FullRevealIff`).
* If commits but no reveals of an epoch are found, scoring raises an exception instead of giving nothing
  (`mesh/subnet/consensus/task.py:338`). After any exception the epoch is run again and may store keys
  again (`StoredTwice` is such a run, and `RunIsSound` says that there is no other way), which acceptors
  refuse if the first store arrived in time (`StoreAcceptedIff`).
* If the clock passes a new expiration between the lookup and the renewal of a dictionary, its outer
  expiration falls behind (`mesh/dht/storage.py:65`, `RenewalIsMissed`); this is the only way a run of
  stores can (`RunKeepsDictsIff`).
* The minute limit of the rate limiter relies on the deque being at least as long (`MinuteLimitIff`).

## Model

| member | source | states |
|---|---|---|
| XorMetric.XorInjective | mesh/dht/routing.py:275-283 | two ids at the same distance from a query are the same id, so distances never tie |
| XorMetric.XorBlock | mesh/dht/routing.py:275-283 | two ids are closer than a power of two exactly when they share the aligned block of that size |
| Ranked.NearestMeaning | mesh/dht/routing.py:155-157 | the first k of the sorted list are k elements no farther than any left out, in order |
| Buckets.AddKeeps | mesh/dht/routing.py:185-207 | an update stores the node as the most recent one, keeps everybody else, demotes nobody, and keeps active and spare nodes disjoint with spares only behind a full bucket |
| Buckets.AddOrder | mesh/dht/routing.py:185-207 | the updated node moves to the end of the active nodes, or of the spares exactly if others hold all active places; everybody else keeps the order, and its ping is no longer outstanding |
| Buckets.DeleteKeeps | mesh/dht/routing.py:219-231 | deleting removes exactly that id, keeps the active nodes active and promotes the most recent spare |
| Buckets.DeleteOrder | mesh/dht/routing.py:219-231 | deleting keeps the order of all others, and a freed active place goes to the last spare, at the end |
| Buckets.Bucket.PingCandidate | mesh/dht/routing.py:209-214 | the first active node in order of last update without an outstanding ping, or none if all have one |
| Buckets.SplitKeeps | mesh/dht/routing.py:233-242 | the halves hold exactly the nodes of the bucket, each in the half of its id, and satisfy the bucket invariant |
| Buckets.SplitNeverDemotes | mesh/dht/routing.py:233-242 | every active node is active in its half, before any promoted spare and in the old order |
| Buckets.SplitPlacedIff | mesh/dht/routing.py:235-241 | both halves hold only ids of their ranges exactly if the bucket did and does not hold its midpoint |
| RoutingSpec.TiledIndex | mesh/dht/routing.py:37-47 | exactly one bucket has an id in its range, the one the index names |
| RoutingSpec.DyadicHalves | mesh/dht/routing.py:235-238 | halves of an aligned block are aligned, and the split assertion holds exactly for blocks of more than one id |
| RoutingSpec.RetryStructured | mesh/dht/routing.py:67-72 | every split-and-retry round goes one level deeper in a tiled table, so the recursion ends |
| RoutingSpec.AddKeepsTable | mesh/dht/routing.py:49-75 | adding keeps tiling and bucket invariants, keeps placement exactly if no split bucket holds its midpoint, and then never trips the split assertion; it divides by zero only with a depth modulo of zero |
| RoutingSpec.AddExact | mesh/dht/routing.py:58-75 | after a clean addition buckets and lookup dictionary hold the same pairs, the old ones and the new one |
| RoutingSpec.RemoveKeepsTable | mesh/dht/routing.py:103-107 | removal keeps tiling and placement; in an exact table it removes exactly one pair and fails exactly if the id is absent |
| RoutingSpec.RunPlacedIff | mesh/dht/routing.py:31-107 | every run keeps buckets aligned, contiguous, covering and well formed, and ends well placed exactly if no split met a stored midpoint |
| RoutingSpec.RunExact | mesh/dht/routing.py:31-107 | along a clean run the buckets and the dictionary hold exactly what plain dictionary updates would leave |
| RoutingUpdates.AddMeaning | mesh/dht/routing.py:49-75 | every addition splits only buckets that were full with the id left waiting and had the own id in range or a depth off the modulo, and leaves the buckets of all other ids alone; it ends with the node as the most recent active one and no ping, or waiting in a full bucket that need not split, with the first active node without an outstanding ping to be pinged; a bucket of one id and a zero modulo are its only exceptions |
| RoutingUpdates.RemoveMeaning | mesh/dht/routing.py:103-107 | every removal succeeds exactly if the id's bucket holds it and the dictionary knows it, changes only that bucket, and forgets the peer exactly if it was last seen under this id |
| RoutingRuns.UnalignedRunIsClean | mesh/dht/routing.py:233-242 | a condition on ids and bucket size alone under which no split of any run meets a stored midpoint |
| RoutingRuns.RunInverse | mesh/dht/routing.py:62-65 | in a one-to-one run the two lookup dictionaries stay exact inverses of each other |
| RoutingRuns.MidpointCannotBeRemoved | mesh/dht/routing.py:235-241 | for every width, two additions after which a stored id is outside its bucket and removing it fails |
| RoutingRuns.PlacedIffNoneStrays | mesh/dht/routing.py:181-183 | a table is well placed exactly if no bucket holds an id outside its range |
| RoutingRuns.MisplacedForEver | mesh/dht/routing.py:49-107 | an id that some bucket holds outside its range is so held after every later run of additions and removals, its own removal included |
| RoutingRuns.MisplacedRemoval | mesh/dht/routing.py:103-107 | removing a misplaced id fails exactly if its own bucket does not hold it too or the lookup dictionary lost it, and a node with that id is stored afterwards in any case |
| NearestSpec.BlockSeparates | mesh/dht/routing.py:129-153 | every node of the aligned block around the query is nearer than every node outside it |
| NearestSpec.SelectionExact | mesh/dht/routing.py:155-157 | selecting among the candidates of a large enough block equals selecting among all active nodes, exclusion included |
| NearestSpec.BruteForceMeaning | mesh/dht/routing.py:109-119 | the reference answer holds eligible nodes in strictly increasing distance, and an eligible node is left out only behind k nearer ones |
| NearestSpec.FoundIff | mesh/dht/routing.py:121-157 | whatever the table, a node is found under its own id exactly if a bucket of the searched block has it active |
| NearestSearch.GetBucketIndex | mesh/dht/routing.py:37-47 | the binary search returns the one bucket whose range holds the id |
| NearestSearch.MergeRight | mesh/dht/routing.py:138-145 | merging the right sibling collects exactly its buckets and ends at its upper bound, so the assertion holds |
| NearestSearch.MergeLeft | mesh/dht/routing.py:147-153 | merging the left sibling collects exactly its buckets and ends at its lower bound, so the assertion holds |
| NearestSearch.ClimbOne | mesh/dht/routing.py:133-153 | one level up the candidates are exactly the active nodes of the parent block, and no smaller block has enough |
| NearestSearch.Climb | mesh/dht/routing.py:123-153 | in every tiled table the candidates are all active nodes of the smallest aligned block around the query that has enough of them, or of the whole table |
| NearestSearch.GetNearestNeighbors | mesh/dht/routing.py:109-157 | in every tiled table the nearest non-excluded active nodes of that block; in every well-placed table the brute-force answer: the k nearest non-excluded active nodes of the whole table, nearest first |
| MisplacedSearch.MidpointCannotBeFound | mesh/dht/routing.py:123-157 | after those two additions the search for the one node nearest to the misplaced id returns the other node, although the id itself is active at distance zero |
| MisplacedSearch.SearchExactIff | mesh/dht/routing.py:109-157 | in a table that holds no id twice, misplaced or not, the answer is the brute-force one exactly if every non-excluded node outside the searched block has k non-excluded nodes of the block nearer than it |
| RoutingTables.KBucket.AddOrUpdateNode | mesh/dht/routing.py:185-207 | updates the bucket in place as the value-level update says |
| RoutingTables.KBucket.RequestPingNode | mesh/dht/routing.py:209-214 | returns and marks the least recently updated node without a ping |
| RoutingTables.KBucket.Delete | mesh/dht/routing.py:219-231 | deletes in place, or reports a missing node and changes nothing |
| RoutingTables.KBucket.Split | mesh/dht/routing.py:233-242 | two new buckets equal to the value-level halves; the old bucket is untouched |
| RoutingTables.RoutingTable.constructor | mesh/dht/routing.py:31-35 | a new table is structured and empty |
| RoutingTables.RoutingTable.SplitBucket | mesh/dht/routing.py:77-81 | one bucket object is replaced by two fresh ones, all others stay |
| RoutingTables.RoutingTable.AddOrUpdateNode | mesh/dht/routing.py:49-75 | the table object ends up as the value-level addition says, with its outcome, and the recursion terminates; what that addition is, is `RoutingUpdates.AddMeaning` |
| RoutingTables.RoutingTable.DelItem | mesh/dht/routing.py:103-107 | the table object ends up as the value-level removal says, with its outcome |
| RoutingTables.RoutingTable.GetNearestNeighbors | mesh/dht/routing.py:109-157 | the brute-force answer for the table object if it is well placed, the nearest nodes of the searched block in any case; the object does not change |
| Beam.PushStep | mesh/dht/traverse.py:61-67 | a pushed node keeps the beam equal to the nearest nodes found and every found node asked, waiting or beyond the beam |
| Beam.BeamExhausted | mesh/dht/traverse.py:55-56 | when no waiting node is inside the beam every node of the beam was asked |
| SimpleTraverse.AskNext | mesh/dht/traverse.py:55-67 | one round asks the nearest waiting node, learns exactly its unseen neighbours, and learns ids or leaves fewer to ask |
| SimpleTraverse.SimpleTraverse | mesh/dht/traverse.py:13-69 | terminates with the nearest of exactly the unvisited initial and reported nodes, all of them asked unless stopped, none visited beforehand, none asked more often than it was discovered, and none twice if no list repeats a node |
| TraverseSafety.LearnAllKeeps | mesh/dht/traverse.py:226-235 | learning a reply keeps beam, candidates and known nodes in step and adds exactly the reported nodes |
| TraverseSafety.MarkKeeps | mesh/dht/traverse.py:188-208 | a peer not visited for a query is asked for it once and never again |
| TraverseSafety.EarlyFinishUnreachable | mesh/dht/traverse.py:188-193 | a popped candidate lies inside the beam, so the early finish never happens |
| TraverseSafety.QuietAnswered | mesh/dht/traverse.py:176-186 | with nothing in flight for a query, every peer asked for it has answered |
| TraverseSafety.BusyFlies | mesh/dht/traverse.py:177-182 | a positive worker count means a request in flight, so a worker waits only while one is |
| TraverseSafety.StepInv | mesh/dht/traverse.py:171-239 | every step of every worker keeps all invariants of the search |
| TraverseRuns.RunInv | mesh/dht/traverse.py:120-245 | in every reachable state: counters equal requests in flight, someone is awake, waiting only with a request in flight, each query finished at most once |
| TraverseRuns.SearchResult | mesh/dht/traverse.py:162-239 | a query that ends unstopped returns the nearest of all nodes reported for it, each asked and answered or visited beforehand, and everything they reported is returned or farther; it finishes exactly once and asks no peer twice |
| TraverseRuns.ReturnedIff | mesh/dht/traverse.py:226-251 | a node is in a query's result exactly if it was reported and fewer nearer nodes than the beam holds were, counted as often as the initial list repeats them, visited beforehand or not |
| TraverseRuns.PreVisitedReturned | mesh/dht/traverse.py:135-145 | a run that returns a node marked visited beforehand, although the documentation says it is not returned |
| TraverseRuns.FirstExitMeansFinished | mesh/dht/traverse.py:241-245 | when the first worker leaves, every query has finished exactly once, as asserted |
| TraverseRuns.WorkSpreads | mesh/dht/traverse.py:147-152 | in every run a request goes to a query with the fewest requests in flight among those that have candidates, and among equally busy ones to the query with the nearest candidate |
| TraverseRuns.IdleOnlyWithoutWork | mesh/dht/traverse.py:174-186 | a worker waits or ends the search only when no unfinished query has a candidate |
| TraverseRuns.NeverStuck | mesh/dht/traverse.py:171-239 | until the first worker leaves some step is possible in every reachable state |
| TraverseRuns.StepShrinks | mesh/dht/traverse.py:171-239 | every step decreases a well-founded measure |
| TraverseRuns.RunsEnd | mesh/dht/traverse.py:171-245 | no run goes on for ever, whatever peers answer |
| TimedSpec.PruneMeaning | mesh/utils/timed_storage.py:61-69 | what survives is unchanged, within its deadline and within the size; an entry removed in time had an earlier deadline than everything kept, and the storage was full |
| TimedSpec.PruneAhead | mesh/utils/timed_storage.py:62-69 | removing the earliest entry ahead of time does not change what any later pruning leaves |
| TimedSpec.StoreMeaning | mesh/utils/timed_storage.py:71-87 | a store is accepted exactly if it is not late and nothing that expires as late is there; what every key holds afterwards: unchanged, replaced, a new deadline only, or pushed out by a new key |
| TimedSpec.RunTimely | mesh/utils/timed_storage.py:61-128 | over every run no value is kept beyond its expiration time |
| TimedSpec.SurvivesIff | mesh/utils/timed_storage.py:61-69 | an entry survives removal exactly if it is within its deadline and fewer entries with later deadlines than the maximum size are there |
| TimedSpec.ReadableIff | mesh/utils/timed_storage.py:61-128 | over every run, limited in size or not: a key is readable at a time exactly if the last store under it that was not too late, accepted or not, expires no earlier, no deletion or eviction followed, and it fits |
| TimedSpec.LivesToExpiration | mesh/utils/timed_storage.py:71-87 | in a storage of any size a value lives to its expiration if no deletion, no eviction and no earlier-expiring store hits its key |
| TimedSpec.LastStoreDecides | mesh/utils/timed_storage.py:76-84 | after a store under a live key the key is readable exactly until the expiration stored last, accepted or not, if fewer later deadlines are there than fit |
| TimedSpec.KeptIffNotShortened | mesh/utils/timed_storage.py:71-87 | the promise to keep a value until its expiration holds exactly if the next store does not expire earlier and still leaves it room |
| TimedSpec.UnshortenedIff | mesh/utils/timed_storage.py:76-84 | a deadline comes to lie before its expiration in one way only: a store of an earlier expiration under a key that is there |
| TimedSpec.EarliestExpiresFirst | mesh/utils/timed_storage.py:101-110 | without shortened deadlines the earliest deadline is the earliest expiration |
| TimedSpec.ShortenedTopIff | mesh/utils/timed_storage.py:101-110 | after a rejected store the earliest deadline is still the earliest expiration, exactly unless the rejected expiration puts its key before all others while another entry expires earlier |
| TimedSpec.ShortenedComesFirst | mesh/utils/timed_storage.py:101-110 | a rejected store that puts first what expires last |
| TimedStorages.TimedStorage.constructor | mesh/utils/timed_storage.py:55-59 | an empty unfrozen storage in which size zero means unlimited |
| TimedStorages.TimedStorage.RemoveOutdated | mesh/utils/timed_storage.py:61-69 | heap and dictionary with lazily deleted entries prune exactly like the plain map at the last time read |
| TimedStorages.TimedStorage.Store | mesh/utils/timed_storage.py:71-87 | stores exactly like the plain map and reports acceptance |
| TimedStorages.TimedStorage.Get | mesh/utils/timed_storage.py:89-94 | reads the pruned map; an unfrozen read never returns an expired value |
| TimedStorages.TimedStorage.Len | mesh/utils/timed_storage.py:121-123 | at most the maximum size unless frozen |
| TimedStorages.TimedStorage.Top | mesh/utils/timed_storage.py:101-110 | the entry with the earliest deadline, discarding only leftover heap entries |
| TimedStorages.TimedStorage.Delete | mesh/utils/timed_storage.py:125-128 | removes exactly the key, leaving its heap entry to be skipped |
| TimedStorages.TimedStorage.Clear | mesh/utils/timed_storage.py:112-115 | nothing is left, frozen or not, and the limits stay |
| TimedStorages.TimedStorage.SetFrozen | mesh/utils/timed_storage.py:136-143 | changes only whether removal is suspended and returns the previous state |
| LocalStorages.SubkeyKeepsIff | mesh/dht/storage.py:51-69 | a subkey store keeps every dictionary's outer expiration equal to its latest entry's, exactly unless the clock passed the new expiration during the call |
| LocalStorages.InstantNeverMisses | mesh/dht/storage.py:51-69 | a call during which the clock stands still never misses the renewal |
| LocalStorages.OnlyLaterReplaces | mesh/dht/storage.py:59-69 | a plain value gives way to a dictionary only to a strictly later expiration |
| LocalStorages.SubkeyCreates | mesh/dht/storage.py:51-69 | under a key with nothing or with a plain value that expires earlier, the store is accepted exactly if not late and leaves a dictionary whose only entry is the new one, if the key fits |
| LocalStorages.SubkeyUpdates | mesh/dht/storage.py:51-69 | under a key with a dictionary the store is accepted exactly if not late and the subkey has nothing that expires as late; the later-expiring entry stays and the other subkeys are as before, but for what a new one pushes out |
| LocalStorages.SubkeyRenews | mesh/dht/storage.py:51-69 | the outer entry is renewed exactly if the new entry outlives all there were and the clock is not past it |
| LocalStorages.SubkeyAnswer | mesh/dht/storage.py:51-69 | a plain value that expires as late refuses every subkey; other keys are unchanged or pushed out |
| LocalStorages.RunKeepsDictsIff | mesh/dht/storage.py:38-69 | every run of stores and lookups, with the clock advancing freely, keeps outer expirations equal to the latest and at least every subkey's at all times, exactly if no call misses a renewal |
| LocalStorages.RenewalIsMissed | mesh/dht/storage.py:59-67 | a subkey store during which the clock passes the new expiration, after which the outer entry is behind |
| LocalStorages.MergeKeepsIff | mesh/dht/node.py:621-625 | merging replies into the dictionary that a GET found in local storage keeps that storage in order exactly if no merged entry expires after the local dictionary |
| LocalStorages.StoreEntriesIsRun | mesh/dht/node.py:836-839 | merging entries into a dictionary, at whatever times, is a run of its timed storage, so everything known of runs applies |
| LocalStorages.GetOutgrowsStorage | mesh/dht/node.py:836-841 | a GET, finished before the merged entry expires, after which local storage holds that entry, expiring at 20, inside a dictionary whose outer entry expires at 10 |
| DhtStorages.DictionaryDHTValue.Store | mesh/dht/storage.py:16-18 | the dictionary object stores the entry and remembers the latest expiration |
| DhtStorages.DHTLocalStorage.Store | mesh/dht/storage.py:38-49 | a plain store on the storage object |
| DhtStorages.DHTLocalStorage.StoreSubkey | mesh/dht/storage.py:51-69 | new dictionary, update in place of the shared object, or refusal, as the value-level store says, touching no other key; what that store is, is `LocalStorages.SubkeyCreates`, `SubkeyUpdates`, `SubkeyRenews` and `SubkeyAnswer` |
| DhtStorages.DHTLocalStorage.MergeReply | mesh/dht/node.py:836-841 | the search goes on with the stored object itself, so merging a reply changes local storage as the value-level merge at non-decreasing times within the call says, but not its outer entry |
| DhtStorages.PruneSame | mesh/dht/storage.py:35-36 | which entries are removed does not depend on what they hold |
| SearchStates.AddEntryIsStore | mesh/dht/node.py:836-839 | while no deadline has passed merging one entry is what the timed storage does |
| SearchStates.SearchState.AddCandidate | mesh/dht/node.py:829-847 | merges, adopts or ignores the candidate object as the value-level step says, the larger size limit included, at times in order within the call, with exactly the entries that are not outdated when it is read, also if it is the very object found before; ignores it when finished |
| SearchStates.LatestWinsIff | mesh/dht/node.py:840-845 | in any order the latest expiration is found, exactly unless it is zero and the last reply has an earlier one; the first reply that has it, or the last one if it is zero, gives expiration, source and plain value |
| SearchStates.LatestDecides | mesh/dht/node.py:834-847 | replies of mixed kinds: the first one with the latest expiration decides, unless that is zero: its bytes are found, or the dictionary that the dictionary replies merge to since the one they are merged into was adopted |
| SearchStates.AdoptsIff | mesh/dht/node.py:840-845 | a reply is adopted or noted exactly if it expires later than all before it, unless the latest of them is zero |
| SearchStates.ShownSince | mesh/dht/node.py:834-847 | then the dictionary replies since that adoption decide what is shown, and if nothing expires meanwhile they show an offered entry with the latest expiration for every subkey |
| SearchStates.MergedSize | mesh/dht/node.py:836-839 | the merged dictionary may hold as much as any of those merged into it, and exactly as much as one of them |
| SearchStates.MergeIsBest | mesh/dht/node.py:836-839 | replies of which the first is adopted and the others are merged by a time before which nothing expires show, at that time, an offered entry with the latest expiration for every subkey offered |
| SearchStates.OrderDoesNotMatter | mesh/dht/node.py:829-847 | two searches under that condition on time, in any orders and at any times, that are offered the same entries without conflict show the same dictionary |
| SearchStates.ContentsStableIff | mesh/dht/node.py:836-839 | under that condition on time every search that gets the same replies, in any order and at its own times, shows the same dictionary exactly if no two latest entries of a subkey differ in value; exactly then the dictionary depends on nothing but the entries offered |
| SearchStates.ShownIff | mesh/dht/node.py:836-839 | whatever expires while replies are merged into a dictionary without a size limit, a subkey is shown at a time exactly if the entry stored last under it that was not too late expires no earlier |
| SearchStates.BestShownIff | mesh/dht/node.py:836-839 | replies merged before anything expires: later, the best entry of a subkey is shown exactly if the last reply that has the subkey gives it an expiration no earlier |
| SearchStates.BestKeptIff | mesh/dht/node.py:836-839 | every best entry is shown as long as it lives exactly if none is followed by an offer that expires earlier |
| SearchStates.OlderReplyLoses | mesh/dht/node.py:836-839 | two replies after which the entry that expires at 100 is gone at 60 |
| SearchStates.ExpirationStableIff | mesh/dht/node.py:840-845 | every search that gets the same replies, in any order and at its own times, finds the same expiration exactly if the latest one is not zero or all are; exactly then it depends on nothing but which expirations occur |
| SearchStates.FirstSufficientEnds | mesh/dht/node.py:843-847 | a finite goal ends the search with the first reply that reaches it |
| SearchStates.GoalOnlyEnds | mesh/dht/node.py:843-847 | up to its end a search with a goal is the search without one |
| SearchStates.ZeroIsForgotten | mesh/dht/node.py:840-843 | two replies of which the later expiration, zero, is lost |
| ReplicaStores.AwaitSome | mesh/dht/node.py:461-472 | at least one running store ends, every ended one is counted once, no other one changes, and the recorded history of the network grows lawfully |
| ReplicaStores.StoreReplicas | mesh/dht/node.py:409-472 | for every pattern of results: the history of the network starts with nothing tried, goes one event at a time and never has more stores confirmed and running than replicas; at the end nothing runs, the count is right, and enough were confirmed or all were tried |
| ReplicaStores.TriedInOrder | mesh/dht/node.py:429-472 | at every moment of a lawful history exactly the candidates up to some point, nearest first, have been tried |
| ReplicaStores.EndIsFinal | mesh/dht/node.py:429-472 | in a lawful history a store that has ended stays as it is, so no candidate is tried twice |
| Epochs.EpochDataLocates | mesh/substrate/chain_functions.py:1929-1954 | epoch, elapsed and remaining blocks, and six seconds for each, locate the block exactly; before the slot it is the start of epoch zero |
| Epochs.EpochsAdvance | mesh/substrate/chain_functions.py:1929-1954 | later blocks lie in later epochs or further into the same one, the time before the slot included |
| CommitReveal.CommitRevealPredicate.Call | mesh/subnet/utils/mock_commit_reveal.py:171-279 | the predicate object decides and counts as the value-level decision says |
| CommitReveal.CleanupTracks | mesh/subnet/utils/mock_commit_reveal.py:127-139 | deleting old counters changes no count that a request of the current or a later epoch consults: the tracker still counts exactly the accepted stores |
| CommitReveal.LimitsHold | mesh/subnet/utils/mock_commit_reveal.py:79-139 | over every run with non-decreasing blocks no peer exceeds a limit in an epoch, although old counters are dropped |
| CommitReveal.PhasesInOrder | mesh/subnet/utils/mock_commit_reveal.py:232-274 | accepted records come in the order of phases: commits, reveals, score commits, then later epochs |
| CommitReveal.CommitBeforeReveal | mesh/subnet/utils/mock_commit_reveal.py:256-272 | a score commit is accepted before the score reveal two epochs later |
| CommitReveal.AcceptedIff | mesh/subnet/utils/mock_commit_reveal.py:171-276 | a store is accepted exactly if its key is of this epoch, the peer's accepted stores are below the limit, the window is open and the expiration is not too late |
| CommitReveal.AcceptedByRules | mesh/subnet/utils/mock_commit_reveal.py:59-276 | the rules in numbers, over every run: at most 1 store per key, peer and epoch and 100 for heartbeats, a lifetime of at most 1980 s for heartbeats and 9000 s otherwise, commits up to half of the epoch, reveals up to six tenths, score commits after that |
| CommitReveal.GetGranted | mesh/subnet/utils/mock_commit_reveal.py:171-199 | everybody who names a public key may read, nobody else may do anything, and neither is counted |
| CommitReveal.KeyAcceptedIff | mesh/subnet/utils/mock_commit_reveal.py:171-276 | a commit or reveal is accepted exactly if it is well timed and none of its key was accepted before |
| CommitReveal.FirstIsAccepted | mesh/subnet/utils/mock_commit_reveal.py:171-276 | the first well-timed store of a peer for a key is accepted whatever others do |
| Producer.Consensus.RunTaskCommit | mesh/subnet/consensus/consensus.py:257-267 | commits as the value-level phase says: at most once, at the next reading, if it is in the epoch, early enough, there are peers and nothing raises before; remembers it unless storing raises |
| Producer.Consensus.RunTaskReveal | mesh/subnet/consensus/consensus.py:269-283 | reveals as the value-level phase says: what was committed, at the first reading past the commit deadline, if that is reached and in time and the epoch was committed |
| Producer.Consensus.RunRevealScores | mesh/subnet/consensus/consensus.py:305-319 | reveals as the value-level phase says: the scores committed two epochs ago, if they were and the reading is reached and in time; that a run does so is `ProducerLiveness.CommitIsRevealed` |
| Producer.Consensus.RunVerifyAndScorePeers | mesh/subnet/consensus/consensus.py:321-334 | hands on the scores exactly if the first reading past the reveal deadline is reached and in the same epoch |
| Producer.Consensus.RunCommitScores | mesh/subnet/consensus/consensus.py:285-303 | commits scores as the value-level phase says: if there are any and the first reading past the reveal deadline is reached and in the epoch; remembers them unless storing raises |
| Producer.Consensus.RunForever | mesh/subnet/consensus/consensus.py:181-255 | for all readings, answers and exceptions the loop ends with exactly the stores, the memory, the attempted epochs and the failed epochs of the value-level run |
| ProducerSpec.RunIsSound | mesh/subnet/consensus/consensus.py:181-255 | for all readings, answers and exceptions every store is made in its own epoch and window, every reveal opens an earlier commit, and a key is stored twice only in an epoch in which an attempt raised, which is never one all of whose attempts go without exceptions |
| ProducerSpec.CalmRunStoresOnce | mesh/subnet/consensus/consensus.py:181-255 | a run whose calls never raise stores no key twice |
| ProducerSpec.StoredTwice | mesh/subnet/consensus/consensus.py:253-267 | for every slot and epoch length a run in which storing the commit raises once and the same commit key is stored twice |
| ProducerSpec.CalmAttemptReveals | mesh/subnet/consensus/consensus.py:206-283 | an epoch that is read in time, finds peers and meets no exception has its task committed and the same content revealed |
| ProducerLiveness.CalmAttemptStores | mesh/subnet/consensus/consensus.py:206-334 | an attempt without exceptions stores exactly the records of its timetable: task commit and reveal, reveal of the scores of two epochs ago and commit of the new ones, each at the first reading past its deadline if that is in time; and remembers what it committed |
| ProducerLiveness.CommitIsRevealed | mesh/subnet/consensus/consensus.py:305-319 | over a whole run without exceptions, committed scores are revealed two epochs later if the node attempts that epoch and its reading is in time |
| ProducerLiveness.ScoresAreCommitted | mesh/subnet/consensus/consensus.py:285-303 | over a whole run without exceptions, scores that were made are committed if the reading for it lies in the epoch |
| ProducerSpec.RevealOpensCommit | mesh/subnet/consensus/task.py:121-218 | every reveal shows the content of a commit made earlier, of the same epoch for tasks and of two epochs before for scores, and where no key is stored twice that commit is the only one |
| Producer.StoreAcceptedIff | mesh/subnet/consensus/task.py:121-223 | whatever other peers and the node's heartbeats post, and however stores are lost, delayed, reordered or repeated, an acceptor accepts a delivered store exactly if it arrives in its epoch and window and no earlier delivery of the key did |
| Producer.CalmRunIsAccepted | mesh/subnet/consensus/task.py:121-223 | of a run without exceptions every store that is delivered once and at the block at which it was made is accepted, whatever becomes of the others |
| Producer.CommitOutlives | mesh/subnet/consensus/task.py:170-233 | with epochs of at most 563 blocks a score commit is unexpired throughout its verification epoch |
| Producer.LongEpochsExpire | mesh/subnet/utils/mock_commit_reveal.py:59-66 | with longer epochs some score commit expires before its verification epoch ends |
| Scoring.ScoreValidators | mesh/subnet/consensus/task.py:374-407 | the loops give every validator the scaled score of its squared distance from the means |
| ScoringLaws.SquaredErrors | mesh/subnet/consensus/task.py:380-394 | the errors are squares: about each peer all validators' errors add up to the sum of its squared scores less the squared mean for each of them |
| ScoringLaws.ErrorByPeer | mesh/subnet/consensus/task.py:386-394 | a validator's error is the sum of its errors about a peer and about all others |
| ScoringLaws.FinalScore | mesh/subnet/consensus/task.py:396-407 | the final score is one less the error over the largest error and 0.00000001, times ten to the eighteenth, rounded down |
| ScoringLaws.ThreeValidators | mesh/subnet/consensus/task.py:374-407 | three validators with two peers: errors 5/9, 2/9 and 5/9, and about six tenths of the full score for the second |
| Scoring.CollectScores | mesh/subnet/consensus/task.py:374-378 | each peer's list has exactly the sum and number of its scores |
| Scoring.ScoreInRange | mesh/subnet/consensus/task.py:396-402 | every score is above zero and at most one, so the clamp never acts |
| Scoring.ScoreAntitone | mesh/subnet/consensus/task.py:396-407 | a larger error never gives a larger score |
| Scoring.FullScoreIff | mesh/subnet/consensus/task.py:404-407 | the scaled score is exactly ten to the eighteenth if and only if there is no error |
| Scoring.NoErrorIff | mesh/subnet/consensus/task.py:386-394 | no error means agreement with the mean on every peer scored |
| Scoring.FullMarksIff | mesh/subnet/consensus/task.py:374-407 | a validator's final score is full exactly if it agreed with the mean on every peer it scored, and a validator farther from the means never has a higher one |
| Scoring.OrderIndependent | mesh/subnet/consensus/task.py:374-407 | the scores do not depend on the order in which revealed lists are visited |
| ConsensusScores.ScoreMapKeys | mesh/subnet/consensus/task.py:451-470 | the lookup of an included, scored peer never fails |
| ConsensusScores.FromPeersLists | mesh/subnet/consensus/task.py:447-472 | the formatted list holds exactly the scores of the included nodes' peers under the nodes' ids |
| ConsensusScores.AverageConsensusScores | mesh/subnet/consensus/task.py:424-445 | the loops average every node's entries in the order of first entries |
| ConsensusScores.AveragedMeaning | mesh/subnet/consensus/task.py:436-443 | an average is the mean of the node's entries rounded down |
| ConsensusScores.FilterIsIdle | mesh/subnet/consensus/task.py:416-422 | the last filter leaves the averaged list as it is, order and repetitions included, because every node in it is included |
| ConsensusScores.AttestsIff | mesh/subnet/consensus/utils.py:6-21 | accuracy is one exactly for equal, non-empty score sets, and symmetric |
| ConsensusScores.CompareOverlap | mesh/subnet/consensus/utils.py:6-21 | for lists without repetitions the accuracy is the number of common entries over that of entries in either |
| ConsensusScores.OneDifference | mesh/subnet/consensus/utils.py:6-21 | two lists of n entries that differ in one agree to n - 1 parts in n + 1 |
| Submission.RoundCountsIff | mesh/subnet/consensus/task.py:335-371 | a validator's scores count exactly if it revealed them and their digest is the one it committed |
| Submission.VerifyScoreReveals | mesh/subnet/consensus/task.py:225-309 | the loops give every peer its score for revealing, nothing without consensus, or an exception where records or nodes are missing |
| Submission.RevealedIff | mesh/subnet/consensus/task.py:258-309 | a peer earns a score for revealing exactly if its node attested and its reveal matches its commit, and then the overlap of its list with the one on chain |
| Submission.FullRevealIff | mesh/subnet/consensus/task.py:298-307 | the score for revealing is full exactly for a non-empty list equal to the one on chain, and exceeds that exactly for two empty lists |
| Submission.VerifyAndScorePeers | mesh/subnet/consensus/task.py:311-422 | from the records in the network to the list for the chain, with every way to end in nothing or an exception |
| SubmissionLaws.OutcomeIff | mesh/subnet/consensus/task.py:225-371 | exactly which missing records, nodes and attestations end in nothing and which in an exception |
| SubmissionLaws.SubmittedScore | mesh/subnet/consensus/task.py:311-422 | an included node has an entry exactly if its peer revealed matching scores or earns a score for revealing, only one, and its score is the one of these there is or their mean rounded down |
| SubmissionLaws.OnlyIncluded | mesh/subnet/consensus/task.py:409-422 | only included nodes are in the list |
| Submission.SameRecordsSameList | mesh/subnet/consensus/task.py:311-422 | nodes that see the same records in any order come to the same outcome and list, entry by entry, and attest each other unless it is empty |
| RateLimit.RateLimitAuthorizer.CheckRateLimit | mesh/utils/authorizers/limiter.py:174-221 | decides about one peer as the value-level decision says and leaves all others alone |
| RateLimit.AdmittedIff | mesh/utils/authorizers/limiter.py:174-257 | a request is admitted exactly if the peer is not banned, its block has ended, it was not refused too often and it is within all limits; nothing is left of an ended block |
| RateLimit.RefusedHow | mesh/utils/authorizers/limiter.py:223-293 | a refusal of a peer not blocked leaves one more violation, the worst level so far, and a block of the length of its severity or a ban |
| RateLimit.ViolateMeaning | mesh/utils/authorizers/limiter.py:309-315 | a recorded refusal counts once, from the fifth on twice, and then makes the peer at least suspicious |
| RateLimit.DropOldMeaning | mesh/utils/authorizers/limiter.py:198-201 | of requests in order exactly those older than the long window are dropped |
| RateLimit.RateLimitAuthorizer.RecordViolation | mesh/utils/authorizers/limiter.py:309-315 | counts a violation, twice from the fifth on |
| RateLimit.RateLimitAuthorizer.ValidateRequest | mesh/utils/authorizers/limiter.py:114-146 | admits exactly what limiter and inner authorizer admit and records every refusal |
| RateLimit.WindowsHold | mesh/utils/authorizers/limiter.py:198-257 | in every run every window of a second, a minute or an hour, wherever it lies, holds at most the configured number of admitted requests, as long as the deque covers it |
| RateLimit.NeverHigh | mesh/utils/authorizers/limiter.py:238-240 | no request of any run is judged a high threat when the burst limits lie below the blocking threshold |
| RateLimit.HighReachableIff | mesh/utils/authorizers/limiter.py:223-257 | some run leads to a request judged a high threat exactly if the blocking threshold can be exceeded within all limits and below the ban threshold |
| RateLimit.DefaultLimits | mesh/utils/authorizers/limiter.py:26-46 | the limits of the default configuration: 16, 100 and 1000, and no request is ever judged a high threat |
| RateLimit.NeverAgain | mesh/utils/authorizers/limiter.py:233-236 | after the configured number of recorded refusals a peer is never admitted again |
| RateLimit.ShutOut | mesh/utils/authorizers/limiter.py:259-293 | a moderate or worse threat refuses everything for its block time, or for good when banned |
| RateLimit.ThreatRises | mesh/utils/authorizers/limiter.py:259-269 | threat level and violation count never fall |
| RateLimit.MinuteLimitIff | mesh/utils/authorizers/limiter.py:198-206 | with given window lengths the minute limit holds for every configuration and run exactly if the deque covers the minute |
| RateLimit.BurstLimitIff | mesh/utils/authorizers/limiter.py:198-206 | the same for the short window and the burst limit |
| NonceAuth.SignatureAuthorizer.DoValidateRequest | mesh/utils/authorizers/auth.py:103-135 | valid exactly if signed, addressed here or to nobody, within a minute and with an unknown nonce |
| NonceAuth.SignatureAuthorizer.ValidateRequest | mesh/utils/authorizers/auth.py:137-146 | accepts exactly admissible requests, keeping accepted equal nonces more than a lifetime apart; every request ever accepted was signed and addressed here or to nobody, and a timely one for this node is refused only if its nonce was used |
| NonceAuth.NoReplay | mesh/utils/authorizers/auth.py:101-146 | accepted requests with equal nonces carry times more than a minute apart, so none is accepted twice |
| NonceAuth.StoredRemembers | mesh/utils/authorizers/auth.py:142-144 | storing a nonce keeps every earlier one until its lifetime has passed |
| Base58.DecodeEncode | mesh/utils/base58/__init__.py:51-66 | decoding an encoded byte string gives it back, leading zero bytes included |
| Base58.EncodeDecode | mesh/utils/base58/__init__.py:110-126 | encoding a decoded string gives it back, for every string over the alphabet |
| Base58.ByteLength | mesh/utils/base58/__init__.py:124-126 | the length from the bit length is the number of base-256 digits |
| Base58.DecodeRefuses | mesh/utils/base58/__init__.py:96-107 | a character outside the alphabet is refused |
| Base58.B58EncodeInt | mesh/utils/base58/__init__.py:35-48 | the loop spells the digits of the number |
| Base58.B58DecodeInt | mesh/utils/base58/__init__.py:85-107 | the loop computes the number spelled, or fails |
| Base58.B58Encode | mesh/utils/base58/__init__.py:51-66 | the whole encoder equals the function with the round-trip laws |
| Base58.B58Decode | mesh/utils/base58/__init__.py:110-126 | the whole decoder equals the function with the round-trip laws |
| Base58.BitcoinAlphabetIsGood | mesh/utils/base58/__init__.py:19-20 | the alphabet in use has distinct, non-blank characters, as the round trips need |

## Left out

- Sockets, processes, pipes, futures and the RPC transport: replies are arbitrary inputs.
- Searches with a beam size of zero, for which the program raises an exception: it is a precondition here.
- Producer.Consensus.RunVerifyAndScorePeers: takes whether there are scores as a parameter; what they are is `Submission.VerifyAndScorePeers`.
- Reveals whose bytes decode to something other than a list of scores, and public keys from which no peer id can be extracted.
- Attestation and proposal calls to the chain: the attestation phase only reads the clock here.
- `last_updated` of buckets and the periodic refresh of the routing table.
- Callbacks and tasks that `traverse_dht` starts when a query finishes, and a `get_neighbors` that raises.
- Comparison of heap entries by peer id, which only decides between two entries of the same node in a misplaced table.
- Serialisation of dictionary values, and the statuses that replica stores report per subkey.
- SearchStates.SearchState.AddCandidate: does not say what merging into an object of local storage does to the outer entry there; that is `DhtStorages.DHTLocalStorage.MergeReply`.
- DhtStorages.DHTLocalStorage.MergeReply: does not take the larger size limit, because dictionaries of local storage are created without one.
- Cleanup of request statistics and the escalation log of the rate limiter.
- Signing of requests and responses and access tokens.
- Base58 with `autofix` and with checksums.
- Floating-point rounding of percentages, scores and times.
- Formatting of record keys and hashing: distinct keys are distinct values.
- Near copies of the storage modules (`mesh/dht/storage_v2.py`, `mesh/utils/timed_storage_v2.py`), compression, tensors, command lines, metrics, heartbeat and server threads.
