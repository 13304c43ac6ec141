# A verified model of sandbox0's state and naming core

sandbox0 runs sandboxes in many clusters behind gateways. This project models the parts of it
that keep state or carry meaning in text, and proves what they keep over every run and every
input:

- the TTL and LRU cache (`pkg/cache`), as a value and as the map and linked list it is built from;
- region routing in the global gateway: the read-through route cache under interleaved resolvers
  and writers, and the get-or-create map of proxies;
- the name codec (`pkg/naming`): cluster keys, replica set, sandbox and host label names;
- public route matching and path rewriting in the cluster gateway;
- the internal token validator with its replay memory;
- the clock synchronised with the database;
- the stores and codecs around them: egress credentials on the wire and in memory, the versioned
  credential store, the metering log with cursor reads, and the SSH grant header.

## How it is laid out

| files | what they hold |
|---|---|
| `Common`, `Text`, `Decimal` | options and results; trimming, splitting, joining, ASCII case; decimal numbers |
| `CacheSpec`, `CacheRuns` | the cache as one recency sequence; theorems over whole runs |
| `LinkedList`, `Cache` | the ring of list elements and the cache class, each method proved to do what `CacheSpec` says |
| `RegionRoutes`, `RegionProxies`, `RegionServer` | the two protocols as interleaved steps; the server's methods |
| `Base32`, `DnsLabel`, `SandboxNames`, `ExposureLabels` | the name codec, bottom up |
| `GatewayPolicy`, `GatewayRewrite` | route matching; path rewriting |
| `TokenValidator`, `SyncClock` | replay safety; clock error |
| `EgressWire`, `EgressHeap` | resolved credentials as values; the same behind pointers, cloned and repaired in place |
| `CredentialStore` | the credential store as transactions over tables |
| `Metering` | the metering store, one statement at a time |
| `MeteringTable`, `MeteringCommits`, `MeteringStatus` | its tables under open transactions; cursor reads and the status over runs of them |
| `SshGrants` | the header codec |

Code that updates things in place is a class or a method with loops, and its `ensures` equates the
new state with a function of the old one; what the source promises is then proved about that
function. Times are integers in nanoseconds and are parameters, because the clock is. What another
library computes (SHA-1, JWT parsing and signatures, the JSON bytes) is a parameter or an assumed
outcome. A method that runs under one lock, and a database transaction, is one atomic step.

## What the code does that its documentation or a first reading would not say

- A region served from the route cache can differ from the directory after the cache was cleared:
  a resolver that read the directory before a write may fill the cache after the clear
  (`RegionRoutes.OverlapServesStale`). `RegionRoutes.StaleExactly` says exactly when.
- The validator's documentation promises a clock skew tolerance on expiry. The JWT library has
  already refused the token from its expiry on, without tolerance, so a tolerance that is not
  negative changes nothing (`TokenValidator.ToleranceHasNoEffect`, `TokenValidator.RefusedWithinTolerance`;
  exact in `TokenValidator.ToleranceExactly` and `TokenValidator.TolerantExactly`). By the same check
  replay safety holds for every tolerance (`TokenValidator.AtMostOnce`).
- `PutSource` commits and then queries the metadata. When that query fails it reports an error with
  the new version already stored, and a retry stores another (`CredentialStore.RetryRaisesTwice`).
  So does a commit whose answer is lost. `CredentialStore.FailureExactly` and
  `CredentialStore.PutFailureExactly` say exactly which errors leave the store unchanged.
- A metering row gets its sequence number when it is inserted and is visible when its transaction
  commits. A reader whose cursor has passed the number by then never receives the row
  (`MeteringCommits.LateRunLoses`, exact in `MeteringCommits.NothingLostExactly`). For the same reason
  the rows up to a reported latest number are not settled (exact in `MeteringStatus.StatusExactly`).
- The metering status reads the latest event before the watermarks, so it can claim completeness
  past an event it does not count (`MeteringStatus.StatusRunsAhead`, exact in
  `MeteringStatus.EventsCoveredExactly` and, for windows, `MeteringStatus.WindowsCoveredExactly`).
- The comment on the clock's `Now` says that time does not go backward. A resynchronisation can set
  it back (`SyncClock.ResyncGoesBackward`); `SyncClock.NeverBackwardExactly` gives the exact
  condition and `SyncClock.RunReadings` the bound.
- Route prefixes may end with slashes, since configuration only adds a leading one. Such prefixes
  can make the match depend on route order (`GatewayPolicy.TrailingSlashesDependOnOrder`, exact in
  `GatewayPolicy.OrderIndependentExactly`) and can be matched but not rewritten
  (`GatewayRewrite.DoubledSlashIsNotRewritten`, exact in `GatewayRewrite.RewriteMeaning`).
- The host label parser accepts port texts the builder never writes, such as `080`
  (`ExposureLabels.PaddedPortParses`, exact in `ExposureLabels.BuildParse`).
- Replay memory lasts five minutes past expiry, so two tokens with one ID are kept apart exactly as
  long as their expiries differ by at most that (`TokenValidator.AtMostOnceExactly`).
- A grant with a blank user hides a later grant for the same team before encoding, not after
  (`SshGrants.BlankGrantHides`, exact in `SshGrants.LookupSurvives`), and a comma splits a grant into
  two (`SshGrants.CommaSplitsGrant`, exact in `SshGrants.HeaderRoundTrip`).

## Model

| member | source | states |
|---|---|---|
| LinkedList.List.PushFront | pkg/cache/cache.go:106-109 | a new element is linked in front; the ring, the order and the values of all others are kept |
| LinkedList.List.Remove | pkg/cache/cache.go:219-223 | exactly the element at that place is unlinked; the rest keep order and values |
| LinkedList.List.MoveToFront | pkg/cache/cache.go:98-103 | the element goes in front, the others keep their order; an element already in front is left alone |
| CacheHeap.Cache.Set | pkg/cache/cache.go:87-115 | map and list together do what the recency sequence does: renew and move to front, or add and evict the last over capacity; each key maps to its own element and no key repeats |
| CacheHeap.Cache.Get | pkg/cache/cache.go:119-145 | same refinement for a lookup: miss, expired (removed) or hit (moved to front), with the counters |
| CacheHeap.Cache.Delete | pkg/cache/cache.go:148-155 | removes exactly that key from map and list |
| CacheHeap.Cache.Clear | pkg/cache/cache.go:158-164 | leaves no entry and the counters as they were |
| CacheHeap.Cache.Len | pkg/cache/cache.go:167-171 | the size of the map is the length of the recency sequence |
| CacheHeap.Cache.EvictLRU | pkg/cache/cache.go:210-215 | removes exactly the least recently used entry, if there is one |
| CacheHeap.Cache.DeleteElement | pkg/cache/cache.go:219-223 | removes one element from both structures and keeps them in step |
| CacheHeap.Cache.CollectExpired | pkg/cache/cache.go:252-257 | the first loop lists, once each, exactly the expired elements |
| CacheHeap.Cache.Cleanup | pkg/cache/cache.go:241-264 | the two loops together are one order-preserving filter |
| CacheSpec.RetainMembers | pkg/cache/cache.go:249-263 | the filter keeps exactly the items its rule keeps |
| CacheRuns.CleanupExact | pkg/cache/cache.go:241-264 | a sweep keeps the order and drops exactly the expired entries |
| CacheRuns.RunWellFormed | pkg/cache/cache.go:87-164 | after every run no key repeats and a positive maxSize is never exceeded |
| CacheRuns.EntriesAreLatest | pkg/cache/cache.go:87-115 | every entry held after any run is the last one set under its key, not deleted or cleared since, with that set's expiration |
| CacheRuns.HitIsLatest | pkg/cache/cache.go:117-145 | a hit returns the latest value set, no later than that set's time plus TTL |
| CacheRuns.CountersExact | pkg/cache/cache.go:119-145 | over every run the two counters are the numbers of answered and unanswered lookups |
| CacheRuns.UnlimitedIsDictionary | pkg/cache/cache.go:28-29 | without a capacity, and with a clock that does not go back, lookups answer exactly as a plain dictionary with expiry does |
| CacheRuns.Inclusion | pkg/cache/cache.go:87-164 | LRU inclusion: on the same operations the smaller cache's recency sequence is a subsequence of the larger one's, and the size gap is at most the capacity gap |
| CacheRuns.HitInclusion | pkg/cache/cache.go:119-145 | every hit of the smaller cache is the same hit of the larger one |
| CacheRuns.EvictionGuarantee | pkg/cache/cache.go:10-12 | a key set or hit, and not deleted, cleared or expired since, is missing only if at least maxSize distinct other keys were set or hit after it |
| CacheRuns.EvictedExactly | pkg/cache/cache.go:111-114 | with no deletion, no lookup of an expired key and nothing for a sweep to drop since, it is evicted if and only if that many were |
| RegionRoutes.RunExplained | global-gateway/pkg/http/server.go:267-298 | under every interleaving each cached region came from a put of a row its resolver had fetched, and no writer has cleared since |
| RegionRoutes.BoundedStaleness | global-gateway/pkg/http/server.go:60-61 | a served region is enabled, has a URL, and is what the directory held at most TTL plus that fill's fetch-to-put time ago |
| RegionRoutes.StaleOnlyByOverlap | global-gateway/pkg/http/server.go:306-314 | with all clears done and failed writes changing nothing, a served region differs from the directory only if a write to that row fell between its fetch and its put |
| RegionRoutes.StaleExactly | global-gateway/pkg/http/server.go:267-314 | under the same conditions, for every fill it can have come from, it is current if and only if the row was the same at that put as at that fetch |
| RegionRoutes.OverlapServesStale | global-gateway/pkg/http/server.go:272-278 | a run in which a removed region is served after the clear |
| RegionRoutes.SequentialResolveIsDirect | global-gateway/pkg/http/server.go:267-280 | over every sequence of requests that do not overlap, a resolve answers what reading the directory would; with the directory failing, a hit still does and a miss fails |
| RegionRoutes.FillServes | global-gateway/pkg/http/server.go:272-279 | after a miss that found a row, and for eight hours, the region is served without the directory if and only if it is enabled and has a URL |
| RegionRoutes.LookupTrims | pkg/gateway/tenantdir/repository.go:42-62 | white space around an ID plays no part; a trimmed ID is looked up as it is |
| RegionRoutes.DirectReplyExactly | global-gateway/pkg/http/server.go:272-275 | the reply is the row, or not found without one |
| RegionServer.Server.ResolveRoutableRegion | global-gateway/pkg/http/server.go:267-298 | the method is the protocol's resolve: its reply and the cache it leaves |
| RegionServer.Server.InvalidateOnWrite | global-gateway/pkg/http/server.go:300-314 | clears exactly on a status from 200 to 399 |
| RegionServer.Server.GetRegionProxy | global-gateway/pkg/http/server.go:324-345 | fails only if there is no proxy and none can be built; never replaces or removes an entry |
| RegionProxies.EntriesKept | global-gateway/pkg/http/server.go:340-344 | over every run no map entry is ever replaced or removed |
| RegionProxies.AskedFor | global-gateway/pkg/http/server.go:325 | throughout every run a call works for the trimmed URL it was called with |
| RegionProxies.SameRouter | global-gateway/pkg/http/server.go:324-345 | in every interleaving, two calls that succeed return one router if and only if the trimmed URLs they were called with are the same, and it was built for that URL |
| RegionProxies.Linearizable | global-gateway/pkg/http/server.go:324-345 | with each call placed at one of its own steps, failed calls at their read check, every outcome and the map are those of an indivisible get-or-create |
| RegionProxies.HistoryComplete | global-gateway/pkg/http/server.go:324-345 | that history holds every finished call, successful or not, exactly once with its outcome for the trimmed URL it was called with, and no other |
| RegionProxies.RealTimeOrder | global-gateway/pkg/http/server.go:324-345 | and puts a call that finished before another started before it |
| Base32.PackIsPositional | pkg/naming/core.go:42-44 | five bytes and their eight digits are the same number, as section 6 of RFC 4648 lays it out |
| Base32.EncodeQuintets | pkg/naming/core.go:139 | for every byte string, digit i is the number made of the five bits from bit 5i on, zero bits past the end |
| Base32.AlphabetIsStandard | pkg/naming/core.go:42-44 | the alphabet is that of section 6 of RFC 4648 |
| Base32.DecodeAccepts | pkg/naming/core.go:153-156 | decoding fails exactly on a character outside the alphabet that is no line break |
| Base32.RoundTrip | pkg/naming/core.go:135-158 | decoding the upper-cased lower-case encoding of every byte string gives it back |
| DnsLabel.NormalizeToDNSLabel | pkg/naming/core.go:67-91 | the loop with its dash flag computes the specification |
| DnsLabel.NormalizeIsJoin | pkg/naming/core.go:67-91 | the result is the maximal runs of letters and digits, lower-cased, joined by single dashes; it fails exactly when there is none |
| DnsLabel.NormalizeIdempotent | pkg/naming/core.go:67-91 | normalizing twice is normalizing once |
| DnsLabel.TruncateShape | pkg/naming/core.go:98-111 | the truncated text is a label within the bound and ends with the hash when there is room |
| DnsLabel.SlugTotal | pkg/naming/core.go:113-133 | for bounds 1 to 63 a slug exists exactly for inputs with a letter or digit, and is a valid label within the bound |
| DnsLabel.SlugExactly | pkg/naming/core.go:98-133 | an input that is normalized up to case and fits is its own slug in lower case; any other gets as much of its normalized text as fits, a dash and the hash of the input |
| DnsLabel.HashedCollision | pkg/naming/core.go:113-133 | with a bound of at least 8, two hashed inputs share a slug only if their short hashes are equal |
| DnsLabel.PlainCollision | pkg/naming/core.go:113-133 | two unhashed inputs share a slug only if they are equal up to case |
| SandboxNames.KeyShape | pkg/naming/core.go:139 | a key has length ceil(8n/5) and only letters and digits |
| SandboxNames.EncodeSucceeds | pkg/naming/core.go:135-147 | encoding succeeds exactly on valid cluster IDs; neither later check can fail |
| SandboxNames.KeyRoundTrip | pkg/naming/core.go:149-158 | decoding a key gives back its ID, for every non-empty byte string |
| SandboxNames.ReplicasetNameExact | pkg/naming/replicaset.go:21-40 | a name exists exactly for a valid cluster ID and a template with a letter or digit; it is the cluster's head followed by the template's slug in the room left, a label of at most 49 characters |
| SandboxNames.SandboxNameExact | pkg/naming/replicaset.go:43-65 | a name exists exactly when, besides, the suffix is one to five lower-case letters or digits; it is the replica set name, a dash and the suffix, within 55 characters |
| SandboxNames.SandboxNameInjective | pkg/naming/replicaset.go:57 | equal sandbox names belong to equal replica set names, cluster IDs and suffixes |
| SandboxNames.ParseFromHead | pkg/naming/parse.go:23-68 | every name built for a cluster parses to that cluster's ID and key, whatever follows |
| SandboxNames.ParseExactly | pkg/naming/parse.go:23-68 | exactly which names parse, and to what: those that begin with the head for a key without dashes that decodes |
| SandboxNames.ReplicasetNameInjective | pkg/naming/replicaset.go:21-40 | equal replica set names belong to equal cluster IDs |
| ExposureLabels.BuildExact | pkg/naming/parse.go:72-90 | a host label exists exactly for a valid name and port that fit into 63 characters |
| ExposureLabels.ParseBuild | pkg/naming/parse.go:93-114 | parsing undoes building, also for names that contain the delimiter |
| ExposureLabels.BuildParse | pkg/naming/parse.go:93-114 | building undoes parsing if and only if the port text starts with a digit 1 to 9 and the label has at most 63 characters |
| ExposureLabels.ParseExactly | pkg/naming/parse.go:93-114 | a name, the last delimiter and a port text parse to that name and number if and only if the name is a label and the number a valid port |
| Decimal.AtoiExactly | pkg/naming/parse.go:109 | a port text is a number exactly when it is digits, or a sign and digits |
| ExposureLabels.PaddedPortParses | pkg/naming/parse.go:109-113 | the parser accepts a padded port |
| ExposureLabels.EndToEnd | pkg/naming/core.go:13-27 | for every valid ID, template, suffix and port, both names exist within 55 and 63 characters and parse back to the same name, port and cluster ID |
| GatewayPolicy.MethodAllowed | cluster-gateway/pkg/http/public_gateway_policy.go:85-95 | true exactly when the list is empty, has `*`, or has the method up to case |
| GatewayPolicy.MatchPublicGatewayRoute | cluster-gateway/pkg/http/public_gateway_policy.go:41-73 | the loop returns the first route with the longest applicable prefix on that port, or none exactly when none applies |
| GatewayPolicy.MatchIsSegments | cluster-gateway/pkg/http/public_gateway_policy.go:75-83 | for every prefix but the root, exactly which paths match in terms of path segments |
| GatewayPolicy.NormalizedMatchIsSegments | cluster-gateway/pkg/http/public_gateway_policy.go:75-83 | for prefixes that start and do not end with a slash, and the root, matching an absolute path is being its first segments |
| GatewayPolicy.BestIsMostSpecific | cluster-gateway/pkg/http/public_gateway_policy.go:41-73 | the chosen route's segments extend those of every applicable route |
| GatewayPolicy.OrderIndependentExactly | cluster-gateway/pkg/http/public_gateway_policy.go:60-63 | all orders of the routes choose the same route for a path if and only if no two different routes tie for the longest applicable prefix |
| GatewayPolicy.OrderIndependent | cluster-gateway/pkg/http/public_gateway_policy.go:41-73 | distinct normalized prefixes never tie, so with them the order does not matter |
| GatewayPolicy.TrailingSlashesDependOnOrder | manager/pkg/service/public_gateway.go:151-160 | prefixes with trailing slashes, which configuration keeps, can tie: two orders, two choices |
| GatewayRewrite.Request.RewritePath | cluster-gateway/pkg/http/public_gateway_policy.go:261-276 | updates the request as the specification says, and leaves it alone when the rewrite is skipped |
| GatewayRewrite.JoinIsConcat | cluster-gateway/pkg/http/public_gateway_policy.go:278-286 | joining concatenates the non-empty segments, for all slash placements |
| GatewayRewrite.JoinSegments | cluster-gateway/pkg/http/public_gateway_policy.go:278-286 | to the letter: a prefix alone as it is; otherwise all segments, empty ones included, on both sides of one slash |
| GatewayRewrite.RewriteMeaning | cluster-gateway/pkg/http/public_gateway_policy.go:261-286 | for every matched path the result is the rewrite prefix's segments followed by those left after the matched prefix, if and only if the path literally starts with the prefix, the prefix is the root, or nothing would change |
| GatewayRewrite.RewriteSegments | cluster-gateway/pkg/http/public_gateway_policy.go:261-286 | for every path, prefix and rewrite prefix, the rewritten path segment by segment, empty ones included, and when the path is kept |
| GatewayRewrite.NormalizedRewriteMeaning | cluster-gateway/pkg/http/public_gateway_policy.go:261-286 | hence always for normalized prefixes |
| GatewayRewrite.RewriteStaysAbsolute | cluster-gateway/pkg/http/public_gateway_policy.go:278-286 | the result stays absolute |
| GatewayRewrite.DoubledSlashIsNotRewritten | cluster-gateway/pkg/http/public_gateway_policy.go:270-273 | a matched path that is not rewritten |
| TokenValidator.HasPermissions | pkg/internalauth/token.go:313-327 | true exactly when every required permission, or the wildcard, is held |
| TokenValidator.Validator.ValidateWithOptions | pkg/internalauth/token.go:191-278 | the answer (which check fails first, the library's expiry check included) and the replay memory after it |
| TokenValidator.AcceptedExactly | pkg/internalauth/token.go:179-278 | accepts if and only if the signature holds, the machine's clock is before expiry, every check not skipped passes and the ID is not remembered; a refusal remembers nothing |
| TokenValidator.ErrorsExactly | pkg/internalauth/token.go:208-276 | each error is given exactly when its check is the first, in the source's order, to fail |
| TokenValidator.ToleranceExactly | pkg/internalauth/token.go:182 | the promised tolerance is kept, at a time by one clock, exactly outside the span from expiry to the end of the tolerance |
| TokenValidator.RefusedWithinTolerance | pkg/internalauth/options.go:69 | with the default five seconds a token is refused as expired at its expiry |
| TokenValidator.TolerantExactly | pkg/internalauth/token.go:224-228 | a configuration keeps the promise for all tokens and times if and only if its tolerance is negative |
| TokenValidator.ToleranceHasNoEffect | pkg/internalauth/token.go:201-228 | any two tolerances that are not negative give the same answer and memory |
| TokenValidator.Validator.CleanupExpiredJTI | pkg/internalauth/token.go:302-310 | the sweep forgets exactly the IDs that expired more than five minutes ago |
| TokenValidator.Remembered | pkg/internalauth/token.go:289-310 | in every run an accepted ID stays remembered until five minutes past its expiry |
| TokenValidator.AtMostOnce | pkg/internalauth/token.go:191-310 | in every run, with replay detection on and one expiry per ID, no ID is accepted twice, for every tolerance and whatever clock the validator is given |
| TokenValidator.AtMostOnceExactly | pkg/internalauth/token.go:289-310 | over all runs with cleanups started as the code starts them, that holds for IDs whose expiries differ by up to `gap` seconds if and only if `gap` is at most five minutes |
| SyncClock.Clock.Synchronise | pkg/clock/clock.go:230-274 | a failed query changes no reading; a successful one stores the time from request to answer, the storing time, the database's time and the offset to the middle of the round trip; warns exactly on a change of offset over the limit |
| SyncClock.Clock.Now | pkg/clock/clock.go:166-173 | the database time of the last sync plus the local time since it was stored |
| SyncClock.NowWithinBound | pkg/clock/clock.go:166-173 | never ahead of the database, and behind by at most the time the sync took until stored |
| SyncClock.OffsetWithinHalfTrip | pkg/clock/clock.go:240-244 | the offset is off by at most half the time from request to answer, rounded up; that time is the stored round trip |
| SyncClock.ClustersAgree | pkg/clock/clock.go:166-173 | two clusters differ by at most the larger of their bounds |
| SyncClock.RunReadings | pkg/clock/clock.go:164-173 | over every run: the bounds, exact advance between syncs, and a step back of at most the new bound across them |
| SyncClock.NeverBackwardExactly | pkg/clock/clock.go:164-165 | readings never go backward, wherever they fall, if and only if no sync lags more than the one before it |
| SyncClock.ResyncGoesBackward | pkg/clock/clock.go:164-165 | a sound run whose readings go backward |
| Text.TrimSpaceOnly | pkg/sshgateway/authz.go:20-21 | trimming takes away only white space, at both ends |
| EgressWire.MergedIsLaterWins | pkg/egressauth/types.go:245-262 | a header is in the view exactly when an HTTP header directive sets it, with the last such value |
| EgressWire.EnsureTwice | pkg/egressauth/types.go:180-193 | repairing twice is repairing once |
| EgressWire.CloneKeeps | pkg/egressauth/types.go:228-303 | a clone holds every field and directive of the original in place, with nil for what is empty, or the directive its headers stand for |
| EgressWire.CloneIsClean | pkg/egressauth/types.go:228-243 | a clone needs no repair, its directives are their own clones, and its headers are their view |
| EgressWire.CloneTwice | pkg/egressauth/types.go:228-243 | cloning twice is cloning once |
| EgressWire.CloneViewsMerge | pkg/egressauth/types.go:245-262 | the header view of a clone is the later-wins merge of the original's directives |
| EgressWire.WireRoundTrip | pkg/egressauth/types.go:196-225 | unmarshalling what was marshalled gives the clone, for every response |
| EgressWire.LegacyUpgrade | pkg/egressauth/types.go:206-225 | a payload with headers only is read as one HTTP header directive with those headers |
| EgressHeap.CloneStringMap | pkg/egressauth/types.go:305-314 | the copying loop makes a new map with the same entries, or nil for an empty one |
| EgressHeap.CloneDirectives | pkg/egressauth/types.go:264-303 | every cell reachable from the copy is new, and the copy has the specified value |
| EgressHeap.ExtractHTTPHeaders | pkg/egressauth/types.go:245-262 | the nested loops compute the merged view in a new map |
| EgressHeap.Response.EnsureCompatibilityFields | pkg/egressauth/types.go:180-193 | repairs in place: the value is the repaired one, over old cells and new ones only |
| EgressHeap.Response.UnmarshalJSON | pkg/egressauth/types.go:208-225 | changes nothing when decoding fails; otherwise replaces the contents, sharing no cell with the payload |
| EgressHeap.CloneResolveResponse | pkg/egressauth/types.go:228-243 | a deep copy: no mutable cell is shared with the original, nothing existing is written, and the value is the clone's |
| EgressHeap.ResponseIs | pkg/egressauth/types.go:21-30 | every response in memory has such a value and set of cells |
| CredentialStore.Repository.PutSource | pkg/egressauth/repository.go:349-426 | the transaction's steps and the query after the commit amount to the specified change and answer |
| CredentialStore.Repository.UpsertBindings | pkg/egressauth/repository.go:117-177 | the delete, the insert loop and the commit, under each fault, amount to the specified change and error |
| CredentialStore.FailureExactly | pkg/egressauth/repository.go:117-450 | an operation that reports an error has changed nothing if and only if no fault (an answer lost, a put's query failing) came after a commit that changed something |
| CredentialStore.PutFailureExactly | pkg/egressauth/repository.go:349-426 | for a put, in every reachable state: if and only if a field is missing or no fault came after the commit |
| CredentialStore.RetryRaisesTwice | pkg/egressauth/repository.go:422-425 | such a put reports an error, and retrying it raises the version by two |
| CredentialStore.RunInv | pkg/egressauth/migrations/00001_init_schema.sql:3-40 | in every reachable state the stored versions of each source are exactly 1 to its current one, IDs are unique, and every binding pins a stored version |
| CredentialStore.PutInv | pkg/egressauth/repository.go:385-422 | a put keeps that, and never meets a duplicate version |
| CredentialStore.PutReadsBack | pkg/egressauth/repository.go:349-426 | in every reachable state the transaction of a complete put succeeds and reads back: kind, next version, spec; no other source, stored version or binding changes |
| CredentialStore.DeleteReadsBack | pkg/egressauth/repository.go:428-450 | in every reachable state a deleted source and its versions no longer read back; every other source, version and binding is as before |
| CredentialStore.DeleteBindingsReadsBack | pkg/egressauth/repository.go:179-197 | deleted bindings no longer read back, and no other sandbox changes |
| CredentialStore.AttemptExactly | pkg/egressauth/repository.go:117-450 | exactly which operations succeed without faults: the fields required, no binding on a source deleted, insertable bindings |
| CredentialStore.EverythingResolves | pkg/egressauth/repository.go:234-347 | the metadata join finds every source, and every binding resolves to a spec |
| CredentialStore.PinnedSpec | pkg/egressauth/repository.go:234-273 | over every run, a stored version keeps its spec while its source exists |
| CredentialStore.UpsertReadsBack | pkg/egressauth/repository.go:61-177 | replacing bindings succeeds exactly when no ref repeats and every pinned version is stored; then exactly the new ones are read back and no other sandbox changes |
| Metering.Repository.AppendEvent | pkg/metering/repository.go:65-120 | an invalid event changes nothing; a valid one is added unless its ID is there; sequence numbers stay ordered and IDs unique |
| Metering.Repository.AppendWindow | pkg/metering/repository.go:130-197 | likewise for windows |
| Metering.EventErrorExactly | pkg/metering/repository.go:66-83 | an event is accepted exactly when every field it needs is there; each error names the first that is not |
| Metering.WindowErrorExactly | pkg/metering/repository.go:131-157 | a window likewise, with its end not before its start and a value that is not negative |
| Metering.Repository.ListEventsAfter | pkg/metering/repository.go:231-273 | the selection after a sequence number, in order, up to the limit (100 if not positive) |
| Metering.CursorReads | pkg/metering/repository.go:231-273 | with rows visible in the order of their numbers: for every interleaving of appends, duplicates included, and polls with any limits, a reader has received a prefix of the first appends, in order, each ID once |
| MeteringTable.AfterOrdered | pkg/metering/repository.go:36-54 | over every run of inserts, waits, commits and aborts, visible rows are in order and no number or ID is in use twice |
| MeteringTable.LatestExactly | pkg/metering/repository.go:324-336 | the rows up to the latest visible number are for ever those visible now if and only if no later commit brings a lower number |
| MeteringTable.InsertAppears | pkg/metering/repository.go:90-107 | an insert with a new ID, once committed, is a visible row under the number it drew |
| MeteringCommits.NothingLostExactly | pkg/metering/repository.go:61-63 | with inserts, waits on open duplicates, commits and aborts as separate steps in any order: no row the cursor has passed is missing if and only if no row committed after the cursor had passed its number |
| MeteringCommits.ReceivedIsPrefix | pkg/metering/repository.go:231-273 | without such commits the reader has received exactly the first of the visible rows, as listed |
| MeteringCommits.WaitingKeepsNumber | pkg/metering/repository.go:106 | an insert of an ID that an open transaction has inserted draws its number and waits; if that one aborts it becomes pending under the early number, if it commits it comes to nothing |
| MeteringCommits.NothingRepeated | pkg/metering/repository.go:231-273 | whatever the order of commits, rows are received in order and no ID twice |
| MeteringCommits.LateRunLoses | pkg/metering/repository.go:61-63 | a run that loses a row |
| Metering.PollProgress | pkg/metering/repository.go:231-273 | every poll receives all that is left, up to its limit |
| Metering.LogHoldsFirsts | pkg/metering/repository.go:91-107 | the log holds the first append of each ID, in append order |
| Metering.Repository.UpsertProducerWatermark | pkg/metering/repository.go:207-229 | keeps the greater of the stored and the reported time |
| Metering.MarkIsGreatest | pkg/metering/repository.go:215-223 | over every run a producer's watermark is the greatest it reported |
| Metering.MarksNeverDecrease | pkg/metering/repository.go:215-223 | so it never decreases |
| Metering.Repository.GetStatus | pkg/metering/repository.go:321-356 | uninterrupted: the latest sequence numbers, the number of producers, the least watermark, which is at most every producer's, and the greatest region reported or the fallback |
| MeteringStatus.EventAppears | pkg/metering/repository.go:65-120 | a valid event with a new ID, inserted and committed, is visible with all its fields |
| MeteringStatus.WindowAppears | pkg/metering/repository.go:130-197 | likewise a window |
| MeteringStatus.StatusExactly | pkg/metering/repository.go:321-345 | with transactions open and committing between and after the queries: the rows up to each reported number are for ever those visible at its query if and only if none with such a number commits later; the reported time stays at most the watermark of every producer known when it was read |
| MeteringStatus.CoversExactly | pkg/metering/types.go:57-63 | for any table of rows with a producer and a time: if producers commit no row from before a time they have reported, all rows due, now or ever, are within the reported number if and only if none due with a higher number was committed between the two queries |
| MeteringStatus.EventsCoveredExactly | pkg/metering/repository.go:324-345 | this for events by the time they occurred |
| MeteringStatus.WindowsCoveredExactly | pkg/metering/repository.go:331-345 | this for windows by the time they end |
| MeteringStatus.StatusRunsAhead | manager/pkg/metering/lifecycle_projector.go:280-303 | one transaction with an event and a report, committed between the queries, that breaks it |
| SshGrants.EncodeAuthorizedGrants | pkg/sshgateway/authz.go:16-33 | the loop writes the distinct texts of the trimmed, non-blank grants |
| SshGrants.CleanExactly | pkg/sshgateway/authz.go:20-24 | the grants that count are exactly the trimmed ones of which neither part is blank |
| SshGrants.DistinctOnce | pkg/sshgateway/authz.go:25-30 | no text is written twice |
| SshGrants.DistinctInOrder | pkg/sshgateway/authz.go:25-30 | dropping later duplicates keeps the order of first occurrences |
| SshGrants.ParseAuthorizedGrants | pkg/sshgateway/authz.go:36-49 | the loop reads the well-formed fields, in order |
| SshGrants.ParseFieldExactly | pkg/sshgateway/authz.go:40-45 | a field is a grant exactly when both sides of its first equals sign are not blank |
| SshGrants.HeaderRoundTrip | pkg/sshgateway/authz.go:15-49 | parsing the encoded header gives the trimmed, non-blank grants without later duplicates, if and only if none has a comma, or an equals sign in its team |
| SshGrants.CommaSplitsGrant | pkg/sshgateway/authz.go:25-37 | a user with a comma and another grant's text is read as two grants |
| SshGrants.UserIDForTeam | pkg/sshgateway/authz.go:52-64 | the first grant for the team decides; a blank user is not found |
| SshGrants.UserForExactly | pkg/sshgateway/authz.go:52-64 | a user is found exactly when the first grant for the trimmed team has one, and it is that one, trimmed |
| SshGrants.LookupSurvives | pkg/sshgateway/authz.go:52-64 | the lookup answers the same before encoding and after parsing if and only if no blank-user grant for the team comes before one with a user |
| SshGrants.BlankGrantHides | pkg/sshgateway/authz.go:57-62 | a list for which it does not |

## Left out

- Gin handlers, HTTP and WebSocket proxying, CORS, route authorization, rate limits, timeouts, logging, metrics and tracing: plumbing without an invariant of its own.
- The cache's background goroutine, its interval and `Close`; `Stats` and its hit rate; the wrap-around of its 64-bit counters, which are unbounded here.
- Overflow of 64-bit sequence numbers, versions, durations and times, and of `strconv.Atoi`: integers are unbounded.
- Case folding, lower and upper case beyond ASCII: `ToLower`, `ToUpper` and `EqualFold` change ASCII letters only.
- SHA-1: the short hash is any function to eight hexadecimal digits. Decoding a token and verifying its signature: their outcome is a parameter; the library's expiry check is modelled. A token without an expiry, on which the validator would dereference nil, is not modelled.
- Overlapping validations: checking and recording an ID take separate locks, so replay safety is stated for validations as whole steps. A cleanup runs as a separate step with the time at which it was started.
- The JSON text: marshalling is a codec that loses nothing but empty maps and slices.
- The schema beyond keys, foreign keys and cascades; row timestamps; the order in which bindings are listed; guards for an unconfigured repository or a nil record of bindings. A rolled-back insert uses up no source ID here and the query after a put's commit sees the state that commit left. The resolver kind is read from the live source and is not versioned.
- Metering.CursorReads: takes rows as visible in the order of their numbers; MeteringCommits drops that. Event and window fields that are only carried, the projection state and `ListWindowsAfter` (the same selection over windows) are left out.
- RegionServer.Server.GetRegionProxy: one call at a time; its interleavings are in RegionProxies.
- Clock drift: the local and the database clock are taken to advance at one rate, so the error does not grow between syncs.
- `ProcdConfigSecretName`, `ClusterIDOrDefault`, image, registry and template naming: compositions of what is proved here.
- `ParseReplicasetName`: the same body as `ParseSandboxName`.
- That producers keep the promise of their watermarks is a hypothesis of the metering theorems, not proved of the producers.
- Once-only rewriting across the exposure handler: the rewrite is stated for one call.
- The token generator, FUSE volumes, generated types, configuration loading, the operator and the benchmarks.
