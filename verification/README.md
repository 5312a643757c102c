# Weir, verified

Weir is a distributed rate limiter. HAProxy filters emit usage lines, a syslog server batches them into Redis, a policy
generator ("polygen") compares usage with limits, and Lua and C code inside HAProxy enforces the resulting policies.
This project models the parts of that loop whose correctness is hard to see and proves what they promise. `dafny verify
dfyconfig.toml` checks all of it.

| file | what it covers |
|---|---|
| `Bits.dfy`, `Probing.dfy`, `KHash.dfy` | the open-addressing hash table: word arithmetic, triangular probing, tombstones and the in-place kick-out rehash, against a finite map |
| `WeirFilter.dfy` | the filter's user table: raw pointers held by streams, per-direction counters, cleanup by other streams |
| `LimitShare.dfy`, `LimitMessage.dfy`, `LimitPipeline.dfy`, `ShareDelivery.dfy` | bandwidth limit shares from demand to message to the filters of all instances |
| `Violations.dfy`, `PolicyLine.dfy`, `BlockProtocol.dfy` | what polygen sends and when, how HAProxy reads it, and whether HAProxy blocks throughout a timed run |
| `RateLimit.dfy`, `RateTable.dfy` | backoff, the background cleaner, connection counts; the second-indexed violation table |
| `Text.dfy`, `StringSplit.dfy`, `Decimal.dfy`, `Wire.dfy` | tokenizers, numbers and the text formats between the components |
| `Batching.dfy`, `UsageLines.dfy` | the syslog server's batching of increments and active-request counts; what each usage line means for Redis |

Code that changes state is a class or a method with loops, proved against specification functions; the theorems about
whole runs are lemmas over those functions. A lock-protected section is one atomic step. Clocks, the connection state,
allocation results and message arrival are parameters of the events. Floating-point values are exact reals.

Some promises turned out to hold only under a condition, and the code is modelled as it is:

- `flt_weir.c:289` and `:341` say an enabled stream definitely has a limit. A stream activated with an unrecognised
  direction has none, one activated without the optional direction has no direction, and the header step of either
  aborts (`WeirFilter.ActivationAbortsIff`), as does data of a stream without direction (`PayloadAbortsIff`); with a
  user key and a recognised direction nothing aborts.
- A counter is not decremented by a stream that detaches without a processed request header or without an address
  (`WeirFilter.RejectedRequestLeaks`). Such an entry is never freed (`WeirFilter.LostEntryNeverFreed`); counters are
  exact exactly in the runs without such streams (`WeirFilter.CountsExactIff`).
- A limit-share entry without a positive share prints a line that ends the message for the reader, so later entries are
  lost (`LimitPipeline.ZeroLimitSilencesRest`). The round trip holds exactly when such entries come last
  (`LimitMessage.MessageRoundTrip`, in terms of demand and limits `LimitPipeline.SharesArriveIff`).
- A malformed connection key ends the demand loop: a short one quietly, with the demand collected so far used as if it
  were complete (`LimitPipeline.ShortKeyHidesDemand`; no key the server builds is short), any other one with an
  exception (exact condition in `BuiltKeyRaisesIff`).
- A user unblocked and blocked again within one second is never blocked by HAProxy in that second, because the second
  block message is de-duplicated (`BlockProtocol.ReblockInSameSecondIsLost`, exact condition in `FirstBlockHeard`), and
  likewise for a second unblock (`SecondUnblockIsLost`, exact condition in `UnblockHeard`).
- A user blocked by polygen whose metric disappears stays in polygen's blocked set (`VanishedUserReleased`).
- Two ratio updates between two generated messages can lower a resent ratio (`Violations.TwoAddsCanFall`, exact
  condition in `RatiosRiseIff`).
- A throughput key without a ratio makes message generation raise after earlier categories were marked sent, and their
  messages are lost (`Violations.Tracker.GenerateMessages`); non-zero ratios rule this out (`RatiosNeverMissing`).
- Mapping an address to a new key without removing the old mapping leaks one count of the old key for good
  (`RateLimit.OverwriteLeaks`, `LeakIsForGood`, exact condition in `CountsExactIff`).
- Policies more than three seconds ahead prune the current second (`RateTable.ExactIff`).
- `string_split` documents a final empty string for inputs that end with the delimiter. A self-overlapping delimiter
  makes it appear where the split has no such piece, the empty input gives no piece at all, and `max_entries` can be
  exceeded by it (`StringSplit.LuaSplitIsSplit`, `LuaSplitChar`, `LimitExceededIff`).
- While Redis is disconnected the waiting active-request values are cleared, so after a reconnection a key need not hold
  its last received value (`UsageLines.DisconnectionForgets`, exact condition in `LatestIsVisibleIff` and `ClearedIff`).

## Model

| member | source | states |
|---|---|---|
| Bits.KRoundUp32 | haproxy-lua/added-files/include/haproxy/khash.h:174-177 | for every 32-bit argument: the least power of two at or above it, and 0 for 0 and for arguments above 2^31, where the macro wraps |
| Bits.Smear | haproxy-lua/added-files/include/haproxy/khash.h:175-176 | one shift-and-or turn of the macro doubles the run of leading ones |
| Bits.MaskIsMod | haproxy-lua/added-files/include/haproxy/khash.h:230-232 | masking with `n - 1` is reduction modulo `n` for every power of two |
| Probing.ProbeInjective | haproxy-lua/added-files/include/haproxy/khash.h:51-53 | the first n triangular probes of a table of n = 2^e buckets are pairwise distinct, for every hash value |
| Probing.ProbeCovers | haproxy-lua/added-files/include/haproxy/khash.h:234-238 | the first n probes reach every bucket |
| Probing.FirstReturn | haproxy-lua/added-files/include/haproxy/khash.h:234-238 | the walk is back at its start at probe 2n - 1 and never before |
| KHash.LiveKeysUnique | haproxy-lua/added-files/include/haproxy/khash.h:234-239 | no two live buckets hold the same key |
| KHash.MissIsAbsent | haproxy-lua/added-files/include/haproxy/khash.h:234-239 | a walk that meets an empty bucket without meeting the key proves the key absent from the map |
| KHash.FindKey | haproxy-lua/added-files/include/haproxy/khash.h:229-239 | the probe loop of kh_get ends at the key or at an empty bucket, and the return-to-start exit is never taken |
| KHash.FindSlot | haproxy-lua/added-files/include/haproxy/khash.h:342-365 | the bucket search of kh_put ends at the key's own bucket, or else at the last tombstone met before the empty bucket, or else at that empty bucket |
| KHash.InsertRepresents | haproxy-lua/added-files/include/haproxy/khash.h:367-379 | writing a new key into an empty or deleted bucket of its path adds that key to the map and hides no other key |
| KHash.DeleteRepresents | haproxy-lua/added-files/include/haproxy/khash.h:382-387 | a tombstone removes exactly one key and leaves every other key reachable |
| KHash.LiveCountIsSize | haproxy-lua/added-files/include/haproxy/khash.h:367-387 | the number of live buckets is the cardinality of the map |
| KHash.Table.Get | haproxy-lua/added-files/include/haproxy/khash.h:227-242 | finds a bucket exactly when the map holds the key, and that bucket holds the map's value |
| KHash.Table.Put | haproxy-lua/added-files/include/haproxy/khash.h:328-381 | the returned bucket is live with the requested key, the map gains the key exactly when it was missing, the return code tells never-used from tombstone (never a tombstone after a rehash), and capacity is bounded by the live keys |
| KHash.Table.MakeRoom | haproxy-lua/added-files/include/haproxy/khash.h:330-340 | afterwards the table is below its load bound and the map is unchanged; a table that was full has no tombstone left |
| KHash.PutCapacity | haproxy-lua/added-files/include/haproxy/khash.h:330-340 | both resize requests of kh_put leave room for one more key: clean-up at the same capacity or doubling |
| KHash.LoadBound | haproxy-lua/added-files/include/haproxy/khash.h:324-324 | the load bound is 77 hundredths of the capacity, rounded to the nearest bucket, and leaves a free bucket |
| KHash.Table.Del | haproxy-lua/added-files/include/haproxy/khash.h:382-387 | removes the bucket's key from the map if it is live and does nothing otherwise |
| KHash.Table.SetValue | haproxy-lua/added-files/include/haproxy/khash.h:553-553 | changes the map at the bucket's key only |
| KHash.Table.Resize | haproxy-lua/added-files/include/haproxy/khash.h:243-327 | for every 32-bit request (grow, same size, shrink, too small, wrapping) the map is preserved; the capacity is the least fitting power of two and no tombstone is left after a rehash |
| KHash.Table.Rehash | haproxy-lua/added-files/include/haproxy/khash.h:277-325 | rehash to a given capacity keeps the map and the load bound, without tombstones |
| KHash.RehashArrays | haproxy-lua/added-files/include/haproxy/khash.h:258-322 | growing the arrays first or shrinking them last keeps the map represented |
| KHash.MoveAll | haproxy-lua/added-files/include/haproxy/khash.h:278-314 | the outer loop places every live old entry; the new flags then represent the whole map |
| KHash.KickOut | haproxy-lua/added-files/include/haproxy/khash.h:287-312 | the kick-out chain places the entry in hand and every entry it displaces; it ends because live old entries strictly decrease |
| KHash.FirstEmpty | haproxy-lua/added-files/include/haproxy/khash.h:288-292 | the probe loop of the rehash ends at the first empty new bucket of the path |
| KHash.RehashPartition | haproxy-lua/added-files/include/haproxy/khash.h:278-314 | at every step unmoved entries, the entry in hand and placed entries partition the map |
| KHash.RehashTake | haproxy-lua/added-files/include/haproxy/khash.h:279-286 | taking an old bucket in hand keeps that partition |
| KHash.RehashPlace | haproxy-lua/added-files/include/haproxy/khash.h:293-311 | placing the entry in hand keeps that partition, with or without a displaced entry |
| KHash.RehashRoom | haproxy-lua/added-files/include/haproxy/khash.h:291-292 | while an entry is in hand the new table has an empty bucket |
| KHash.RehashDone | haproxy-lua/added-files/include/haproxy/khash.h:315-325 | with nothing unmoved the new flags represent the map and occupied buckets equal its size |
| KHash.Replay | haproxy-lua/added-files/include/haproxy/khash.h:227-387 | every lookup in every run, of any length, of insert, write, delete and lookup from an empty table answers as a finite map does, as long as keys are added only while fewer than 2^30 are live |
| WeirFilter.StepInv | haproxy-lua/added-files/src/flt_weir.c:274-348 | each lock-protected section keeps the counting invariant, never follows a freed pointer, and aborts exactly for an activation without a user key whose direction is not refused first, a header step after an absent or unrecognised direction, and payload after an absent one |
| WeirFilter.RunIsSafe | haproxy-lua/added-files/src/flt_weir.c:97-103 | over every interleaving of any number of streams and every expiry rule no freed entry is followed; every live stream's pointer is the table's entry for its key and no counter is negative |
| WeirFilter.RunFromStartIsSafe | haproxy-lua/added-files/src/flt_weir.c:97-103 | the same for every run from the empty filter |
| WeirFilter.WellFormedNeverAborts | haproxy-lua/added-files/src/flt_weir.c:341-351 | with a user key and a recognised direction in every activation no run aborts |
| WeirFilter.WellFormedFromStart | haproxy-lua/added-files/src/flt_weir.c:341-351 | the same for every run from the empty filter |
| WeirFilter.ActivationAbortsIff | haproxy-lua/added-files/src/flt_weir.c:565-604 | in every state, activating a stream and running its header step aborts if and only if the user key is missing and the direction not refused first, or the stream has an address and the direction is absent or unrecognised |
| WeirFilter.PayloadAbortsIff | haproxy-lua/added-files/src/flt_weir.c:430-480 | in every state, activating a stream and passing data of it aborts if and only if the user key is missing, or the stream has an address, may send and was given no direction |
| WeirFilter.CountsExactIff | haproxy-lua/added-files/src/flt_weir.c:285-303 | counters equal the live holders at the end of a run if and only if every stream that held an entry when it detached had run its request-header step, with an address |
| WeirFilter.CountsExactFromStart | haproxy-lua/added-files/src/flt_weir.c:285-303 | the same for every run from the empty filter |
| WeirFilter.RejectedRequestLeaks | haproxy-lua/added-files/src/flt_weir.c:335-339 | from any state, a stream that is activated and detaches without its header step leaves one count behind |
| WeirFilter.LostEntryNeverFreed | haproxy-lua/added-files/src/flt_weir.c:637-648 | an entry with such a count is never freed again, in any run |
| WeirFilter.CleanupInv | haproxy-lua/added-files/src/flt_weir.c:626-653 | a cleanup keeps the counting invariant and touches no stream |
| WeirFilter.DoomedUnheld | haproxy-lua/added-files/src/flt_weir.c:637-648 | what a cleanup frees is held by no live stream, in either direction |
| WeirFilter.FreedOnlyWhenQuiet | haproxy-lua/added-files/src/flt_weir.c:637-648 | an entry disappears only in an activation's cleanup, with both counters at zero and its quiet period over |
| WeirFilter.FreedIff | haproxy-lua/added-files/src/flt_weir.c:626-653 | an activation frees a user's entry if and only if the cleanup is due, it is another user's, neither direction has an active request and 5 seconds have passed since the last one ended; the next cleanup is due 30 seconds later |
| WeirFilter.QuietEntryStays | haproxy-lua/added-files/src/flt_weir.c:638-644 | an entry whose quiet period runs out at no activation of a run is in the pool at its end |
| WeirFilter.EntryOutlivesRequest | haproxy-lua/added-files/src/flt_weir.c:293-301 | after the end of a counted request its entry survives every run whose activations come before the quiet period is over |
| WeirFilter.Filter.EnableFilter | haproxy-lua/added-files/src/flt_weir.c:513-657 | activation, with its three kinds of direction argument, lookup, count, cleanup and abort, is exactly the atomic step the run theorems speak of |
| WeirFilter.Filter.CleanTable | haproxy-lua/added-files/src/flt_weir.c:628-650 | the loop frees exactly the stale entries, in whatever order it visits the table |
| WeirFilter.Filter.HttpHeaders | haproxy-lua/added-files/src/flt_weir.c:323-351 | the request-header step, aborting exactly when the step does; the number for the `req` line is the live streams of this user and direction, the stream itself among them, plus those that left uncounted |
| WeirFilter.Filter.DetachStream | haproxy-lua/added-files/src/flt_weir.c:274-318 | detaching is the atomic step, including the streams that leave uncounted; a number for the `req_end` line is given exactly after a processed header with an address, and is the streams of this user and direction that remain plus those that left uncounted |
| WeirFilter.Filter.IngestLimitShare | haproxy-lua/added-files/src/flt_weir.c:119-182 | storing a share is the atomic step: a share at least as new as the stored one is kept in its direction, as it is up to 0xFFFF_FFFF bytes and as 0xFFFF_FFFF above; unknown directions only create the entry |
| LimitShare.SharesConserve | polygen/policy_generator.py:711-740 | for non-negative demand with positive total the truncated shares sum to at most the limit and to more than the limit minus the number of instances |
| LimitShare.SomeShareIsPositive | polygen/policy_generator.py:734-739 | a limit of at least one byte per instance gives some instance a positive share |
| LimitShare.ShareIsPositiveIff | polygen/policy_generator.py:736-739 | an instance gets a positive share if and only if limit times demand is at least the total demand |
| LimitShare.ShareIsProportional | polygen/policy_generator.py:736-739 | a share is the instance's part of the limit, in proportion to its demand, rounded down to a byte |
| LimitShare.TotalDemand | polygen/policy_generator.py:720-726 | the loop computes the sum over all instances |
| LimitShare.ComputeShares | polygen/policy_generator.py:711-740 | exactly the users and directions with non-zero total demand get an entry, with the shares of their own limit |
| LimitShare.NewestWins | haproxy-lua/added-files/src/flt_weir.c:157-175 | in every arrival order the share with the newest timestamp is the one stored, as it is up to 0xFFFF_FFFF and as 0xFFFF_FFFF above |
| LimitShare.HistoryStores | haproxy-lua/added-files/src/flt_weir.c:119-182 | after any filter run from the start, the newest message and any run that keeps the entry, the instance holds the newest share itself, or 0xFFFF_FFFF when it is larger |
| LimitShare.FiltersConserveLimit | haproxy-lua/added-files/src/flt_weir.c:119-182 | whatever the filters of all instances went through from their start, those named in the newest round together hold at most the user's limit, each its own share or 0xFFFF_FFFF when that is larger |
| LimitShare.RunDelivers | haproxy-lua/added-files/src/flt_weir.c:119-182 | in every filter run that keeps the user's entry the stored share is what the messages alone would have left |
| LimitMessage.IngestLines | haproxy-lua/src/haproxy_lua.lua:319-367 | the reading loop, with its early exits, computes the updates of the specification |
| LimitMessage.PoliciesSkipped | haproxy-lua/src/haproxy_lua.lua:305-317 | a `policies` block changes no share: it is skipped up to its end line, and reading goes on at the top |
| LimitMessage.MessageText | polygen/policy_generator.py:880-893 | the text of a message with one share, field by field |
| LimitMessage.BadComponentStops | haproxy-lua/src/haproxy_lua.lua:347-362 | a share that cannot be read ends its line, the shares before it on the line have been taken |
| LimitMessage.BadLineEndsMessage | haproxy-lua/src/haproxy_lua.lua:331-345 | a line not taken in full ends the message and the lines after it are read at the top; a line with fewer than three fields or without a number in front yields nothing; a second header changes nothing |
| LimitMessage.EntryReadBack | haproxy-lua/src/haproxy_lua.lua:334-365 | a printed line yields exactly its positive shares, and is refused exactly when it has none |
| LimitMessage.LinesOfMessage | polygen/policy_generator.py:890-893 | getline cuts the printed text back into the lines it was made of |
| LimitMessage.MessageRoundTrip | polygen/policy_generator.py:880-893 | reading a printed message yields exactly the positive tuples of the computed map if and only if no entry without a positive share is printed before one that has some |
| LimitMessage.MessageDelivers | haproxy-lua/src/haproxy_lua.lua:319-367 | every printed message delivers exactly the positive tuples of the entries before the first without a positive share |
| LimitMessage.FullMessageRoundTrip | polygen/policy_generator.py:880-893 | in particular the whole map when every entry has a positive share |
| LimitPipeline.AggregateDemand | polygen/policy_generator.py:822-847 | the loop stops at the first malformed key, quietly if it is too short and with an exception otherwise; every demand, also the partial one that is then used, is the sum of the counts reported by the keys read |
| LimitPipeline.ReportedAdds | polygen/policy_generator.py:846-847 | the demand reported by two groups of keys is the sum of what each reports: no count replaces another |
| LimitPipeline.BuiltKeyCounts | polygen/policy_generator.py:834-847 | a key built from clean fields counts for the user, direction and instance it was built from and for no other |
| LimitPipeline.BuiltKeyRaisesIff | polygen/policy_generator.py:834-841 | a key that the syslog server builds from any fields is never too short, and raises if and only if a field holds an underscore or the direction is unknown |
| LimitPipeline.ShortIff | polygen/policy_generator.py:834-837 | a key is too short if and only if it has fewer than five underscores |
| LimitPipeline.ShortKeyHidesDemand | polygen/policy_generator.py:835-837 | the failing run: a short key hides the demand of every key after it, and the round goes on |
| LimitPipeline.HasSharesIff | polygen/policy_generator.py:881-888 | an entry has something to print if and only if limit times demand reaches the total demand for some instance |
| LimitPipeline.SharesArriveIff | polygen/policy_generator.py:875-893 | the message delivers exactly the positive shares if and only if no user without a byte for any instance is printed before one that has some; all limits are conserved |
| LimitPipeline.SharesArrive | polygen/policy_generator.py:875-893 | in particular when every limit covers its number of instances |
| LimitPipeline.ZeroLimitSilencesRest | polygen/policy_generator.py:885-888 | the failing run: a user with a limit of 0 silences every user printed after it |
| LimitPipeline.ZeroLimitExample | polygen/policy_generator.py:885-888 | two users on one instance, the first with a limit of 0: nothing arrives although the second has a share |
| ShareDelivery.CallsInbox | haproxy-lua/added-files/src/flt_weir.c:127-145 | the filter of an instance is told exactly what the read updates address to it |
| ShareDelivery.ShareIsAddressed | polygen/policy_generator.py:880-893 | a printed message addresses every positive share of a user that is reached to its instance exactly once |
| ShareDelivery.MessageConservesLimit | polygen/policy_generator.py:875-893 | from demand to stored shares: after every named instance has read the printed newest message, among whatever else its filter does, the filters together hold at most the user's limit, each its own share or 0xFFFF_FFFF when that is larger |
| ShareDelivery.OneInstanceRound | haproxy-lua/added-files/src/flt_weir.c:119-182 | one user and one instance: the filter that reads the message after its start holds the whole limit in bytes, up to 0xFFFF_FFFF |
| Text.SplitJoin | syslog_server/src/stringsplit.cpp:37-50 | splitting a join gives the tokens back if and only if no token contains or starts an earlier, possibly overlapping, delimiter |
| Text.JoinSplit | syslog_server/src/stringsplit.cpp:37-50 | joining a split gives the input back, for every input and delimiter |
| Text.SplitJoinChar | polygen/policy_generator.py:834-835 | for a one-character separator the number of pieces alone tells whether the join splits back |
| StringSplit.Splitter.constructor | syslog_server/src/stringsplit.cpp:10-15 | a fresh splitter has made no call; an empty delimiter is an error from the start |
| StringSplit.Splitter.Next | syslog_server/src/stringsplit.cpp:17-53 | the k-th call returns the k-th token of the reference split, and the empty string after the last |
| StringSplit.Splitter.FinishedSuccessfully | syslog_server/src/stringsplit.cpp:55-59 | holds exactly when the calls equal the token count, or are one fewer and the last token is empty |
| StringSplit.TakeTokens | syslog_server/src/stringsplit.cpp:10-59 | both facts for any number of calls on any input |
| StringSplit.LuaStringSplit | haproxy-lua/src/haproxy_lua.lua:25-49 | the growing-table loop, with or without max_entries, and the suffix test compute the specified token list |
| StringSplit.LuaSplitIsSplit | haproxy-lua/src/haproxy_lua.lua:25-49 | Lua agrees with the reference split if and only if ending in the delimiter and a last empty token go together |
| StringSplit.LuaSplitChar | haproxy-lua/src/haproxy_lua.lua:25-49 | for one-character delimiters they agree on every non-empty input; the empty input gives no token |
| StringSplit.LuaOverlapDiffers | haproxy-lua/src/haproxy_lua.lua:44-46 | a self-overlapping delimiter makes the suffix test add a token |
| StringSplit.LuaLoopLimited | haproxy-lua/src/haproxy_lua.lua:31-42 | with max_entries n: all tokens when there are at most n, otherwise the first n - 1 and the rest of the input in one piece |
| StringSplit.LimitExceededIff | haproxy-lua/src/haproxy_lua.lua:33-46 | when there are more tokens than max_entries, the limit is exceeded by an empty entry if and only if the input ends with the delimiter |
| Decimal.ReadPrinted | syslog_server/src/msg_processor.cpp:293-296 | reading the decimal digits of a number gives the number |
| Decimal.DecimalExample | syslog_server/src/msg_processor.cpp:293-296 | digits are decimal, the most significant first |
| Decimal.FromCharsPrinted | syslog_server/src/msg_processor.cpp:293-300 | from_chars reads every printed integer back if it fits 32 bits and fails otherwise |
| Decimal.ToNumberPrinted | haproxy-lua/src/haproxy_lua.lua:340-358 | tonumber reads a printed number back, also with the newline getline leaves |
| Wire.TokensRoundTrip | syslog_server/src/msg_processor.cpp:283-291 | a printed line gives its tokens back if and only if they are separable by the three-character delimiter: none contains it or starts one that overlaps the next |
| Wire.FirstShortToken | syslog_server/src/msg_processor.cpp:283-291 | when they are not, the first token at fault comes back shorter |
| Wire.ReqRoundTrip | haproxy-lua/added-files/src/flt_weir.c:357-359 | a printed `req` line is parsed to the same fields if and only if its tokens are separable by `~|~` and every character of the user is printable ASCII |
| Wire.OverlapChangesTokens | syslog_server/src/msg_processor.cpp:283-291 | a field ending in the delimiter's first two characters is cut one character early |
| Wire.ConnItemsSurvive | syslog_server/src/msg_processor.cpp:313-313 | a connection key has six items exactly when no field holds an underscore, and then they are the fields |
| Wire.MetricRoundTrip | polygen/weir/models/user_metrics.py:230-255 | for whatever Python counts as alphanumeric: polygen's metric parser reads a connection key back to its fields if and only if no field holds an underscore, the user is alphanumeric and the endpoint has no `$` |
| Wire.OldMetricRoundTrip | polygen/weir/models/user_metrics.py:235-240 | an older key, without instance and direction, is read back to user and endpoint if and only if neither holds an underscore, the user is alphanumeric and the endpoint has no `$` |
| Wire.DemandRoundTrip | polygen/policy_generator.py:834-847 | the demand loop reads the same key to the same user, direction and instance if and only if the fields are clean and the direction is known |
| Wire.GetAccessKey | haproxy-lua/src/weir-s3.lua:202-211 | whatever the request carries, the key is alphanumeric with 19 or 20 characters, or is `common` |
| Wire.HeaderKeyExtracted | haproxy-lua/src/weir-s3.lua:83-116 | a version 2 or version 4 authorization header yields the key it carries, with 20 or 19 characters, whatever the query says |
| Wire.QueryKeyExtracted | haproxy-lua/src/weir-s3.lua:64-81 | a presigned query yields the key it carries |
| Wire.FixedKeys | haproxy-lua/src/weir-s3.lua:48-116 | no credentials, a header of another kind and a key that is not letters and digits each get their fixed key |
| Wire.ReplaceUnderscores | haproxy-lua/added-files/src/flt_weir.c:898-902 | the loop replaces exactly the underscores, in place |
| Wire.InstanceHasNo | haproxy-lua/added-files/src/flt_weir.c:893-902 | an instance id holds no other separator than its peer name brought in |
| Wire.InstanceIdsCollideIff | haproxy-lua/added-files/src/flt_weir.c:893-902 | two instances get the same id if and only if their ports are equal and their peer names agree once underscores are dashes |
| Wire.FieldsSurviveEveryHop | haproxy-lua/added-files/src/flt_weir.c:357-359 | from request to line to Redis key to both polygen parsers, user, instance and direction arrive unchanged; the key extraction and the underscore replacement discharge the conditions on user and instance |
| Violations.NothingForgotten | polygen/weir/models/violations.py:85-117 | in every run pending and sent stay disjoint and every added key is pending or was in a message, delivered or lost with a generate that raised |
| Violations.SentAtMostOnce | polygen/weir/models/violations.py:93-99 | outside the throughput categories a key is sent at most once per epoch |
| Violations.RatiosNeverMissing | polygen/weir/models/violations.py:19-26 | when every add carries a ratio other than 0, printing never misses one |
| Violations.MissingRatioFails | polygen/weir/models/violations.py:45-52 | a throughput key added without a ratio, or with 0, cannot be printed |
| Violations.RatiosRiseIff | polygen/weir/models/violations.py:85-117 | from any state, resent ratios rise by more than 0.15 if and only if, whenever some add between two flushes exceeds the last flushed ratio by that much, the last one exceeds the last sent ratio by that much |
| Violations.EpochRatiosRiseIff | polygen/weir/models/violations.py:85-117 | the same over a whole epoch from the start |
| Violations.EpochRatiosRise | polygen/weir/models/violations.py:85-117 | one add per key between flushes is enough |
| Violations.TwoAddsCanFall | polygen/weir/models/violations.py:95-99 | the failing family: a high and then a low add between two flushes send a lower ratio than before |
| Violations.Tracker.Add | polygen/weir/models/violations.py:85-99 | changes the one endpoint and category it names by one add step |
| Violations.Tracker.GenerateMessages | polygen/weir/models/violations.py:104-117 | the messages are, in enumeration order, one per category with something pending, each with its own category, exactly the pending keys and their stored ratios; each category is flushed by one generate step; the first category that cannot be printed raises, what came before it is flushed but its messages are lost, and no other endpoint changes |
| Violations.FlushAll | polygen/weir/models/violations.py:106-115 | the loop flushes the categories in order, each once, up to the first that cannot be printed |
| Violations.MessagesAnnounce | polygen/weir/models/violations.py:104-117 | the printed messages are exactly the categories with something pending, in order, each with its own pending keys and ratios |
| Violations.SentInOwnCategory | polygen/weir/models/violations.py:28-42 | every message of a run of one category carries that category |
| Violations.ResendBoundary | polygen/weir/models/violations.py:78-99 | after a ratio of 1.0 in the same second, 1.15 is not sent again and 1.16 is |
| BlockProtocol.PolicyGenerator.Check | polygen/policy_generator.py:608-660 | one check of all merged metrics and the messages it sends, as the step the run theorems speak of |
| BlockProtocol.FirstBlockHeard | polygen/policy_generator.py:636-653 | HAProxy hears of a first block if and only if no block message for the user left earlier in that second |
| BlockProtocol.StaysBlocked | polygen/policy_generator.py:627-649 | from any state where sender and receiver agree, a steady overload keeps HAProxy blocking at every instant |
| BlockProtocol.BlockedThroughout | polygen/policy_generator.py:608-660 | from the first block that HAProxy hears of the user is blocked at every instant of the run, for checks with gap plus backoff at most one second, despite the per-second de-duplication |
| BlockProtocol.GapLawIff | polygen/policy_generator.py:627-649 | that holds for all runs if and only if gap plus backoff is at most one second: otherwise checks just before each heartbeat is due put it off until HAProxy has forgotten the user |
| BlockProtocol.ReleasedAfterTwoSeconds | haproxy-lua/src/haproxy_lua.lua:54-69 | in every run in which no block of the user is announced, HAProxy blocks it exactly until two clock seconds after the last one or until an announced unblock |
| BlockProtocol.VanishedUserReleased | polygen/policy_generator.py:622-660 | a user that polygen holds blocked and whose metric disappears stays in polygen's blocked set for ever, and HAProxy releases it two clock seconds after the last heartbeat |
| BlockProtocol.UnblockHeard | polygen/policy_generator.py:655-660 | when a held user falls to the unblock ratio, HAProxy goes on blocking it if and only if it was blocking it and an unblock message for the user left earlier in that second |
| BlockProtocol.SecondUnblockIsLost | polygen/weir/models/violations.py:93-94 | unblock, block and unblock within one second: polygen has released the user and HAProxy blocks it for up to two seconds |
| BlockProtocol.ReblockInSameSecondIsLost | polygen/weir/models/violations.py:93-94 | block, unblock and block within one second: polygen holds the user blocked and HAProxy never blocks it |
| BlockProtocol.BlockedIsHistory | polygen/policy_generator.py:622-660 | below an unblock ratio of 1 the blocked set is a function of the load history alone |
| BlockProtocol.HistoryLawIff | polygen/policy_generator.py:627-660 | that law holds for all runs if and only if the unblock ratio is below 1 |
| BlockProtocol.MergeMetrics | polygen/weir/services/metric_service.py:38-56 | every user and endpoint appears once, with the sum of all its instance and direction counts |
| BlockProtocol.CollectLoads | polygen/policy_generator.py:600-625 | the loads of a check list every user of the endpoint once, with the ratio that times its limit is the sum of all its counts |
| BlockProtocol.CheckCounts | polygen/policy_generator.py:608-660 | a check on the unmerged counts is the step of the run theorems on those loads |
| BlockProtocol.CheckDecides | polygen/policy_generator.py:622-660 | what one check does with a user, among any others: blocked at the limit, kept between unblock ratio and limit, released below; the time that paces the heartbeats moves exactly when more than the backoff has passed |
| BlockProtocol.BlockedIsCountHistory | polygen/policy_generator.py:600-660 | from the counts in Redis to the blocked set, in counts alone: below an unblock ratio of 1 a user is blocked exactly when, of the rounds whose sum of all its counts was at least its limit or at most the unblock ratio times its limit, the latest was of the first kind (or there was none and it was blocked before) |
| BlockProtocol.LinesAreReceived | haproxy-lua/src/haproxy_lua.lua:202-222 | reading the printed block and unblock lines of a check changes HAProxy's table exactly as the protocol assumes |
| RateLimit.ComputeAllowedRunTime | haproxy-lua/added-files/src/rate_limit.c:235-249 | the statements compute the backoff function of base time and age |
| RateLimit.BackoffShape | haproxy-lua/added-files/src/rate_limit.c:235-249 | allowance never falls with age, is 0 at age 0, at least 50 ms after, at most a second, and the whole second from age 6 |
| RateLimit.BackoffDoubles | haproxy-lua/added-files/src/rate_limit.c:243-246 | each further second doubles the allowance up to the whole second |
| RateLimit.FirstBackoffIsProportional | haproxy-lua/added-files/src/rate_limit.c:236-239 | one second after the violation the allowance is the elapsed time divided by the ratio, to the microsecond, and never under 50 ms |
| RateLimit.NoCliff | haproxy-lua/added-files/src/rate_limit.c:91-94 | the validity window changes no decision |
| RateLimit.FreeStaysFree | haproxy-lua/added-files/src/rate_limit.c:332-376 | an instant of the second that is free at one age is free at every later age |
| RateLimit.QueryLaw | haproxy-lua/added-files/src/rate_limit.c:332-376 | over every run: after a policy of a key and direction is stored at t0, and until the next one of both, a query of an address mapped to that key in that direction is throttled if and only if it comes at most 6 seconds later and in the part of its second after the allowance: 0 at first, then doubling from the elapsed time over the ratio, at least 50 ms, at most the second |
| RateLimit.OthersChangeNothing | haproxy-lua/added-files/src/rate_limit.c:268-284 | policies of other keys or of the other direction, and cleanups of the other direction, change no answer |
| RateLimit.UploadOnly | haproxy-lua/added-files/src/rate_limit.c:332-376 | a connection just reported for its uploads is throttled in uploads and not in downloads |
| RateLimit.CleanerInvisible | haproxy-lua/added-files/src/rate_limit.c:291-323 | every run answers every query as the same run without cleanups, from any pair of similar tables |
| RateLimit.CleanerInvisibleFromStart | haproxy-lua/added-files/src/rate_limit.c:251-376 | the same for every run from empty tables |
| RateLimit.PreviousRatioMayDiffer | haproxy-lua/added-files/src/rate_limit.c:434-437 | the stored previous ratio is not preserved by a cleanup |
| RateLimit.Limiter.SetThrottleEpoch | haproxy-lua/added-files/src/rate_limit.c:400-448 | storing a policy is the step the run theorem speaks of |
| RateLimit.Limiter.RemoveOldEpochs | haproxy-lua/added-files/src/rate_limit.c:303-316 | one pass removes exactly the policies more than 120 seconds old and changes no other |
| RateLimit.Limiter.SpeedThrottle | haproxy-lua/added-files/src/rate_limit.c:332-376 | the decision is the one the run theorems (`QueryLaw`, `CleanerInvisible`) speak of |
| RateLimit.ConnStepAccounted | haproxy-lua/added-files/src/rate_limit.c:168-206 | each step keeps: count equals mapped addresses plus overwritten mappings, no stored zero; a decrement finds a positive count |
| RateLimit.ConnRunAccounted | haproxy-lua/added-files/src/rate_limit.c:469-523 | the same for every run of set and remove |
| RateLimit.CountsExactIff | haproxy-lua/added-files/src/rate_limit.c:481-497 | counts are the numbers of mapped addresses at the end of a run if and only if no connect of the run found its address still mapped |
| RateLimit.OverwriteLeaks | haproxy-lua/added-files/src/rate_limit.c:490-497 | the failing run, from any state: an address that changes its key and ends leaves no mapping and one count of the first key |
| RateLimit.LeakIsForGood | haproxy-lua/added-files/src/rate_limit.c:187-206 | a leaked count never goes away in any run |
| RateLimit.Connections.SetIpPortKey | haproxy-lua/added-files/src/rate_limit.c:469-507 | setting a mapping is that step |
| RateLimit.Connections.RequestEnd | haproxy-lua/added-files/src/rate_limit.c:509-534 | removing a mapping is that step, and its error branch is never taken |
| PolicyLine.LineReadBack | haproxy-lua/src/haproxy_lua.lua:166-265 | every line polygen prints for a category is read back as what it means: users to block or unblock, throttles with their ratios, or users over their rate in that second, or dropped as stale |
| PolicyLine.RawLineReadBack | haproxy-lua/src/haproxy_lua.lua:309-316 | the same for the line as it travels, with the white space around it that the reader trims |
| PolicyLine.LineItems | polygen/weir/models/violations.py:36-60 | a printed line is cut back into its items |
| PolicyLine.NameReadBack | polygen/weir/models/user_metrics.py:46-69 | every category name that polygen sends is the Redis field it reads that category from, up to case |
| PolicyLine.LineTexts | polygen/weir/models/violations.py:36-60 | the text of a line with one user, for a rate, a throughput and a block |
| PolicyLine.OddKeys | haproxy-lua/src/haproxy_lua.lua:246-263 | a throttle item without a ratio means ratio 1.0, and one with more than one colon means the user `unknown` |
| PolicyLine.ShortLines | haproxy-lua/src/haproxy_lua.lua:172-186 | a line without a comma, and a timed one with a single comma, say nothing |
| RateTable.Prune | haproxy-lua/src/haproxy_lua.lua:274-278 | the loop removes exactly the seconds more than 3 s before the policy and keeps the others as they are |
| RateTable.Table.UpdateViolates | haproxy-lua/src/haproxy_lua.lua:166-200 | one line: a rate policy goes into the table, everything else the line asks for is handed back and leaves the table alone; from the clock on the table knows exactly what was accepted while policies are timely |
| RateTable.Table.UpdateMap | haproxy-lua/src/haproxy_lua.lua:188-193 | stale policies are dropped; otherwise the verb's old seconds are pruned and the users added |
| RateTable.AcceptedIff | haproxy-lua/src/haproxy_lua.lua:188-200 | accepted means that some policy of the run named this verb, second and user and was not late on arrival |
| RateTable.Table.Check | haproxy-lua/src/haproxy_lua.lua:76-82 | while policies are timely the answer is yes exactly when a policy for `user_` and this HTTP method, this second and this user was ever accepted |
| RateTable.AnswersAreExact | haproxy-lua/src/haproxy_lua.lua:268-288 | in every run with a monotone clock and policies at most 3 s ahead the pruned table answers as the set of all accepted policies |
| RateTable.ExactIff | haproxy-lua/src/haproxy_lua.lua:274-278 | pruning is invisible in all runs with policies at most `ahead` seconds ahead if and only if `ahead` is at most 3 |
| RateTable.FarAhead | haproxy-lua/src/haproxy_lua.lua:274-278 | a policy four seconds ahead prunes the current second |
| Batching.VerbKeyInjective | syslog_server/src/msg_processor.cpp:259-259 | different users or seconds never share a Redis hash |
| Batching.FlushedIsField | syslog_server/src/msg_processor.cpp:259-261 | what was flushed for a user, second and category is the total of one hash field, under its literal name |
| Batching.EmitCounts | syslog_server/src/msg_processor.cpp:250-269 | the commands add exactly the batched counts, and every hash touched gets an expire |
| Batching.EmitActive | syslog_server/src/msg_processor.cpp:271-276 | the commands leave every connection key at its batched value |
| Batching.Discard | syslog_server/src/msg_processor.cpp:240-244 | erasing drops exactly the entries opened more than `ttl` seconds, in nanoseconds, before now |
| Batching.DiscardedAreOld | syslog_server/src/msg_processor.cpp:44-52 | every event behind a discarded count is more than `ttl - 1` seconds old although only the first timestamp is kept |
| Batching.Processor.Increment | syslog_server/src/msg_processor.cpp:317-319 | adds its amount to the pending count of `user_` and its user, the second of its time stamp and its category, and to no other, keeping the first timestamp |
| Batching.Processor.ProcessReq | syslog_server/src/msg_processor.cpp:280-323 | takes exactly the increments and the active count the message means (`UsageLines.ReqLineMeans`), or nothing |
| Batching.Processor.ProcessDataXfer | syslog_server/src/msg_processor.cpp:325-353 | takes exactly the byte count the message means (`UsageLines.DataXferLineMeans`), or nothing |
| Batching.Processor.ProcessActiveRequests | syslog_server/src/msg_processor.cpp:355-374 | takes exactly the active count the message means (`UsageLines.ActiveLineMeans`), or nothing |
| Batching.Processor.ProcessReqEnd | syslog_server/src/msg_processor.cpp:376-397 | takes exactly the active count the message means (`UsageLines.ReqEndLineMeans`), or nothing |
| Batching.Processor.Handle | syslog_server/src/msg_processor.cpp:180-190 | dispatch by prefix; unrecognised messages change nothing |
| Batching.Processor.SendToRedis | syslog_server/src/msg_processor.cpp:222-277 | flushes exactly when due; a connected flush leaves nothing pending, adds every count to its hash field exactly once and overlays Redis with exactly the waiting connection values; a disconnected one clears those and drops only seconds more than `ttl - 1` seconds old |
| Batching.Processor.Flush | syslog_server/src/msg_processor.cpp:250-276 | everything pending moves to Redis, with an expire for each hash and the connection lifetime on each set |
| Batching.Processor.Forget | syslog_server/src/msg_processor.cpp:240-246 | drops exactly the counts opened more than `ttl` seconds ago and clears all waiting connection values while disconnected |
| Batching.Consume | syslog_server/src/msg_processor.cpp:170-277 | in every run of messages, flushes and disconnections the batch, the connection keys and, by its literal name `verb_<second>_user_<user>$<endpoint>`, every hash field are what the events alone say; per user, second and category, flushed plus pending plus discarded counts equal the counts received, and seconds that did not grow old during a disconnection lose nothing |
| Batching.NothingElseHappens | syslog_server/src/msg_processor.cpp:222-277 | what was received was brought to Redis by a due connected flush, is pending, or was discarded by a due disconnected one |
| Batching.OnlyOldLost | syslog_server/src/msg_processor.cpp:232-247 | only counts of seconds more than `ttl - 1` seconds old at a due disconnected flush are ever discarded |
| Batching.LatestIsVisibleIff | syslog_server/src/msg_processor.cpp:232-277 | a connection key shows its latest value, in the batch or in Redis, if and only if that value was not cleared or its last connected flush brought the same one |
| Batching.ClearedIff | syslog_server/src/msg_processor.cpp:232-247 | the latest value is cleared if and only if the first flush due after its message found the connection down, and waits if and only if none was due |
| UsageLines.ReqLineMeans | syslog_server/src/msg_processor.cpp:280-323 | a printed `req` line counts one request of its class, if it names one, and one of its verb for its user in the second of each clock reading, and sets its connection key to the printed number |
| UsageLines.DataXferLineMeans | syslog_server/src/msg_processor.cpp:325-353 | a printed `data_xfer` line charges its bytes to the `bnd_` category of its direction, for its user and the second it is read in |
| UsageLines.ActiveLineMeans | syslog_server/src/msg_processor.cpp:355-374 | a printed `active_reqs` line sets the connection key of its direction, instance and user to its number |
| UsageLines.ReqEndLineMeans | syslog_server/src/msg_processor.cpp:376-397 | a printed `req_end` line sets the connection key of its direction, instance and user to its number |
| UsageLines.RefusedLines | syslog_server/src/msg_processor.cpp:283-306 | lines with another prefix, another number of tokens, an unreadable number or, where users are charged, an unprintable or (for transfers) empty user mean nothing and are not counted |
| UsageLines.TransferReachesRedis | syslog_server/src/msg_processor.cpp:250-269 | a transfer followed by a due connected flush adds its bytes to the field of its direction in the hash of its user and second, and nothing else is brought to Redis |
| UsageLines.ConnKeyText | syslog_server/src/msg_processor.cpp:313-313 | the connection key, spelled out |
| UsageLines.VerbKeyRoundTrip | polygen/weir/services/metric_service.py:23-29 | polygen reads second, user and endpoint back out of a hash key if and only if neither user nor endpoint holds an underscore, the user is alphanumeric and the endpoint has no `$` |
| UsageLines.DisconnectionForgets | syslog_server/src/msg_processor.cpp:246-246 | the failing run, for every active-request message: cleared while disconnected, it is nowhere after the next connected flush |

## Left out

- KHash.Table.Put: excludes one state, a table of 2^31 buckets at its load bound with at least half its buckets live, where the doubled bucket count does not fit 32 bits; `MakeRoom` has the same bound.
- KHash.Replay: keys are added only while fewer than 2^30 are live, which keeps every run away from that state.
- KHash.Table.Del: bucket indices beyond `n_buckets` are excluded, as the original reads outside its arrays there.
- LimitMessage.MessageRoundTrip: names are assumed free of the separators `,`, `_` and newline, as the filter and the key extraction provide them.
- PolicyLine.LineReadBack: users and printed ratios are assumed free of `,` and `:` (and of white space in `RawLineReadBack`); numerals that Lua reads without being printed by polygen (hexadecimal, fractions, exponents) are refused by the model.
- WeirFilter.RunIsSafe: a stream's HTTP method does not change while it is attached, it has a transaction, and expiry of ticks is an arbitrary predicate.
- BlockProtocol.BlockedThroughout: one endpoint, one check at a time, and messages handled in the second they are sent; polygen's checker threads are not interleaved inside a check.
- BlockProtocol.CheckCounts: connection limits are positive; a limit of 0 is a division by zero in the original.
- ShareDelivery.MessageConservesLimit: the calls of one message are made without another section of the same filter in between.
- Batching.Consume: counts are unbounded integers and Redis key expiry is ignored.
- Allocation always succeeds; C string ownership, `kh_clear` and `kh_destroy` are not modelled; bucket flags are a three-valued type instead of packed bits, and the hash function is arbitrary.
- 32-bit wrap-around of seconds and Lua's 64-bit wrap-around of very long numerals.
- `apply_bandwidth_limit` and the periodic active-request refresh: they rest on HAProxy counters and tasks that are not part of this model.
- Coalescing of queued messages in `HaproxyServer.run`: it joins messages without a separator; one `policies` block is the unit here.
- Users active on several endpoints at once in the block protocol, where the blocked set is keyed by access key alone.
- Limit look-up fallbacks (`_get_limit`): the limit is a parameter.
- Jitter sleeping, S3 operation classification, bucket names, argument parsing, configuration loading, sockets, logging, metrics and the command line: plumbing, or easy case analysis.
