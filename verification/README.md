# SAKN: a verified model of its algorithms and state machines

This project models the parts of the SAKN backend that are algorithms rather than plumbing, and proves
what they promise over all inputs and whole runs.

| file | what it models |
|---|---|
| `RateLimitStore.dfy`, `RateLimitRuns.dfy` | the sliding-window limiter: in-memory store, Redis/Lua twin, and all their runs |
| `RateLimitPruning.dfy`, `RateLimitForgetting.dfy`, `RedisForgetting.dfy`, `RedisWitnesses.dfy` | exactly when pruning and expiry show in an answer or a displayed count |
| `RateLimitService.dfy` | merging of limits, and the double charge of visitors over either store |
| `AuthRateLimits.dfy` | the counters of the authentication endpoints |
| `TracerouteTokens.dfy`, `Grouping.dfy` | the three walks over the tokens of a traceroute line |
| `TracerouteHops.dfy` | assembly of a hop, masking of private addresses, destination detection |
| `TracerouteStream.dfy` | the batch and the streaming parser |
| `PingStream.dfy`, `PingSummary.dfy` | the interleaved reader and watcher of a ping, the final fill, the summary |
| `SessionStore.dfy`, `SessionService.dfy` | the session cache with eviction, and its agreement with the session table |
| `AuthService.dfy` | login, lockout, one-time tokens and changes by administrators, with commit and rollback |
| `AuthHistory.dfy` | when a login succeeds, told from the requests before it |
| `AddressFilter.dfy` | the bounded alias walk and the target filter |
| `ProxyTrust.dfy`, `HostnameMatch.dfy`, `Text.dfy` | the N-th-from-right forwarding rule and wildcard host names, on split text |
| `Common.dfy` | options and counting |

`dafny verify dfyconfig.toml` verifies everything.

## How to read it

Objects that the backend updates in place are classes whose methods follow the code; each method is
proved against a function or step relation on values, and the results over whole runs are lemmas about
those. Loops of the backend are loops here. No lemma
relies on automatic induction, which is switched off throughout.

Runs are sequences of states linked by these step relations. Where a run needs an assumption it is a
named predicate: `RateLimitRuns.CutoffsAdvance` (the hard cutoffs of a key do not go back, a soft window is
no longer than the hard one) when the in-memory store is selected, `RateLimitRuns.Steady` (the clock does not
go back and the windows of a key do not change) when Redis is, `AuthService.InOrder` (requests one after
another), and for the authentication counters a clock that does not go back. What happens without the first
two is `RateLimitForgetting.AnswerIsExact`, which has no assumption, and `RedisForgetting.RedisAnswerIsExact`,
which only has the clock go forward.

The limiter of the code is one class; here its two stores are classes of their own, and
`RateLimitStore.RateLimiter` selects between them.

Inputs from outside are parameters: clock readings, generated identifiers and tokens, answers of the
resolver (a deterministic function), the verdict of the per-address login counter, and time-outs.
Passwords, mailed tokens and their hashes are opaque values told apart exactly. Text is classified into
tokens and lines before the model starts; addresses are numbers, and text that is no address counts as
blocked, as in the code.

## Where code and documentation differ

The model follows the code.

- The lockout table lists four durations, but the scan stops at the first one: every lockout lasts five
  minutes (`AuthService.TiersDoNotEscalate`).
- The comment on the path that decides from counts says it matches the rejection logic; it does not when
  the hard count stands exactly at the limit (`RateLimitRuns.LegacyPathDisagrees`). No caller takes it.
- The Lua script counts entries on the soft cutoff and the in-memory store does not; with equal windows
  those entries have already been pruned. The two agree exactly as `RateLimitRuns.TwinsAgree` says.
- `filter_target` says one part of its answer is always None; on an error the address is an empty text.
  Its "not allowed" answer for host names cannot occur, because the resolver already answers nothing.
- An accepted verification token makes an account active even when an administrator has blocked it since
  (`AuthHistory.ShutExactly`).
- A wildcard stands for one label, and an empty label counts as one.
- A hop with several addresses is meant to be hidden when all of them are blocked. It is hidden if and only if
  those are blocked to which its probes are assigned (`TracerouteHops.HiddenExactlyWhenAllAnsweringBlocked`);
  for lines with names, the default form, these come down to the first address
  (`TracerouteHops.NamedRoutersCollapse`), so that another router, or the destination itself, may disappear
  (`TracerouteHops.NamedAddressIsHidden`).
- The host name shown beside an unblocked address is the text in parentheses after it, which masking does not
  look at; it may be a blocked address (`TracerouteHops.HostNameIsNotMasked`).
- The counts displayed for a key are read from memory. With Redis, the default storage, they stay zero
  (`RedisWitnesses.RedisShowsNothing`). In memory, a page that reads with a longer window than the key was
  charged with misses what has been pruned (`RateLimitForgetting.DisplayedCounts`).
- The limit on sessions takes sessions out of the cache alone. Their rows stay, and a lookup falls back to the
  row, so every evicted session still resolves (`SessionService.ResolvesExactly`). Where this text says live or
  ended of the cache, it means the cached hash.
- Three registrations an hour per address is not what is enforced once the address also tries to log in
  (`AuthRateLimits.SharedKeyForgets`); when it holds is `AuthRateLimits.EndpointLimitHoldsExactly`.
- When a forwarding header is repeated, only its last line is used.

## Model

| member | source | states |
|---|---|---|
| `RateLimitStore.SlidingWindowRateLimiter.CheckDb` | src/backend/app/redis/rate_limit_store.py:163-210 | one in-memory check: the log of the key is pruned, counted and extended as the step relation says, and no other key's log changes, stale-key deletion included |
| `RateLimitStore.SlidingWindowRateLimiter.DropStaleKeys` | src/backend/app/redis/rate_limit_store.py:201-205 | whichever stale keys are deleted, every key reads the same log afterwards |
| `RateLimitStore.RateLimiter.Check` | src/backend/app/redis/rate_limit_store.py:98-115 | a check goes to the store selected by the configuration, and the other store is left alone |
| `RateLimitStore.RedisRateLimiter.CheckRedis` | src/backend/app/redis/rate_limit_store.py:117-161 | one run of the Lua script: members up to the hard cutoff go, the rest is counted inclusively, an admitted member is added and the deadline renewed, other keys stay |
| `RateLimitRuns.PruningIsUnobservable` | src/backend/app/redis/rate_limit_store.py:183-210 | in every run in which the cutoffs of a key do not go back, every in-memory answer and count equals that of a limiter that keeps every admitted time forever |
| `RateLimitForgetting.AnswerIsExact` | src/backend/app/redis/rate_limit_store.py:183-210 | for every in-memory run, without any assumption: an answer equals that of all times admitted so far if and only if no admitted time it should count was pruned by an earlier request of the key, nor lies between a soft cutoff and a later hard one |
| `RateLimitForgetting.AnswerIsExactForward` | src/backend/app/redis/rate_limit_store.py:183-210 | with a forward clock and a soft window no longer than the hard one: if and only if no admitted time lies between its hard cutoff and the largest one applied to the key before |
| `RateLimitForgetting.ForgottenIsInterval` | src/backend/app/redis/rate_limit_store.py:186-187 | then what a key has forgotten is exactly the admitted times up to the largest cutoff applied |
| `RateLimitForgetting.WideningForgets` | src/backend/app/redis/rate_limit_store.py:183-190 | after a window is widened a run exists in which a request passes that the full history would refuse |
| `RedisForgetting.RedisAnswerIsExact` | src/backend/app/redis/rate_limit_store.py:29-45 | for every run of the script under a forward clock, whatever the windows and deadlines: an answer equals that of all times admitted so far if and only if none it should count was pruned by an earlier request of the key or lost when the key expired |
| `RedisWitnesses.WideningForgetsInRedis` | src/backend/app/redis/rate_limit_store.py:29-45 | widening a window makes the script forget as well |
| `RedisForgetting.SetIsSurvivors` | src/backend/app/redis/rate_limit_store.py:29-45 | after any run the sorted set of a key counts like what its requests have left, each discarding at its hard cutoff or, if the key had expired, everything |
| `RedisForgetting.DeadlineMeaning` | src/backend/app/redis/rate_limit_store.py:36-45 | in every run the deadline of a key is that of the last request let through, twice its hard window later and two hours at least; refusals do not move it |
| `RateLimitRuns.ExpiryIsUnobservable` | src/backend/app/redis/rate_limit_store.py:29-45 | the same for the Lua script, across pruning, expiry of keys and renewal of deadlines |
| `RateLimitRuns.ScoresCountHistory` | src/backend/app/redis/rate_limit_store.py:133 | a key expires only when nothing in it could count any more: what the script sees counts like the whole history |
| `RateLimitRuns.AdmissionsRespectLimits` | src/backend/app/redis/rate_limit_store.py:189-199 | at every admission of every run of either store, under the limits then in force, the times really admitted in each window that ends there are at most the limit, the new one included |
| `RateLimitRuns.WindowBound` | src/backend/app/redis/rate_limit_store.py:186-199 | no interval of a window's length ever holds more admitted times of a key than the limit, soft and hard |
| `RateLimitRuns.RunsRespectLimits` | src/backend/app/redis/rate_limit_store.py:163-210 | these bounds over the times really admitted in any run of either store |
| `RateLimitRuns.ResultMeaning` | src/backend/app/redis/rate_limit_store.py:163-276 | in every run of either store: a request passes if and only if each limit is zero or less or exceeds the number of requests really let through in its window; the counts told, the limit named on a refusal, the soft one first, and the time to wait follow from these numbers |
| `RateLimitForgetting.DisplayedCounts` | src/backend/app/redis/rate_limit_store.py:68-79 | with the in-memory store selected, the count displayed for a key and a window is that of its admitted requests if and only if none of them in that window has been pruned |
| `RateLimitForgetting.NothingDisplayed` | src/backend/app/redis/rate_limit_store.py:68-79 | with Redis it is zero, whatever was admitted |
| `RedisWitnesses.RedisShowsNothing` | src/backend/app/redis/rate_limit_store.py:68-79 | a run with Redis in which a request is let through and the count displayed for it is zero |
| `RateLimitRuns.TwinCounts` | src/backend/app/redis/rate_limit_store.py:30-34 | from the same times both stores find the same hard count, and soft counts that differ by the entries exactly on the soft cutoff, unless the two windows are equal |
| `RateLimitRuns.TwinsAgree` | src/backend/app/redis/rate_limit_store.py:19-48 | on the same requests both stores answer alike at every step if and only if each request has equal windows or finds no admitted time exactly on its soft cutoff |
| `RateLimitForgetting.TwinsDisagree` | src/backend/app/redis/rate_limit_store.py:30-34 | a run of two requests on which they do not: the second, exactly one soft window later, passes in memory and is refused by Redis |
| `RateLimitRuns.LegacyPathDisagrees` | src/backend/app/redis/rate_limit_store.py:250-276 | the path that decides from counts alone differs from the stores exactly when the hard count stands at its limit and the soft limit does not block |
| `RateLimitService.EffectiveBlocks` | src/backend/app/services/rate_limit_service.py:83-88 | the merged limit blocks what either limit blocks, for every count, if and only if the limits are not of opposite strict signs |
| `RateLimitService.ResolvedLimitsBlock` | src/backend/app/services/rate_limit_service.py:63-94 | for non-negative configurations the resolved limits block exactly what the role's or the tool's limits block; the window is the role's |
| `RateLimitService.DefaultsMeaning` | src/backend/app/services/rate_limit_service.py:38-42 | without configuration: one call a second and 200 an hour for visitors, one and 500 for users, 3600 an hour for administrators, none for others |
| `RateLimitService.KeysAreInjective` | src/backend/app/redis/rate_limit_store.py:64-65 | callers share a log only if type and identifier are the same, whatever colons identifiers contain |
| `RateLimitService.CheckToolRateLimit` | src/backend/app/services/rate_limit_service.py:129-178 | over whichever store is selected: a visitor is charged on the session and then, if let through, on the address; others on one key; the result of the address is told only when it refuses |
| `RateLimitService.ToolRunFollowsHistory` | src/backend/app/services/rate_limit_service.py:129-178 | however the charges of different calls interleave, between the two charges of a visitor too, and over either store, every charge is answered as by the limiter that forgets nothing |
| `RateLimitService.ChargesPassExactly` | src/backend/app/services/rate_limit_service.py:148-178 | in every such run, told from the fields of the calls: a second charge passes if and only if fewer visitors than the soft limit of the address passed there in the last second and fewer than its hard limit in the last window; a first charge likewise under the limits of the call, on the session for visitors and whoever is not logged in, else on the user |
| `RateLimitService.VisitorsRespectSessionLimits` | src/backend/app/services/rate_limit_service.py:153-170 | in every such run, visits let through for one session stay within the session's soft and hard limits in every window |
| `RateLimitService.VisitorsRespectAddressLimits` | src/backend/app/services/rate_limit_service.py:162-170 | the same for the visits of one address and its limits |
| `RateLimitService.VisitsAreCounted` | src/backend/app/services/rate_limit_service.py:153-170 | every visitor let through stands once among the visits of the session and once among those of the address |
| `RateLimitService.SequentialIsToolRun` | src/backend/app/services/rate_limit_service.py:129-178 | calls made one after another are such a run; the visitors let through are those the calls allow, and each answer is the result of one of its charges, the first one when let through |
| `AuthRateLimits.AuthCounters.Enforce` | src/backend/app/api/v1/endpoints/auth.py:74-78 | one use of a key: its log is pruned by the window of the limit named, the use passes if fewer than the maximum are left, and only then is recorded; other keys stay |
| `AuthRateLimits.AuthAnswerIsExact` | src/backend/app/services/rate_limit_service.py:184-201 | in every run, whatever limits share a key, a use passes if and only if fewer than its maximum passed in its window, less those up to the latest cutoff applied to the key before |
| `AuthRateLimits.EndpointAnswersExactly` | src/backend/app/services/rate_limit_service.py:27-32 | in every run of the endpoints a request is let through if and only if fewer than 3 registrations, 10 logins, 5 resent mails or 3 resets are counted: those let through under its key that are younger than the window (an hour, a minute, a day, a day) of every request made under the key, this one included |
| `AuthRateLimits.LimitHoldsExactly` | src/backend/app/services/rate_limit_service.py:184-201 | in every run, whatever limits share a key: the uses passed under one limit stay within its maximum in every interval as long as its window if and only if no use finds the maximum reached by uses of its own kind while pruning has left fewer entries in the log |
| `AuthRateLimits.AuthLimitHolds` | src/backend/app/services/rate_limit_service.py:184-201 | a key used with one limit keeps it; of several limits on one key the one with the shortest window is kept |
| `AuthRateLimits.EndpointLimitsHold` | src/backend/app/api/v1/endpoints/auth.py:85-205 | in every run of the endpoints the limits on logins, resent verifications and reset requests hold |
| `AuthRateLimits.KeysShared` | src/backend/app/api/v1/endpoints/auth.py:92-202 | of all limited requests only a registration and a login of one address ever share a key |
| `AuthRateLimits.EndpointLimitHoldsExactly` | src/backend/app/api/v1/endpoints/auth.py:85-205 | for every endpoint, registration included, its limit holds in a run if and only if none of its requests oversteps in that sense |
| `AuthRateLimits.SharedKeyForgets` | src/backend/app/api/v1/endpoints/auth.py:92-114 | the limit on registrations need not hold: in a run with four registrations of one address within two minutes, the fourth oversteps after a login attempt |
| `TracerouteTokens.ParseProbes` | src/backend/app/tools/traceroute.py:25-58 | the skipping walk yields what each token contributes by itself: a timeout for `*`, a reply for a number not directly before parentheses |
| `TracerouteTokens.OneProbePerMeasure` | src/backend/app/tools/traceroute.py:36-57 | one probe per `*` and number token if and only if no number stands directly before parentheses; never more |
| `TracerouteTokens.CleanProbes` | src/backend/app/tools/traceroute.py:36-57 | in such a line the j-th probe is the j-th measurement |
| `TracerouteTokens.ExtractIpHostnameMap` | src/backend/app/tools/traceroute.py:61-95 | the walk builds the ordered map of addresses |
| `TracerouteTokens.MapFromKeys` | src/backend/app/tools/traceroute.py:66-95 | the map has one entry per address, keeps earlier entries, holds every bare address, and each new entry is named as some tokens of the line say |
| `TracerouteTokens.NamedAddressesAreMapped` | src/backend/app/tools/traceroute.py:81-87 | an address in parentheses right after a word or a number has an entry |
| `TracerouteTokens.GroupProbesByIp` | src/backend/app/tools/traceroute.py:98-151 | the grouping in place equals grouping by the assigned address in order of first appearance |
| `TracerouteTokens.AssignProbes` | src/backend/app/tools/traceroute.py:112-138 | the assignment walk gives the j-th probe the owner of the j-th measurement |
| `TracerouteTokens.OwnersMeaning` | src/backend/app/tools/traceroute.py:116-138 | that owner is the last bare address before the measurement, with no other between; there is none if and only if no bare address stands before it |
| `TracerouteTokens.NearestMeaning` | src/backend/app/tools/traceroute.py:116-120 | the same for every position of the line |
| `TracerouteTokens.PositionsMeaning` | src/backend/app/tools/traceroute.py:121-134 | the measurements are all `*` and number tokens, in order |
| `Grouping.GroupedKeepsItems` | src/backend/app/tools/traceroute.py:140-151 | no probe is lost or doubled by grouping, whatever the line |
| `Grouping.GroupedKeys` | src/backend/app/tools/traceroute.py:140-151 | groups are distinct and only for addresses in use |
| `Grouping.GroupedCovers` | src/backend/app/tools/traceroute.py:141-146 | every address in use has its group |
| `Grouping.GroupedSelects` | src/backend/app/tools/traceroute.py:140-151 | each group holds exactly the probes of its address, in order |
| `TracerouteHops.ParseHopGroup` | src/backend/app/tools/traceroute.py:349-397 | the hop assembled segment by segment, in its three forms |
| `TracerouteHops.HopKeepsProbes` | src/backend/app/tools/traceroute.py:354-397 | a hop reports every probe of its segments once; only a hop without probe and address gets three timeouts |
| `TracerouteHops.ProbesAreAttributed` | src/backend/app/tools/traceroute.py:354-366 | in clean segments the j-th probe is the j-th measurement of the hop, and is filed under the last bare address before it with no other between, or under the first address of the map if none stands before it |
| `TracerouteHops.PathsArePartition` | src/backend/app/tools/traceroute.py:364-374 | without any condition the paths are an order-preserving partition of the probes, and each path address is a key of the map with that host name |
| `TracerouteHops.EntriesAreUnique` | src/backend/app/tools/traceroute.py:357-365 | more than one entry means more than one address |
| `TracerouteHops.LastSegmentNames` | src/backend/app/tools/traceroute.py:357-362 | an address met in several segments has the host name of the last of them |
| `TracerouteHops.UnknownHasNoEntry` | src/backend/app/tools/traceroute.py:357-362 | and no other address has an entry |
| `TracerouteHops.HopForm` | src/backend/app/tools/traceroute.py:364-397 | the number as read, no mark, and with at most one address that address, its name and all probes, three timeouts standing for nothing |
| `TracerouteHops.HopRecord.MaskPrivateHops` | src/backend/app/websocket/handlers/traceroute_ws.py:27-57 | the edit in place equals masking by value |
| `TracerouteHops.MaskingIsSafe` | src/backend/app/websocket/handlers/traceroute_ws.py:37-57 | no blocked address is shown in an ip field, the probes stay the same in the same order in all branches, and masking again changes nothing |
| `TracerouteHops.MaskingMeaning` | src/backend/app/websocket/handlers/traceroute_ws.py:37-57 | with private addresses shown nothing changes; else exactly the blocked addresses are replaced, their host names dropped, and a hop all of whose paths are blocked becomes a plain hidden one with all probes |
| `TracerouteHops.HostNameIsNotMasked` | src/backend/app/websocket/handlers/traceroute_ws.py:54-57 | host names are not looked at: text in parentheses after an unblocked address is shown as its name, a blocked address or not |
| `TracerouteHops.MaskingKeepsDestination` | src/backend/app/websocket/handlers/traceroute_ws.py:164-177 | the target is found after masking if and only if it was there and is not itself hidden |
| `TracerouteHops.HopRecord.DetectDestination` | src/backend/app/websocket/handlers/traceroute_ws.py:168-177 | the mark is set exactly when the target is the address of the hop or of one of its paths |
| `TracerouteHops.HitsExactly` | src/backend/app/websocket/handlers/traceroute_ws.py:168-177 | the target is found in a hop if and only if it is the only address of the hop, or one of several to which a probe is assigned |
| `TracerouteHops.PathsAreAnswering` | src/backend/app/tools/traceroute.py:364-374 | the paths of a hop with several addresses are exactly the addresses to which its probes are assigned, not all those of the map |
| `TracerouteHops.AnsweringIsBareOrFirst` | src/backend/app/tools/traceroute.py:112-146 | such an address stands bare in the lines or is the first of the map: one in parentheses is never a path unless it comes first |
| `TracerouteHops.HiddenExactlyWhenAllAnsweringBlocked` | src/backend/app/websocket/handlers/traceroute_ws.py:37-51 | a hop with several addresses is shown as one hidden hop if and only if every probe is assigned to a blocked address, whatever its other addresses are |
| `TracerouteHops.NamedRoutersCollapse` | src/backend/app/tools/traceroute.py:366-374 | when every address is printed in parentheses, all probes are filed under the first address, however many answered, and the hop is hidden exactly when that one is blocked |
| `TracerouteHops.BareAddressIsHidden` | src/backend/app/websocket/handlers/traceroute_ws.py:46-51 | a hop with a probe and an unblocked address that is hidden: the probe comes before that address |
| `TracerouteHops.NamedAddressIsHidden` | src/backend/app/websocket/handlers/traceroute_ws.py:46-51 | a hop in the form with names, two routers having answered, that is hidden although the second is unblocked and may be the destination |
| `TracerouteStream.ParseOutput` | src/backend/app/tools/traceroute.py:315-346 | the batch parser gives the parsed hops of the grouping of all lines, numbered as the hop lines are |
| `TracerouteStream.BatchKeepsLines` | src/backend/app/tools/traceroute.py:330-346 | every hop line gives one hop, in order, and no line after the first of them is lost, doubled or moved |
| `TracerouteStream.HopOwnsItsLines` | src/backend/app/tools/traceroute.py:330-346 | a hop is made of its own line and of the continuation lines up to the next hop line; the hops before it are those of the lines before it |
| `TracerouteStream.TrimKeepsHops` | src/backend/app/websocket/handlers/traceroute_ws.py:205-213 | streaming gives out one hop for every hop line, in order |
| `TracerouteStream.TracerouteStreamer.FlushCurrentHop` | src/backend/app/websocket/handlers/traceroute_ws.py:159-188 | the collected hop is sent once, masked and marked if it is the first to contain the target, and the buffer is emptied; earlier messages stay |
| `TracerouteStream.TracerouteStreamer.ReadLine` | src/backend/app/websocket/handlers/traceroute_ws.py:190-218 | one line moves the stream as its step says; a saturated hop is out before the next line is read |
| `TracerouteStream.TracerouteStreamer.Run` | src/backend/app/websocket/handlers/traceroute_ws.py:190-260 | the hops sent by the end of a stream are those of the batch parser on the trimmed lines, in order, one for every hop line and with its number; the number reported at the end is that of the last hop line |
| `TracerouteStream.StreamFollowsBatch` | src/backend/app/websocket/handlers/traceroute_ws.py:201-218 | after any lines, what streaming sent and holds is what the batch parser has on the trimmed lines, except that a hop with all its probes has already been sent |
| `TracerouteStream.StreamingRefinesBatch` | src/backend/app/websocket/handlers/traceroute_ws.py:201-260 | after the final flush both parsers have the same hops, and a hop still held always has fewer probes than a hop may have |
| `TracerouteStream.TrimMeaning` | src/backend/app/websocket/handlers/traceroute_ws.py:211-218 | a line is dropped if and only if it continues a hop that has all its probes |
| `TracerouteStream.NothingToTrim` | src/backend/app/websocket/handlers/traceroute_ws.py:211-218 | lines are dropped only after saturation: without such lines streaming and batch see the same |
| `TracerouteStream.OneHopIsMarked` | src/backend/app/websocket/handlers/traceroute_ws.py:162-177 | at most one hop of a stream is marked as reached, one is exactly when the summary says so, and that is exactly when some hop contains the unblocked target, masked or not |
| `TracerouteStream.MessagesShowHops` | src/backend/app/websocket/handlers/traceroute_ws.py:159-188 | but for the mark, a message shows the hop as parsed and masked |
| `PingStream.PingStreamer.ReadLine` | src/backend/app/websocket/handlers/ping_ws.py:86-119 | one line of output is one step of the reader |
| `PingStream.PingStreamer.WatchTimeout` | src/backend/app/websocket/handlers/ping_ws.py:155-170 | one look of the watcher is one step: overdue packets without entry become timeouts |
| `PingStream.PingStreamer.FillMissing` | src/backend/app/websocket/handlers/ping_ws.py:208-217 | the final loop equals filling in every number never received |
| `PingStream.RunInvariant` | src/backend/app/websocket/handlers/ping_ws.py:86-171 | for every interleaving the numbers received are those with an entry, and the last message about each packet is its entry |
| `PingStream.EntriesExactly` | src/backend/app/websocket/handlers/ping_ws.py:86-171 | for every interleaving there is an entry for a packet if and only if a line with its number was read, a timeout without number when all entries were for packets before it, or the watcher looked at it, a packet of the run, when its reply was overdue |
| `PingStream.StepSendsWhatItRecords` | src/backend/app/websocket/handlers/ping_ws.py:86-171 | a step changes nothing, or makes one entry and sends one message about it |
| `PingStream.WatcherNeverReplaces` | src/backend/app/websocket/handlers/ping_ws.py:157-170 | the watcher never replaces an entry |
| `PingStream.FillCompletes` | src/backend/app/websocket/handlers/ping_ws.py:208-217 | the fill never replaces an entry, adds only timeouts, and leaves an entry and a message for every number up to its bound |
| `PingStream.FillSendsMissing` | src/backend/app/websocket/handlers/ping_ws.py:208-217 | the fill sends a timeout for every number missing up to its bound, in order, and nothing else |
| `PingStream.FinalResults` | src/backend/app/websocket/handlers/ping_ws.py:86-217 | at the end the entries are those received and 1 to the count, all reported, each with the value of the last numbered line about it or a timeout |
| `PingStream.RepliesDoNotDependOnTiming` | src/backend/app/websocket/handlers/ping_ws.py:86-171 | two runs whose reader saw the same numbered lines end with the same replies, however the watcher was interleaved |
| `PingSummary.BuildSummary` | src/backend/app/websocket/handlers/ping_ws.py:285-301 | transmitted is the largest of the number expected, 0 and the packets recorded; received and lost add up to it; minimum and maximum are the rounded smallest and largest time of an answered packet, the mean that of exactly one time per answered packet; the deviation is given from two replies on and at most half the range |
| `PingSummary.LossMeaning` | src/backend/app/websocket/handlers/ping_ws.py:289 | the loss is 0 when nothing was transmitted, and else the share of packets lost in tenths of a percent, to the nearest and half to even, in whole numbers |
| `PingSummary.RoundMeaning` | src/backend/app/websocket/handlers/ping_ws.py:289-300 | rounding gives the nearest tenth, and the even one of two |
| `PingSummary.LossIsNegativeOnlyFromZero` | src/backend/app/websocket/handlers/ping_ws.py:286-288 | more is received than transmitted if and only if packet 0 and all others up to the last were answered |
| `PingSummary.LossIsNotNegative` | src/backend/app/websocket/handlers/ping_ws.py:286-288 | with packets numbered from 1 the loss is never negative |
| `PingSummary.MeanBetween` | src/backend/app/websocket/handlers/ping_ws.py:297-299 | the mean lies between the smallest and the largest time |
| `PingSummary.DeviationWithinRange` | src/backend/app/websocket/handlers/ping_ws.py:276-282 | the population deviation is at most half the distance between fastest and slowest reply |
| `SessionStore.SessionCache.CreateSession` | src/backend/app/redis/session_store.py:47-55 | hash and index entry are written together |
| `SessionStore.SessionCache.DeleteSession` | src/backend/app/redis/session_store.py:70-78 | the token leaves the index of the user its hash names, if any, and the hash goes |
| `SessionStore.SessionCache.UpdateActivity` | src/backend/app/redis/session_store.py:91-97 | touching an expired token brings back a hash without user and creation time |
| `SessionStore.SessionCache.EnforceConcurrentLimit` | src/backend/app/redis/session_store.py:102-123 | the tokens revoked are a choice of oldest index members above the limit, for any order of members, and the cache is left without them |
| `SessionStore.EveryRunIsSound` | src/backend/app/redis/session_store.py:47-123 | in every run every live session is in its user's index, although the index keeps stale members |
| `SessionStore.LiveExactly` | src/backend/app/redis/session_store.py:47-123 | in every run the live cached sessions of a user are those created for it and neither deleted nor expired since; a touch makes none |
| `SessionStore.IndexedExactly` | src/backend/app/redis/session_store.py:70-78 | in every run the index of a user holds the sessions created for it and not deleted while live, expired or not |
| `SessionStore.HashedExactly` | src/backend/app/redis/session_store.py:47-97 | in every run a token has a hash exactly when an operation, be it a late touch, has made one that was neither deleted nor expired since |
| `SessionStore.EvictionKeepsAsManyAsAllowed` | src/backend/app/redis/session_store.py:110-121 | stale members go first and never cost a live session its place: exactly as many live sessions stay as there were or as the limit allows |
| `SessionStore.CreateEndsOldest` | src/backend/app/redis/session_store.py:110-121 | in every run, a create ends no cached session of the user that was created later than one it spares, and none of anybody else |
| `SessionStore.LiveAfterCreate` | src/backend/app/services/session_service.py:60-86 | after a create in any run the cached live sessions of the user are one more than before or than the limit, whichever is smaller |
| `SessionService.SessionService.Create` | src/backend/app/services/session_service.py:46-88 | the limit is enforced first; a token already in the table fails before anything is cached |
| `SessionService.SessionService.Lookup` | src/backend/app/services/session_service.py:91-112 | a token resolves to a row that has it, if there is one, cached or not |
| `SessionService.ResolvesExactly` | src/backend/app/services/session_service.py:46-182 | in every run a token resolves if and only if a creation has opened it and no later revocation or logout has ended it, whatever the limit on sessions evicted |
| `SessionService.CreationSucceedsExactly` | src/backend/app/services/session_service.py:46-88 | in every run a creation succeeds if and only if its token does not resolve yet; it adds its row, and a failing one leaves the rows alone |
| `SessionService.SessionService.Revoke` | src/backend/app/services/session_service.py:120-144 | row and cached session go together; an unknown row changes nothing |
| `SessionService.SessionService.RevokeAllForUser` | src/backend/app/services/session_service.py:170-182 | the loop removes the user's rows and cached sessions but the spared one, in any order, and counts them |
| `SessionService.SessionService.Logout` | src/backend/app/services/auth_service.py:355-364 | the row of the token and its cached session are gone |
| `SessionService.EveryRunIsConsistent` | src/backend/app/services/session_service.py:46-182 | in every run each cached session of a user has a row with that token and user, across eviction and expiry |
| `SessionService.RevocationIsComplete` | src/backend/app/services/session_service.py:170-182 | after revoking all, exactly the rows of other users and of the spared token are left, unchanged, and the count is the rows removed |
| `SessionService.RevocationClearsCache` | src/backend/app/services/session_service.py:170-182 | nor does the cache hold another session of the user, and nobody else loses a cached session |
| `AuthHistory.LoginAnsweredExactly` | src/backend/app/services/auth_service.py:228-352 | in every run every login is answered by what went before; it succeeds if and only if the address is not barred, the account was registered, no administrator has shut it without its being opened since, fewer than five wrong passwords stand in its history or the last is five minutes old, the password is that of its last reset or else of its registration, an earlier request verified it if that is required, and identifier and token are new; only then a session row is added |
| `AuthHistory.FailuresExactly` | src/backend/app/services/auth_service.py:273-305 | the wrong passwords that lock an account are those its history tells |
| `AuthHistory.ShutExactly` | src/backend/app/api/v1/endpoints/admin_users.py:147-231 | an account is blocked or locked exactly when an administrator other than its owner has made it so, and neither an administrator nor an accepted verification token has opened it since |
| `AuthHistory.PendingExactly` | src/backend/app/services/auth_service.py:117-123 | an account is pending exactly from its registration to its first verification or change by an administrator |
| `AuthHistory.VerifiedWhen` | src/backend/app/services/auth_service.py:192-193 | the date of verification is that of the last one |
| `AuthHistory.PasswordExactly` | src/backend/app/services/auth_service.py:434-450 | the password of an account is that of its last accepted reset, or of its registration |
| `AuthHistory.RegisteredExactly` | src/backend/app/services/auth_service.py:117-147 | which accounts there are |
| `AuthHistory.SessionsExactly` | src/backend/app/services/auth_service.py:314-364 | in every run the session rows are those of successful logins, up to a reset of the account or a logout of the token |
| `AuthService.AuthService.Login` | src/backend/app/services/auth_service.py:246-352 | the body of a login on its working copy: a wrong password is committed at once, a counter reset is left to the caller |
| `AuthService.AuthService.VerifyEmail` | src/backend/app/services/auth_service.py:168-196 | accepted exactly for a known, unused, unexpired token of an existing account; nothing is committed by itself |
| `AuthService.AuthService.ResetPassword` | src/backend/app/services/auth_service.py:412-459 | accepted exactly for matching strong passwords and such a token |
| `AuthService.AuthService.Handle` | src/backend/app/database.py:37-43 | a request in its transaction leaves committed exactly what its result is meant to leave, partial work being rolled back |
| `AuthService.BruteForceDuration` | src/backend/app/services/auth_service.py:44-48 | the scan returns five minutes for every count from five on |
| `AuthService.TiersDoNotEscalate` | src/backend/app/services/auth_service.py:36-48 | the duration is that of the highest tier reached if and only if there are fewer than ten failures |
| `AuthService.CounterIsHistory` | src/backend/app/services/auth_service.py:273-312 | in every run the committed counter is the number of wrong-password evaluations since the last committed reset, and the lock is set by the last of them; an unverified login with the right password resets nothing |
| `AuthService.WrongTimesAreSpaced` | src/backend/app/services/auth_service.py:58-63 | from the fifth on, wrong evaluations are at least five minutes apart |
| `AuthService.LockoutSlowsGuessing` | src/backend/app/services/auth_service.py:273-299 | k > 5 wrong passwords without a reset span at least 5(k-5) minutes |
| `AuthService.TokensWorkOnce` | src/backend/app/services/auth_service.py:177-184 | in any run a verification token and a reset token are each accepted at most once |
| `AuthService.ResetAcceptedExactly` | src/backend/app/services/auth_service.py:367-441 | in any run a reset is accepted if and only if the passwords will do, an earlier request for an existing account issued its token, no more than an hour before, and no request has used it since |
| `AuthService.VerificationAcceptedExactly` | src/backend/app/services/auth_service.py:139-196 | the same for verifications, within a day of the registration or repeated mail that issued the token |
| `AuthService.ResetWasIssued` | src/backend/app/services/auth_service.py:386-393 | every reset token known was mailed by an earlier request, to its account, and ends an hour after it |
| `AuthService.VerificationWasIssued` | src/backend/app/services/auth_service.py:139-147 | every verification token known was mailed by a registration or a repeated mail, to its account, and ends a day after it |
| `AuthService.TokensAreKept` | src/backend/app/services/auth_service.py:434-441 | no later request removes a token, moves its expiry, hands it to another account or makes a used one usable again |
| `AuthService.ResetEndsSessions` | src/backend/app/services/auth_service.py:449-457 | in any run, after an accepted reset the account has no session until somebody logs in to it again |
| `AuthService.SessionsNeedNewPassword` | src/backend/app/services/auth_service.py:445-457 | any session of the account found later, unless reset again, comes with a login made with the new password |
| `AuthService.VerifiedExactly` | src/backend/app/services/auth_service.py:184-196 | an account counts as verified, for good, exactly from the first token accepted for it or the confirmation by an administrator |
| `AuthService.AuthService.ChangeStatus` | src/backend/app/api/v1/endpoints/admin_users.py:147-181 | an administrator blocks, unblocks, locks or unlocks an account, never the own one |
| `AuthService.AuthService.Confirm` | src/backend/app/api/v1/endpoints/admin_users.py:282-306 | an administrator confirms an address of mail; a pending account becomes active |
| `AddressFilter.ResolveHostnameInner` | src/backend/app/security/address_filter.py:74-130 | the walk with its memory of names gives what the bound on hops alone gives, for every resolver; the names visited are those of the alias chain from its start, each once, up to the first with something final to say, a loop, or the bound |
| `AddressFilter.QueryName` | src/backend/app/security/address_filter.py:87-127 | the queries for one name give its first address family with records, checked, else its alias, else nothing |
| `AddressFilter.LoopFindsNothing` | src/backend/app/security/address_filter.py:116-118 | names that only refer to each other lead nowhere under any bound |
| `AddressFilter.WalkMeaning` | src/backend/app/security/address_filter.py:86-130 | the result is the addresses of the first name with any among the first sixteen of the chain, if none of them is blocked; else nothing; never a blocked address |
| `AddressFilter.FilterTarget` | src/backend/app/security/address_filter.py:150-176 | a target ends with the text of an unblocked address, canonical for a literal, or an error, never both; host names never fail as not allowed |
| `AddressFilter.CheckIps` | src/backend/app/security/address_filter.py:59-65 | all addresses or none |
| `AddressFilter.BlockedV4` | src/backend/app/security/address_filter.py:13-48 | which IPv4 addresses are blocked, by their octets |
| `AddressFilter.BlockedV6` | src/backend/app/security/address_filter.py:31-48 | which IPv6 addresses are blocked, by their leading bits |
| `AddressFilter.HopMeaning` | src/backend/app/security/address_filter.py:87-127 | the addresses of a name are its IPv4 addresses if it has any, else its IPv6 addresses; it is followed to its alias if and only if both queries find nothing without saying that there is no such name |
| `ProxyTrust.ApplyForwardedFor` | src/backend/app/middleware/proxy_trust.py:31-57 | the client becomes the chosen entry of the last header line, with the port kept, or stays |
| `ProxyTrust.LastValueMeaning` | src/backend/app/middleware/proxy_trust.py:36-40 | the value used is that of the last header of the name |
| `ProxyTrust.OutermostTrustedEntryWins` | src/backend/app/middleware/proxy_trust.py:51-57 | whatever the client sent, the address appended by the outermost trusted proxy is chosen |
| `ProxyTrust.ShortChainKeepsPeer` | src/backend/app/middleware/proxy_trust.py:53-57 | the peer is kept if and only if there are fewer entries than trusted hops |
| `ProxyTrust.BlankEntriesDoNotCount` | src/backend/app/middleware/proxy_trust.py:51-57 | blank entries do not count, wherever they stand |
| `HostnameMatch.HostnameMatches` | src/backend/app/tools/ssl_viewer.py:844-857 | accepted if and only if an alternative name matches label by label or the common name is equal |
| `Text.StripMeaning` | src/backend/app/middleware/proxy_trust.py:53 | trimming takes all white space off both ends and nothing else |
| `Text.JoinSplit` | src/backend/app/middleware/proxy_trust.py:53 | splitting loses nothing: joining the pieces gives the text back |
| `HostnameMatch.TrimDotsMeaning` | src/backend/app/tools/ssl_viewer.py:846-848 | exactly the dots at the end are dropped |
| `HostnameMatch.ToLowerMeaning` | src/backend/app/tools/ssl_viewer.py:846-848 | each capital letter becomes the small one in its place, everything else stays |
| `HostnameMatch.TextMatchIsLabelMatch` | src/backend/app/tools/ssl_viewer.py:849-856 | the test on text agrees with the rule on labels for every host name and pattern |
| `HostnameMatch.WildcardIsOneLabel` | src/backend/app/tools/ssl_viewer.py:849-854 | `*.s` matches exactly the names made of one label followed by the labels of s |

## Left out

- HTTP and WebSocket transport, database and Redis clients, subprocesses, DNS and TLS libraries, password
  hashing: parameters or opaque values here.
- The whole user interface, rate-limit matrix, presets, settings, preferences, logs and migrations: rows
  updated one at a time.
- Regular expressions and address parsing: lines and tokens arrive classified; letter case is lowered for
  ASCII only in host names.
- Fail-over from Redis to memory in the middle of a run. Clocks that go back are covered in memory alone, by
  `RateLimitForgetting.AnswerIsExact`.
- DropStaleKeys: the code deletes the first thousand stale keys in insertion order; the model allows any
  thousand, and the result does not depend on the choice.
- CheckRedis: Redis is its sorted set and its deadline; command errors are not modelled.
- Enforce: check and record read the clock once here and twice in the code.
- WatchTimeout: bookkeeping and sending are one step, so a watcher stopped between the two, whose message
  is then lost, is not modelled; neither are notices about local errors.
- FillMissing: how the count is chosen between the statistics block, the request and the duration cap is a
  parameter, and so is the summary that is copied from the statistics block.
- BuildSummary: floating point is replaced by exact reals, rounded half to even; the order of the table and the
  square root of the variance are parameters.
- Expire: the lifetime of a session hash is a step that may happen at any time.
- Lookup: rows have no end of their own here; the code also refuses a row past its expiry.
- Create: the created row is committed; a request that fails later, clean-up of expired rows and removal of
  accounts are not modelled.
- Revoke: the preferences deleted with an anonymous session are not modelled.
- Login: accounts are found by an identifier standing for the e-mail address; security log entries, locale
  and cookies are left out, and so is the cache side of session creation, which is in `SessionService`.
- Handle: roles, notes and removal of accounts are not modelled, nor is the log kept of what administrators do.
- ApplyForwardedFor: the forwarded scheme is not modelled.
- HostnameMatches: the rest of the certificate viewer wraps libraries that are not part of this model.
