# DNS filter: a verified model of the decision path

This project models what the DNS filter decides in memory for each query, and proves what those
decisions mean. Every component that the program writes as an object with mutable fields is a class
here, whose methods are proved against functions on plain values; the results about runs,
interleavings and tables are lemmas about those functions.

| module | what it models |
|---|---|
| `DomainNames` | normalisation, `strings.Split`/`strings.Join`, `splitDomain`/`joinDomain`, where labels start |
| `ListText` | list lines in plain and hosts format, the scan loop, reading a written list back |
| `Blacklists` | the domain set, its suffix walk, loading it from a file |
| `Store` | the tables, the row loops that read them, the transactions that change them |
| `Engine` | whitelist, blacklist, nearest category against group policy; the verdict defined on the tables |
| `Reload` | the reload code of the callback and of the API; any interleaving of reloaders and a query |
| `Cidr`, `Identity` | CIDR blocks as prefixes of addresses; sessions over first-match ranges; longest prefix |
| `Captive` | the login that opens a session |
| `DnsMessages`, `Cache`, `CacheRuns` | messages as mutable objects; the two-tier cache; runs of its calls, one after the other |
| `CacheAge` | how old an answer can get with a working Redis |
| `CacheSteps` | the cache at the grain of its locks, the steps of all calls interleaved |
| `Upstream`, `Handler` | first-success forwarding; the query pipeline |
| `HandlerRuns`, `ServedAnswers` | runs in which the stages of many queries interleave |
| `LogPipeline` | the bounded log channel, its batching consumer, closing and draining |

Inputs of the model, in place of what the program gets from outside: the rows and errors of each SQL
query, the outcome of each statement of a transaction, the text read from a file or URL, the outcome
of each Redis call and upstream exchange, the instants read from the clock, the order in which Go
iterates over a map, the output of `sort.Slice`, and the order in which goroutines take their steps.
Durations and instants are nanoseconds. Where a result needs it, both cache tiers have the same floor and
ceiling, as the program gives them (cmd/dnsfilter/main.go:48-59).

What is hard here, in short:

* **Index = tables.** After a reload whose queries answer in full, the walk over hashed suffixes
  gives the verdict that the tables define, for every name and group.
* **Reloads interleave.** Clearing and refilling is not atomic. Any interleaving of reloaders ends
  with what the last one to clear loaded, and nothing nobody loaded; a query in the middle blocks
  only for reasons found in an old or new configuration. But a whitelisted name can be blocked in
  the middle of a reload, and `BlockedIff` says exactly when a query beside reloads is blocked.
* **Longest prefix from first match.** Real prefix arithmetic: blocks are nested or disjoint. The
  start-up sort compares mask sizes, matching compares prefixes, and the two differ for networks in
  IPv4-mapped form; so the loaded ranges match the longest prefix exactly when no range outranks the
  mapped ones at some address. Appending a range later keeps longest-prefix match exactly when no
  address of the new block is already matched only by shorter prefixes.
* **What a cached answer proves.** With any number of queries in progress, and without Redis, a
  lookup answers from the cache exactly when an upstream gave that answer to the same question, it
  was stored less than its lifetime ago, and nothing superseded it since the store. What comes between
  the upstream's answer and its store, an invalidation for instance, is overwritten. What portal and
  policy answer is independent of cache and upstreams over whole runs.
* **Two tiers.** Which of those facts survive Redis: with a working one, with one that fails now and
  then, and with one that always fails. How old an answer gets: Redis counts the lifetime from its
  own, later write, so its deadline lies after that of memory, and a Get in the gap between the two is
  answered and starts a whole new life in both. `AgeBoundIff` and `UnrenewedIff` say exactly when the
  age of an answer is bounded; without any invalidation it need not be (`ServedForEver`).
* **Two tiers under interleaving.** A Get holds no lock between its Redis read and its promotion, and
  a Set none between its two writes. In every interleaving an answer was Set for its key; a message
  can still be answered exactly when it is alive in a tier or in some call under way; answers are the
  last Set's in every interleaving in which no Set or Redis read of the key meets a call under way
  with another message, and wherever one does, the run can go on to answer another message.
* **Nothing lost in the log.** Flushed, held and queued entries are the accepted sends, in order, in
  every reachable state, and the drain after closing is complete. The consumer flushes full batches,
  on ticks and at the close, and at no other time; a tick leaves nothing unflushed.
* **Every reply fits.** On every path, in every interleaving of queries, what a client receives carries
  the identifier and the question of its own request, also when the records come from the cache.

Where code and comments or tests disagree, the code is followed:

* `GetRangeGroupID` returns the default group when no range matches; its comment says 0
  (internal/identity/resolver.go:184-196). So the user's own group is taken at login only when the
  range, or the default, is group 0; internal/captive/server_test.go:82 expects it always.
* The requirement that the whitelist has priority fails for a query that runs during a reload
  (`Reload.WhitelistGap`).
* `Cache.Invalidate` does not reach Redis (internal/cache/cache.go:116-133), and the reloads of the
  API do not read the list files back (internal/api/handlers.go:432-439), unlike the callback.
* The comment on the start-up sort says that the most specific range comes first
  (cmd/dnsfilter/main.go:130-140). The sort compares mask sizes, so ::ffff:10.0.0.0/104 comes before
  10.1.0.0/16 and takes its addresses (`Identity.MappedFirst`).
* The two suffix walks differ in the single-label suffix, and in names with empty labels
  (`Engine.WalksDifferInOneLabel`).

## Model

| member | source | states |
|---|---|---|
| `DomainNames.NormalUnchanged` | internal/filter/blacklist.go:149-155 | the fixed points of normalisation are exactly the lower-case names that end with a dot and start with no space |
| `DomainNames.NormalizeIdempotent` | internal/filter/blacklist.go:149-155 | normalising twice is normalising once |
| `DomainNames.NormalizeIgnoresCase` | internal/filter/blacklist.go:149-155 | strings that agree, character by character, but for capital against small ASCII letters normalise alike |
| `DomainNames.NormalizeMeaning` | internal/filter/blacklist.go:149-155 | between white space at its ends a name keeps every character but for its case; the result has no ASCII capital, and a final dot, which is added only when missing |
| `DomainNames.NormalizeIgnoresSpace` | internal/filter/blacklist.go:149-155 | an ASCII white space character before or after a name makes no difference |
| `DomainNames.NormalizeKeeps` | internal/filter/blacklist.go:149-155 | a name that starts and ends with a visible ASCII character keeps its length and all its characters but for case and the final dot |
| `DomainNames.NormalizeIgnoresFinalDot` | internal/filter/blacklist.go:149-155 | exactly when adding a final dot makes no difference, for every string |
| `DomainNames.NormalizeBelow` | internal/filter/blacklist.go:149-155 | a name under another normalises to a name under the other's normal form |
| `DomainNames.SuffixAtLabel` | internal/filter/blacklist.go:63-69 | joining the labels from number i on gives the string suffix that starts at label i |
| `DomainNames.LabelAtStart` | internal/filter/blacklist.go:63-69 | every position at the start or after a dot is where some label of the split starts |
| `DomainNames.LastLabel` | internal/filter/blacklist.go:64-69 | the label at which the walk stops is the one no dot follows |
| `DomainNames.SplitDomain` | internal/filter/engine.go:134-151 | the character loop yields the labels of the name with the empty ones dropped |
| `DomainNames.JoinDomain` | internal/filter/engine.go:153-162 | the loop yields the labels joined by dots, with a final dot |
| `DomainNames.SplitUndoesJoin` | internal/filter/engine.go:134-162 | splitting undoes joining exactly on lists of labels that are non-empty and hold no dot |
| `DomainNames.JoinUndoesSplit` | internal/filter/engine.go:134-162 | joining undoes splitting exactly on the root and the names that end with a dot and have no empty label |
| `DomainNames.SqueezeIsCanonical` | internal/filter/engine.go:134-162 | for any name, splitting and joining gives a name without empty labels that has the same labels |
| `DomainNames.ParentAtLabel` | internal/filter/engine.go:123-132 | the joins the category walk tries are the suffixes at strict label starts with at least two labels |
| `DomainNames.LabelAtParent` | internal/filter/engine.go:123-132 | and every such suffix is tried |
| `ListText.FetchDomains` | internal/filter/downloader.go:28-67 | the scan loop appends the domain of each line that has one; an unreachable source or a failed scan is an error |
| `ListText.LineDomainMeaning` | internal/filter/blacklist.go:120-146 | what a line contributes: nothing for blank and comment lines, the second field after a block address, the first otherwise |
| `ListText.WordsOfLine` | internal/filter/blacklist.go:120-146 | of a line with two words or more the second counts when the first is 127.0.0.1, 0.0.0.0 or ::1, and nothing does otherwise |
| `ListText.DomainsIff` | internal/filter/blacklist.go:120-146 | a domain is read from a list exactly when some line means it |
| `ListText.LineReadsBack` | internal/filter/blacklist.go:120-146 | any rendered plain, hosts, comment or blank line reads back as what it was written for |
| `ListText.LinesReadBack` | internal/filter/blacklist.go:91-146 | so does any list of such lines, in order |
| `ListText.TextReadsBack` | internal/filter/downloader.go:49-60 | so does the text, with either line ending and with or without one after the last line: scanning and reading gives the sequence of domains written |
| `Blacklists.Blacklist.Add` | internal/filter/blacklist.go:26-31 | adds the normal form, and nothing else |
| `Blacklists.Blacklist.Remove` | internal/filter/blacklist.go:34-39 | removes the normal form, and nothing else |
| `Blacklists.Blacklist.Contains` | internal/filter/blacklist.go:50-72 | true exactly when some non-empty suffix of the normal form, at a label start, is in the set; `Blacklists.CoveredInAnyCase` says that case makes no difference to it |
| `Blacklists.Blacklist.LoadFromFile` | internal/filter/blacklist.go:84-114 | adds the domains of the lines read and counts them, the same sequence that a download extracts, also when the scan fails |
| `Blacklists.CoveredIffUnder` | internal/filter/blacklist.go:50-72 | a name is contained exactly when it is, or lies below, a name of the set |
| `Blacklists.AddCoversExactly` | internal/filter/blacklist.go:26-72 | adding x adds to the contained names exactly x and the names below it |
| `Blacklists.CoveredInAnyCase` | internal/filter/blacklist.go:26-72 | a domain once added is contained in any case, and all spellings of a query that differ in case only are contained alike |
| `Blacklists.RemoveUncoversExactly` | internal/filter/blacklist.go:34-72 | after removing x a name stays contained exactly when some other name of the set covers it |
| `Blacklists.CoverageInherited` | internal/filter/blacklist.go:50-72 | names below a contained name are contained |
| `Blacklists.SubdomainContained` | internal/filter/blacklist.go:50-72 | prefixing labels to a contained domain gives a contained one, in the spelling a caller would use |
| `Blacklists.WrittenListLoads` | internal/filter/blacklist.go:84-146 | a written list, its last line ended or not, contains once loaded exactly the names under the domains written |
| `Store.LoadActiveBlocklistEntries` | internal/store/blocklist.go:17-52 | splits the rows by list type in row order; a bad query, row or iteration is an error |
| `Store.OfTypeContains` | internal/store/blocklist.go:35-50 | a domain is in the slice of a type exactly when some row carries it with that type |
| `Store.OfTypeInOrder` | internal/store/blocklist.go:35-50 | the domains of a type come in the order of their rows |
| `Store.LoadCategoryDomains` | internal/store/policies.go:89-113 | groups the readable rows by category, in row order, with no empty group |
| `Store.OfCategoryContains` | internal/store/policies.go:100-111 | a domain is in the group of a category exactly when some row says so |
| `Store.OfCategoryInOrder` | internal/store/policies.go:100-111 | the domains of a category come in the order of their rows |
| `Store.LoadGroupPolicies` | internal/store/policies.go:116-136 | a group blocks a category exactly when some readable row says so |
| `Store.SetGroupPolicy` | internal/store/policies.go:37-60 | all policies of the group are replaced and no other group changes, or, if any statement fails, nothing changes |
| `Store.InsertAll` | internal/filter/updater.go:107-116 | one failed insert aborts the transaction although the loop goes on |
| `Store.UpdateList` | internal/filter/updater.go:79-132 | a list is replaced by a complete non-empty download through a fully accepted transaction, or no table changes |
| `Store.DownloadOne` | internal/api/handlers.go:797-844 | all or nothing too, although this code ignores the errors of its statements |
| `Engine.UpdatedListContributes` | internal/filter/updater.go:79-132 | after an update a domain is in the lists of a type exactly when it was downloaded and the list is active, of that type and uncategorised, or another such list has it |
| `Engine.UpdatedListCategorises` | internal/filter/updater.go:79-132 | and in a category exactly when it was downloaded and the list is active and of that category, or another such list has it |
| `Engine.ListContributes` | internal/store/blocklist.go:18-25 | a list contributes either to the two global sets, by its type, or to each of its categories, never to both, and nothing when it is inactive |
| `Engine.Engine.LoadCategories` | internal/filter/engine.go:55-68 | the map is the replay of the categories in the order iterated, whichever it is, later ones winning |
| `Engine.Engine.FindParentCategory` | internal/filter/engine.go:123-132 | the category of the first mapped parent among the label suffixes, none below two labels |
| `Engine.Engine.EvaluateForGroup` | internal/filter/engine.go:86-120 | the verdict of the whitelist, the blacklist and the category policy, in that order of priority |
| `Engine.VerdictIgnoresCase` | internal/filter/engine.go:86-120 | names that differ in case only get the same verdict, whatever is loaded |
| `Engine.FalseIsAbsent` | internal/filter/engine.go:108-116 | a policy entry that is false decides nothing that its absence would not |
| `Engine.EveryOrderIndexes` | internal/filter/engine.go:55-68 | for every iteration order each normal domain maps to one of its categories, and nothing else is mapped |
| `Engine.OrderIrrelevantIffUnambiguous` | internal/filter/engine.go:55-68 | the map is the same for every order exactly when no normal domain has two categories |
| `Engine.ParentCategoryIsNearest` | internal/filter/engine.go:123-132 | what the parent walk finds is the category of the longest mapped strict suffix with at least two labels |
| `Engine.CategoryIsNearest` | internal/filter/engine.go:101-106 | exact lookup and walk together find the category of the nearest mapped name |
| `Engine.NearestUnique` | internal/filter/engine.go:101-132 | there is at most one nearest name |
| `Engine.WalksDifferInOneLabel` | internal/filter/engine.go:123-132 | on names without empty labels the two walks try the same suffixes, except the single label that only `Contains` tries |
| `Engine.ListRowsIndex` | internal/store/blocklist.go:17-52 | what a full answer loads is the index of the active uncategorised lists of a type |
| `Engine.CategoryRowsIndex` | internal/store/policies.go:89-113 | what a full answer loads is the index of the active categorised lists |
| `Engine.IndexedVerdict` | internal/filter/engine.go:86-132 | evaluating on the index gives the verdict defined on tables and files alone, for every name and group |
| `Engine.TableVerdictUnique` | internal/filter/engine.go:86-132 | with at most one category per normal domain the tables leave exactly one verdict |
| `Reload.AddAll` | cmd/dnsfilter/main.go:179-184 | adds exactly the normal forms of the domains |
| `Reload.FileNamesIff` | cmd/dnsfilter/main.go:185-193 | the names from a list file are exactly the normal forms of what its lines mean |
| `Reload.ReloadLists` | internal/api/handlers.go:413-446 | both sets become exactly what the tables list, the file names being lost; on an error nothing changes |
| `Reload.ReloadListsAndFiles` | cmd/dnsfilter/main.go:172-193 | both sets become exactly what tables and files list; on an error nothing changes |
| `Reload.ReloadMaps` | cmd/dnsfilter/main.go:195-202 | each map is replaced by what its query loads, or kept when the query fails |
| `Reload.ConfigChanged` | cmd/dnsfilter/main.go:170-205 | the callback does the steps in order, and when its queries answer in full the memory indexes tables and files |
| `Reload.SavedPolicyLoads` | internal/store/policies.go:37-136 | a policy saved and loaded back blocks for that group exactly the categories saved |
| `Reload.ContentSinceClear` | cmd/dnsfilter/main.go:177-193 | after any steps a name is in a set exactly when it was added since the last clear, or was there and nothing cleared |
| `Reload.ReloadsConverge` | internal/api/handlers.go:432-439 | any interleaving of reloaders ends with all that the last one to clear loads, and nothing that none of them loads |
| `Reload.SameLoadsExact` | internal/api/handlers.go:847-857 | reloaders that load the same domains end exactly with those, in every interleaving |
| `Reload.CallbackClearsThenAdds` | cmd/dnsfilter/main.go:177-193 | the steps of the callback are of that form: one clear of each set, before all its adds, which load tables and files |
| `Reload.CallbackAlone` | cmd/dnsfilter/main.go:177-202 | uninterrupted, they leave exactly what they load |
| `Reload.VerdictJustified` | internal/filter/engine.go:86-119 | in every interleaving of a query's three locked reads with reloads, each verdict is justified by an old or new list, map and policy |
| `Reload.BlockedIff` | internal/filter/engine.go:86-119 | exactly when a query beside reloads is blocked: its first read does not find the name in the whitelist as cleared and refilled so far, and its second finds it in the blacklist or its third finds its category blocked |
| `Reload.WhitelistedIff` | internal/filter/engine.go:86-91 | exactly when a query beside reloads finds its name whitelisted |
| `Reload.WhitelistGap` | cmd/dnsfilter/main.go:177-193 | a name in both lists, whitelisted before and after a reload, is blocked for a query that reads in between |
| `Cidr.ParseNetwork` | cmd/dnsfilter/main.go:131-148 | the network of any address and prefix length: the size of its mask, which the sort compares, is that length, also when its block is that of an IPv4-mapped form |
| `Cidr.ParsedContainsIff` | internal/identity/resolver.go:86-94 | a parsed network contains the address it was written with, unless that is IPv4-mapped and the prefix shorter than the mapping |
| `Cidr.BlockIsInterval` | internal/identity/resolver.go:86-94 | containing an address, by comparing prefixes, is lying in the interval of the block |
| `Cidr.NestedOrDisjoint` | internal/identity/resolver.go:86-94 | two CIDR blocks are nested or share no address |
| `Cidr.LongerIsInside` | internal/identity/resolver.go:86-94 | of two blocks that meet, the one with the longer prefix lies inside the other |
| `Cidr.StrictlyInsideIffLonger` | internal/identity/resolver.go:86-94 | and strictly inside exactly when its prefix is strictly longer |
| `Cidr.EqualLengthEqualBlock` | internal/identity/resolver.go:86-94 | blocks of equal prefix length that meet are equal |
| `Identity.FirstMatchIsFirst` | internal/identity/resolver.go:86-94 | the range found contains the address and no earlier one does; none is found only when none contains it |
| `Identity.Resolver.Resolve` | internal/identity/resolver.go:67-101 | the unexpired session's user and group, free of the portal; else group and mode of the range that contains the address with none before it containing it; else the default group, free of the portal |
| `Identity.ResolvedMeaning` | internal/identity/resolver.go:67-101 | the same of every state and address, ranges being tried by containment alone |
| `Identity.Resolver.GetRangeGroupID` | internal/identity/resolver.go:186-196 | the group of the range that contains the address with none before it containing it, or the default group |
| `Identity.Resolver.AddSession` | internal/identity/resolver.go:105-114 | replaces the session of that address only |
| `Identity.Resolver.RemoveSession` | internal/identity/resolver.go:117-121 | drops the session of that address only |
| `Identity.Resolver.AddRange` | internal/identity/resolver.go:134-140 | appends a range |
| `Identity.Resolver.EvictExpiredSessions` | internal/identity/resolver.go:151-166 | keeps exactly the sessions that have not expired and counts the others |
| `Identity.EvictionUnseen` | internal/identity/resolver.go:151-166 | an eviction changes no later answer for any address |
| `Identity.SortedMatchesLongestIff` | internal/identity/resolver.go:86-94 | on ranges sorted by mask size, first match is longest-prefix match for every address exactly when no unmapped range outranks, at some address, all mapped ranges that contain it |
| `Identity.NoLongerMeetsMapped` | internal/identity/resolver.go:86-94 | which is so when no mapped range is met by a strictly longer unmapped one |
| `Identity.LongerMeetsMapped` | internal/identity/resolver.go:86-94 | and not so when one is, the mapped ranges it meets all being larger |
| `Identity.ExampleParses` | cmd/dnsfilter/main.go:131-148 | ::ffff:10.0.0.0/104 parses to the block 10.0.0.0/8 with mask size 104, and 10.1.0.0/16 to itself |
| `Identity.MappedFirst` | cmd/dnsfilter/main.go:131-140 | these two sort in that order only, and 10.1.2.3 then matches the shorter prefix |
| `Identity.LoadSortedRanges` | cmd/dnsfilter/main.go:142-153 | appends the rows that parse, in order |
| `Identity.StartupMatchesLongestIff` | cmd/dnsfilter/main.go:131-153 | whatever permutation the unstable sort returns, the ranges loaded match the longest prefix for every address exactly when no row outranks the mapped rows at some address |
| `Identity.StartupMatchesLongest` | cmd/dnsfilter/main.go:131-153 | so they do when no row is in IPv4-mapped form |
| `Identity.OrderIrrelevantIff` | cmd/dnsfilter/main.go:131-140 | what an address resolves to is the same for all outputs of the sort exactly when its matches of the largest mask agree on group and mode |
| `Identity.NoDuplicatesAgree` | cmd/dnsfilter/main.go:131-140 | which they do for every address when no network is listed twice |
| `Identity.AddRangeKeepsLongestIff` | internal/api/handlers.go:488-494 | a range added later keeps longest-prefix match exactly when no address of it is matched so far only by shorter prefixes |
| `Identity.NotInsideNotShadowed` | internal/identity/resolver.go:134-140 | in particular when the new block is not strictly inside an existing one |
| `Identity.InsideShadowed` | internal/identity/resolver.go:134-140 | and not when it is, the blocks that meet it all being larger |
| `Captive.Authenticate` | internal/captive/server.go:38-44 | succeeds exactly for a known user with the right password, with that user's identity |
| `Captive.Server.HandleAuth` | internal/captive/server.go:155-194 | a session is opened exactly for a posted, authenticated login with a client address, in the range's group unless that is 0; otherwise nothing changes |
| `Captive.LoginLifecycle` | internal/captive/server.go:166-194 | whatever other logins and evictions follow, the client keeps identity and group, free of the portal, until expiry, and then has again the group and mode of the first range that contains it, or the default |
| `Captive.LoginGroupMeaning` | internal/captive/server.go:173-180 | the group of a login is that of the first range that contains the client, or the default group, or the user's own where that is 0 |
| `Captive.LoginKeepsGroupIff` | internal/captive/server.go:173-180 | a login keeps the range's group exactly when that is not 0 or is the user's |
| `DnsMessages.Msg.SetReply` | internal/dns/handler.go:110 | turns a message into the reply to a request: its identifier, opcode, response flag and first question, and for a standard query its RD and CD flags; the response code is reset, the answers and the authority flag are left alone |
| `DnsMessages.ReplyMeaning` | internal/dns/handler.go:110 | the same of every message and every request with a question |
| `DnsMessages.ExtractAnswerIP` | internal/dns/handler.go:172-179 | the address of the A record that no other precedes, none exactly when there is no A record |
| `DnsMessages.FirstAIff` | internal/dns/handler.go:172-179 | an address is extracted exactly when an A record has it and no A record comes before |
| `Cache.MinTTL` | internal/cache/cache.go:152-163 | the least TTL among the answers, an hour at most, and attained |
| `Cache.RedisCache.Get` | internal/cache/redis.go:48-64 | a new copy of the live value, nothing on a failed read |
| `Cache.RedisCache.Set` | internal/cache/redis.go:67-90 | stores a non-empty message with the TTL clamped again, unless the write fails |
| `Cache.RedisEntryMeaning` | internal/cache/redis.go:72-89 | in Redis a TTL between its limits is kept, a shorter one raised to the floor, the ceiling is the longest life, and a life of zero or less never ends |
| `Cache.Cache.ExtractTTL` | internal/cache/cache.go:152-172 | the loop and the two comparisons give the lifetime of the message, of which the next two lemmas say what it is in terms of its records |
| `Cache.LifetimeMeaning` | internal/cache/cache.go:152-172 | a message is kept for the floor when some TTL or the hour is no longer, for the ceiling when none is shorter or the ceiling is below the floor, and otherwise for the shortest of them |
| `Cache.LifetimeWithinTTLs` | internal/cache/cache.go:152-172 | no record whose TTL reaches the floor is kept longer than its TTL |
| `Cache.Cache.Set` | internal/cache/cache.go:92-112 | stores copies of a message with answers in both tiers, each with the lifetime counted from its own write, and changes no other key |
| `Cache.SetMeaning` | internal/cache/cache.go:92-112 | in memory no record outlives its TTL unless that is below the floor, and no other key changes |
| `Cache.Cache.Get` | internal/cache/cache.go:63-88 | a fresh copy from memory, or from Redis with promotion; counts one hit or one miss |
| `Cache.Cache.Invalidate` | internal/cache/cache.go:116-133 | drops the in-memory keys with the prefix of the name, returns how many, leaves Redis alone |
| `Cache.Cache.Evict` | internal/cache/cache.go:179-190 | keeps exactly the entries that have not expired |
| `Cache.MutationUnseen` | internal/cache/cache.go:63-112 | overwriting a message after Set, and the one Get returned, changes nothing the cache returns later |
| `CacheRuns.KeySeparates` | internal/cache/cache.go:58-60 | keys are equal exactly when the names are the same but for case and the types have the same text, when type texts hold no bar |
| `CacheRuns.InvalidatedIff` | internal/cache/cache.go:116-127 | which keys an invalidation drops, for all names, bars and either case included |
| `CacheRuns.InvalidateExact` | internal/cache/cache.go:116-127 | for names without a bar, exactly the entries of the fully qualified name in any case; the others stay as they are |
| `CacheRuns.FqdnMeaning` | internal/cache/cache.go:116-117 | a dot is added exactly when a name has none at its end, or one behind an odd number of backslashes |
| `CacheRuns.FinalDotIrrelevantIff` | internal/cache/cache.go:116-127 | a name with and without its final dot drops the same entries of every cache exactly when that dot would not be escaped |
| `CacheRuns.ClampTwice` | internal/cache/redis.go:72-78 | the second clamp changes nothing, also when the floor is above the ceiling |
| `CacheRuns.EntriesAreLatestWrites` | internal/cache/cache.go:92-133 | in every run an entry is what its latest write not invalidated since stored; one that is missing was evicted after its deadline |
| `CacheRuns.ServedIff` | internal/cache/cache.go:63-112 | without Redis, in every run, a key is answered exactly by its latest write not invalidated since, while younger than its lifetime |
| `CacheRuns.GoneAfterTTL` | internal/cache/cache.go:63-112 | so no message is answered once a record's TTL, if it reaches the floor, has passed since its Set |
| `CacheRuns.AnsweredUntilTTL` | internal/cache/cache.go:63-112 | and with all TTLs between the limits it is answered exactly until the first of them, or an hour, has passed |
| `CacheRuns.HitsPlusMisses` | internal/cache/cache.go:63-88 | hits plus misses is the number of Gets, in every run, whatever Redis does |
| `CacheRuns.EvictionsUnseen` | internal/cache/cache.go:175-196 | taking all eviction passes out of a run changes no later lookup, no counter and nothing in Redis |
| `CacheRuns.EvictionChangesNoAnswer` | internal/cache/cache.go:175-196 | so it changes no answer of Get |
| `CacheRuns.RedisHoldsLastSet` | internal/cache/cache.go:76-112 | calls following one another, with a working Redis that starts empty: its value for a key is the last message Set for it |
| `CacheRuns.RedisKeepsLastSet` | internal/cache/redis.go:67-90 | and stays at least for the message's lifetime |
| `CacheRuns.WorkingRedis` | internal/cache/cache.go:63-112 | calls following one another, with a working Redis: Get answers the last message Set for the key or nothing, surely the former to a read within its lifetime, and what Redis has when it is read is answered whatever memory, invalidations and evictions do |
| `CacheRuns.AnyRedis` | internal/cache/cache.go:63-112 | however Redis fails, an answer was Set for that key before |
| `CacheRuns.DeadRedis` | internal/cache/cache.go:63-112 | with a Redis that always fails the cache is the in-memory cache, state for state |
| `CacheAge.AnsweredWhileAlive` | internal/cache/cache.go:63-88 | a Get that looks in memory at x and reads Redis at y answers exactly when memory has the entry and x is before its deadline, or y is before the deadline of Redis; it promotes exactly when only the latter holds |
| `CacheAge.HeldSince` | internal/cache/cache.go:76-112 | with a working Redis both tiers hold the message last Set, each with a deadline counted from its own write at the latest Set or promotion |
| `CacheAge.InMemoryIff` | internal/cache/cache.go:116-133 | memory holds the entry until its deadline exactly when its name was not invalidated since the latest Set or promotion |
| `CacheAge.ServedSinceRenewal` | internal/cache/cache.go:63-112 | so, for every run, a Get is answered exactly by the message last Set, exactly while one of the two deadlines since the latest Set or promotion allows it |
| `CacheAge.PromotesIff` | internal/cache/cache.go:76-82 | a Get promotes exactly when its Redis read is in time and its memory lookup fails because of an invalidation since, or because it falls after the deadline of memory |
| `CacheAge.UnrenewedIff` | internal/cache/cache.go:76-82 | a life is still that of the Set exactly when no Get since came after an invalidation, or in the gap between the deadlines, and read Redis in time |
| `CacheAge.AgeBoundIff` | internal/cache/cache.go:76-112 | no later answer is taken more than a lifetime after the Redis write of its Set exactly when the lifetime is positive and the key was not renewed at a later instant, or the renewed life is over |
| `CacheAge.ServedWithinLife` | internal/cache/cache.go:63-112 | while no Get could renew it, a message is answered exactly until its deadline in memory, if not invalidated, or to a read before its deadline in Redis |
| `CacheAge.AnsweredInGap` | internal/cache/cache.go:101-111 | after one Set, and nothing else, a Get that falls between the two deadlines is answered although the lifetime has passed |
| `CacheAge.ServedForEver` | internal/cache/cache.go:76-112 | for every n there is a run of one Set and n Gets, none starting before the call before it is over, after which a message is answered n + 1 lifetimes after its Set |
| `CacheAge.KeptForEver` | internal/cache/redis.go:72-89 | a message of lifetime zero is answered for ever |
| `CacheSteps.GetInOneGo` | internal/cache/cache.go:63-88 | the lookup, the Redis read and the two writes of a promotion, each at its own instant and with nothing between, are the Get proved of the object |
| `CacheSteps.SetInOneGo` | internal/cache/cache.go:92-112 | and the two writes of a Set, at theirs, are its Set |
| `CacheSteps.AnswersWereSet` | internal/cache/cache.go:63-112 | in every interleaving of those steps, however Redis fails, an answer was Set for its key before |
| `CacheSteps.MayBeAnsweredIff` | internal/cache/cache.go:63-112 | in every state, a message can be answered later without another Set of the key exactly when a tier holds it unexpired or a call under way has still to write it |
| `CacheSteps.SetFinishedIff` | internal/cache/cache.go:101-111 | once a Set has written Redis, all answers until the next Set are its message exactly when memory holds no other and no other call under way carries another |
| `CacheSteps.QuietAnswersLast` | internal/cache/cache.go:63-112 | with a working Redis, answers are the last Set's message in every interleaving in which no Set of the key starts, and no Redis read finds it, while a Set or promotion of another message is under way |
| `CacheSteps.UnquietCanAnswerAnother` | internal/cache/cache.go:76-112 | and wherever that condition fails, the run can go on, without another Set, to answer a message that is not the last Set's |
| `CacheSteps.PromotionStraddlesSet` | internal/cache/cache.go:76-82 | for instance a promotion that reads before a Set and writes after it: the older message is answered |
| `Upstream.Resolve` | internal/dns/resolver.go:31-42 | the reply of the first upstream that answers, all before it having failed, none after it being asked; an error exactly when all fail |
| `Upstream.FirstAnswerIff` | internal/dns/resolver.go:31-42 | a message is the answer exactly when some upstream sent it and all earlier ones failed |
| `Handler.Handler.ServeDNS` | internal/dns/handler.go:57-142 | one reply, one count, at most one log entry, and the cache after it, for every query; nothing at all without a question |
| `Handler.Handler.Answer` | internal/dns/handler.go:107-141 | a hit is answered from a copy; a miss is forwarded |
| `Handler.Handler.Forward` | internal/dns/handler.go:121-141 | the cache keeps what the upstream sent although the message is then changed into the reply; a failure is SERVFAIL, uncached and unlogged |
| `Handler.Handler.SendBlockResponse` | internal/dns/handler.go:183-215 | block address for A, the zero address for AAAA, no record otherwise, TTL 60, authoritative |
| `Handler.Handler.SendCaptiveResponse` | internal/dns/handler.go:218-249 | the same with the portal address and TTL 10 |
| `Handler.Handler.SendEntry` | internal/dns/handler.go:145-169 | the entry goes to the log pipeline when there is one, and the cache is untouched |
| `Handler.PolicyFollowsTables` | internal/dns/handler.go:90-105 | when the filter indexes the tables, the portal answers exactly the clients that must log in, and the policy refuses, of the rest, exactly what the tables block for the group |
| `Handler.PathTaken` | internal/dns/handler.go:57-142 | which of the five paths a query takes: portal exactly for who must log in, then policy for what is blocked, then cache on a hit, then the upstreams if one answers, then the failure |
| `Handler.EveryPathReplies` | internal/dns/handler.go:57-249 | on every path the reply has the request's identifier, opcode and first question, and is: a refusal with TTL 60 or 10, the records cached or received, or SERVFAIL; and the log entry says who asked what, when, and what became of it |
| `HandlerRuns.ServedIsARun` | internal/dns/handler.go:57-142 | handling one query undisturbed is the run of its stages with nothing in between |
| `HandlerRuns.OneAnswerEach` | internal/dns/handler.go:57-142 | in every interleaving a finished query has one answer, an unfinished one none, and the count is the number of answers |
| `HandlerRuns.EveryQueryAnswered` | internal/dns/handler.go:57-142 | a query with a question that goes through its stages (arrival, lookup, exchange, store) is answered exactly once, whatever is interleaved |
| `HandlerRuns.EveryAnswerFits` | internal/dns/handler.go:57-249 | in every interleaving each answer carries the identifier, opcode and first question of the request that its query arrived with |
| `ServedAnswers.CacheProjects` | internal/dns/handler.go:107-132 | the cache of a run of the server is the run of the cache over what the stages do to it |
| `ServedAnswers.SameQuestionSameType` | internal/cache/cache.go:58-60 | for types with a name of their own, one key means one type |
| `ServedAnswers.ReachesItsNameOnly` | internal/cache/cache.go:116-127 | for a question whose name has no bar, exactly the invalidations of that name, with or without its final dot and in any case, supersede it |
| `ServedAnswers.CachedAnswerIff` | internal/dns/handler.go:107-132 | without Redis, in every interleaving, a lookup answers from the cache exactly when an upstream gave that answer to the same question, its age since is below the lifetime plus the time until it was stored, and nothing superseded it since the store |
| `ServedAnswers.SupersededSinceExchangeIff` | internal/dns/handler.go:121-132 | nothing superseded it since the upstream gave it either, exactly when nothing did before the store |
| `ServedAnswers.InvalidationOvertaken` | internal/dns/handler.go:121-132 | for instance an invalidation between the exchange and the store is lost: the answer given before it is served |
| `ServedAnswers.CacheHoldsAllowedAnswers` | internal/dns/handler.go:90-132 | without Redis or with one that starts empty and fails at will, all either tier ever holds is upstream answers to queries the policy let through: no reply of portal or policy |
| `ServedAnswers.SteppedAnswersAllowed` | internal/dns/handler.go:121-132 | at the grain of the cache's locks too, in any interleaving and with any failures of Redis, what is answered is an upstream's answer to a query let through, as the handler stores nothing else |
| `ServedAnswers.RefusedStaysOut` | internal/dns/handler.go:90-105 | a captive or blocked query is answered at once with the refusal, leaves the cache as it was, and does nothing later |
| `ServedAnswers.PolicyIndependent` | internal/dns/handler.go:90-105 | two runs with the same arrivals give the same portal and policy answers, whatever cache, Redis and upstreams do |
| `ServedAnswers.LoginLiftsPortal` | internal/dns/handler.go:90-96 | after a login the portal answers none of the client's queries until expiry, and then exactly if the first range that contains the client demands it |
| `ServedAnswers.CountersBalance` | internal/cache/cache.go:63-88 | in every interleaving hits are the answers from the cache, and misses are upstream answers, failures and queries still waiting |
| `LogPipeline.Pipeline.Send` | internal/logging/pipeline.go:39-50 | never waits: the entry is handed over, queued, or dropped and counted, with a warning every thousandth drop |
| `LogPipeline.Pipeline.Take` | internal/logging/pipeline.go:93-99 | appends within the capacity of the reused batch array and flushes it when full |
| `LogPipeline.Pipeline.Receive` | internal/logging/pipeline.go:84-99 | takes the oldest entry; on a closed empty channel flushes the rest and stops |
| `LogPipeline.Pipeline.Tick` | internal/logging/pipeline.go:101-106 | flushes all that the batch holds, unless it is empty, and leaves it empty |
| `LogPipeline.Pipeline.Stop` | internal/logging/pipeline.go:62-66 | whatever the ticker does, the consumer exits after pending + 1 receives, having flushed all that was held and queued, in order, in batches of legal size |
| `LogPipeline.Schedule` | internal/logging/pipeline.go:39-109 | running producers, consumer and ticker in any order does what the step functions say |
| `LogPipeline.LogConserved` | internal/logging/pipeline.go:39-109 | in every reachable state flushed, then held, then queued entries are exactly the accepted ones, in send order |
| `LogPipeline.SendsAccounted` | internal/logging/pipeline.go:39-50 | accepted plus dropped is the number of sends |
| `LogPipeline.WarningsCount` | internal/logging/pipeline.go:45-48 | the warnings printed are the drops divided by 1000, rounded up, each with its count |
| `LogPipeline.DropsCountedIff` | internal/logging/pipeline.go:45 | incremented without synchronisation the drop counter never exceeds the drops, and equals them exactly when no two increments overlapped |
| `LogPipeline.FlushSizes` | internal/logging/pipeline.go:75-109 | the channel stays within its buffer, the batch below its capacity, and every flush has between 1 and batchSize entries |
| `LogPipeline.TickFlushesAll` | internal/logging/pipeline.go:101-106 | in every run, after a tick the consumer holds nothing, and all accepted entries but those in the channel are flushed |
| `LogPipeline.FlushesOnlyWhen` | internal/logging/pipeline.go:84-106 | and in every run a step flushes at most one batch, which is full, or is flushed by a tick or by the end of the closed channel |
| `LogPipeline.PendingFlushedByTick` | internal/logging/pipeline.go:84-106 | once the consumer has received as often as entries were pending, the next tick has flushed everything accepted, full batch or not |
| `LogPipeline.SendOutcome` | internal/logging/pipeline.go:39-50 | a send is dropped, and counted, exactly when the buffer is full and no consumer waits at an empty channel; otherwise its entry is the last of those flushed, held and queued |
| `LogPipeline.ExitsAfterPending` | internal/logging/pipeline.go:84-91 | once closed the consumer runs exactly until its (pending + 1)-th receive |
| `LogPipeline.AllFlushedAfterClose` | internal/logging/pipeline.go:62-109 | by then every accepted entry has been flushed exactly once, in order |

## Left out

- Sockets, HTTP, the DNS wire format, TLS, Redis and PostgreSQL themselves: outcomes and values only. Packing a message for Redis and unpacking it is taken to give it back.
- Rate limiter, JWT, bcrypt, HTML pages, redirects, configuration files, dashboard, retention and log search: plumbing around the decision path.
- Case folding beyond ASCII in names and list lines.
- Cache.Cache.Get: is one call undisturbed by others, and so are the calls of `CacheRuns`, `CacheAge` and `ServedAnswers`; `CacheSteps` has their steps interleaved. Without Redis nothing is lost by that, as each call then takes one lock.
- Blacklist.Size, Cache.GetStats, Resolver.LoadRanges and Pipeline.Pending read or overwrite one field, and are not modelled.
- CacheRuns.WorkingRedis: holds of calls that follow one another; `CacheSteps.QuietAnswersLast` and `CacheSteps.UnquietCanAnswerAnother` say when it holds of interleaved ones.
- Cache.RedisCache.Set: a TTL of zero or less is modelled as no expiry; a lost acknowledgement of a write that happened is not modelled.
- Store.UpdateList: the transaction's commit either happens or fails; a lost acknowledgement is not modelled, nor is domain_count, which also counts rows skipped as duplicates.
- ListText.FetchDomains: a line too long for the scanner is a failed scan given as input; the 50 MB cut of a download is part of the text given.
- Identity.StartupMatchesLongestIff: rows whose CIDR does not parse are excluded, as the column has type cidr; the loading loop does skip such rows.
- Handler.Handler.ServeDNS: the branch for an identity error is absent because Resolve returns no error; latency sums are left out, and so are write errors, which are only printed.
- LogPipeline.Pipeline.Send: is one atomic step; `LogPipeline.DropsCountedIff` says when the drop counter is as if it were. The counter's 64-bit wrap-around is not modelled; sending after the close panics and is a precondition.
- LogPipeline.Pipeline.Take: flushing is recorded as handing over the batch; failed inserts of a batch are only counted by the program.
- The start-up load of lists and maps is the callback's steps without the clears, and adds nothing to prove.
- Range updates and deletes through the API change only the database (internal/api/handlers.go:624-658), and so nothing modelled here.
