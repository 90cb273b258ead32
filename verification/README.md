# Cache-Pot, verified

A Dafny model of the stateful core of Cache-Pot, an in-memory engine made of small data
structures with lazy expiry, secondary indexes and bounded approximations. What the Go code
does by updating fields, maps and slices in place is done here by classes, arrays and loops.
Each method is proved against a specification given as a function on values, and what the
program promises over several calls or over whole runs is proved of that specification.

## How it is laid out

- The key-value store. `Keyspace` says what every command does to one flat value (stored
  entries with their deadlines, and the mutation counters). `Shards` and `Stores` are the
  objects: a hash-routed list of shards with a data map, a deadline index and versions each,
  entry objects updated in place, and one shared counter. Every command method takes the
  ghost value `db` to what `Keyspace.Step` says, for any hash, any number of shards, any map
  iteration order and any eviction policy, and keeps the invariant `Stores.Store.Valid`.
  `KeySteps` and `ValueLoops` hold the steps and the loops the commands share.
- Laws of that specification: `FlatMap` (one flat map per workspace and key), `Versions`
  (the counters behind WATCH), `EvictionBound`, `ScanLaws`, `ListLaws`, `HashLaws`, and `Answers`
  (from what the store hands out to the bytes a client reads).
- What each operation means, in plain terms and apart from the specification it is written as:
  `OpLaws` (commands on one key), `RankLaws` (sorted sets), `StoreLaws` (commands on several keys,
  versions, bookkeeping), `GlobTokens` (patterns), `Requests` (the dispatcher, logins, handlers),
  `VectorLaws`, `MemoryLaws` and `CacheLaws`.
- `Refinement` puts the objects and the laws together: a store object in use, with any number
  of shards and any hash, against the flat map and against the eviction bound.
- Transactions: `Tx` is the state machine of one connection and the run of a whole server
  with any number of connections; `Connections` is the connection object, proved equal to it;
  in `Sessions` several such objects on one store object serve a log of requests, and what
  they do is a run of the server. `TxCases` holds two short runs from the empty store.
- Algorithms: `Glob` and `GlobCopies` (its two copies compared), `Resp`, `Graph`, `Vectors`,
  `Consolidate`, `Tracker`, `SemanticCaches`, `Latency`.
- The memory store: `MemoryState` (value, runs, what Search finds) and `MemoryStores` (object).
- `Base`, `Numbers` and `MemoryTypes` hold what several of them share.

Time is a number passed to each command. A hash, an embedding, a similarity, a tokenizer, the
upper-casing of command names and an eviction score are arbitrary functions; an undefined (NaN)
score is `None`. Map iteration is an arbitrary choice, so results are proved whatever it is.
A removal by the reaper or an eviction names its keys in a ghost result.

## What turned out not to hold

For each of these there is a lemma, or a method, with a concrete case and one with the exact
condition.

- The eviction cap plus shards minus one is not a bound for every run. Case:
  `EvictionBound.ExceededAfterCrowdingRename`. A run keeps entries plus empty shards within it
  throughout exactly if no RENAME in it gives up a shard for one already in use at a moment when
  there is no room for that (`EvictionBound.RunBoundedExactlyWhen`, one command:
  `EvictionBound.StepBoundedExactlyWhen`, on a store object: `Refinement.RunCapped`), and outside
  it SETs alone lead past the cap plus shards minus one (`EvictionBound.BoundIsWeakest`).
- What a reader saw at WATCH need not be what a reader sees when EXEC runs its queue: a deadline
  that merely passes moves no version. Case: the run `TxCases.SilentExpiryRun` with the replies
  of `TxCases.SilentExpiryReplies`. It is the same exactly if the key had no deadline that came
  due in between (`Tx.CommitSeesVisibleStateExactlyWhen`).
- A login to another workspace between WATCH and EXEC makes EXEC look at other keys. Case: the
  run `TxCases.WorkspaceSwitchRun`. EXEC's comparison shows that a watched key is as it was
  exactly if EXEC runs in the workspace of the WATCH (`Tx.ComparisonProvesExactlyWhen`).
- A workspace name containing NUL can share stored keys with another workspace. Case:
  `FlatMap.NulBreaksIsolation`. Two workspaces share none exactly if neither continues the other
  past a NUL (`FlatMap.ShareNothingExactlyWhen`; for two names, `FlatMap.CollidesExactlyWhen`),
  and the store answers every run over a set of workspaces like a flat map exactly if they are
  all apart in this sense (`FlatMap.LikeFlatMapExactlyWhen`).
- The same construction keeps the partitions of the similarity cache apart only up to NULs. Case:
  `SemanticCaches.NulMixesPartitions`. Exactly when:
  `SemanticCaches.PartitionsCollideExactlyWhen`, and what that does to a lookup,
  `SemanticCaches.CrossMatchesExactlyWhen`. The server parses a temperature as a number, and
  temperatures without NUL are enough to keep them apart.
- A stored empty string is answered by GET like a missing one, by the null bulk string, since a
  copy of an empty slice is nil (internal/storage/memstore/store.go:287,
  internal/server/resp/types.go:134-138). Case: `Answers.EmptyLooksAbsent`. Exactly when:
  `Answers.GetIsNullExactlyWhen` and `Answers.GetIsValueExactlyWhen`; HGET, the pops and SET with
  GET are alike.
- A collection method of the store can leave an empty collection behind. Case:
  `Versions.HollowCase`, SADD called without members. It happens exactly if a call without
  arguments creates its key (`Versions.HollowOnlyFromNothing`, over runs
  `Versions.RunHollowExactlyWhen`). A request cannot do it: the registered arities ask for
  arguments, and then no run does (`Versions.WithArgumentsNothingIsHollow`).
- HINCRBY does not always answer the sum, and no reply announces it. Case: `HashLaws.LargestPlusOne`,
  and by `HashLaws.OverflowIsReachable` at any distance past either edge. It answers the sum
  exactly if the sum fits 64 bits (`HashLaws.TrueSumExactlyWhen`).
- The comment on `entryCount` (internal/storage/memstore/store.go:35-42) speaks of live entries;
  the code counts expired ones until they are removed, and so does the model. Case:
  `Refinement.ExpiredIsCounted`. The two numbers are equal exactly if no stored entry has expired
  (`Stores.Store.CountsTheLiveExactlyWhen`).
- The matcher of the keyspace honours backslash escapes, the pub/sub copy of it does not. Case:
  `GlobCopies.CopiesDifferOnEscape`. They read a pattern as the same tokens exactly if no
  backslash in it quotes (`GlobCopies.CopiesAgree`), and accept the same texts exactly if so, or
  if both readings contain a class that lets nothing through, so that neither accepts any text
  (`GlobCopies.CopiesAcceptTheSameExactlyWhen`).
- With a clock that goes back, one similarity lookup can lose an entry for a later one. A lookup
  reads the clock before it takes the lock (internal/semantic/cache.go:125-129), so two of them
  can be served in the reverse order of their readings. Case:
  `SemanticCaches.ClockGoingBackLosesEntries`. A lookup is harmless to another in its partition,
  whatever is stored, exactly if its clock reading is no later, given only that the other can hit
  at all
  (`SemanticCaches.LookupIsHarmlessExactlyWhen`).

## Model

| member | source | states |
|---|---|---|
| Stores.Store.constructor | internal/storage/memstore/store.go:119-144 | a new store is empty and routes every key to the shard its hash names, 32 shards unless a positive number is given |
| Stores.Store.GetForWrite | internal/storage/memstore/shard.go:69-80 | an expired entry is removed with its index entry, its count and one version step; a live one is returned as the stored object; the redundant state still agrees |
| Stores.Store.Put | internal/storage/memstore/shard.go:86-97 | the entry object is now the one stored under the key, counted once, indexed exactly if it has a deadline, version moved by one |
| Stores.Store.EvictIfNeeded | internal/storage/memstore/store.go:174-190 | at most one key goes, only when the cap would be passed, only from the shard of the new key, the one with the greatest score of a sample of that shard, and none only if that shard is empty |
| Stores.Store.EnsureKind | internal/storage/memstore/store.go:243-255 | the live entry of the wanted kind, or a new empty one stored after passive expiry and eviction, or none on a kind mismatch, with the resulting store in each case |
| Stores.Store.Get | internal/storage/memstore/store.go:272-288 | reply and store as specified: expired is absent, wrong kind is an error, a hit records the access and hands out a copy, nil for an empty value |
| Stores.Store.CheckSet | internal/storage/memstore/store.go:297-323 | SET is refused exactly for the wrong kind under GET, for NX on a present and XX on an absent key, and reports a copy of the old value exactly under GET |
| Stores.Store.Set | internal/storage/memstore/store.go:290-332 | reply and store as specified with NX, XX, GET and time to live, eviction only for a new key |
| Stores.Store.Del | internal/storage/memstore/store.go:334-349 | the number of keys that were live, each removed with a version step, duplicates counted once |
| Stores.Store.Exists | internal/storage/memstore/store.go:351-362 | the number of arguments that name a live key; nothing changes |
| Stores.Store.Expire | internal/storage/memstore/store.go:364-382 | a live key gets the deadline, or is removed when it is not in the future; the deadline index follows |
| Stores.Store.TTL | internal/storage/memstore/store.go:384-402 | absent, without a deadline, or the remaining time, never negative |
| Stores.Store.Persist | internal/storage/memstore/store.go:404-416 | drops the deadline of a live key that has one, and says whether it did |
| Stores.Store.TypeOf | internal/storage/memstore/store.go:418-427 | the kind of the live entry, none if there is none |
| Stores.Store.Rename | internal/storage/memstore/store.go:429-472 | the live entry moves with its deadline and bookkeeping, whatever held the new name is overwritten, both versions move, for one shard as for two |
| Stores.Store.KeysForWorkspace | internal/storage/memstore/store.go:474-491 | exactly the live names of the workspace, each once, in whatever order the shards are walked |
| Stores.Store.Keys | internal/storage/memstore/store.go:493-508 | the live names that the pattern accepts, sorted |
| Stores.Store.Scan | internal/storage/memstore/store.go:516-542 | the page of the sorted names at the cursor, filtered, and the next cursor |
| Stores.Store.FlushDB | internal/storage/memstore/store.go:544-556 | every key of the workspace in every shard goes with a version step, no other |
| Stores.Store.Query | internal/storage/memstore/store.go:605-623 | a read-only accessor of any kind replies as specified and changes nothing but an expired key |
| Stores.Store.HSet | internal/storage/memstore/store.go:560-581 | the merged hash and the number of new fields, whatever order the fields are visited in |
| Stores.Store.HGet | internal/storage/memstore/store.go:583-603 | the field of a live hash, copied, with the access recorded only on a hit |
| Stores.Store.HDel | internal/storage/memstore/store.go:625-652 | the named fields are gone and counted once each; the key goes with its last field; nothing moves when none was there |
| Stores.Store.HIncrBy | internal/storage/memstore/store.go:755-779 | the field counts in 64 bits, a value that is no number is refused and left |
| Stores.Store.LPush | internal/storage/memstore/store.go:783-800 | the values end up in front in reverse order of arrival |
| Stores.Store.RPush | internal/storage/memstore/store.go:802-819 | the values end up behind in order of arrival |
| Stores.Store.LPop | internal/storage/memstore/store.go:821-844 | the head is returned and removed, the key with its last element |
| Stores.Store.RPop | internal/storage/memstore/store.go:846-869 | the tail is returned and removed, the key with its last element |
| Stores.Store.LRange | internal/storage/memstore/store.go:871-901 | the clamped window with negative indexes counted from the end |
| Stores.Store.LSet | internal/storage/memstore/store.go:940-961 | one element is replaced, or the key is missing or the index out of range and nothing changes |
| Stores.Store.LRem | internal/storage/memstore/store.go:963-1013 | list, count, reply, version and disappearance of the key as specified, for every sign of the count |
| Stores.Store.SAdd | internal/storage/memstore/store.go:1017-1039 | the union and the number of new members, duplicates in the arguments counted once |
| Stores.Store.SRem | internal/storage/memstore/store.go:1041-1069 | the difference and the number removed; the key goes with its last member |
| Stores.Store.ZAdd | internal/storage/memstore/store.go:1230-1251 | the merged scores and the number of new members |
| Stores.Store.ZRem | internal/storage/memstore/store.go:1253-1280 | the members are gone and counted once each; the key goes with its last member |
| Stores.Store.ZIncrBy | internal/storage/memstore/store.go:1404-1417 | the member's score is raised from 0 or its old value, without recording an access |
| Stores.Store.ZRange | internal/storage/memstore/store.go:1282-1310 | the window of the members in score, then name order |
| Stores.Store.ZRank | internal/storage/memstore/store.go:1363-1386 | the member's position in that order |
| Stores.Store.SweepShard | internal/storage/memstore/store.go:205-210 | one reaper visit removes expired keys of that shard only, all of them when the sample covers the index, and the count is what was removed |
| Stores.Store.WatchVersion | internal/storage/memstore/store.go:1446-1452 | the key's mutation counter, 0 if never mutated |
| Stores.Store.Perform | internal/storage/memstore/store.go:272-1069 | any command of the model takes the store and the reply where its specification says, with a legal eviction, and keeps the invariant |
| Stores.Store.EntryCountIsSumOfShards | internal/storage/memstore/shard.go:86-123 | the shared counter is the sum of the shard sizes |
| Stores.Store.CountsTheLiveExactlyWhen | internal/storage/memstore/store.go:35-42 | the counter is the number of live entries if and only if no stored entry has expired, and otherwise greater |
| Stores.Store.IndexIsExact | internal/storage/memstore/shard.go:20-23 | a key is in its shard's deadline index exactly if its entry has a deadline, and sits only in the shard its hash names |
| Stores.Store.NoSharedEntries | internal/storage/memstore/store.go:429-472 | no two keys share an entry object, also after RENAME |
| Shards.Shard.GetLive | internal/storage/memstore/shard.go:51-65 | the stored object if it is not expired, and nothing is removed |
| Shards.Shard.GetForWrite | internal/storage/memstore/shard.go:69-80 | data, deadline index, version and count after passive expiry of one key |
| Shards.Shard.SetEntry | internal/storage/memstore/shard.go:86-97 | data, deadline index, version and count after storing an entry object |
| Shards.Shard.SetExpiry | internal/storage/memstore/shard.go:101-109 | the deadline changes in place and the index with it |
| Shards.Shard.DeleteEntry | internal/storage/memstore/shard.go:117-123 | the key leaves data and index, the count falls exactly if it was there, the version stays |
| Shards.Shard.BumpVersion | internal/storage/memstore/shard.go:127-131 | one version moves by one, also for a key never seen |
| Shards.Shard.SweepSample | internal/storage/memstore/shard.go:143-158 | only expired keys go, at most the sample size, all of them when the index is no larger, each with count, index and version |
| Shards.Shard.PickEvictionVictim | internal/storage/memstore/shard.go:171-194 | the key with the greatest score of an arbitrary sample of the right size, of the whole shard when the sample takes it in; none only if there is nothing to choose from |
| ValueLoops.PushFront | internal/storage/memstore/store.go:792-795 | prepending one by one reverses the values in front of the list |
| ValueLoops.Merge | internal/storage/memstore/store.go:570-576 | overwriting in arbitrary order gives the right-biased union and counts the new names |
| ValueLoops.MergeMembers | internal/storage/memstore/store.go:1027-1034 | the union, and each new member counted once |
| ValueLoops.RemoveNames | internal/storage/memstore/store.go:638-644 | the names are gone, and those that were there counted once |
| ValueLoops.RemoveMembers | internal/storage/memstore/store.go:1054-1061 | the members are gone, and those that were there counted once |
| ValueLoops.RemoveOccurrences | internal/storage/memstore/store.go:975-1004 | both directions of the LREM loop leave what the specification says and count what they dropped |
| ValueLoops.CollectSorted | internal/storage/memstore/store.go:1216-1228 | the unique order of the members by score, then name, whatever order the map is walked in |
| ValueLoops.FindRank | internal/storage/memstore/store.go:1378-1385 | the loop finds the member's position |
| ValueLoops.Window | internal/storage/memstore/store.go:884-900 | clamping and copying give the inclusive window |
| ValueLoops.SelectAndSort | internal/storage/memstore/store.go:493-508 | filtering and sorting give the same list whatever the input order |
| ValueLoops.PageOf | internal/storage/memstore/store.go:516-542 | sorting, cutting and filtering give the page and the next cursor |
| FlatMap.StepSame | internal/storage/memstore/store.go:205-251 | with eviction off one command on the store and on a flat map from workspace and key give the same reply and leave the same view, for workspaces that are apart |
| FlatMap.RunsLikeFlatMap | internal/storage/memstore/shard.go:51-80 | over every run, with reaper visits anywhere and a clock that never goes back, every reply is that of the flat map, for workspaces that are apart |
| Refinement.Run | internal/storage/memstore/store.go:119-144 | a new store object with eviction off answers any run of commands, over workspaces that are apart, and reaper visits as one flat map, whatever the number of shards, the hash, the policy and the visits |
| Refinement.Serve | internal/storage/memstore/store.go:205-251 | so does any store object whose contents look like the map's, and it stays valid |
| FlatMap.ReaperIsInvisible | internal/storage/memstore/shard.go:143-158 | two runs that differ only in reaper visits get the same replies |
| FlatMap.WorkspacesAreIndependent | internal/storage/memstore/store.go:217-219 | the flat map's replies to one workspace's commands are those it would give alone |
| FlatMap.StoreWorkspacesAreIndependent | internal/storage/memstore/store.go:214-219 | the replies of a store, reaped and shared by others, to one workspace's commands are those of a store used by that workspace alone |
| OpLaws.WrongTypeExactlyWhen | internal/storage/memstore/store.go:272-1417 | a command is refused for the kind of a value exactly if it needs one and the live value is of another, and then nothing changes |
| OpLaws.SetExactlyWhen | internal/storage/memstore/store.go:290-332 | SET goes through if and only if NX finds no key and XX finds one; then the key holds exactly the value for the time to live asked for, otherwise everything stays; the old value is told exactly under GET |
| OpLaws.SetThenGet | internal/storage/memstore/store.go:272-332 | on the store: GET finds the value until the time to live is over, and nothing from then on |
| OpLaws.ExpireMeans | internal/storage/memstore/store.go:364-382 | the reply tells whether the key is there; it then expires at exactly now plus the time to live, or is gone if that is not positive |
| OpLaws.TTLTells | internal/storage/memstore/store.go:384-402 | the key expires at a moment if and only if the time told has passed by then; no time is told exactly if it never expires |
| OpLaws.PersistMeans | internal/storage/memstore/store.go:404-416 | afterwards the value never expires, and the reply tells whether it would have |
| OpLaws.GetMeans | internal/storage/memstore/store.go:272-288 | the value if there is one of the kind, nothing if and only if there is no key |
| OpLaws.QueryMeans | internal/storage/memstore/store.go:605-623 | a read-only accessor shows the value of its kind and leaves it |
| OpLaws.HSetMeans | internal/storage/memstore/store.go:560-581 | a given field has the new value, any other the old; the reply is by how many fields the hash has grown |
| OpLaws.HSetThenHGet | internal/storage/memstore/store.go:560-603 | HGET after HSET finds the new value where one was given and the old one elsewhere |
| OpLaws.HGetMeans | internal/storage/memstore/store.go:583-603 | the field's value, nothing if and only if there is no such field |
| OpLaws.HDelMeans | internal/storage/memstore/store.go:625-652 | exactly the named fields are gone, the reply is by how many the hash has shrunk, the key goes exactly with its last field |
| OpLaws.HIncrByElsewhere | internal/storage/memstore/store.go:755-779 | counting in one field leaves the others |
| OpLaws.PushMeans | internal/storage/memstore/store.go:783-819 | LPUSH grows the list at the head, the last value first, RPUSH at the tail in order; the reply is the new length |
| OpLaws.PopMeans | internal/storage/memstore/store.go:821-869 | the element popped put back at its end gives the old list; the key goes exactly with its last element |
| OpLaws.LSetMeans | internal/storage/memstore/store.go:940-961 | exactly the element at the position is replaced, counted from the end when negative; refused exactly for an absent key and for a position outside the list |
| OpLaws.LRangeMeans | internal/storage/memstore/store.go:871-901 | the elements from the start position to the stop position, in order |
| OpLaws.LRemCounts | internal/storage/memstore/store.go:963-1013 | the list left is the one the laws of LREM speak of, and the reply is by how many elements it has shrunk |
| OpLaws.SAddMeans | internal/storage/memstore/store.go:1017-1039 | the members are in it besides the old ones, and the reply is by how many it has grown |
| OpLaws.SRemMeans | internal/storage/memstore/store.go:1041-1069 | exactly the members named are gone, the reply is by how many it has shrunk, the key goes exactly with the last |
| OpLaws.ZAddMeans | internal/storage/memstore/store.go:1230-1251 | a given member has the given score, any other the old; the reply is by how many the set has grown |
| OpLaws.ZRemMeans | internal/storage/memstore/store.go:1253-1280 | exactly the members named are gone, the reply is by how many the set has shrunk, the key goes exactly with the last |
| OpLaws.ZIncrByMeans | internal/storage/memstore/store.go:1404-1417 | the member's score is the old one, or 0, plus the amount, which is the reply; the others stay |
| RankLaws.SortedMembersAscend | internal/storage/memstore/store.go:1216-1228 | the members come with their scores, each once, by ascending score and at one score by ascending name |
| RankLaws.ZRangeMeans | internal/storage/memstore/store.go:1282-1310 | the members at the positions between the two indexes, counted from the lowest |
| RankLaws.ZRankCounts | internal/storage/memstore/store.go:1363-1386 | the number of members with a lower score, or the same score and a lesser name; nothing if and only if it is no member |
| RankLaws.LowerScoreFirst | internal/storage/memstore/store.go:1223-1228 | a case: of two members the one with the lower score is first |
| StoreLaws.DelMeans | internal/storage/memstore/store.go:334-349 | exactly the keys named are gone, and the reply is the number of different ones that were there |
| StoreLaws.ExistsMeans | internal/storage/memstore/store.go:351-362 | the number of arguments that name a key that is there |
| StoreLaws.RenameMeans | internal/storage/memstore/store.go:429-472 | what the old name held is under the new one, deadline and bookkeeping included, the old name is gone and nothing else has changed; refused exactly if it was not there |
| StoreLaws.TypeMeans | internal/storage/memstore/store.go:418-427 | the kind of what a reader finds |
| StoreLaws.FlushMeans | internal/storage/memstore/store.go:544-556 | no key of the workspace is left and every other is as it was |
| StoreLaws.KeysMean | internal/storage/memstore/store.go:493-508 | the names that are there and that the pattern accepts, in ascending order |
| StoreLaws.ScanMeans | internal/storage/memstore/store.go:516-542 | as many names as COUNT says, 10 if that is not positive, are looked at from the cursor on; the next cursor is where it stopped, 0 exactly if no name is left |
| StoreLaws.BookkeepingExactlyWhen | internal/storage/memstore/shard.go:127-131 | a version moves exactly if a removal removes something or a storing command is not refused; an access is recorded exactly by a GET or HGET that finds something and by adding to a collection other than by ZINCRBY |
| StoreLaws.BookkeepingMeans | internal/storage/memstore/store.go:283-287 | what a recorded access and a fresh record leave, and that otherwise the bookkeeping stays |
| Base.BytesLessMeans | internal/storage/memstore/store.go:493-508 | the order of names: a proper prefix first, otherwise by the first byte that differs |
| FlatMap.NsKeyInjective | internal/storage/memstore/store.go:214-219 | composite keys of workspaces neither of which continues the other past a NUL never coincide, nor is the prefix of one the beginning of the other's keys |
| FlatMap.CollidesExactlyWhen | internal/storage/memstore/store.go:217-219 | two names are stored under one key exactly if they are equal or one workspace continues the other past a NUL |
| FlatMap.ShareNothingExactlyWhen | internal/storage/memstore/store.go:214-219 | two workspaces share no stored key if and only if neither continues the other past a NUL |
| FlatMap.NulFreeIsApart | internal/storage/memstore/store.go:214-219 | names without NUL are all apart in this sense |
| FlatMap.LikeFlatMapExactlyWhen | internal/storage/memstore/store.go:214-219 | the store answers every run over a set of workspaces like a flat map if and only if they are pairwise apart |
| FlatMap.NulBreaksIsolation | internal/storage/memstore/store.go:217-219 | a workspace with a NUL shares a stored key with another |
| Versions.StepHonest | internal/storage/memstore/shard.go:127-131 | whatever a command does, no version goes back and every key whose value, kind or deadline changed has a greater one |
| Versions.WithoutAllHonest | internal/storage/memstore/shard.go:152-156 | so does a reaper visit |
| Versions.ReadsMoveNothingLive | internal/storage/memstore/shard.go:69-80 | a read moves no version, except that of an expired key it removes |
| Versions.HollowOnlyFromNothing | internal/storage/memstore/store.go:645-649 | an empty collection appears exactly when an absent key is created by a command without arguments |
| Versions.HollowCase | internal/storage/memstore/store.go:1017-1039 | a case: SADD without members on the empty store leaves an empty set |
| Versions.RunHollowExactlyWhen | internal/storage/memstore/store.go:560-1280 | whatever is evicted and reaped, no empty collection is left behind at any point of a run if and only if no command in it creates its key without arguments |
| Versions.WithArgumentsNothingIsHollow | internal/storage/memstore/store.go:560-1280 | a run of commands with arguments from the empty store leaves none |
| EvictionBound.StepBoundedExactlyWhen | internal/storage/memstore/store.go:152-190 | within entries + empty shards <= cap + shards - 1, a command leaves the bound if and only if it is a RENAME that crowds a shard with no room left |
| EvictionBound.RunBoundedExactlyWhen | internal/storage/memstore/store.go:159-190 | a run that starts within the bound stays within it throughout if and only if no RENAME in it crowds a shard with no room left |
| EvictionBound.BoundIsWeakest | internal/storage/memstore/store.go:159-173 | exactly from the states within the bound no further run of this kind can bring the count above cap + shards - 1, so the empty shards must be in it |
| EvictionBound.CapHolds | internal/storage/memstore/store.go:159-173 | from the empty store, over every such run, the count exceeds the cap by at most shards - 1, and with one shard not at all |
| Refinement.RunCapped | internal/storage/memstore/store.go:174-190 | a new store object with a cap, whatever the hash and the policy, stays within the bound if and only if no RENAME crowds a shard with no room left, and then counts at most cap + shards - 1 entries; with one shard that is always so |
| Refinement.ExpiredIsCounted | internal/storage/memstore/store.go:35-42 | a case on a store object: SET with a time to live is counted after its deadline, when EXISTS finds nothing |
| EvictionBound.RenameSlack | internal/storage/memstore/store.go:429-472 | a rename of a live key raises the excess exactly if the key was alone in its shard and its new name is new in a shard in use, and then by one |
| EvictionBound.Attained | internal/storage/memstore/store.go:159-173 | the bound is reached by a run of two SETs |
| EvictionBound.ExceededAfterCrowdingRename | internal/storage/memstore/store.go:429-472 | one more rename and SET exceed it |
| EvictionBound.EvictsOnlyWhenFull | internal/storage/memstore/store.go:174-190 | a key is given up only for a new one, only when there are as many as the cap allows, and only in the shard of the new one |
| EvictionBound.EvictsWhenFull | internal/storage/memstore/store.go:174-190 | and then always, unless that shard is empty |
| ScanLaws.CollectIsMatching | internal/storage/memstore/store.go:516-542 | following the cursor from anywhere, with any counts, ends and yields the matching rest of the sorted names |
| ScanLaws.ScanIsKeys | internal/storage/memstore/store.go:510-542 | from cursor 0 the concatenated pages are exactly what KEYS returns |
| ScanLaws.SelectedIsAccepted | internal/storage/memstore/store.go:493-508 | the shortcut for "*" selects what the matcher accepts, and no pattern selects everything |
| ListLaws.LRemRemoves | internal/storage/memstore/store.go:963-1013 | the number removed is min of the count and the occurrences, all for 0, nearest the head or the tail by sign, and the others stay in order |
| ListLaws.LRemMirror | internal/storage/memstore/store.go:987-1004 | a negative count is the mirror image of the positive one |
| ListLaws.LRemVanishes | internal/storage/memstore/store.go:1005-1011 | the key goes exactly if every element was the value and the count reaches |
| ListLaws.PushThenPop | internal/storage/memstore/store.go:783-869 | a pop at the same end returns the pushed value and restores the entry, deadline included |
| ListLaws.WindowIsPositions | internal/storage/memstore/store.go:871-901 | the window is exactly the elements at the positions between the two indexes, in order |
| HashLaws.IncrementsAdd | internal/storage/memstore/store.go:764-778 | counting twice is counting once by the sum, across the 64-bit edge, reply and slot |
| HashLaws.OverflowWraps | internal/storage/memstore/store.go:772-773 | outside the 64-bit range the counter is off by two to the 64th, downwards past the largest number and upwards past the smallest |
| HashLaws.TrueSumExactlyWhen | internal/storage/memstore/store.go:764-778 | HINCRBY answers and stores the true sum exactly if it fits 64 bits |
| HashLaws.OverflowIsReachable | internal/storage/memstore/store.go:755-779 | a client can HSET any 64-bit number and count from there over either edge |
| HashLaws.LargestPlusOne | internal/storage/memstore/store.go:772-773 | a case: HSET of the largest number, then HINCRBY by 1, answers the smallest |
| Answers.BulkIsReadable | internal/server/resp/types.go:134-147 | a bulk string can be told from the null one and from any other by its bytes |
| Answers.GetIsNullExactlyWhen | internal/server/resp/handlers_string.go:26-35 | GET is answered by the null bulk string if and only if the key is absent or its value empty |
| Answers.GetIsValueExactlyWhen | internal/storage/memstore/store.go:272-288 | GET is answered by the stored value if and only if that is not empty |
| Answers.HGetIsNullExactlyWhen | internal/storage/memstore/store.go:583-603 | the same for a field of a hash |
| Answers.PopIsNullExactlyWhen | internal/storage/memstore/store.go:821-869 | the same for the popped element of a list |
| Answers.SetGetIsNullExactlyWhen | internal/server/resp/handlers_string.go:83-96 | the same for the old value that SET with GET answers |
| Answers.EmptyLooksAbsent | internal/storage/memstore/store.go:287-288 | a case: after SET of the empty string EXISTS finds the key and GET answers the null bulk string |
| Glob.IndexByte | internal/storage/memstore/pattern.go:85-92 | the first position of the byte, or -1 |
| Glob.MatchClass | internal/storage/memstore/pattern.go:94-108 | the byte lies in one of the ranges the class body denotes |
| Glob.MatchBytes | internal/storage/memstore/pattern.go:12-83 | the loop answers true exactly if the text can be cut into pieces that fit the tokens of the pattern one by one |
| Glob.EatsIsAccepts | internal/storage/memstore/pattern.go:12-83 | reading token by token and cutting into pieces accept the same texts |
| GlobTokens.SpecialBytes | internal/storage/memstore/pattern.go:12-83 | which bytes are special |
| GlobTokens.Star | internal/storage/memstore/pattern.go:12-83 | in front of any rest, a star takes any number of bytes |
| GlobTokens.Question | internal/storage/memstore/pattern.go:12-83 | a question mark takes exactly one byte, whichever |
| GlobTokens.Ordinary | internal/storage/memstore/pattern.go:12-83 | any other byte takes itself, and so do a bracket that is never closed and a backslash that quotes nothing |
| GlobTokens.Quoted | internal/storage/memstore/pattern.go:60-66 | a quoted byte takes itself, whatever it is |
| GlobTokens.Bracketed | internal/storage/memstore/pattern.go:36-59 | a class takes one byte that its body lists, singly or between the ends of a range, or after a caret one that it does not list |
| GlobTokens.OneOf | internal/storage/memstore/pattern.go:48-57 | [x] takes x, [^x] anything else |
| GlobTokens.FromTo | internal/storage/memstore/pattern.go:94-108 | [x-y] takes what lies between, [^x-y] what does not |
| GlobTokens.EitherOf | internal/storage/memstore/pattern.go:94-108 | [xy] takes either |
| GlobTokens.PlainMatchesItself | internal/storage/memstore/pattern.go:12-83 | a pattern without special bytes accepts itself and nothing else, in both copies |
| Glob.PubSubGlobMatch | internal/server/resp/glob.go:13-69 | the same for the copy without escapes |
| GlobCopies.CopiesAgree | internal/server/resp/glob.go:13-94 | the two copies denote the same tokens exactly if no backslash stands where a token begins with a byte after it |
| GlobCopies.CopiesAcceptTheSameExactlyWhen | internal/server/resp/glob.go:13-94 | the two copies accept the same texts exactly if no backslash quotes, or both readings contain a class that lets nothing through |
| GlobCopies.CopiesDifferOnEscape | internal/storage/memstore/pattern.go:67-73 | a case: an escaped star and the text of one star |
| Tx.RepliesInOrder | internal/server/resp/handlers_tx.go:88-97 | EXEC gives one reply per queued command, in order, each what the command gets when handled directly after those before it |
| Requests.UnknownExactlyWhen | internal/server/resp/dispatch.go:69-76 | exactly the names not registered are unknown; inside a transaction they spoil it |
| Requests.TurnedAwayExactlyWhen | internal/server/resp/dispatch.go:78-80 | a request is turned away if and only if a login is required and missing and the command is not open to everybody, and then nothing happens |
| Requests.MiscountedExactlyWhen | internal/server/resp/dispatch.go:82-93 | of the rest exactly those with too few or too many arguments are refused for it; one that would have been queued spoils the transaction |
| Requests.QueuedExactlyWhen | internal/server/resp/dispatch.go:82-89 | of the rest exactly those in an open transaction that can be queued are queued, last, and the store stays |
| Requests.MultiAndDiscard | internal/server/resp/handlers_tx.go:15-34 | when MULTI and DISCARD succeed, and what they leave |
| Requests.BracketsLeaveStore | internal/server/resp/handlers_tx.go:15-52 | MULTI, DISCARD, WATCH and UNWATCH never touch the store |
| Requests.WatchAndUnwatch | internal/server/resp/handlers_tx.go:36-52 | WATCH records the present version of every key named and forgets no other, UNWATCH forgets all; when WATCH is refused |
| Requests.ExecExactlyWhen | internal/server/resp/handlers_tx.go:65-98 | which of its four answers EXEC gives, if and only if for each; unless it runs the queue the store stays |
| Requests.OrdinaryCommandWorks | internal/server/resp/dispatch.go:94-95 | a handler issues its store commands one after another, each chosen from the replies before it and finding the store the one before left |
| Requests.ClosedToStrangers | internal/server/resp/dispatch.go:78-80 | without a login any request for a command not open to everybody leaves store, login and workspace |
| Requests.StrangersMoveNothing | internal/server/resp/dispatch.go:65-95 | over whole runs of any number of connections, one that is not logged in moves the store only by commands open to everybody |
| Requests.LoginIsThroughTheDoor | internal/server/resp/dispatch.go:65-95 | over whole runs, a connection that ends up logged in has sent such a command on the way |
| Tx.WatchedComesFromWatch | internal/server/resp/handlers_tx.go:36-52 | every watch entry is either the version at a WATCH just made or carried over |
| Tx.HandleHonest | internal/server/resp/dispatch.go:65-95 | no request, EXEC with its queue included, changes an entry without raising its version |
| Tx.CommitSeesWatchedState | internal/server/resp/handlers_tx.go:65-98 | over whole runs of any number of connections: when EXEC runs its queue, each key it still watches in the same workspace holds exactly what it held at the connection's latest WATCH of it |
| Tx.CommitSeesVisibleStateExactlyWhen | internal/server/resp/handlers_tx.go:54-98 | over the same runs: what a reader saw at that WATCH is what a reader sees when EXEC runs, if and only if it had no deadline that came due in between |
| Tx.ComparisonProvesExactlyWhen | internal/server/resp/handlers_tx.go:82-86 | a version that stands shows that the watched key is unchanged, whatever has happened, if and only if EXEC looks in the workspace of the WATCH |
| TxCases.SilentExpiryRun | internal/server/resp/handlers_tx.go:65-98 | a run from the empty store: SET with a time to live, WATCH, MULTI, GET, and EXEC after the deadline, which runs |
| TxCases.SilentExpiryReplies | internal/storage/memstore/shard.go:51-57 | in that run the value was visible at WATCH and the queued GET finds nothing |
| TxCases.WorkspaceSwitchRun | internal/server/resp/handlers_tx.go:82-88 | a run from the empty store of two connections: WATCH, SET by the other, login elsewhere, MULTI and EXEC, which runs although the watched key has changed |
| Connections.Connection.Screen | internal/server/resp/dispatch.go:65-90 | lookup, authentication, queueing and arity, with their effects on the open transaction |
| Connections.Connection.HandleMulti | internal/server/resp/handlers_tx.go:15-23 | opens a transaction with an empty queue, keeps the watches, refuses to nest |
| Connections.Connection.HandleDiscard | internal/server/resp/handlers_tx.go:25-34 | clears everything, or refuses outside a transaction |
| Connections.Connection.HandleWatch | internal/server/resp/handlers_tx.go:36-47 | records the present version of each key, later ones overriding, or refuses inside a transaction |
| Connections.Connection.HandleUnwatch | internal/server/resp/handlers_tx.go:49-52 | forgets every watch |
| Connections.Connection.AnyWatchedChanged | internal/server/resp/handlers_tx.go:82-86 | true exactly if some watched version differs, whatever order they are compared in |
| Connections.Connection.HandleExec | internal/server/resp/handlers_tx.go:65-98 | state is cleared first, then the queue runs, is aborted or is refused, exactly as the state machine does |
| Connections.Connection.Handle | internal/server/resp/dispatch.go:65-95 | one request on the objects does what the state machine says to connection, store and reply, and nesting ends |
| Sessions.Serve | internal/server/resp/dispatch.go:65-95 | several connection objects on one store object serve any log of requests and reaper visits: states, store and replies are those of a run of the server, of which the locking theorems speak |
| Resp.Writer.WriteBulk | internal/server/resp/types.go:134-147 | appends the encoding of a bulk string, the null form for nil |
| Resp.Writer.WriteArrayHeader | internal/server/resp/types.go:152-155 | appends the array header |
| Resp.Writer.Write | internal/server/resp/types.go:162-216 | a composite reply is written as its parts one after another |
| Resp.Reader.ReadLine | internal/server/resp/types.go:34-40 | consumes up to and including the first line feed and trims, or fails at the end of input |
| Resp.Reader.ReadArrayCommand | internal/server/resp/types.go:42-81 | consumes and returns what the grammar says, with its errors and the panic on a length to which two cannot be added |
| Resp.Reader.ReadCommand | internal/server/resp/types.go:23-32 | chooses between array and inline form by the first byte |
| Numbers.AtoiItoa | internal/server/resp/types.go:50-53 | every 64-bit number written in decimal is read back |
| Resp.CommandRoundTrip | internal/server/resp/types.go:42-81 | arbitrary byte strings written as an array of bulk strings are read back unchanged and exactly their bytes are consumed |
| Resp.PipelineRoundTrip | internal/server/resp/types.go:18-32 | N commands sent together are read as the same N |
| Resp.CommandSettled | internal/server/resp/types.go:23-81 | once input settles a command or a protocol error, more input changes nothing but the rest |
| Resp.PrefixIsIncomplete | internal/server/resp/types.go:34-81 | every strict prefix of a command is an end-of-input error and no other, never a shorter command |
| Resp.LineForms | internal/server/resp/types.go:118-131 | the bytes of simple strings, errors and numbers |
| Resp.CountedForms | internal/server/resp/types.go:134-155 | the bytes of bulk strings and arrays |
| Resp.NullForms | internal/server/resp/types.go:134-155 | the bytes of the null forms |
| Resp.KindIsReadable | internal/server/resp/types.go:162-216 | replies of different kinds never have the same bytes |
| Resp.LineMeans | internal/server/resp/types.go:34-40 | a line ends with the first line feed, a carriage return before it not included |
| Numbers.DigitsMean | internal/server/resp/types.go:124-131 | numbers are written in base ten |
| Graph.Store.UpsertNode | internal/graph/graph.go:89-94 | the node is stored under its id in its workspace only, edges stay |
| Graph.Store.UpsertEdge | internal/graph/graph.go:102-107 | the edge is stored under its end points and relation, nodes stay |
| Graph.Store.GetNode | internal/graph/graph.go:111-120 | the node or its absence |
| Graph.Store.Related | internal/graph/graph.go:144-196 | the level-by-level search reports exactly the real nodes at distance 1 to depth, each once, with its distance and an edge to a node one nearer, whatever order edges are visited in |
| Graph.AnswersAreUnique | internal/graph/graph.go:144-196 | that determines which nodes are reported at which hops |
| Graph.RelatedIsSymmetric | internal/graph/graph.go:130-143 | if one node is reported for another, so is the other for it, at the same hops |
| Graph.RelatedIsMonotone | internal/graph/graph.go:130-143 | a greater depth reports the same nodes at the same hops, and more |
| Graph.NeighboursAtDepthOne | internal/graph/graph.go:144-196 | at depth 1 the answer is the other nodes that an edge joins to the start, from it or to it |
| Graph.EachHopHasANeighbour | internal/graph/graph.go:144-196 | what is reported further out is a neighbour of something reported one hop nearer |
| Vectors.VectorStore.Upsert | internal/vector/store.go:80-94 | the entry is replaced in its namespace only |
| Vectors.VectorStore.Delete | internal/vector/store.go:98-111 | the entry goes and its presence is reported |
| Vectors.VectorStore.MatchesFilter | internal/vector/store.go:227-238 | every filter field is present and equal |
| Vectors.VectorStore.KeywordOverlap | internal/vector/store.go:254-270 | the share of distinct query tokens found in the text |
| Vectors.VectorStore.Search | internal/vector/store.go:137-193 | the answer does not depend on the order in which the map is walked |
| Vectors.TopKIsBest | internal/vector/store.go:137-193 | min of k and the eligible entries are returned in strict order, and nothing eligible left out ranks before anything returned |
| Vectors.TopKIsUnique | internal/vector/store.go:170-192 | no other list has these properties |
| VectorLaws.SearchFindsTheBest | internal/vector/store.go:170-192 | the answer descends in score, for plain distances ascends, equals by ascending id, and nothing left out scores better than anything in it |
| VectorLaws.EligibleExactlyWhen | internal/vector/store.go:137-169 | a candidate is an entry with every filter field as asked, as many dimensions as the query and a defined score |
| VectorLaws.NoneAsked | internal/vector/store.go:137-142 | asked for none, it answers none |
| VectorLaws.PlainScore | internal/vector/store.go:150-169 | without a hybrid part the score is the raw one |
| VectorLaws.AlphaWeighs | internal/vector/store.go:150-169 | at weight 1 only the vector part counts, at weight 0 only the words |
| VectorLaws.BlendLiesBetween | internal/vector/store.go:150-169 | in between the score lies between the two, nearer the vector part the greater the weight |
| VectorLaws.NearerIsMoreAlike | internal/vector/store.go:218-226 | a distance becomes a likeness: 1 at no distance, less the greater it is, never 0 |
| VectorLaws.WordsCount | internal/vector/store.go:254-270 | the share of the query's words found: 1 exactly if all are, 0 exactly if none is |
| MemoryStores.MemoryStore.Put | internal/memory/store.go:180-256 | the next version with the first creation time, the predecessor in the history, the vector in the index; refused for an empty workspace, a failed embedding or a failed id source, and then nothing changes |
| MemoryStores.MemoryStore.RecordHistory | internal/memory/store.go:261-272 | the history grows at the end and keeps the last 100 |
| MemoryStores.MemoryStore.Get | internal/memory/store.go:290-309 | the live record; an expired one goes with its vector and history |
| MemoryStores.MemoryStore.History | internal/memory/store.go:373-397 | the kept versions, oldest first, and the current one last |
| MemoryStores.MemoryStore.List | internal/memory/store.go:400-427 | exactly the live memories that pass the filters, and every expired one of the workspace goes |
| MemoryStores.MemoryStore.Search | internal/memory/store.go:312-370 | the live, above-threshold part of the index's top K in its order; the expired part of it goes |
| MemoryState.RunInStep | internal/memory/store.go:205-287 | after any sequence of stores and removals the index holds exactly the records' vectors and metadata, history exists only for records, and is the last min(version - 1, 100) consecutive versions with one creation time |
| MemoryState.VersionCountsStores | internal/memory/store.go:220-231 | the version is the number of stores since the id was last removed, expired or not |
| MemoryState.FilterIsWanted | internal/memory/store.go:326-337 | the filter pushed down to the index selects what List selects |
| MemoryState.SearchFindsWhatListLists | internal/memory/store.go:312-427 | with K large enough, no threshold, nothing expired and every score defined, Search finds exactly the ids List lists |
| MemoryLaws.PutStores | internal/memory/store.go:205-256 | the record is the memory given but for its version and creation time, which are one more than its predecessor's and its predecessor's, or 1 and now; its vector is in the index |
| MemoryLaws.PutElsewhere | internal/memory/store.go:205-256 | no other memory, history or vector is touched |
| MemoryLaws.PutKeepsPredecessor | internal/memory/store.go:261-272 | the predecessor is the newest in the history, and the oldest of a hundred goes |
| MemoryLaws.LivesUntil | internal/memory/store.go:198-203 | with a positive time to live a memory is gone once that is over, otherwise never |
| MemoryLaws.SearchIsSound | internal/memory/store.go:312-370 | what Search answers is live, of the agent and kind asked for, reaches the threshold, and comes with its likeness to the query |
| MemoryLaws.SearchIsSorted | internal/memory/store.go:312-370 | the most alike come first, equals by ascending id |
| MemoryLaws.SearchIsComplete | internal/memory/store.go:312-370 | it leaves out only what K others, expired ones included, are at least as alike as |
| MemoryLaws.RemovalsMean | internal/memory/store.go:312-427 | Search removes exactly the expired among its candidates, List every expired memory of the workspace, each with its vector and history |
| Tracker.Tracker.RecordCacheHitSavings | internal/analytics/tracker.go:203-239 | one hit takes total and list where the specification says |
| Tracker.RunIsTrueTop | internal/analytics/tracker.go:203-239 | over any run the list is a true top 20 by the greatest cost ever reported per key, displaced and returned keys included, and the total is the sum of the positive costs |
| Tracker.ExpensiveIsListed | internal/analytics/tracker.go:220-238 | a key whose greatest cost beats a listed one is listed with that cost |
| Tracker.MaxCostMeans | internal/analytics/tracker.go:220-238 | the cost of a key is its greatest reported one |
| Tracker.TopTwenty | internal/analytics/tracker.go:203-239 | at most twenty different keys, each with its greatest reported cost; a key with a positive cost is missing only if twenty are listed and none costs less |
| Consolidate.Dedupe | internal/consolidate/consolidate.go:172-200 | the result lists, most recent first, exactly the memories not similar to one kept earlier in that order |
| Consolidate.SelectionUnique | internal/consolidate/consolidate.go:185-198 | that determines the selection |
| Consolidate.DedupeCovers | internal/consolidate/consolidate.go:159-200 | no representative is similar to an earlier one, each is at least as recent as what it absorbs, and everything dropped is absorbed |
| Consolidate.DedupeMeans | internal/consolidate/consolidate.go:159-200 | the same by comparison of times, ids and likeness alone, equal times by ascending id |
| Consolidate.DedupeIsOrderIndependent | internal/consolidate/consolidate.go:172-184 | with unique ids the result does not depend on the order of the input |
| SemanticCaches.SemanticCache.Set | internal/semantic/cache.go:90-109 | the entry is appended to its partition, in spare capacity or a new buffer, and no other partition changes |
| SemanticCaches.SemanticCache.Get | internal/semantic/cache.go:119-157 | answer and new contents as specified, other partitions untouched though buffers are overwritten in place |
| SemanticCaches.SemanticCache.Compact | internal/semantic/cache.go:131-151 | the in-place loop leaves exactly the unexpired entries in order and the first with the greatest defined score |
| SemanticCaches.LookupFindsTheClosest | internal/semantic/cache.go:111-157 | a hit is the earliest unexpired entry with the greatest defined score reaching the threshold; on a miss none reaches it |
| CacheLaws.StoreThenLookup | internal/semantic/cache.go:90-157 | what was stored answers exactly if its likeness reaches the threshold and its time to live is not over |
| CacheLaws.MoreAlikeAnswers | internal/semantic/cache.go:111-157 | of two the one more alike answers, of two equally alike the one stored first |
| CacheLaws.NoEmbedding | internal/semantic/cache.go:90-123 | without an embedding nothing is stored and nothing is found |
| SemanticCaches.LookupsDoNotInterfere | internal/semantic/cache.go:56-58 | with a clock that never goes back, deleting any earlier lookups from a run changes no later one |
| SemanticCaches.LookupIsHarmlessExactlyWhen | internal/semantic/cache.go:119-157 | a lookup leaves the answer of another that can hit at all alone, whatever is stored, if and only if its clock reading is no later |
| SemanticCaches.ClockGoingBackLosesEntries | internal/semantic/cache.go:33-35 | a case: a lookup at 9 makes one at 1 miss an entry that would have answered it |
| SemanticCaches.PartitionKeyInjective | internal/semantic/cache.go:82-84 | with temperatures free of NUL, or models free of NUL, a different model or temperature has a different partition |
| SemanticCaches.PartitionsAreApart | internal/semantic/cache.go:43-46 | then nothing stored or looked up under another model or temperature changes an answer |
| SemanticCaches.PartitionsCollideExactlyWhen | internal/semantic/cache.go:82-84 | two pairs have one partition if and only if they are equal or one model continues the other past a NUL in the matching way |
| SemanticCaches.NulMixesPartitions | internal/semantic/cache.go:82-84 | a case: two models that share a partition |
| SemanticCaches.CrossMatchesExactlyWhen | internal/semantic/cache.go:43-46 | an entry that is close enough and not expired can answer a lookup, in some cache, if and only if the two share a partition |
| Latency.LatencyAccumulator.Record | internal/observability/metrics.go:73-86 | with rivals recording between load and swap the loop ends with the greatest of its value and those it met |
| Latency.MaxIsSound | internal/observability/metrics.go:76-85 | at any moment of any interleaving the maximum is 0 or a recorded value, covers every returned call and never falls |
| Latency.ExactAtRest | internal/observability/metrics.go:73-86 | when all calls have returned, count, sum and maximum are exact |
| Latency.FailedSwapMeansProgress | internal/observability/metrics.go:82-84 | a swap fails only if another call has raised the maximum since the load |
| Latency.EveryScheduleEnds | internal/observability/metrics.go:77-85 | n calls together take at most n(2n + 4) atomic steps, however interleaved |

## Remarks

Facts that can be read off a definition but are good to have by name:

- `Tx.RegisteredTablesAreWellFormed` (internal/server/resp/handlers_tx.go:7-13): registering the
  five transaction commands makes them all unqueueable.
- `Tx.AbortedLeavesNoTrace` (internal/server/resp/handlers_tx.go:25-34 and 65-86): DISCARD, a
  queueing error and a changed watched key leave the store alone and clear the transaction.
- `Tx.QueuedRunsDirectly` (internal/server/resp/dispatch.go:65-95): a queued command when run is
  neither EXEC nor queued again nor refused for name or arity.
- `Tx.QueueingLeavesStore` (internal/server/resp/dispatch.go:65-95): while a transaction is open a
  queueable or unknown command never reaches the store, and is answered QUEUED exactly if it was
  appended.
- `Tx.CommitsExactlyWhen` (internal/server/resp/handlers_tx.go:65-88): EXEC runs its queue if and
  only if the transaction is open, nothing failed while queueing and every watched version stands
  in the present workspace; so `Tx.SilentExpiryDoesNotAbort` and `Tx.WorkspaceSwitchDefeatsWatch`.
- `HashLaws.RefusesExactlyWhen` (internal/storage/memstore/store.go:765-771): HINCRBY refuses
  exactly a field that holds no 64-bit number, and then changes nothing.

## Left out

- Sockets, HTTP, MCP tools, metrics rendering, the CLI, environment parsing and the OpenAI clients: not modelled.
- Locks: one command or one request runs at a time. EXEC compares versions before it takes the store's global mutex (internal/server/resp/handlers_tx.go:82-89), so isolation between threads is not claimed, nor is the eviction bound for concurrent inserts.
- SINTER, SUNION, SDIFF, INCR, APPEND and the other commands built from several store calls: as handlers in `Tx` they are arbitrary sequences of store commands, each chosen from the replies so far.
- Stores.Store.EvictIfNeeded: the callback that counts evictions for the metrics is not modelled.
- Stores.Store.Perform: SINTER, SUNION and SDIFF are no actions of the model, since each is several store calls, one per key.
- Stores.Store.Query: one method stands for all read-only accessors, which differ only in the kind they ask for and in what they show; the shown value is an arbitrary function of the stored one.
- Stores.Store.Rename: the two branches of the code, for one shard and for two, differ only in locking and are one path.
- Glob.MatchBytes: one loop with a flag stands for the two copies of the matcher, which differ only in the escape branch.
- Stores.Store.WatchVersion: counters are unbounded; the 64-bit wrap-around of a version is not modelled.
- Scores, costs and similarities are reals: rounding, infinities and signed zeros are not modelled, nor are NaN scores in sorted sets.
- Durations and times are unbounded numbers, so a time to live that overflows 64 bits does not wrap.
- Slices handed out and taken in are copied values, so aliasing between the caller's buffers and stored ones is not modelled; the similarity cache's shared backing arrays are.
- Library sorting is an insertion sort of the same order; nothing proved depends on which sorting algorithm it is.
- Resp.Reader.ReadCommand: an inline command is returned as its trimmed line; splitting it into words is not modelled. An announced length that Go would refuse to allocate, short of one to which two cannot be added in 64 bits, reads to the end of input here.
- Resp.Writer.Write: simple strings and errors are written as given; a round trip is claimed for arrays of bulk strings only.
- MemoryStores.MemoryStore.Put: the random source for new ids is a parameter, an id or its failure; that ids do not repeat is not claimed.
- MemoryStores.MemoryStore.List: the lookup and expiry inside the loops of List and Search is one method, `Fetch`.
- Consolidate.Dedupe: the orchestration around it, listing and storing the merged memory, is not part of this model.
- Tracker.Tracker.RecordCacheHitSavings: usage per model and the snapshot are not part of this model.
- Latency.LatencyAccumulator.Record: nanoseconds are unbounded, so the sum does not wrap.
- The SHA-256 prompt cache, FNV hashing, the mock embedding and JSON canonicalisation: library code behind arbitrary functions.
- Pub/sub delivery, authentication tables, tool caches and the command handlers that only convert arguments and replies: not modelled, but for the replies of GET, HGET, LPOP, RPOP and SET in `Answers`.
