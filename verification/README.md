# Verified model of the storage engine and the wire protocol

This project models two parts of the repository in Dafny and proves what they promise.

**The store** (`gamestore-engine`) keeps Redis strings, hashes, sets, sorted sets and lists in one
byte-keyed map. Deleting a key removes only its metadata; its member records stay behind as garbage
that a compaction filter may drop at any time, and a fresh version number hides them meanwhile. The
model has the engine's byte map, the version map, the batches and the loops as classes and methods.
Every engine access may be preceded and followed by a compaction of an arbitrary part of the key
space. Each operation is proved to act as a plain dictionary of typed values with deadlines; whole
runs follow.

**The protocol** (`gamestore-protocol`) is an incremental RESP2/RESP3 decoder and its encoder. The
model has the grammar as functions on a buffer position, the parser's loops as methods that compute
those functions, and the codecs as classes that cut what they decode off a buffer. The standard is the
Redis serialization protocol specification, UTF-8 as in section 4 of RFC 3629.

## How the files fit together

| files | contents |
|---|---|
| `Common`, `Sorting`, `ByteOrder` | options, machine integers, ascending listings, big-endian and lexicographic order |
| `Encoding`, `Records`, `Gc`, `Engine` | record layout, batches, the compaction filter, the engine |
| `Dictionary` | what the store means: one specification function per operation |
| `Representation`, `Mutation`, `SortedSets`, `Lists` | the invariant, the abstraction, how batches change it |
| `Store` | the store's operations, as written |
| `Script`, `Runs`, `RunProperties`, `RunBounds`, `HashCounts`, `HashRuns`, `Conservation`, `Caveats` | whole runs and what holds over them |
| `ReadLaws`, `TypeLaws`, `ScoreLaws`, `Layout` | what readers answer after writers, scores as numbers, the records byte by byte |
| `Commands`, `CommandLaws` | deadlines, remaining time and range options of the command layer, and what they promise of the words on the wire |
| `Text`, `Frames`, `Parsing`, `Wire`, `RoundTrip` | texts, values, the grammar, encodings, the round trip |
| `Unicode`, `Grammar`, `Acceptance`, `Refusals`, `Canonical` | UTF-8, and the grammar as a relation between bytes and frames: what is accepted, refused, written |
| `InlineSyntax`, `RequestGrammar` | the same for inline lines and requests |
| `Decoding`, `Inline`, `Requests`, `Streams`, `Codec` | the parser's loops, inline commands, requests, chunked streams, codecs |

## Where the code differs from what one might expect

The model follows the code.

- `HSET` and `HDEL` do not remove duplicates among the fields of one call (store.rs:300-308,
  351-358). `HDEL k a a` deletes a hash of two fields. A hash of the dictionary therefore carries its
  stored count, and the refinement holds without conditions on the fields; `HashRuns` says exactly which
  runs answer as a dictionary that just holds the fields.
- `with_engine` installs the compaction predicate before the version map is filled (store.rs:102-108).
  Compaction in that window is harmless only to a store whose hashes, sets, sorted sets and lists have
  no members (`Caveats.EarlyCompactionIsHarmlessIff`); the model compacts only after opening.
- DBSIZE counts stored keys (store.rs:798-805), expired ones included until they are accessed;
  `RunProperties` says exactly when a run can tell.
- The version counter is not stored. After a restart with the clock behind the last version, garbage
  can reappear; `Caveats.RestartIsSafeIff` is the exact condition.
- `+0.0` and `-0.0` are equal as scores but have different index bytes, so the ranking places `-0.0`
  first.
- An inline line of exactly the maximal length is refused if the buffer ends between its CR and its LF
  (decode.rs:104-112).
- The documentation of `max_array_len` counts a map's keys and values (decode.rs:28-30); the code
  compares the number of pairs.
- TTL adds 999 to the remaining milliseconds without a check (string.rs:167). The sum stays in range
  for every deadline a command can set once the clock has passed its first second.

## Model

| member | source | states |
|---|---|---|
| Runs.ReplayPlainly | crates/gamestore-engine/src/store.rs:199-853 | the same against the plain dictionary, whose hashes hold their fields and nothing else: for every run from exact counts, all replies are its replies if and only if no HSET names a new field twice and no HDEL a stored one, and then the contents are its contents |
| Runs.Replay | crates/gamestore-engine/src/store.rs:199-853 | for every sequence of commands, whatever garbage earlier incarnations left and whatever compaction drops between any two engine accesses: all replies and the final contents are those of the typed dictionary whose hashes carry the count the code keeps, provided that the counter or the clock is past the versions issued before |
| Runs.Execute | crates/gamestore-engine/src/store.rs:199-853 | one command, under background compaction: reply and new contents are the step of the dictionary; only the key named changes, except for flush, which empties everything |
| Runs.Restart | crates/gamestore-engine/src/store.rs:102-134 | a store reopened over the same records has the same contents and, in a map of its own, the same versions |
| Runs.AcrossRestarts | crates/gamestore-engine/src/store.rs:46-134 | a run cut into any number of parts by restarts, each with the counter back at zero, answers as the uncut run of the dictionary, provided that the clock has passed by then the versions the earlier parts can have issued |
| Runs.AcrossRestart | crates/gamestore-engine/src/store.rs:46-134 | the same for one restart |
| RunProperties.LazyExpiryIsInvisibleIff | crates/gamestore-engine/src/store.rs:148-158 | on every run whose clock does not go back, deleting expired keys only on access gives the replies of a dictionary whose keys vanish at their deadline: always for every command but DBSIZE, and for all commands if and only if no expired key is stored at any DBSIZE; afterwards the two differ in expired keys only |
| RunProperties.SizeTellsIff | crates/gamestore-engine/src/store.rs:798-805 | one DBSIZE answers as the dictionary without expired keys if and only if none is stored, and never less |
| HashRuns.RunIsPlainIff | crates/gamestore-engine/src/store.rs:287-379 | a run of the store's dictionary answers as the plain one if and only if no HSET names a new field twice and no HDEL a stored one |
| HashRuns.CountsStayExactIff | crates/gamestore-engine/src/store.rs:287-379 | every stored hash count is exact after every command of a run if and only if no HSET names a new field twice and every HDEL names stored fields once each, or so often that the hash goes |
| HashRuns.DistinctFieldsArePlain | crates/gamestore-engine/src/store.rs:287-379 | in particular a run whose calls each name a field once answers as the plain dictionary and ends with exact counts |
| RunBounds.ListIndexBounds | crates/gamestore-engine/src/store.rs:680-793 | after any run with L elements pushed left and R pushed right on a key, its list lies inside [2^63 - L, 2^63 + R] |
| RunBounds.BoundedRunsFit | crates/gamestore-engine/src/store.rs:287-712 | from the empty store, a run that names fewer than 2^32 counted members on each key and pushes fewer than 2^63 elements on each key never makes a count, an index or a length leave its machine integer, so the refinement applies to it; each count and list stays within what was named and pushed on its key |
| RunBounds.SmallRunsFit | crates/gamestore-engine/src/store.rs:287-712 | in particular a run that names and pushes fewer than 2^32 over all keys |
| Representation.FreshVersionIsEmpty | crates/gamestore-engine/src/store.rs:46-59 | no resurrection: under a version above all issued ones no record of any key exists, so a rebuilt key starts empty |
| Caveats.RestartIsSafeIff | crates/gamestore-engine/src/store.rs:46-59 | after a restart a rebuilt key starts empty, for every store content with versions up to a bound, if and only if the clock has passed that bound |
| Caveats.LeftoverResurfaces | crates/gamestore-engine/src/store.rs:46-59 | the store content that shows the other half: a deleted member reappears under a reused version |
| Caveats.EarlyCompactionIsHarmlessIff | crates/gamestore-engine/src/store.rs:102-108 | every compaction before the version map is rebuilt leaves a consistent store with the same dictionary, if and only if no stored hash, set, sorted set or list has a member |
| Caveats.EarlyCompactionLosesField | crates/gamestore-engine/src/store.rs:102-108 | for hashes, what is lost: such a compaction can take any one field from any hash and leave the stored count and the rest as they were |
| Conservation.RecordsConserved | crates/gamestore-engine/src/store.rs:807-828 | after a full compaction the raw record count is hash fields + set members + twice the sorted-set members + list lengths |
| Conservation.CountsAreEnough | crates/gamestore-engine/src/store.rs:807-828 | counted one family after the other, with compaction in between, the records never number fewer than the dictionary calls for |
| Conservation.KeysConserved | crates/gamestore-engine/src/store.rs:798-805 | one metadata record per key of the dictionary |
| Conservation.DualIndexCoherent | crates/gamestore-engine/src/store.rs:503-603 | in every state that satisfies the invariant: a sorted set has a member with a score exactly when the member record says so and exactly when the index record exists, and the metadata counts both kinds |
| HashCounts.HSetExactIff | crates/gamestore-engine/src/store.rs:287-313 | with an exact count before, HSET assigns the fields, and leaves an exact count and replies the number of fields it created if and only if the new fields it names are pairwise distinct |
| HashCounts.HDelExactIff | crates/gamestore-engine/src/store.rs:343-372 | HDEL removes exactly the named fields, keeps an exact count and reports the number removed if and only if the existing fields it names are pairwise distinct; the report alone is right under the same condition, the count also when it reaches 0 |
| HashCounts.DuplicateHDelLosesTheHash | crates/gamestore-engine/src/store.rs:351-367 | HDEL of one field named twice deletes a hash of two fields |
| HashCounts.DuplicateHSetOvercounts | crates/gamestore-engine/src/store.rs:300-311 | HSET of one field named twice counts it twice |
| ReadLaws.GetAnswersSet | crates/gamestore-engine/src/store.rs:203-225 | in any run, a GET answers the text of the last SET of its key while the deadline has not passed and nothing from then on, if no command has named the key in between and none emptied the store |
| ReadLaws.AnswersFrom | crates/gamestore-engine/src/store.rs:203-793 | in any run, what a reader of a key answers is settled by the last command before it that names the key |
| ReadLaws.WrongTypeIff | crates/gamestore-engine/src/store.rs:148-168 | an operation answers wrong type exactly when the key lives and holds another type than the one the operation works on, and then changes nothing |
| ReadLaws.NothingIsThere | crates/gamestore-engine/src/store.rs:148-168 | what every reader answers for a key that is missing or has expired |
| ReadLaws.SetThenRead | crates/gamestore-engine/src/store.rs:203-232 | SET, then GET, EXISTS and TYPE: text, life and type until the deadline, not from it on |
| ReadLaws.SetThenPTtl | crates/gamestore-engine/src/store.rs:203-281 | SET, then PTTL: -1 without a deadline, else what is left |
| ReadLaws.ExpireThenRead | crates/gamestore-engine/src/store.rs:258-267 | EXPIRE answers whether the key lives; the key then lives exactly until the deadline, and every reader answers as before until then |
| ReadLaws.ExpireThenPTtl | crates/gamestore-engine/src/store.rs:258-281 | EXPIRE, then PTTL: what is left until the deadline |
| ReadLaws.DelThenRead | crates/gamestore-engine/src/store.rs:248-255 | DEL answers whether the key lives, and afterwards it does not |
| ReadLaws.CreatedType | crates/gamestore-engine/src/store.rs:172-181 | an operation that creates a key gives it the type TYPE names and no deadline |
| ReadLaws.TypeAndDeadlineStay | crates/gamestore-engine/src/store.rs:203-793 | no operation but SET and EXPIRE changes the type or the deadline of a live key that stays |
| ReadLaws.OtherKeysStay | crates/gamestore-engine/src/store.rs:203-793 | a command on one key changes no answer about another |
| ReadLaws.ReadsLeave | crates/gamestore-engine/src/store.rs:216-670 | a reader changes no answer at that time or later |
| ReadLaws.TimePasses | crates/gamestore-engine/src/store.rs:148-158 | as long as a key lives, time alone changes no answer but that of PTTL |
| ReadLaws.SetThenDbSize | crates/gamestore-engine/src/store.rs:798-805 | DBSIZE counts one key more after a SET of a key not stored, and as many otherwise |
| TypeLaws.HSetThenHGet | crates/gamestore-engine/src/store.rs:287-323 | HGET after HSET: the last value given to the field, and the answer before for every other field |
| TypeLaws.HSetCounts | crates/gamestore-engine/src/store.rs:287-313 | HSET answers how many of the fields given were not there, each mention counted, and HLEN grows by that |
| TypeLaws.HDelThenHGet | crates/gamestore-engine/src/store.rs:316-372 | HGET after HDEL: nothing for a field named, and the answer before for every other, unless the key is gone, which is exactly when HDEL answers at least what HLEN said and not 0; HLEN shrinks by the answer |
| TypeLaws.HDelCounts | crates/gamestore-engine/src/store.rs:343-372 | HDEL answers how many of the names given are found, each mention counted |
| TypeLaws.HGetAllIs | crates/gamestore-engine/src/store.rs:326-339 | HGETALL lists exactly the fields HGET finds, with their values, once each and in byte order |
| TypeLaws.HLenIs | crates/gamestore-engine/src/store.rs:375-379 | HLEN counts what HGETALL lists if and only if the stored count is exact |
| TypeLaws.SAddThenSIsMember | crates/gamestore-engine/src/store.rs:394-470 | SISMEMBER after SADD: yes for what was named, and the answer before for everything else |
| TypeLaws.SRemThenSIsMember | crates/gamestore-engine/src/store.rs:429-470 | SISMEMBER after SREM: no for what was named, and the answer before for everything else |
| TypeLaws.SMembersIs | crates/gamestore-engine/src/store.rs:473-492 | SMEMBERS lists exactly the members, once each and in byte order, and SCARD counts them |
| TypeLaws.SAddCounts | crates/gamestore-engine/src/store.rs:394-425 | SADD answers by how many members the set has grown |
| TypeLaws.SRemCounts | crates/gamestore-engine/src/store.rs:429-460 | SREM answers by how many members the set has shrunk |
| TypeLaws.LRangeEncloses | crates/gamestore-engine/src/store.rs:760-793 | LRANGE 0 -1 is the whole list, LLEN its length, and any LRANGE the elements its two ranks enclose |
| TypeLaws.PushThenLRange | crates/gamestore-engine/src/store.rs:680-712 | a push adds its values at the named end, the last one outermost, and answers the new length |
| TypeLaws.PopThenLRange | crates/gamestore-engine/src/store.rs:717-756 | a pop answers up to so many elements from the named end, outermost first, and leaves the others |
| TypeLaws.EmptiedIsGone | crates/gamestore-engine/src/store.rs:429-793 | after any run from an empty store, SCARD, ZCARD or LLEN is 0 exactly when EXISTS says no |
| ScoreLaws.ZRangeByScoreSelects | crates/gamestore-engine/src/store.rs:643-670 | the members answered are exactly those whose score, as the number its bits stand for, lies between the two bounds, a bound itself only where it is inclusive; in rank order |
| ScoreLaws.ScoresCompareAsNumbers | crates/gamestore-engine/src/encoding.rs:134-158 | comparing two scores is comparing the numbers their IEEE 754 bits stand for |
| ScoreLaws.RunsStayNumeric | crates/gamestore-engine/src/store.rs:503-552 | over every run from an empty store no stored score is NaN |
| ScoreLaws.ZAddThenZScore | crates/gamestore-engine/src/store.rs:503-566 | ZSCORE after ZADD: the last score given to the member, the old bits where it is the same number, and the answer before for every other member |
| ScoreLaws.ZRemThenZScore | crates/gamestore-engine/src/store.rs:556-603 | ZSCORE after ZREM: nothing for a member named, and the answer before for every other |
| ScoreLaws.ZAddCounts | crates/gamestore-engine/src/store.rs:503-552 | ZADD answers by how many members the set has grown |
| ScoreLaws.ZRemCounts | crates/gamestore-engine/src/store.rs:570-603 | ZREM answers by how many members the set has shrunk |
| ScoreLaws.ZRangeLists | crates/gamestore-engine/src/store.rs:615-639 | ZRANGE 0 -1 lists exactly the members with their scores, once each, ascending by number, then -0 before 0, then member |
| ScoreLaws.ZRangeEncloses | crates/gamestore-engine/src/store.rs:606-639 | ZCARD counts that listing, and any ZRANGE is the part its two ranks enclose |
| Layout.StoredAsLaidOut | crates/gamestore-engine/src/encoding.rs:20-281 | the records of every key, byte by byte: type, version, deadline and count or bounds in the metadata, and for each type exactly the records of its members, with what they hold |
| Gc.VersionMap.ShouldKeep | crates/gamestore-engine/src/gc.rs:88-96 | a record is kept exactly when it is not versioned or its version is its owner's current one |
| Gc.CompactedBeforeWrite | crates/gamestore-engine/src/rocks.rs:105-133 | collecting before a batch leaves no more and no less than collecting after it may |
| Gc.TableSurvives | crates/gamestore-engine/src/gc.rs:83-96 | a compaction leaves the records of a current version as they are |
| Gc.MetaSurvives | crates/gamestore-engine/src/gc.rs:83-96 | a compaction leaves all metadata as it is |
| Representation.SweepKeeps | crates/gamestore-engine/src/gc.rs:83-96 | a compaction at any moment keeps the invariant and the whole dictionary |
| Representation.Commit | crates/gamestore-engine/src/store.rs:172-197 | a batch that touches only the records of one key keeps the invariant and changes the dictionary at that key only |
| Engine.Engine.Background | crates/gamestore-engine/src/rocks.rs:105-112 | an arbitrary compaction drops some, any or none of the rejected records and nothing else |
| Engine.Engine.CompactRange | crates/gamestore-engine/src/rocks.rs:147-161 | a forced compaction drops exactly the rejected records |
| Engine.Engine.Get | crates/gamestore-engine/src/rocks.rs:120-122 | a point read gives the stored value; it can miss only a record the filter rejects |
| Engine.Engine.Write | crates/gamestore-engine/src/rocks.rs:124-133 | the replayed batch equals the fold of its operations, up to compaction |
| Engine.Engine.Scan | crates/gamestore-engine/src/rocks.rs:135-145 | seek-then-advance-until-the-prefix-ends lists all and only the records under a prefix, in byte order |
| Engine.Engine.ScanPrefix | crates/gamestore-engine/src/rocks.rs:221-243 | a scan sees one consistent view, compaction before and after it |
| Encoding.ParseOfVersioned | crates/gamestore-engine/src/encoding.rs:78-132 | parsing inverts building a record key, for keys below 2^32 bytes |
| Encoding.VersionedOfParse | crates/gamestore-engine/src/encoding.rs:117-132 | whatever parses is the record key of what it parsed to |
| Encoding.PrefixIffParsed | crates/gamestore-engine/src/encoding.rs:78-132 | a record key extends the prefix of a key and version exactly when it parses to them |
| Encoding.PrefixesAreDisjoint | crates/gamestore-engine/src/encoding.rs:68-180 | no byte string extends the prefixes of two different families, keys or versions |
| Encoding.DecodeOfEncodeScore | crates/gamestore-engine/src/encoding.rs:139-158 | decoding a score inverts encoding it |
| Encoding.EncodeOfDecodeScore | crates/gamestore-engine/src/encoding.rs:139-158 | and the other way round, so the encoding is a bijection |
| Encoding.ScoreByteOrder | crates/gamestore-engine/src/encoding.rs:134-158 | byte order of encoded scores is the total order of section 5.10 of IEEE 754-2019 |
| Encoding.ByteOrderIsNumeric | crates/gamestore-engine/src/encoding.rs:134-158 | byte order of encoded scores never contradicts numeric order |
| Encoding.ListIndexInjective | crates/gamestore-engine/src/encoding.rs:193-204 | different list indexes have different fields |
| Encoding.Meta.DecodeOfEncode | crates/gamestore-engine/src/encoding.rs:206-241 | decoding metadata inverts encoding it |
| Encoding.Meta.ListBoundsOfSet | crates/gamestore-engine/src/encoding.rs:264-281 | reading list bounds inverts writing them |
| Encoding.Meta.FieldCountOfSet | crates/gamestore-engine/src/encoding.rs:243-262 | reading a member count inverts writing it |
| ByteOrder.BeOrder | crates/gamestore-engine/src/encoding.rs:134-158 | big-endian encodings of equal width order as the numbers do |
| Store.VersionClock.Next | crates/gamestore-engine/src/store.rs:48-59 | with no other thread: the highest of the last version plus one and the clock |
| Store.VersionClock.NextAmong | crates/gamestore-engine/src/store.rs:48-59 | with any number of other threads striking between a load and its exchange, and the clock read anew by every attempt: the compare-and-swap loop ends, and the versions all threads issue ascend strictly, so none is issued twice, none falls behind an earlier one, and the one returned is not behind the last reading |
| Store.RebuiltIsExact | crates/gamestore-engine/src/store.rs:116-134 | the versions of the stored composite metadata are exactly the version map of the running store |
| Store.Store.RebuildVersionMap | crates/gamestore-engine/src/store.rs:116-134 | the scan loop collects exactly the versions of the stored composite metadata |
| Store.Store.constructor | crates/gamestore-engine/src/store.rs:102-108 | opening over consistent records gives a valid store with the map it had |
| Store.Store.LogicalDelete | crates/gamestore-engine/src/store.rs:189-197 | removes the metadata record, under the old version map, and then the version |
| Store.Store.LoadLiveMeta | crates/gamestore-engine/src/store.rs:148-158 | the metadata of a live key; an expired key is gone afterwards and reads as missing |
| Store.Store.LoadTyped | crates/gamestore-engine/src/store.rs:162-168 | wrong type exactly when a live key holds another type |
| Store.Store.NewCompositeMeta | crates/gamestore-engine/src/store.rs:172-181 | a fresh version, registered before any record carries it |
| Store.Store.Set | crates/gamestore-engine/src/store.rs:203-213 | the key holds the string and the deadline, whatever it held |
| Store.Store.Get | crates/gamestore-engine/src/store.rs:216-225 | the string of a live string key, nothing for a missing one, wrong type otherwise |
| Store.Store.Exists | crates/gamestore-engine/src/store.rs:230-232 | whether the key is live |
| Store.Store.TypeOf | crates/gamestore-engine/src/store.rs:236-245 | the type name of a live key |
| Store.Store.Del | crates/gamestore-engine/src/store.rs:248-255 | the key is gone; whether it was live |
| Store.Store.ExpireAt | crates/gamestore-engine/src/store.rs:258-267 | a live key gets the deadline; whether it was live |
| Store.Store.PTtl | crates/gamestore-engine/src/store.rs:270-281 | -2, -1 or the remaining milliseconds |
| Store.Store.HSet | crates/gamestore-engine/src/store.rs:287-313 | every field gets its last value; the reply and the stored count are what the code counts, duplicates included |
| Store.Store.HGet | crates/gamestore-engine/src/store.rs:316-323 | the value of a field |
| Store.Store.HGetAll | crates/gamestore-engine/src/store.rs:326-339 | all fields with their values, in byte order |
| Store.Store.HDel | crates/gamestore-engine/src/store.rs:343-372 | the named fields are gone, and the whole key when the stored count reaches 0 |
| Store.Store.HLen | crates/gamestore-engine/src/store.rs:375-379 | the stored count |
| Store.Store.SAdd | crates/gamestore-engine/src/store.rs:394-425 | the union; the number of members that were new |
| Store.Store.SRem | crates/gamestore-engine/src/store.rs:429-460 | the difference; the number removed; an emptied set is gone |
| Store.Store.SIsMember | crates/gamestore-engine/src/store.rs:463-470 | membership |
| Store.Store.SMembers | crates/gamestore-engine/src/store.rs:473-485 | all members in byte order |
| Store.Store.SCard | crates/gamestore-engine/src/store.rs:488-492 | the number of members |
| Store.Store.ZAdd | crates/gamestore-engine/src/store.rs:503-552 | every member gets its last score in both records, moved members lose their old index record; the number of members that were new |
| Store.Store.ZScore | crates/gamestore-engine/src/store.rs:556-566 | the score of a member |
| Store.Store.ZRem | crates/gamestore-engine/src/store.rs:570-603 | the members are gone from both records; the number removed; an emptied set is gone |
| Store.Store.ZCard | crates/gamestore-engine/src/store.rs:606-610 | the number of members |
| Store.Store.ZRange | crates/gamestore-engine/src/store.rs:615-639 | the slice of the ranking by encoded score and then member |
| Store.Store.ZRangeByScore | crates/gamestore-engine/src/store.rs:643-670 | the members within the two bounds, each inclusive or exclusive, in ranking order, although the loop stops early |
| Store.Store.Push | crates/gamestore-engine/src/store.rs:680-712 | the elements in front, reversed, or behind; the new length |
| Store.Store.Pop | crates/gamestore-engine/src/store.rs:717-756 | the first or the reversed last elements; an emptied list is gone |
| Store.Store.LRange | crates/gamestore-engine/src/store.rs:760-783 | the slice the two ranks select |
| Store.Store.LLen | crates/gamestore-engine/src/store.rs:786-793 | the length |
| Store.Store.DbSize | crates/gamestore-engine/src/store.rs:798-805 | the number of stored keys |
| Store.Store.RawSubkeyCount | crates/gamestore-engine/src/store.rs:813-822 | at least hash fields + set members + twice the sorted-set members + list lengths, and exactly that once no garbage is left; the contents stay |
| Store.Store.Compact | crates/gamestore-engine/src/store.rs:826-828 | no rejected record is left and no value changes |
| Store.Store.FlushAll | crates/gamestore-engine/src/store.rs:838-853 | the empty dictionary |
| Store.Store.CollectRange | crates/gamestore-engine/src/store.rs:649-668 | the loop with the early break equals filtering the whole ranking |
| Store.Store.StageScores | crates/gamestore-engine/src/store.rs:515-543 | after the loop the staged batch turns the member and index tables into those of the new scores |
| Store.Store.StagePop | crates/gamestore-engine/src/store.rs:724-744 | after the loop the staged batch and the bounds are those of the shorter list |
| SortedSets.IndexMoves | crates/gamestore-engine/src/store.rs:503-552 | replacing a member's index record keeps the index the image of the score table |
| SortedSets.RankingOfIndex | crates/gamestore-engine/src/store.rs:615-670 | the index in byte order is the ranking by encoded score and then member |
| SortedSets.BreakIsFinal | crates/gamestore-engine/src/store.rs:643-670 | past the first member beyond the upper bound every later one is beyond it as well |
| Dictionary.NormalizeRangeSelects | crates/gamestore-engine/src/store.rs:72-82 | the normalized bounds enclose exactly the offsets the two ranks select |
| Dictionary.SliceIs | crates/gamestore-engine/src/store.rs:72-82 | the slice between the normalized bounds is the selected elements, in order |
| Commands.ReadSetOptions | crates/gamestore-datamodel/src/commands/string.rs:39-69 | the option loop accepts nothing, or one unit with a positive amount in range, and refuses everything else with the first error met |
| Commands.Set | crates/gamestore-datamodel/src/commands/string.rs:39-76 | a refused SET stores nothing; an accepted one stores value and deadline |
| Commands.Expire | crates/gamestore-datamodel/src/commands/string.rs:142-161 | a refused EXPIRE changes nothing; an accepted one sets the saturated, clamped deadline |
| Commands.Ttl | crates/gamestore-datamodel/src/commands/string.rs:164-170 | the reply in seconds, as the 64-bit sum computes it |
| Commands.SecondsRoundUpIff | crates/gamestore-datamodel/src/commands/string.rs:164-170 | the reply is the remaining time rounded up if and only if the sum does not overflow |
| Commands.ExpireThenTtl | crates/gamestore-datamodel/src/commands/string.rs:142-170 | EXPIRE n, then TTL after e milliseconds: n - floor(e / 1000) while e < 1000 n, and -2 from then on |
| Commands.SetThenTtl | crates/gamestore-datamodel/src/commands/string.rs:39-76 | the same for SET with EX |
| Commands.ExpireKillsIff | crates/gamestore-datamodel/src/commands/string.rs:142-161 | EXPIRE makes a key expire at once if and only if the amount is not positive |
| Commands.CommandDeadlinesFitTtl | crates/gamestore-datamodel/src/commands/string.rs:142-170 | no deadline a command sets makes the sum overflow once the clock has passed its first second |
| Commands.ReadRangeOptions | crates/gamestore-datamodel/src/commands/zset.rs:164-183 | the option loop of ZRANGEBYSCORE reads WITHSCORES and LIMIT in any order and refuses everything else |
| Commands.LastLimitCounts | crates/gamestore-datamodel/src/commands/zset.rs:164-183 | a LIMIT replaces any LIMIT before it and leaves WITHSCORES |
| Commands.ZRangeByScore | crates/gamestore-datamodel/src/commands/zset.rs:156-206 | bounds, then options, then the range, then the LIMIT; the first failure wins and touches nothing; otherwise the contents change only by an expired key going |
| Commands.PagesTile | crates/gamestore-datamodel/src/commands/zset.rs:192-204 | consecutive LIMIT pages, the last one unlimited or not, make one page with nothing lost or repeated |
| CommandLaws.SetDeadlineIff | crates/gamestore-datamodel/src/commands/string.rs:39-69 | SET takes a deadline if and only if the words after the value are none, or EX or PX in any case and one positive number whose deadline is in range; PX counts milliseconds, EX seconds |
| CommandLaws.SetRefusedIff | crates/gamestore-datamodel/src/commands/string.rs:39-69 | and which error everything else gives |
| CommandLaws.SetPx | crates/gamestore-datamodel/src/commands/string.rs:39-76 | SET with PX n: GET answers for n milliseconds, PTTL counts them down, then nothing and -2 |
| CommandLaws.SetEx | crates/gamestore-datamodel/src/commands/string.rs:39-76 | SET with EX n: the same for 1000 n milliseconds, and TTL counts the seconds |
| CommandLaws.ExpireDeadlineIff | crates/gamestore-datamodel/src/commands/string.rs:142-161 | the deadline is the amount in its unit from now, kept between 1 and the last in range; which error is given otherwise |
| CommandLaws.PexpireThenPttl | crates/gamestore-datamodel/src/commands/string.rs:128-179 | PEXPIRE n on a live key, then PTTL after e milliseconds: n - e while e < n, and -2 from then on |
| CommandLaws.TtlIs | crates/gamestore-datamodel/src/commands/string.rs:164-170 | -2 for no key, -1 for no deadline, else the seconds left, a started one counted in full |
| CommandLaws.SecondsWrap | crates/gamestore-datamodel/src/commands/string.rs:164-170 | where the sum overflows, the wrapped sum divided towards zero |
| CommandLaws.BoundIff | crates/gamestore-datamodel/src/commands/zset.rs:31-50 | a bound is exclusive exactly behind an opening parenthesis, inclusive otherwise, and NaN is none |
| CommandLaws.OptionsIff | crates/gamestore-datamodel/src/commands/zset.rs:164-183 | the options are accepted if and only if they are a sequence of WITHSCORES and LIMIT with two numbers, in any case and order; any WITHSCORES asks for scores, the last LIMIT counts, all else is a syntax error |
| CommandLaws.PageIs | crates/gamestore-datamodel/src/commands/zset.rs:192-204 | without a LIMIT the whole listing; with one, nothing for a negative offset, else from the offset on as many as asked for or left, all left for a negative count |
| CommandLaws.RangeAnswerIs | crates/gamestore-datamodel/src/commands/zset.rs:156-206 | a bad bound is refused first, then bad options; what is accepted is the page of what the range between the two bounds answers |
| Text.FormatI64Parses | crates/gamestore-protocol/src/encode.rs:121-137 | every 64-bit integer survives being written and parsed, and its text holds no line end |
| Text.FormatI64Fits | crates/gamestore-protocol/src/encode.rs:129-137 | twenty bytes hold every 64-bit integer |
| Text.FindCrlfIsFirst | crates/gamestore-protocol/src/decode.rs:443-458 | no line end comes before the one found |
| Text.FindCrlfStable | crates/gamestore-protocol/src/decode.rs:443-458 | a line end found is not moved by further bytes |
| Decoding.ReadLine | crates/gamestore-protocol/src/decode.rs:446-458 | the scanning loop finds the first line end |
| Decoding.ParseBulk | crates/gamestore-protocol/src/decode.rs:219-255 | null, length checks, payload and terminator as the grammar says |
| Decoding.ParseVerbatim | crates/gamestore-protocol/src/decode.rs:257-290 | length checks, tag and separator as the grammar says |
| Decoding.ParseAggregate | crates/gamestore-protocol/src/decode.rs:299-343 | the item loop equals parsing the items one after the other |
| Decoding.ParseMap | crates/gamestore-protocol/src/decode.rs:345-379 | the loop over pairs equals parsing twice as many items and pairing them |
| Decoding.ParseFrame | crates/gamestore-protocol/src/decode.rs:123-154 | the recursive parser terminates within the nesting limit and equals the grammar |
| Acceptance.FrameIff | crates/gamestore-protocol/src/decode.rs:123-379 | for every buffer, position and depth: decoding gives a frame up to a byte if and only if the bytes there are a spelling of it, by the grammar written out byte by byte (signs, leading zeros, the five words for infinities and NaN, all nulls, limits and nesting) |
| Acceptance.NullIff | crates/gamestore-protocol/src/decode.rs:174-236 | decoding gives null if and only if the bytes are an underscore and an empty line, or a dollar or an asterisk and a line that reads as -1 |
| Refusals.RefusedIff | crates/gamestore-protocol/src/decode.rs:123-379 | decoding gives an error if and only if that is the error of the first part at fault: nested too deep, misspelt, or over a limit |
| Refusals.CutFrameNeedsMore | crates/gamestore-protocol/src/decode.rs:1-8 | of any spelling of any frame, not only the encoder's, every part cut short asks for more |
| Grammar.NumeralIff | crates/gamestore-protocol/src/decode.rs:464-474 | a text reads as a number if and only if it is digits behind at most one sign, valued by place, in the signed 64-bit range |
| Unicode.ValidUtf8Iff | crates/gamestore-protocol/src/decode.rs:156-165 | a line is accepted as text if and only if it is the UTF-8 encoding of some Unicode scalar values |
| Canonical.FormatI64IsShortest | crates/gamestore-protocol/src/encode.rs:121-137 | the text written for a number is the shortest that reads as it, and the only one of that length |
| Canonical.ConstantsWritten | crates/gamestore-protocol/src/encode.rs:13-108 | nulls of both versions, booleans, infinities and NaN on the wire |
| Parsing.FrameStable | crates/gamestore-protocol/src/decode.rs:123-458 | a value or an error found in a buffer is found there however the buffer grows |
| RoundTrip.DecodedFits | crates/gamestore-protocol/src/decode.rs:123-379 | a decoded frame used at least 3 bytes and none outside the buffer; it and everything in it obeys the limits, and its line texts hold no line end |
| RoundTrip.RoundTripIff | crates/gamestore-protocol/src/encode.rs:13-108 | for every frame and both versions: its encoding followed by any bytes decodes to it and leaves those bytes if and only if its line texts are free of CR LF and valid UTF-8 and its lengths and nesting are within the limits |
| RoundTrip.DecodedReencodes | crates/gamestore-protocol/src/encode.rs:13-108 | whatever was decoded from any bytes, encoded again in either version, decodes to the same |
| RoundTrip.PartNeedsMore | crates/gamestore-protocol/src/decode.rs:1-8 | every proper prefix of an encoding, cut at any byte, asks for more |
| RoundTrip.EncodingsArePrefixFree | crates/gamestore-protocol/src/encode.rs:13-108 | no encoding begins another one |
| RoundTrip.MapsHoldTwiceTheLimit | crates/gamestore-protocol/src/decode.rs:24-36 | the array limit bounds the pairs of a map, not its values |
| Wire.FrameReads | crates/gamestore-protocol/src/decode.rs:123-379 | the same round trip at any position of any buffer and at any depth |
| Requests.ParseMultibulk | crates/gamestore-protocol/src/decode.rs:382-437 | the argument loop equals parsing the arguments one after the other |
| RequestGrammar.RequestIff | crates/gamestore-protocol/src/decode.rs:74-117 | a request is read, as these arguments up to this byte, if and only if the bytes spell it: an array of bulk strings within the limits, a count of zero or less for none, or a line that is a writing of the arguments |
| RequestGrammar.RefusedRequestIff | crates/gamestore-protocol/src/decode.rs:74-117 | a request is refused with an error if and only if the bytes are at fault in just that way |
| Requests.TwoParsersAgree | crates/gamestore-protocol/src/decode.rs:299-437 | the request parser returns a non-empty list exactly when the general parser returns the array of those bulk strings, with the same length consumed |
| Requests.RequestRoundTripIff | crates/gamestore-protocol/src/decode.rs:382-437 | a server reads back the arguments a client sent as an array if and only if their number and lengths are within the limits |
| Requests.InlineRoundTripIff | crates/gamestore-protocol/src/decode.rs:74-117 | a server reads back the arguments of a written inline line if and only if the line is not too long, holds no CR LF and does not begin with an asterisk |
| Requests.ArrayIsNotInline | crates/gamestore-protocol/src/decode.rs:74-117 | a line that begins with an asterisk is never read as its own words, even where it is an array of several lines that ends where the line ends |
| Requests.CommandStableIff | crates/gamestore-protocol/src/decode.rs:74-117 | further bytes leave the outcome of parsing a request alone if and only if the cut is not between the CR and LF of an inline line of the maximal length |
| Requests.LongestLineNeedsItsLf | crates/gamestore-protocol/src/decode.rs:91-116 | every line of the maximal length is read when whole, and refused when cut before its LF |
| Inline.SplitInline | crates/gamestore-protocol/src/decode.rs:476-561 | the tokenizer loops equal the token grammar |
| Inline.SplitInvertsWriting | crates/gamestore-protocol/src/decode.rs:476-597 | arguments written bare, in single quotes, or in double quotes with any byte as itself, behind a backslash (n, r, t, b and a for LF, CR, 9, 8 and 7) or in hexadecimal of either case, with any white space between, are split back into exactly those arguments |
| InlineSyntax.SplitIff | crates/gamestore-protocol/src/decode.rs:476-597 | a line is split into some arguments if and only if it is a writing of them, and is a syntax error if and only if it is a writing of none |
| Inline.AnyTextIsSpellable | crates/gamestore-protocol/src/decode.rs:564-597 | every text can be written, in double quotes and hexadecimal |
| Inline.SingleQuotesSpellIff | crates/gamestore-protocol/src/decode.rs:522-548 | a text written in single quotes is split back to itself if and only if it does not end in a backslash |
| Streams.DrainGoesOn | crates/gamestore-protocol/src/decode.rs:1-8 | decoding a buffer goes on where decoding a part of it stopped |
| Streams.FrameChunksDoNotMatter | crates/gamestore-protocol/src/codec.rs:82-89 | for every byte stream and every split into chunks: the same frames, rest and error |
| Streams.FramesArrive | crates/gamestore-protocol/src/codec.rs:82-89 | of frames encoded one after the other, any part in any chunks gives the first ones without an error, and the whole gives all of them with nothing left |
| Streams.CommandChunksDoNotMatterIff | crates/gamestore-protocol/src/codec.rs:152-159 | requests come out of a chunked stream as out of the whole one if and only if no chunk begins between the CR and LF of an unfinished inline line of the maximal length |
| Streams.RequestsArrive | crates/gamestore-protocol/src/codec.rs:152-159 | requests sent as arrays, of any bytes, arrive as sent however their bytes are cut |
| Codec.DecodeFrame | crates/gamestore-protocol/src/decode.rs:59-67 | cuts a decoded frame off the buffer and leaves the buffer alone otherwise |
| Codec.DecodeCommand | crates/gamestore-protocol/src/decode.rs:74-117 | cuts a decoded request off the buffer and leaves the buffer alone otherwise |
| Codec.EncodeFrame | crates/gamestore-protocol/src/encode.rs:13-108 | appends the encoding and keeps what the buffer held |
| Codec.RespCodec.Decode | crates/gamestore-protocol/src/codec.rs:82-89 | one decode step of the frame codec |
| Codec.RespCodec.Encode | crates/gamestore-protocol/src/codec.rs:91-98 | appends in the codec's version |
| Wire.VersionsDifferIff | crates/gamestore-protocol/src/encode.rs:10-35 | the version a codec is set to changes the bytes of a frame if and only if the frame holds a null, and each null costs RESP2 two bytes more |
| Codec.RespCodec.Receive | crates/gamestore-protocol/src/codec.rs:82-89 | append-then-decode-until-nothing-comes empties the buffer as far as its bytes allow |
| Codec.RespCodec.ReceiveAll | crates/gamestore-protocol/src/codec.rs:82-89 | chunk by chunk gives what the whole input gives at once |
| Codec.CommandCodec.Decode | crates/gamestore-protocol/src/codec.rs:152-159 | one decode step of the request codec |
| Codec.CommandCodec.Receive | crates/gamestore-protocol/src/codec.rs:152-159 | the same loop for requests |
| Codec.CommandCodec.ReceiveAll | crates/gamestore-protocol/src/codec.rs:152-159 | chunk by chunk gives what the whole input gives at once if and only if the cuts are well placed |

## Left out

- Store.Store.HSet: requires room below the 32-bit member count and a key below 2^32 bytes, like SAdd, ZAdd and the pushes; RunBounds says which runs have that room.
- Store.Store.SAdd: requires a non-empty member list, which the command arities guarantee; the same holds for ZAdd and Push. HSet takes an empty list as the code does; Script.OpFits leaves it out of runs.
- Store.Store.ZAdd: requires scores that are not NaN, which the command layer rejects.
- Store.Store.RawSubkeyCount: while garbage is left only a lower bound, because the number depends on what compaction has dropped so far.
- Store.VersionClock.Next: no other thread contends for the counter; NextAmong has the others.
- Store.Store.constructor: compaction does not strike between installing the predicate and rebuilding the map.
- Runs.Replay: requires fewer than 2^63 commands, counter and microsecond clock below 2^63, and the counter or every clock reading past the versions issued before; RestartIsSafeIff shows that a rebuilt key needs the last.
- Runs.AcrossRestarts: the same, for the versions the earlier parts can have issued.
- HashRuns.PlainRun: stops at a command for which the machine integers have no room, which the store's own run excludes.
- Commands.Set: requires a millisecond clock below 2^63.
- RoundTrip.RoundTripIff: requires that the standard library reads back the finite doubles it writes; NaN payloads are one value.
- Streams.FramesArrive: the same assumption about the text of doubles.
- Error texts: protocol errors are told apart by kind only.
- Several threads at work on one key, and a crash between the two writes of an emptying operation: the code promises nothing there.
- RocksDB itself: levels, snapshots, write-ahead log, statistics, back-end errors. The engine is an ordered map with a filter.
- Iterator laziness: a scan returns its listing at once, from one consistent view.
- Float text (`parse_double`, `put_double`, `format_score`, `parse_score`): an uninterpreted pair of functions.
- The shape of sorted-set replies, DEL and EXISTS over several keys, HEXISTS, arity checks and the other thin handlers: they would only add easy members.
- Server loop, shutdown, metrics, slow log, HTTP endpoint, configuration, telemetry and command line: input and output plumbing.
- `spike/` and the designs under `docs/`: earlier versions and prose.
