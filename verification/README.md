# Verified models of AEGIS

AEGIS is a bot-detection middleware in TypeScript and Python. This project models the parts of it in which a fast, bounded
or in-place form has to agree with a simple definition over every input or every run, and proves that it does.
`dafny verify dfyconfig.toml` checks everything.

| part | modules | what is proved |
|---|---|---|
| proof of work in the browser | `Words`, `Salsa20`, `Salsa20Example`, `Romix`, `Sha256`, `Sha256Constants`, `Sha256Example`, `Scrypt`, `LeadingZeros` | the hand-written SHA-256, HMAC, PBKDF2, Salsa20/8, BlockMix and ROMix loops compute what FIPS 180-4, RFC 2104, RFC 8018 and RFC 7914 define |
| ML inference | `FlatForest` | compiling a forest into shared arrays and walking all trees at once preserves the mean of the root-to-leaf evaluations |
| stores and limiters | `SlidingLog`, `OrderedDict`, `MemoryStore`, `RedisStore`, `NodeStore`, `EdgeLimiter`, `BoundedMap`, `NonceCache` | bounded state answers like an unbounded history until a stated capacity bound is reached |
| single use | `PowProtocol`, `PowInProcess`, `SignatureHeader`, `AntiTamper`, `SingleUseToken`, `Text` | each challenge, nonce and token is used at most once in every run, with the exact clock conditions |
| scores and tokens | `Fusion`, `Sessions`, `TokenProtocol` | fusion is order-free, monotone and associative; an allowed request on a token-required path is backed by accepted telemetry of its own session |
| address lists | `Sorting`, `RangeSet`, `Feeds` | merged intervals with binary search answer like a linear scan of the last good list, and never list a special-purpose address |
| study data | `Tables`, `StudyDatabase`, `StudyDataset`, `DatasetRows` | withdrawing a participant commutes with exporting the dataset, whose rows say what was stored |
| smaller loops | `Geometry`, `MouseCollector`, `SequentialRun`, `GraphQl` | pointer statistics stay in range, the longest run of ids is the longest progression, fragment counting is full inlining |
| shared | `Wrappers`, `Basics` | the optional value, arithmetic and sets |

Objects whose methods change fields are classes, and loops over arrays are loops over arrays; each method is proved against
a function of the old state, and the run properties are proved about those functions. A run is a sequence of steps; a step
is one locked method call, one Redis command or script, or one request. Clock readings are inputs of the steps. HMAC and
AES-GCM are unforgeable: verification succeeds only on what was signed or issued. Scores and times are real numbers.

Where the source's bounds are not enough, the model keeps the source's behaviour and says exactly when it fails:

- Without a store, the Python challenge verifier purges spent ids with `exp >= now` (challenge.py:96) but rejects with
  `int(now) > exp` (challenge.py:87). With more than 10,000 spent ids a challenge can be used again within the last second
  of its life: `PowInProcess.SingleUseExactlyWhen` says in which runs, and `PowInProcess.ReplayExample` gives one.
- The request verifier keeps nonces for twice the allowed skew (antitamper.py:61). That is enough exactly for requests whose
  timestamp is at most `max_skew` - 1 seconds ahead of the verifier; `AntiTamper.ReplayableIff` shows the replay of one
  signed a full `max_skew` ahead.
- Servers with a shared store are safe up to a clock difference of 59 s, less the time between check and claim and up to
  2 ms of rounding, not up to the full margin of 60 s: whole-second truncation costs one second.
  `PowProtocol.SafeExactlyWhen` gives the exact bound.
- The rescaled probability is monotone and in range exactly for challenge thresholds from 0 to 100, which the configuration
  does not enforce (`Fusion.MonotoneExactlyWhen`). A probability at the model's threshold leads to at least a challenge
  exactly if one of the two thresholds can be reached (`Fusion.ModelThresholdChallenges`).
- A single-use token is remembered for twice its lifetime, which is enough exactly if no issuer's clock is a whole lifetime
  ahead (`SingleUseToken.SingleUseExactlyWhen`).
- `sha256Js` is limited to 2^31 - 73 bytes by its signed shifts (`Sha256.PaddedLengthFits`).

## Model

| member | source | states |
|---|---|---|
| `Words.MaskIsModulo` | packages/js-sdk/src/challenges/scrypt.ts:136 | `x & (n - 1)` on a 32-bit word is the remainder modulo the power of two n, the word read as a number |
| `Words.PowerOfTwoTest` | packages/js-sdk/src/challenges/scrypt.ts:181 | for every n from 2 below 2^32, `n & (n - 1)` is zero exactly if n is a power of two |
| `Words.ValueOfToWord` | packages/js-sdk/src/challenges/scrypt.ts:91 | a number that reaches a 32-bit element, shift or bitwise operator is reduced modulo 2^32 |
| `Words.SetUint32IsBigEndian` | packages/js-sdk/src/challenges/scrypt.ts:91 | `setUint32` writes the four-byte big-endian form of a counter |
| `Words.TwoWordsAreBigEndian` | packages/js-sdk/src/challenges/scrypt.ts:49-50 | the high and low length words together are the eight-byte big-endian form of the bit length |
| `Words.ValueOfWordBE` | packages/js-sdk/src/challenges/scrypt.ts:54 | `getUint32` reads four bytes as a number, the first byte weighing most |
| `Words.ValueOfWordLE` | packages/js-sdk/src/challenges/scrypt.ts:128 | a little-endian view reads four bytes as a number, the first byte weighing least |
| `Words.BigEndianRoundTrip` | packages/js-sdk/src/challenges/scrypt.ts:54 | `getUint32` undoes `setUint32` |
| `Words.RotlMovesUp` | packages/js-sdk/src/challenges/scrypt.ts:100-110 | a rotation to the left moves every bit up by its number of places |
| `Words.RotlWraps` | packages/js-sdk/src/challenges/scrypt.ts:100-110 | and the uppermost bits to the bottom |
| `Words.RotrTurnsBack` | packages/js-sdk/src/challenges/scrypt.ts:52 | a rotation to the right is the rest of a full turn to the left |
| `Words.ZipInPlace` | packages/js-sdk/src/challenges/scrypt.ts:118 | an in-place loop that combines two arrays word by word leaves exactly the combined words |
| `Salsa20.ColumnRoundSteps` | packages/js-sdk/src/challenges/scrypt.ts:103-106 | the four quarter-rounds of a column round, done one after the other in place at their index lists, make the column round of the transposed matrix: they do not disturb each other |
| `Salsa20.RowRoundSteps` | packages/js-sdk/src/challenges/scrypt.ts:107-110 | the same for the four quarter-rounds of a row round, each starting at its diagonal word |
| `Salsa20.QuarterRoundInPlace` | packages/js-sdk/src/challenges/scrypt.ts:101-110 | four in-place updates with wrapping addition and rotation make one quarter-round and leave the other words alone |
| `Salsa20.DoubleRoundInPlace` | packages/js-sdk/src/challenges/scrypt.ts:102-111 | one iteration of the loop is one double round |
| `Salsa20.RoundsInPlace` | packages/js-sdk/src/challenges/scrypt.ts:102-111 | the loop makes the stated number of double rounds |
| `Salsa20.CoreInPlace` | packages/js-sdk/src/challenges/scrypt.ts:99-113 | the array holds Salsa20/8 of its old words (section 3 of RFC 7914) |
| `Salsa20Example.CoreOfBlock` | packages/js-sdk/src/challenges/scrypt.ts:99-113 | the core of the block in section 8 of RFC 7914 is the published result |
| `Romix.PlaceIsPermutation` | packages/js-sdk/src/challenges/scrypt.ts:120 | `(i & 1) * r + (i >> 1)` sends the 2r output blocks to the 2r positions, each used exactly once |
| `Romix.StoredHalf` | packages/js-sdk/src/challenges/scrypt.ts:117-121 | blocks stored at those places are the even blocks in order, followed by the odd ones |
| `Romix.ChainOfSection4` | packages/js-sdk/src/challenges/scrypt.ts:116-119 | the chain of blocks starts as the last block and takes in each block in turn (section 4 of RFC 7914) |
| `Romix.BlocksOfMix` | packages/js-sdk/src/challenges/scrypt.ts:117-121 | block 2k of the chain is block k of the result, and block 2k + 1 is block r + k |
| `Romix.BlockMixInPlace` | packages/js-sdk/src/challenges/scrypt.ts:115-122 | the destination holds scryptBlockMix of the source (section 4 of RFC 7914) and the source is unchanged |
| `Romix.FirstWordDecides` | packages/js-sdk/src/challenges/scrypt.ts:136 | a little-endian number modulo a power of two up to 2^31 depends on its first word only |
| `Romix.MaskIsIntegerify` | packages/js-sdk/src/challenges/scrypt.ts:136 | masking the first word of the last block is Integerify(X) mod N |
| `Romix.FillIterates` | packages/js-sdk/src/challenges/scrypt.ts:130-134 | after the first loop V[i] is the i-th scryptBlockMix iterate of the block, and X the n-th |
| `Romix.RevisitIterates` | packages/js-sdk/src/challenges/scrypt.ts:135-140 | the second loop performs step 3 of scryptROMix on the stored iterates |
| `Romix.ROMixInPlace` | packages/js-sdk/src/challenges/scrypt.ts:126-140 | both loops together compute scryptROMix (section 5 of RFC 7914) on words |
| `Romix.ViewRoundTrip` | packages/js-sdk/src/challenges/scrypt.ts:127-141 | reading bytes as little-endian words and back gives the same bytes |
| `Romix.RomixJs` | packages/js-sdk/src/challenges/scrypt.ts:125-142 | for every block, r >= 1 and power of two n the result is scryptROMix of the block, or the range error where the array of 32 r n words is more than the engine allocates |
| `Sha256Constants.InitialHashIsSquareRoots` | packages/js-sdk/src/challenges/scrypt.ts:44 | the eight initial words are the first 32 bits of the fractional parts of the square roots of the first eight primes |
| `Sha256Constants.RoundConstantsAreCubeRoots` | packages/js-sdk/src/challenges/scrypt.ts:32-41 | the 64 round constants are, in order, the first 32 bits of the fractional parts of the cube roots of the first 64 primes |
| `Sha256.PaddedLengthFits` | packages/js-sdk/src/challenges/scrypt.ts:45 | the shifted length is the padded length of FIPS 180-4 exactly below 2^31 - 72 bytes; from there on it is negative or too small for the message |
| `Sha256.PadSteps` | packages/js-sdk/src/challenges/scrypt.ts:45-50 | the four writes make the padded message of section 5.1.1 of FIPS 180-4 |
| `Sha256.PadInPlace` | packages/js-sdk/src/challenges/scrypt.ts:45-50 | the padded copy, or the range error from 2^31 - 72 bytes on |
| `Sha256.SumOrder` | packages/js-sdk/src/challenges/scrypt.ts:58 | the order in which the schedule adds its four terms does not matter |
| `Sha256.ChooseSelects` | packages/js-sdk/src/challenges/scrypt.ts:62 | choose takes the bits of its second argument where the first has ones, and those of the third elsewhere |
| `Sha256.MajorityAgrees` | packages/js-sdk/src/challenges/scrypt.ts:63 | majority has the bits on which two arguments agree |
| `Sha256.ExpandSchedule` | packages/js-sdk/src/challenges/scrypt.ts:54-59 | the array holds the message schedule of the block (section 6.2.2 of FIPS 180-4) |
| `Sha256.CompressInPlace` | packages/js-sdk/src/challenges/scrypt.ts:60-66 | the rotating variables make 64 rounds, and the hash words hold the next intermediate hash value |
| `Sha256.StoreWords` | packages/js-sdk/src/challenges/scrypt.ts:68-70 | the digest is the big-endian form of the hash words |
| `Sha256.Sha256Js` | packages/js-sdk/src/challenges/scrypt.ts:43-72 | the result is SHA-256 of the data for every length below 2^31 - 72 bytes, and a range error from there on |
| `Sha256Example.DigestOfAbc` | packages/js-sdk/src/challenges/scrypt.ts:43-72 | the SHA-256 that the loops compute gives the published digest of "abc" |
| `Scrypt.PadKey` | packages/js-sdk/src/challenges/scrypt.ts:75-79 | the loop makes the inner and outer padded keys |
| `Scrypt.HmacSha256` | packages/js-sdk/src/challenges/scrypt.ts:74-83 | the result is HMAC-SHA-256 of section 2 of RFC 2104, for short and long keys |
| `Scrypt.HmacOfBlock` | packages/js-sdk/src/challenges/scrypt.ts:74-83 | with a key of one block: the hash of the outer pad and the hash of the inner pad and the text, pads of 0x36 and 0x5c |
| `Scrypt.EquivalentKeys` | packages/js-sdk/src/challenges/scrypt.ts:75-76 | short keys count as if filled up with zeros, long ones as their digests |
| `Scrypt.ShorterIsPrefix` | packages/js-sdk/src/challenges/scrypt.ts:86-94 | a shorter derived key is a prefix of a longer one |
| `Scrypt.Pbkdf2Js` | packages/js-sdk/src/challenges/scrypt.ts:86-95 | the result is PBKDF2 with one iteration (section 5.2 of RFC 8018), cut to the requested length |
| `Scrypt.ScryptJs` | packages/js-sdk/src/challenges/scrypt.ts:180-184 | the result is scrypt with p = 1 (section 6 of RFC 7914) exactly for powers of two above one whose array the engine allocates; other costs are refused, also those of 2^32 and more that pass the 32-bit test |
| `LeadingZeros.LeadingZeroBits` | packages/server-python/aegis_shield/challenge.py:33-40 | the loop returns the length of the longest prefix of zero bits (also `leadingZeroBits` of the browser and of Node) |
| `LeadingZeros.PassesIffZeroPrefix` | packages/server-python/aegis_shield/challenge.py:101-102 | a digest passes a difficulty exactly if that many first bits are zero |
| `FlatForest.Compile` | packages/ml-engine/aegis_ml/models/classifier.py:39-66 | the shared arrays hold every tree at its offset: children stay in the tree's own range, leaves point at themselves with an infinite threshold, and the depth is the greatest one |
| `FlatForest.CompiledNext` | packages/ml-engine/aegis_ml/models/classifier.py:44-59 | appending one relocated tree keeps the earlier ones in place |
| `FlatForest.DescendReachesLeaf` | packages/ml-engine/aegis_ml/models/classifier.py:73-76 | after as many steps as its depth a walk is parked at the leaf of the recursive evaluation |
| `FlatForest.StepSimulates` | packages/ml-engine/aegis_ml/models/classifier.py:74-75 | one vectorised step is one step of the recursive walk, inside the same tree's index range |
| `FlatForest.Advance` | packages/ml-engine/aegis_ml/models/classifier.py:73-75 | one iteration moves the walks of all trees by one step |
| `FlatForest.MeanOfLeaves` | packages/ml-engine/aegis_ml/models/classifier.py:76 | the mean over the parked nodes is the mean of the recursive evaluations |
| `FlatForest.PredictBotProba` | packages/ml-engine/aegis_ml/models/classifier.py:68-76 | for every well-formed forest and every input, the result is the mean of the recursive root-to-leaf evaluations |
| `FlatForest.SharesAddUp` | packages/ml-engine/aegis_ml/models/classifier.py:50-56 | the shares of a leaf are proportional to its counts and add up to one |
| `FlatForest.DepthIsLongestPath` | packages/ml-engine/aegis_ml/models/classifier.py:59 | the depth is the length of the longest path to a leaf |
| `SlidingLog.RecordKeepsComplete` | packages/server-python/aegis_shield/store.py:72-74 | trimming to the window and to the cap loses no hit that a later count within the cap needs |
| `SlidingLog.RecordIsExact` | packages/server-python/aegis_shield/store.py:72-75 | the length of the trimmed log is the number of hits in the window, up to the cap |
| `SlidingLog.TrueHitsCount` | packages/server-python/aegis_shield/store.py:72-75 | the true number of hits counts the earlier hits of the key whose times lie in the window, and the hit itself |
| `OrderedDict.ReinsertKeepsOrder` | packages/server-python/aegis_shield/store.py:59-64 | taking a key out, making room and putting it back at the end keeps the dictionary in order of last use |
| `OrderedDict.SurvivesRoom` | packages/server-python/aegis_shield/store.py:97-104 | an unexpired entry survives making room unless the new key completes `max_keys` other keys used since |
| `OrderedDict.DropExpiredLoop` | packages/server-python/aegis_shield/store.py:99-102 | the first loop drops up to eight expired entries from the front |
| `OrderedDict.DropOldestLoop` | packages/server-python/aegis_shield/store.py:103-104 | the second loop drops the oldest entries until there is room for one |
| `OrderedDict.RoomDropsEight` | packages/server-python/aegis_shield/store.py:97-104 | where there is room anyway, the longest run of expired entries at the front is dropped, but no more than eight |
| `MemoryStore.MemoryStore.ClaimOnce` | packages/server-python/aegis_shield/store.py:56-65 | the method makes one claim step of the dictionary |
| `MemoryStore.MemoryStore.Hit` | packages/server-python/aegis_shield/store.py:67-75 | the method makes one hit step of the windows |
| `MemoryStore.ClaimsStayOrdered` | packages/server-python/aegis_shield/store.py:56-65 | in every run the dictionary is in order of last use and holds at most `max_keys` entries |
| `MemoryStore.RefusalIsJustified` | packages/server-python/aegis_shield/store.py:59-62 | a claim is refused only while an earlier successful claim of the same key has not expired |
| `MemoryStore.EntryPersists` | packages/server-python/aegis_shield/store.py:56-65 | a granted entry stays until its expiry while fewer than `max_keys` other keys are claimed |
| `MemoryStore.GrantedOncePerTtl` | packages/server-python/aegis_shield/store.py:56-65 | after a successful claim every claim of the key before the expiry fails, unless `max_keys` other keys came between |
| `MemoryStore.WindowsStayOrdered` | packages/server-python/aegis_shield/store.py:67-75 | in every run the windows are in order of last use and within the bound |
| `MemoryStore.HitIsExact` | packages/server-python/aegis_shield/store.py:67-75 | with a nondecreasing clock and a window up to an hour, a hit returns the true number of hits in its window, up to 10,000, while its key is kept |
| `RedisStore.ClaimIsExact` | packages/server-python/aegis_shield/store.py:134-135 | a claim with `SET NX PX` succeeds exactly if every earlier successful claim of its key has expired |
| `RedisStore.ScriptIsRecord` | packages/server-python/aegis_shield/store.py:108-121 | the script is the trimming of a sliding log |
| `RedisStore.ScriptIsExact` | packages/core/src/store/Store.ts:99-112 | in every history the script returns the number of hits in the window, up to the cap |
| `RedisStore.StoresAgree` | packages/server-python/aegis_shield/store.py:67-75 | the in-process store and the Redis script return the same count for the same history |
| `NodeStore.NodeMemoryStore.ClaimOnce` | packages/core/src/store/Store.ts:43-49 | one claim step of the Node map |
| `NodeStore.NodeMemoryStore.Hit` | packages/core/src/store/Store.ts:51-61 | the splices leave the trimmed log, and the count is the true number of hits in the window, up to the cap |
| `NodeStore.NodeMemoryStore.Cleanup` | packages/core/src/store/Store.ts:78-84 | the timer removes exactly the expired claims and the windows without a hit in the last hour |
| `NodeStore.CleanupLeaves` | packages/core/src/store/Store.ts:78-84 | what the timer leaves: unexpired claims, and windows with a hit in the last hour |
| `NodeStore.ClaimIsExact` | packages/core/src/store/Store.ts:43-49 | wherever the timer fires, a claim succeeds exactly if no earlier successful claim of its key is unexpired |
| `NodeStore.LogStaysComplete` | packages/core/src/store/Store.ts:51-84 | wherever the timer fires, the log of a key is complete for every window up to an hour |
| `NodeStore.DroppedPrefix` | packages/core/src/store/Store.ts:55-57 | dropping the old prefix of a sorted list leaves the times after the cutoff |
| `EdgeLimiter.IsolateRateLimiter.Allow` | packages/edge-cloudflare/src/worker.ts:91-98 | one step of the map, and the decision |
| `EdgeLimiter.StateDistinct` | packages/edge-cloudflare/src/worker.ts:95-96 | at most `maxKeys` keys are held, each once |
| `EdgeLimiter.AllowIsExact` | packages/edge-cloudflare/src/worker.ts:91-98 | while its key is kept, an attempt is allowed exactly if all attempts of the last window, allowed or denied, number at most max: the last max + 1 are enough |
| `EdgeLimiter.AtMostMaxPerWindow` | packages/edge-cloudflare/src/worker.ts:91-98 | at most max attempts of a key pass in any window, wherever it ends, as long as the key is not evicted |
| `EdgeLimiter.FewKeysAlwaysKept` | packages/edge-cloudflare/src/worker.ts:95 | no key is evicted while no more keys are in play than the map holds |
| `EdgeLimiter.KeptExactlyWhile` | packages/edge-cloudflare/src/worker.ts:91-98 | a key that is put into the map stays exactly as long as fewer other keys are put in after it than the map holds |
| `BoundedMap.BoundedMap.InsertKey` | packages/core/src/utils/bounded.ts:92-100 | a full current generation is rotated out and counted, and the key is put into the current one |
| `BoundedMap.BoundedMap.GetKey` | packages/core/src/utils/bounded.ts:43-50 | returns what is present and moves a key of the previous generation into the current one |
| `BoundedMap.BoundedMap.SetKey` | packages/core/src/utils/bounded.ts:52-60 | sets the value and makes the key a current one |
| `BoundedMap.BoundedMap.DeleteKey` | packages/core/src/utils/bounded.ts:62-64 | removes the key and tells whether it was there |
| `BoundedMap.BoundedMap.ClearAll` | packages/core/src/utils/bounded.ts:66-69 | empties both generations |
| `BoundedMap.RunKeepsValid` | packages/core/src/utils/bounded.ts:22-101 | in every run no key is in both generations and the size never exceeds twice the generation size |
| `BoundedMap.HoldsLastValue` | packages/core/src/utils/bounded.ts:43-64 | what a key holds is the value last set on an unbounded map; only the bound makes it absent |
| `BoundedMap.TouchedKeysStay` | packages/core/src/utils/bounded.ts:15-16 | a key set or read stays through the next floor(maxSize / 2) insertions unless it is deleted or the map is cleared |
| `BoundedMap.SlackIsExact` | packages/core/src/utils/bounded.ts:92-100 | while only other keys are set and read, a key is present exactly as long as the insertions do not exceed its slack |
| `BoundedMap.KeysAreConserved` | packages/core/src/utils/bounded.ts:26-64 | without `clear`, keys inserted = keys present + keys deleted + keys counted as evicted |
| `RangeSet.ContainsIsSamePrefix` | packages/server-python/aegis_shield/feeds.py:54-59 | the interval of a network holds exactly the addresses with its prefix |
| `RangeSet.PrefixHalves` | packages/server-python/aegis_shield/feeds.py:122-125 | a network is the disjoint union of the two with one bit more of prefix |
| `RangeSet.WidestAndNarrowest` | packages/server-python/aegis_shield/feeds.py:122-125 | /0 is the whole address space, and /32 one address |
| `RangeSet.OverlapIsSharedAddress` | packages/server-python/aegis_shield/feeds.py:65 | two networks overlap exactly if they share an address |
| `RangeSet.MergeSeparated` | packages/server-python/aegis_shield/feeds.py:125-130 | merged intervals are sorted, disjoint and not adjacent |
| `RangeSet.MergeCovers` | packages/server-python/aegis_shield/feeds.py:125-130 | merging changes no address's membership |
| `RangeSet.Build` | packages/server-python/aegis_shield/feeds.py:122-133 | the starts and ends are those of the merged sorted intervals |
| `RangeSet.BisectRight` | packages/server-python/aegis_shield/feeds.py:136 | the position splits the starts into those up to the address and those above it |
| `RangeSet.Member` | packages/server-python/aegis_shield/feeds.py:135-137 | binary search finds an address exactly if some interval holds it |
| `RangeSet.MembershipIsScan` | packages/server-python/aegis_shield/feeds.py:122-137 | for every entry list the index holds exactly the addresses that some entry's network contains |
| `Sorting.SortProperties` | packages/server-python/aegis_shield/feeds.py:123 | sorting gives an ordered permutation |
| `Feeds.Collect` | packages/server-python/aegis_shield/feeds.py:67-80 | entries are the usable candidates in order, and the two counters count the special-purpose and the invalid ones |
| `Feeds.CollectedHits` | packages/server-python/aegis_shield/feeds.py:67-80 | a scan of the kept entries finds exactly the addresses of the usable candidates |
| `Feeds.CollectedAddresses` | packages/server-python/aegis_shield/feeds.py:79 | the Tor list takes an address exactly from a usable candidate that is it, with or without "/32" |
| `Feeds.CountsAreCounts` | packages/server-python/aegis_shield/feeds.py:70-77 | the counters count what they say |
| `Feeds.UsableIsNotSpecial` | packages/server-python/aegis_shield/feeds.py:76-79 | a usable entry contains no special-purpose address |
| `Feeds.SpecialRanges` | packages/server-python/aegis_shield/feeds.py:39-42 | the special-purpose networks, octet by octet |
| `Feeds.LastGoodInForce` | packages/server-python/aegis_shield/feeds.py:190-208 | over every sequence of skipped, failed, empty and good refreshes each feed answers from its last non-empty list |
| `Feeds.NeverListsSpecial` | packages/server-python/aegis_shield/feeds.py:39-42 | no list ever contains a special-purpose address |
| `Feeds.ScannedIsScan` | packages/server-python/aegis_shield/feeds.py:175-183 | answering from a list is a linear scan of its entries |
| `Feeds.IPReputation.ApplyList` | packages/server-python/aegis_shield/feeds.py:236-246 | a list without usable entries changes nothing; any other replaces the feed's list |
| `Feeds.DueIsTried` | packages/server-python/aegis_shield/feeds.py:190-208 | a refresh asks the server exactly if it is forced or due and its key is there if needed, and a usable answer comes into force |
| `Feeds.IPReputation.RefreshFeed` | packages/server-python/aegis_shield/feeds.py:190-208 | one refresh step: skipped, failed or applied |
| `Feeds.IPReputation.Listed` | packages/server-python/aegis_shield/feeds.py:181 | a feed lists an address exactly if a scan of its list in force finds it |
| `Feeds.IPReputation.Lookup` | packages/server-python/aegis_shield/feeds.py:175-183 | the answer says whether the address is a Tor exit, which lists in force contain it, and their greatest severity |
| `PowProtocol.NotExpired` | packages/server-python/aegis_shield/challenge.py:87 | the expiry checks of both languages reject exactly from the second after `exp` |
| `PowProtocol.GrantOutlives` | packages/server-python/aegis_shield/challenge.py:90 | a claim lasts until 60 s after `exp` by the claiming server's clock, rounded down to a millisecond, and one less for a Python server |
| `PowProtocol.AsksForMost` | packages/server-python/aegis_shield/challenge.py:90 | a server that passed its own check asks for at least 59 s |
| `PowProtocol.ClaimKeepsInvariant` | packages/core/src/security/MemoryHardChallenge.ts:105-108 | a claim keeps every evaluated challenge claimed in the store for as long as any server accepts it |
| `PowProtocol.RunKeepsInvariant` | packages/core/src/security/MemoryHardChallenge.ts:91-112 | the same for every interleaving of issue, check and claim steps |
| `PowProtocol.AtMostOneEvaluation` | packages/server-python/aegis_shield/challenge.py:71-103 | across any number of Python and Node servers each issued challenge costs at most one scrypt evaluation, and so verifies at most once, while the clocks agree |
| `PowProtocol.SkewBreaksSafety` | packages/server-python/aegis_shield/challenge.py:90 | if the clocks of two servers, of either language, do not agree, this run evaluates a challenge twice |
| `PowProtocol.SafeExactlyWhen` | packages/server-python/aegis_shield/challenge.py:71-103 | all runs are safe exactly if the clocks agree: no server can claim when another server's claim can have lapsed |
| `PowProtocol.AgreementInSeconds` | packages/server-python/aegis_shield/challenge.py:90 | clocks agree if no gap exceeds 58.998 s less the claim delay and do not if one exceeds 59 s; in between the roundings decide |
| `PowInProcess.ValidExactlyWhen` | packages/server-python/aegis_shield/challenge.py:71-103 | in every run a call is valid exactly if its challenge is genuine, unexpired and not spent and its digest begins with the demanded zero bits; and why others are refused |
| `PowInProcess.SpentWasEvaluated` | packages/server-python/aegis_shield/challenge.py:93-97 | an id is spent only by an earlier call that evaluated its challenge |
| `PowInProcess.ForgottenIff` | packages/server-python/aegis_shield/challenge.py:93-97 | a spent id is forgotten by exactly those calls on other ids that purge after its expiry second has begun |
| `PowInProcess.EvaluatedAgainIff` | packages/server-python/aegis_shield/challenge.py:87-97 | in every run a challenge submitted again is evaluated again exactly if it has not expired but a purge since came after its expiry second had begun |
| `PowInProcess.SingleUseExactlyWhen` | packages/server-python/aegis_shield/challenge.py:71-103 | in every run some challenge is evaluated twice exactly if one is submitted again within its expiry second after a purge within that second |
| `PowInProcess.ReplayExample` | packages/server-python/aegis_shield/challenge.py:96 | a run from the empty table: more than 10,000 challenges are verified, the first is refused, and after one more it is verified again |
| `PowInProcess.SingleUseOnWholeSeconds` | packages/server-python/aegis_shield/challenge.py:93-97 | on a clock of whole seconds no run evaluates a challenge twice |
| `PowInProcess.Challenger.VerifyOnce` | packages/server-python/aegis_shield/challenge.py:71-103 | one step of the in-process verifier with its outcome |
| `PowInProcess.NodeSingleUse` | packages/core/src/security/MemoryHardChallenge.ts:103-108 | in one Node process no challenge is evaluated twice |
| `NonceCache.FreshOnce` | packages/core/src/utils/crypto.ts:184-195 | a nonce is fresh once, until the timer runs more than `maxAge` after that use |
| `NonceCache.Cache.HasBeenUsed` | packages/core/src/utils/crypto.ts:184-188 | tells whether the nonce is known and remembers it |
| `NonceCache.Cache.Cleanup` | packages/core/src/utils/crypto.ts:190-195 | forgets exactly the nonces older than `maxAge` |
| `SignatureHeader.ParseHeader` | packages/server-python/aegis_shield/antitamper.py:44-57 | the loop over the items parses the header: later items override earlier ones, `int` decides the timestamp, and the nonce and signature are checked |
| `SignatureHeader.WrittenHeaderParses` | packages/server-python/aegis_shield/antitamper.py:38-57 | a header written with a nonce of 8 to 64 hexadecimal digits parses back to the same timestamp, nonce and signature |
| `SignatureHeader.ParsedIsComplete` | packages/server-python/aegis_shield/antitamper.py:54-57 | whatever is parsed has such a nonce and a signature |
| `SignatureHeader.LastItemCounts` | packages/server-python/aegis_shield/antitamper.py:46-49 | a later item replaces an earlier one with the same key |
| `Text.StripTakesOffBlanks` | packages/server-python/aegis_shield/antitamper.py:49 | stripping takes off the white space at both ends and no more |
| `Text.ParseSigned` | packages/server-python/aegis_shield/antitamper.py:51 | `int` reads a number with its sign, between white space |
| `SignatureHeader.CanonicalIsInjective` | packages/server-python/aegis_shield/antitamper.py:28-30 | two requests never sign the same string unless all their parts are equal |
| `SignatureHeader.CanonicalLines` | packages/server-python/aegis_shield/antitamper.py:28-30 | the signed string is the five parts, one a line |
| `AntiTamper.FreshlySignedPasses` | packages/server-python/aegis_shield/antitamper.py:77-90 | a freshly signed request passes the check at every clock within the skew |
| `AntiTamper.PassedWasSigned` | packages/server-python/aegis_shield/antitamper.py:77-90 | what passes the check is exactly what was signed: request, timestamp and nonce are those of the signature |
| `AntiTamper.SignatureCoversRequest` | packages/server-python/aegis_shield/antitamper.py:77-90 | a header signed for one request passes with no other, and with that one exactly within the skew |
| `AntiTamper.StateOldestFirst` | packages/server-python/aegis_shield/antitamper.py:94-104 | in every run the nonces are in order of time, each once |
| `AntiTamper.EvictForgetsOld` | packages/server-python/aegis_shield/antitamper.py:101-104 | eviction forgets exactly the nonces older than twice the skew |
| `AntiTamper.AcceptedAgainIff` | packages/server-python/aegis_shield/antitamper.py:77-104 | an accepted nonce that passes the check again, in whatever header, is accepted again exactly if more than twice the skew has passed |
| `AntiTamper.AcceptedTwiceIff` | packages/server-python/aegis_shield/antitamper.py:77-104 | in every run an accepted nonce is accepted a second time exactly if it passes the check more than twice the skew later |
| `AntiTamper.AcceptedOnce` | packages/server-python/aegis_shield/antitamper.py:77-99 | in every run a signed nonce is accepted at most once if the signer's clock was at most `max_skew` - 1 s ahead |
| `AntiTamper.ReplayableIff` | packages/server-python/aegis_shield/antitamper.py:87-104 | right after an acceptance some later time accepts the request again exactly if its timestamp was a full `max_skew` ahead |
| `AntiTamper.StoreRefusesReplay` | packages/server-python/aegis_shield/antitamper.py:92-93 | with the in-process store the claim outlives the timestamp under the same bound |
| `AntiTamper.RedisRefusesReplay` | packages/server-python/aegis_shield/antitamper.py:92-93 | with Redis the replay at another server is refused if the signer's lead, the difference of the servers' clocks and the claim delay add up to no more than `max_skew` - 1.001 s |
| `AntiTamper.NodeCacheRefusesReplay` | packages/core/src/security/AntiTamper.ts:64-70 | the Node cache refuses the replay under the same bound |
| `AntiTamper.Verifier.VerifyRequest` | packages/server-python/aegis_shield/antitamper.py:77-99 | one step of the verifier: the nonces and the outcome |
| `Fusion.NoisyOrLoop` | packages/server-python/aegis_shield/detector.py:34-39 | the loop computes the noisy-OR of the scores |
| `Fusion.NoisyOrBounded` | packages/server-python/aegis_shield/detector.py:34-39 | the fused score lies between 0 and 100 for all scores |
| `Fusion.OrderDoesNotMatter` | packages/server-python/aegis_shield/detector.py:34-39 | the order of the signals does not matter |
| `Fusion.MoreSignalsRaise` | packages/server-python/aegis_shield/detector.py:34-39 | more signals never lower the score |
| `Fusion.AtLeastEverySignal` | packages/server-python/aegis_shield/detector.py:34-39 | the fused score is at least every single score |
| `Fusion.FusionIsAssociative` | packages/server-python/aegis_shield/telemetry.py:128-142 | fusing a fused score with further ones is fusing all at once |
| `Fusion.NoisyOrOfFew` | packages/server-python/aegis_shield/detector.py:34-39 | no signal scores 0, one its own score, and two their sum less their product |
| `Fusion.MonotoneExactlyWhen` | packages/server-python/aegis_shield/telemetry.py:133-139 | a higher probability never gives a lower score, exactly for challenge thresholds from 0 to 100 |
| `Fusion.InRangeExactlyWhen` | packages/server-python/aegis_shield/telemetry.py:133-139 | the scores of all probabilities lie between 0 and 100, exactly for the same thresholds |
| `Fusion.RescaleBounds` | packages/server-python/aegis_shield/telemetry.py:133-139 | for every challenge threshold, probabilities below the model's threshold score between 0 and the challenge threshold, the others between that and 100 |
| `Fusion.RescaleOnto` | packages/server-python/aegis_shield/telemetry.py:133-139 | every score from 0 to 100 is the score of some probability |
| `Fusion.RescaleIsLinear` | packages/server-python/aegis_shield/telemetry.py:133-139 | on either side of the model's threshold the score is linear in the probability |
| `Fusion.RoundIsNearest` | packages/server-python/aegis_shield/telemetry.py:142 | rounding gives the nearest tenth and leaves tenths alone |
| `Fusion.RoundMonotone` | packages/server-python/aegis_shield/telemetry.py:142 | rounding keeps the order of scores |
| `Fusion.TiesGoToEven` | packages/server-python/aegis_shield/telemetry.py:140 | halfway between two tenths the even one is taken |
| `Fusion.TelemetryScoreFusesAll` | packages/server-python/aegis_shield/telemetry.py:128-142 | the telemetry score is the rounded noisy-OR of all rule signals and the model's score, a tenth from 0 to 100 |
| `Fusion.ScoreAtLeastMember` | packages/server-python/aegis_shield/middleware.py:263 | the fused and rounded score is at least every one-decimal score that went in |
| `Fusion.DecideExactly` | packages/server-python/aegis_shield/telemetry.py:65-72 | which scores are let through, monitored, challenged and blocked |
| `Fusion.ModelThresholdChallenges` | packages/server-python/aegis_shield/telemetry.py:133-143 | in enforce mode a probability at or above the clamped model threshold is answered with at least a challenge exactly if one of the two thresholds is at most 100 |
| `Sessions.SessionTracker.GetOrCreate` | packages/server-python/aegis_shield/sessions.py:86-104 | one visit of the session table |
| `Sessions.IdleIsNotContinued` | packages/server-python/aegis_shield/sessions.py:94-108 | a session within its age is continued; an older one is gone with its id and telemetry |
| `Sessions.UnknownIsNew` | packages/server-python/aegis_shield/sessions.py:94-108 | a request without a known cookie gets a new session |
| `Sessions.VisitKeepsOrder` | packages/server-python/aegis_shield/sessions.py:86-104 | a visit keeps the table least recently used first |
| `Sessions.NextStaysOrdered` | packages/server-python/aegis_shield/sessions.py:86-104 | every request keeps the order and the cap of the table |
| `Sessions.SessionsAreRemembered` | packages/server-python/aegis_shield/sessions.py:160-170 | a session is remembered, telemetry and all, while it does not idle and fewer other sessions than the table holds were used since |
| `TokenProtocol.RequiresTokenBelow` | packages/server-python/aegis_shield/middleware.py:262 | a token is required exactly on the paths that begin with a configured one |
| `TokenProtocol.AllowedExactlyWhen` | packages/server-python/aegis_shield/middleware.py:262-273 | in enforce mode a request is allowed exactly if its score is below the block threshold, and below the challenge threshold or with solved work, and it carries telemetry wherever its path begins with a configured one |
| `TokenProtocol.OtherPathsGoByScore` | packages/server-python/aegis_shield/middleware.py:262-273 | on all other paths the score decides |
| `TokenProtocol.WorkLiftsOnlyChallenges` | packages/server-python/aegis_shield/middleware.py:266-271 | solved work lifts a challenge except where telemetry is required and missing, and never lifts a block |
| `TokenProtocol.MonitorDeniesNothing` | packages/server-python/aegis_shield/telemetry.py:65-72 | monitor mode never blocks or challenges |
| `TokenProtocol.RefusedTokensScore` | packages/server-python/aegis_shield/middleware.py:244-261 | a forged or expired token adds a signal of 40, one of another session or browser of 60; without a token the signals decide alone |
| `TokenProtocol.ScoreFusesAll` | packages/server-python/aegis_shield/telemetry.py:128-140 | the score of a report fuses its rule signals and the rescaled probability |
| `TokenProtocol.ModelDecides` | packages/server-python/aegis_shield/telemetry.py:133-143 | a report whose probability reaches the model's threshold is challenged or blocked exactly if a threshold can be reached |
| `TokenProtocol.StepKeepsInvariant` | packages/server-python/aegis_shield/middleware.py:161-213 | every step keeps sessions and tokens truthful about the telemetry accepted so far |
| `TokenProtocol.RunKeepsInvariant` | packages/server-python/aegis_shield/middleware.py:161-282 | the same for every run |
| `TokenProtocol.StepIsRequest` | packages/server-python/aegis_shield/middleware.py:226-273 | to the session table every step is one request |
| `TokenProtocol.AcceptedClaims` | packages/server-python/aegis_shield/verifier.py:92-96 | accepted claims were issued to the session of the request within the lifetime, and their score went into the decision in full |
| `TokenProtocol.AllowedRequestsAreBacked` | packages/server-python/aegis_shield/middleware.py:244-273 | in every run in enforce mode a request allowed on a token-required path comes from a session that had telemetry accepted; the token carries that session's latest score of its time, which is at most the decision's score, below the block threshold, and without solved work below the challenge threshold |
| `TokenProtocol.SessionsStayOrdered` | packages/server-python/aegis_shield/sessions.py:160-170 | in every run the sessions are in order of last use and no more than the table holds |
| `TokenProtocol.TelemetrySessionStays` | packages/server-python/aegis_shield/sessions.py:160-170 | in every run a session that sent telemetry is held while it does not idle and fewer other sessions than the table holds are used |
| `TokenProtocol.TelemetryOpensTheWay` | packages/server-python/aegis_shield/telemetry.py:143-155 | in every run a session that sends telemetry and presents its token in time, whatever comes in between, is judged by the telemetry score alone, while it is held |
| `TokenProtocol.Middleware.HandleChallenge` | packages/server-python/aegis_shield/middleware.py:161-189 | one challenge step: the session table, and the token for solved work |
| `TokenProtocol.Middleware.HandleTelemetry` | packages/server-python/aegis_shield/middleware.py:193-213 | one telemetry step: limited, rejected, or scored with a token |
| `TokenProtocol.Middleware.EvaluateRequest` | packages/server-python/aegis_shield/middleware.py:217-282 | one request step with its decision |
| `SingleUseToken.AcceptedOnce` | packages/server-python/aegis_shield/verifier.py:92-106 | in every run a single-use token is accepted at most once if no issuer's clock is a whole token lifetime ahead |
| `SingleUseToken.SingleUseExactlyWhen` | packages/server-python/aegis_shield/verifier.py:113-119 | tokens are accepted at most once in all runs exactly under this bound (never for a lifetime of zero) |
| `SingleUseToken.ReplayExample` | packages/server-python/aegis_shield/verifier.py:113-119 | a run that accepts a token twice wherever the bound fails |
| `SingleUseToken.ClaimOutlivesToken` | packages/server-python/aegis_shield/verifier.py:103 | the store's claim of a nonce outlives the token exactly under the same bound |
| `SingleUseToken.TokenVerifier.Verify` | packages/server-python/aegis_shield/verifier.py:92-109 | one step of the verifier |
| `SingleUseToken.AcceptedExactlyWhen` | packages/server-python/aegis_shield/verifier.py:92-106 | in every run a token is accepted exactly if it is young enough, not past its own expiry, and carries a nonce that is not remembered |
| `SingleUseToken.UsedWasAccepted` | packages/server-python/aegis_shield/verifier.py:104-106 | a remembered nonce was accepted before |
| `StudyDatabase.DeleteSessions` | study/aegis_study/db.py:267-270 | deleting id by id with a running count removes exactly the rows of the ids and counts them |
| `StudyDatabase.Database.Withdraw` | study/aegis_study/db.py:260-280 | everything recorded under the code is gone, everything else is unchanged, and the returned counts are what was deleted |
| `StudyDatabase.NothingIsLeft` | study/aegis_study/db.py:260-274 | no row of the participant is left in any table |
| `StudyDatabase.WithdrawKeepsValid` | study/aegis_study/db.py:264-272 | withdrawal leaves no dangling reference |
| `StudyDatabase.WithdrawKeepsNumbering` | study/aegis_study/db.py:260-274 | withdrawal keeps the session numbers of every other code consecutive |
| `StudyDatabase.CreateKeepsNumbering` | study/aegis_study/db.py:189-203 | a new session gets the next number of its code |
| `StudyDatabase.CreatedTells` | study/aegis_study/db.py:189-203 | a created session is stored last, with its code, its start and its number |
| `StudyDatabase.Database.CreateSession` | study/aegis_study/db.py:189-203 | the session is stored, or an integrity error changes nothing |
| `StudyDataset.SessionsLoop` | study/aegis_study/export.py:84-123 | the loops make the session rows, the task rows and the lookup of sessions |
| `StudyDataset.TelemetryLoop` | study/aegis_study/export.py:132-152 | the rows of study sessions, with the final marks set by index |
| `StudyDataset.MarkByIndex` | study/aegis_study/export.py:149-152 | setting the mark at the recorded index of every stream marks exactly the last report of each stream |
| `StudyDataset.OneFinalPerStream` | study/aegis_study/export.py:147-152 | every page view of a session that was reported has exactly one final report, the last one |
| `StudyDataset.RequestsLoop` | study/aegis_study/export.py:162-174 | requests are split into labelled and unlabelled ones |
| `StudyDataset.ExportDatabase` | study/aegis_study/export.py:73-195 | the loops together make the dataset |
| `DatasetRows.SessionsTell` | study/aegis_study/export.py:62-123 | each stored session has one row, in order of start, with its own code, answers and task events |
| `DatasetRows.TasksTell` | study/aegis_study/export.py:100-111 | the task rows of a session are its stored events in order, column by column |
| `DatasetRows.TelemetryTells` | study/aegis_study/export.py:124-152 | the telemetry rows are the stored reports of sessions in order, with the kind and participant of the session's own code and the time since its own start |
| `DatasetRows.RequestsTell` | study/aegis_study/export.py:155-176 | a request is labelled exactly if it belongs to a session, with that session's columns |
| `DatasetRows.RawTells` | study/aegis_study/export.py:178-195 | a session has a file of raw events exactly if it has batches, in order of page view and number |
| `StudyDataset.WithdrawCommutes` | study/aegis_study/export.py:73-195 | exporting after a withdrawal gives the earlier export without exactly the participant's rows; all other rows, final marks and unlabelled requests are unchanged |
| `Tables.SortFilter` | study/aegis_study/export.py:76 | selecting rows commutes with stable ordering |
| `Geometry.TriangleInequality` | packages/js-sdk/src/collectors/MouseCollector.ts:161-162 | the length of a sum of two displacements is at most the sum of their lengths |
| `Geometry.CauchySchwarz` | packages/js-sdk/src/collectors/MouseCollector.ts:226-231 | the Cauchy-Schwarz inequality, with equality exactly for multiples |
| `Geometry.SameDirection` | packages/js-sdk/src/collectors/MouseCollector.ts:203 | two displacements whose lengths add up point the same way |
| `MouseCollector.AcceptedIncreases` | packages/js-sdk/src/collectors/MouseCollector.ts:88-89 | accepted samples advance in time, and a rejected one is never later than an accepted one |
| `MouseCollector.MouseCollector.AddSample` | packages/js-sdk/src/collectors/MouseCollector.ts:87-95 | the window holds the last `maxSamples` accepted samples, and the stroke start is that of the current movement |
| `MouseCollector.MouseCollector.AddClick` | packages/js-sdk/src/collectors/MouseCollector.ts:98-114 | the last 200 clicks on visible targets are kept, with precisions between 0 and 1 |
| `MouseCollector.PrecisionInUnit` | packages/js-sdk/src/collectors/MouseCollector.ts:102-103 | precision lies in [0, 1], is 1 exactly at the centre and 0 exactly at the distance of the corners or beyond |
| `MouseCollector.ClickIsRelative` | packages/js-sdk/src/collectors/MouseCollector.ts:97-113 | a click is recorded by relative positions and times only |
| `MouseCollector.DifficultyOfDistance` | packages/js-sdk/src/collectors/MouseCollector.ts:105-109 | the index of difficulty is that of the distance over the smaller side, plus one |
| `MouseCollector.StrokesPartition` | packages/js-sdk/src/collectors/MouseCollector.ts:142-163 | strokes and pauses partition the samples: every sample is in one stroke, no stroke holds a pause, and between two strokes there is one |
| `MouseCollector.MovementIsLastStroke` | packages/js-sdk/src/collectors/MouseCollector.ts:90-92 | the current movement began with the first sample of the last stroke |
| `MouseCollector.TimesAddUp` | packages/js-sdk/src/collectors/MouseCollector.ts:145-149 | stroke time and pause time add up to the total duration |
| `MouseCollector.StrokesFillTheRest` | packages/js-sdk/src/collectors/MouseCollector.ts:210-212 | total duration less pause count times average pause is the time in strokes |
| `MouseCollector.DirectIsShortest` | packages/js-sdk/src/collectors/MouseCollector.ts:136-140 | the direct distance of a stroke is at most its path length |
| `MouseCollector.StraightnessIndexInUnit` | packages/js-sdk/src/collectors/MouseCollector.ts:203 | the straightness index lies in [0, 1] for any samples |
| `MouseCollector.StraightnessIsOneExactlyWhen` | packages/js-sdk/src/collectors/MouseCollector.ts:116-203 | the index is 1 exactly if some stroke counts and the samples of each that does lie in order on a segment |
| `MouseCollector.Sweep` | packages/js-sdk/src/collectors/MouseCollector.ts:126-188 | the loop gives the straightness of every stroke and the number and time of the pauses |
| `MouseCollector.FittsR2Loop` | packages/js-sdk/src/collectors/MouseCollector.ts:218-232 | the loop computes the squared correlation of the moving clicks |
| `MouseCollector.RSquaredInUnit` | packages/js-sdk/src/collectors/MouseCollector.ts:218-232 | the squared correlation lies in [0, 1] and is 1 exactly for points on a sloped line |
| `MouseCollector.RSquaredIsExplained` | packages/js-sdk/src/collectors/MouseCollector.ts:218-232 | the squared correlation is the share of the spread that the best line explains, and no line does better |
| `MouseCollector.NoSpread` | packages/js-sdk/src/collectors/MouseCollector.ts:218-232 | without spread in either coordinate the value is 0 |
| `MouseCollector.FittsR2IsOneExactlyWhen` | packages/js-sdk/src/collectors/MouseCollector.ts:218-232 | which clicks count, and when the value is 1 |
| `MouseCollector.MouseCollector.GetData` | packages/js-sdk/src/collectors/MouseCollector.ts:116-215 | the analysis is that of the window's strokes and pauses, and its indices lie in [0, 1] |
| `MouseCollector.AnalysisTells` | packages/js-sdk/src/collectors/MouseCollector.ts:116-215 | what the analysis holds, with and without enough samples |
| `SequentialRun.MatchIsShortest` | packages/server-python/aegis_shield/session_patterns.py:16 | the groups found are those of the match with the shortest first group |
| `SequentialRun.ReadsEveryNumber` | packages/server-python/aegis_shield/session_patterns.py:51-52 | a path has a number exactly if there is a digit before its query |
| `SequentialRun.ReadsWhatIsWritten` | packages/server-python/aegis_shield/session_patterns.py:51-52 | a number written between other text is read back with that text as its key; a query changes nothing |
| `SequentialRun.SameKeySamePlace` | packages/server-python/aegis_shield/session_patterns.py:51-52 | two readings with one key have the same text around their numbers, in paths without a fragment |
| `SequentialRun.KeysTellSurroundings` | packages/server-python/aegis_shield/session_patterns.py:52 | equal keys mean equal text around the number, in paths without a fragment |
| `SequentialRun.ProgressionFormula` | packages/server-python/aegis_shield/session_patterns.py:54-62 | a run is an arithmetic progression of numbers at one place of one path |
| `SequentialRun.LongestSequentialRun` | packages/server-python/aegis_shield/session_patterns.py:46-64 | the result is exactly the greatest length of a window of consecutive paths that form such a progression, 1 where there is none |
| `GraphQl.CountIsInlined` | packages/server-node/src/graphql.ts:164-178 | where no fragment that the operation reaches is on a cycle the count is the number of root fields of the fully inlined operation, and the rule reports exactly the operations above the limit |
| `GraphQl.CollectsNoMore` | packages/server-node/src/graphql.ts:164-172 | on every document, with cycles or without, the count is at least the number of root fields that an execution collects |
| `GraphQl.SeenCountsLess` | packages/server-node/src/graphql.ts:169-170 | having passed through more fragments never counts more |
| `GraphQl.SeenIsUndefined` | packages/server-node/src/graphql.ts:169-170 | inside a fragment the count is that of the document without the fragment: this is how cycles are cut |

## Left out

Parts of the repository:

- HTTP adapters, WebSocket, metrics, the edge `fetch` handler, dashboards and study pages: plumbing.
- AES-GCM, library HMAC, base64, JSON, WebCrypto, library scrypt and the WebAssembly ROMix: foreign code, here unforgeable or abstract functions.
- Training, XGBoost, plots, statistics and trajectory generators: libraries, randomness and floating point.
- Header and user-agent tables, IP classification, input validation and the other rule lists: single-branch claims. Their signals are inputs.
- Rate limiters and analyzers under packages/core/src/modules: not part of this model.

What the models do not capture:

- Floating point: scores, times, distances and tree thresholds are real numbers; rounding errors, NaN, infinities other than the leaf thresholds, and the float32 cast of classifier.py:70 are not modelled.
- Scrypt.ScryptJs: typed arrays of 2^37 elements and more, which no engine allocates, are outside its precondition; running out of memory below the engine's limit is not modelled.
- PowProtocol.SafeExactlyWhen: the time between a server's clock check and its claim is at most 58 s. A key is free in the millisecond in which it expires, as in the in-process stores.
- FlatForest.PredictBotProba: inputs, thresholds and means are real numbers; the float32 cast and NaN features are not modelled.
- MemoryStore.MemoryStore.ClaimOnce: a call is one atomic step; thread interleavings inside the lock and the `values` table (`get`, `set`) are not modelled, the latter being a map with expiry like the claims.
- MemoryStore.HitIsExact: windows over an hour are excluded, because a key without a hit in the last hour is dropped as stale.
- RedisStore.ScriptIsRecord: scores without their distinct members.
- RedisStore.ScriptIsExact: holds for every clock that does not run backwards, one of whole milliseconds included; rounding an instant or a window to milliseconds is not modelled.
- BoundedMap.BoundedMap.InsertKey: iteration order and the `onEvict` callback are not modelled, only which keys are present and counted.
- Feeds.Collect: the texts are candidates already; see the next line.
- Feeds.IPReputation.Lookup: the order of the list names is not modelled.
- Feeds.IPReputation.RefreshFeed: the text of a list is modelled as its candidates; splitting lines and parsing addresses, the cache files and the download thread are not.
- SignatureHeader.ParseHeader: text is ASCII, timestamps of more than 4,300 digits (which current Python does not read) are read, and only the Python parser is modelled; the Node parser differs for items without a key and for number formats.
- AntiTamper.AcceptedOnce: assumes that a nonce was signed with one timestamp, as random nonces are.
- TokenProtocol.TelemetryOpensTheWay: no further signal speaks against the request, and no later step draws the same token string.
- TokenProtocol.AllowedRequestsAreBacked: in-process sessions only; with a shared session store concurrent requests are last-writer-wins. Internal errors, where `fail_open` decides, are not modelled, and request times, paths and risk history appear only through the signals.
- Sessions.SessionsAreRemembered: the lists of a session that only feed features are not modelled.
- SingleUseToken.AcceptedOnce: the claims are those of an authentic token; a token string that does not parse is rejected before this point.
- StudyDatabase.Database.Withdraw: the SQL engine is modelled as sequences of rows in row-id order; the transaction, the checkpoint and `VACUUM` are not.
- StudyDataset.WithdrawCommutes: an exported row is modelled by the stored rows it is computed from; rounding, task summaries, file formats, checksums and the manifest are not. Sessions that started at the same time stay in row-id order.
- MouseCollector.MouseCollector.GetData: velocities, accelerations, jerk, turning angles, direction changes and the tremor estimate are not modelled; `maxSamples` is not negative.
- SequentialRun.LongestSequentialRun: digits are ASCII and paths hold no line break; on a number of more than 4,300 digits current Python raises ValueError, here it is read.
- SequentialRun.ReadsEveryNumber: the same.
- GraphQl.CountIsInlined: directives, arguments and validation of the document are not modelled.
