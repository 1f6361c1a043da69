# Higress: a verified model of its hardest components

Higress is a cloud-native API gateway: an Istio control plane with its own registries, and data-plane plugins written
in C++, Rust, AssemblyScript and Go. This project models the parts of it whose correctness is least obvious from
reading one function, and proves what they keep. Each module below is one `.dfy` file; `dafny verify dfyconfig.toml`
checks them all.

**Token bucket** (`TokenBucket`). All VMs of a node share two compare-and-swap cells per rule. One host call of one VM
is one step of an interleaving machine; a schedule is any list of clock ticks, calls and steps, any of which may fail
in the host. The machine refines an atomic bucket, conserves tokens, spaces refills, and bounds the paid grants of
every run. A fail-open grant is a separate outcome: without host faults it takes at least twenty successful writes of
the token cell during that one call.

**bcrypt** (`BcryptCodec`, `Blowfish`, `BcryptKey`, `Bcrypt`). The 6-bit codec, the Feistel network over arbitrary P and
S arrays, the key loader with its sign-extension emulation and safety bit, and the key schedule that overwrites the
array it reads. Together they give the fixpoint that password verification relies on. The comment of `BF_set_key` is
confirmed: the safety measure touches only passwords holding a 0xff character, and with it a correctly loaded password
ends in the state of one loaded with the bug only if the bug does not touch their words (`NoBuggyCollision`).

**Base64** (`Base64`). The decoder accepts exactly the canonical encodings, with no, one or two padding characters.

**Stream parsers** (`EventStream`, `SseEndpoint`). Input arrives in arbitrary chunks. For the event stream, the
separators consumed are those of the whole stream if and only if no chunk boundary lengthens one (`SeparatorsSameIff`).
A caller sees events only, and there the exact condition is weaker: chunking is unobservable if and only if every
boundary that lengthens a separator has, behind the line end it adds, an odd run of line ends whose last one is CR LF
(`ChunkingUnobservableIff`, with an example in `LengthenedButUnseen`). For the endpoint search, a decided scan stays
decided except in one case (LF ends the data and CR follows). Three behaviours of the filter that its comments do not
mention are stated as lemmas. Bytes cached before the deciding chunk are dropped unless the URL is rewritten
(`CachedIsLost`). An endpoint event with an empty URL withholds the rest of the response if and only if CR does not
follow on its LF (`EmptyUrlWithholds`). And the occurrence that is rewritten is the first one in the data: it is the one
in the data line if and only if the URL does not occur earlier (`DataLineRewrittenIff`). It does occur earlier if a
message has carried the URL as its data, and it can occur in the name of the field itself (`MessageExampleRewritten`,
`FieldNameExampleRewritten`).

**Control plane** (`MemoryCache`, `ProxyPorts`, `Reconcile`, `NacosWatcher`). The cache defers deletions to a purge. Line
243 of `cache.go` looks up a proxy's name in the set of deferred *services*, so updating a proxy saves a service of that
name, and a proxy deleted and published again before the purge is lost; both are part of the model, and the exact
conditions under which hosts and proxies survive are proved for every run. Port filling assigns as many ports as it
can and is idempotent, reconciliation keeps registries, watchers and cached proxies in step through every error
return, and the Nacos watcher fetches every page with a bounded number of retries.

**Matchers** (`RuleMatcher`). Three independent matchers are proved against one meaning, "the first rule any of whose
matchers matches", and where they differ (acceptance of odd configurations, the empty host, colons in service names)
the exact condition is given.

**Signed text and rate limit** (`HmacSign`, `RateLimit`). The string to sign is canonical. Parsing it again gives the
parameters back exactly when they are free of separators (`ReparsesIff`). It does not determine them in general:
another request has the same text exactly if there are two parameters or more, or a single one with `=` in its name or
value (`SecondMapIff`, `SecondRequestIff`). The fixed window lets through exactly min(n, limit) requests, and at most
2 * limit - 1 in any interval of a window's length, a bound that is reached for every positive limit and that holds of
every run of the handler, whoever else calls it (`HandlerBound`).

`Wrappers`, `Sextets`, `Strings` and `StringOrder` hold what several components use: options, the 6-bit layout of text
encodings, Go's string functions, and the byte order of strings.

The functions that specifications share are fixed by statements of their own, so that a loop and the function it is
proved against cannot be wrong together: the refill (`TokenBucket.OutcomeMeans`, `QuietRefill`), the round function and
one block of Blowfish (`Blowfish.RoundFunction`, `KnownBlock`), the tables and bit layouts of the codecs (`TableIs`,
`GroupIsBits`), the paths of absolute URLs (`SseEndpoint.AbsoluteUrl`), the byte order of strings
(`StringOrder.LessIff`), white space by code point (`Strings.TrimSpaceMeans`), splitting (`Strings.SplitJoinIff`),
wildcards and service names (`RuleMatcher.HostMeans`, `ServiceMeans`), and the maps that lists are indexed into
(`Reconcile.ByKeyIs`).

What the code gets from outside is a parameter: host replies and faults, the clock, Redis and Nacos replies, which
watchers fail to start, the plugin configuration parser, the rendering of Envoy filters. Machine integers are written
out where they matter (64-bit wrap-around in the bucket and in Base64, 32-bit words in Blowfish, 8-bit `char`
arithmetic in percent-decoding).

## Model

| member | source | states |
|---|---|---|
| `TokenBucket.ReachableInv` | higress/plugins/wasm-cpp/extensions/key_rate_limit/bucket.cc:36-146 | In every state reachable by any schedule the bucket holds at most max_tokens, the refill time is not in the future, and every cell a VM remembers is either stale by version or the current cell |
| `TokenBucket.RefinesAtomicBucket` | higress/plugins/wasm-cpp/extensions/key_rate_limit/bucket.cc:36-146 | Every schedule, host faults included, is a run of an atomic bucket with the same visible outcomes: no token is taken twice, and no update is lost between a read and a successful compare-and-swap |
| `TokenBucket.OutcomeMeans` | higress/plugins/wasm-cpp/extensions/key_rate_limit/bucket.cc:41-144 | At every point of every schedule: a paid grant takes one token, a denial finds none, a refill whose sum does not wrap adds tokens_per_refill or what is missing to max_tokens, and every other outcome leaves the tokens alone |
| `TokenBucket.TokensConserved` | higress/plugins/wasm-cpp/extensions/key_rate_limit/bucket.cc:41-74 | After every schedule tokens = initial + effective (capped) refills - paid grants |
| `TokenBucket.StampsSpaced` | higress/plugins/wasm-cpp/extensions/key_rate_limit/bucket.cc:97-117 | Consecutive successful writes of the refill time lie at least refill_interval_nanosec apart |
| `TokenBucket.RefillsLicensed` | higress/plugins/wasm-cpp/extensions/key_rate_limit/bucket.cc:107-144 | Each refill of the bucket uses up one write of the refill time (successful, or failed with another result than CasMismatch); without host faults each successful write is refilled once or still owed |
| `TokenBucket.RefillAddsAtMost` | higress/plugins/wasm-cpp/extensions/key_rate_limit/bucket.cc:128-131 | A refill adds at most tokens_per_refill, and lowers a bucket under its cap exactly when the 64-bit sum wraps |
| `TokenBucket.QuietGet` | higress/plugins/wasm-cpp/extensions/key_rate_limit/bucket.cc:41-67 | From any state, an undisturbed getToken takes one token and returns true, or finds none and returns false |
| `TokenBucket.QuietRefill` | higress/plugins/wasm-cpp/extensions/key_rate_limit/bucket.cc:85-144 | From any state, an undisturbed refillToken fills up the bucket and sets the time if the interval has passed, and changes nothing if it has not |
| `TokenBucket.PaidAfterRefill` | higress/plugins/wasm-cpp/extensions/key_rate_limit/bucket.cc:41-144 | After a refill in any schedule, with positive limits that do not wrap, the next undisturbed request is paid for |
| `TokenBucket.FaultMeans` | higress/plugins/wasm-cpp/extensions/key_rate_limit/bucket.cc:41-144 | A failed host call changes no cell; getToken retries a load and gives in at a store, a refill is dropped but goes on after a failed write of the time |
| `TokenBucket.PaidGrantsBounded` | higress/plugins/wasm-cpp/extensions/key_rate_limit/bucket.cc:36-146 | For every schedule of any number of VMs: with k successful writes of the refill time, paid grants <= max_tokens + k * tokens_per_refill (plus one refill per failed write), and those k writes span at least k - 1 intervals |
| `TokenBucket.VersionCountsWrites` | higress/plugins/wasm-cpp/extensions/key_rate_limit/bucket.cc:41-74 | The version of the token cell counts the paid grants and refills of the run |
| `TokenBucket.FailOpenNeedsTwentyWrites` | higress/plugins/wasm-cpp/extensions/key_rate_limit/bucket.cc:41-77 | Without host faults a request passes unpaid only if twenty writes of the token cell succeeded during that very call, from the one event at which the idle VM began it and after which it has been in it ever since |
| `TokenBucket.GetTokenLoop` | higress/plugins/wasm-cpp/extensions/key_rate_limit/bucket.cc:36-77 | The retry loop returns what the VM program of the machine does against any host replies, false exactly when denied, after at most forty host calls |
| `TokenBucket.TriesTwentyLoads` | higress/plugins/wasm-cpp/extensions/key_rate_limit/bucket.cc:41-46 | If every load fails the request passes unpaid after twenty host calls |
| `TokenBucket.TriesTwentyRaces` | higress/plugins/wasm-cpp/extensions/key_rate_limit/bucket.cc:41-77 | If every race is lost it passes unpaid after forty |
| `TokenBucket.FirstLoadDecides` | higress/plugins/wasm-cpp/extensions/key_rate_limit/bucket.cc:41-73 | Else the first successful load decides: an empty cell denies, a successful store pays, a store that fails otherwise passes unpaid |
| `BcryptCodec.TablesInverse` | higress/plugins/wasm-cpp/common/crypt_blowfish.c:365-372 | BF_itoa64 and BF_atoi64 are inverse to each other on sextets and on valid characters |
| `BcryptCodec.TableIs` | higress/plugins/wasm-cpp/common/crypt_blowfish.c:365-366 | The sixty-four characters in their order |
| `BcryptCodec.GroupIsBits` | higress/plugins/wasm-cpp/common/crypt_blowfish.c:398-428 | The characters of a group are its 24 bits from the most significant one down, missing bytes counting as zero |
| `BcryptCodec.EncodeAt` | higress/plugins/wasm-cpp/common/crypt_blowfish.c:398-428 | Group k of the text encodes group k of the bytes |
| `BcryptCodec.DecodesIff` | higress/plugins/wasm-cpp/common/crypt_blowfish.c:374-396 | Text decodes if and only if all the characters it needs are there and in the alphabet |
| `BcryptCodec.DecodeEncode` | higress/plugins/wasm-cpp/common/crypt_blowfish.c:374-428 | For every size, decoding an encoding gives the bytes back |
| `BcryptCodec.EncodeDecode` | higress/plugins/wasm-cpp/common/crypt_blowfish.c:374-428 | For every size, encoding what decodes gives the text back with the spare bits of its last character cleared |
| `BcryptCodec.BFDecode` | higress/plugins/wasm-cpp/common/crypt_blowfish.c:374-396 | The loop decodes character by character, and fails exactly if a character it needs is not in the alphabet |
| `BcryptCodec.BFEncode` | higress/plugins/wasm-cpp/common/crypt_blowfish.c:398-428 | The loop writes the encoding of its bytes |
| `Blowfish.EncryptBlock` | higress/plugins/wasm-cpp/common/crypt_blowfish.c:456-496 | One block: sixteen alternating rounds and the final swap over the P and S boxes of the context |
| `Blowfish.RoundFunction` | higress/plugins/wasm-cpp/common/crypt_blowfish.c:440-454 | The round function box by box: the four bytes of x from the most significant one down pick a word of each box; the first two are added, the third is xored in, the fourth is added |
| `Blowfish.CombineExamples` | higress/plugins/wasm-cpp/common/crypt_blowfish.c:440-454 | Known answers for the order of the three operations and for wrap-around |
| `Blowfish.BlockOfEmptyBoxes` | higress/plugins/wasm-cpp/common/crypt_blowfish.c:456-496 | With empty S boxes a block is its halves exchanged, xored with the nine odd and the nine even P words |
| `Blowfish.KnownBlock` | higress/plugins/wasm-cpp/common/crypt_blowfish.c:440-496 | A known answer: with two words of the S boxes set to 1, the block (0, 0) becomes (3, 0) |
| `Blowfish.EncryptInPlace` | higress/plugins/wasm-cpp/common/crypt_blowfish.c:456-496 | The chained form writes each pair of words over the context it reads while encrypting the next |
| `Blowfish.ChainWrites` | higress/plugins/wasm-cpp/common/crypt_blowfish.c:483-493 | A chained run writes exactly the words from its start to its end and leaves the other words of the context alone |
| `Blowfish.ChainWords` | higress/plugins/wasm-cpp/common/crypt_blowfish.c:463-493 | Each pair a chained run writes is the block of the pair before it, under the words written so far and the old ones behind them |
| `Blowfish.Unwinds` | higress/plugins/wasm-cpp/common/crypt_blowfish.c:463-490 | Running the reversed P array j rounds over a finished block gives the state of the forward run j rounds before its end |
| `Blowfish.BlockIsBijection` | higress/plugins/wasm-cpp/common/crypt_blowfish.c:440-496 | For every round function and P array one block is injective, and it inverts the block with P reversed |
| `Blowfish.DecryptUndoesEncrypt` | higress/plugins/wasm-cpp/common/crypt_blowfish.c:440-496 | For every context, encrypting with the eighteen P words reversed undoes encrypting, in both orders |
| `BcryptKey.ExpandedBytes` | higress/plugins/wasm-cpp/common/crypt_blowfish.c:545-569 | Byte j of expanded word i is byte 4i + j of the key and its NUL, repeated |
| `BcryptKey.BFSetKey` | higress/plugins/wasm-cpp/common/crypt_blowfish.c:498-598 | The loader computes the expanded key for the chosen bug flag, and the initial P array with its safety bit |
| `BcryptKey.SafetyBits` | higress/plugins/wasm-cpp/common/crypt_blowfish.c:580-584 | The branch-free mask is bit 16 exactly if the flag is set, a sign extension was seen and the two expansions agree |
| `BcryptKey.AgreeIff` | higress/plugins/wasm-cpp/common/crypt_blowfish.c:547-565 | The correct and the buggy word of four characters agree exactly if every sign-extended character follows only 0xff characters |
| `BcryptKey.DeviatesIff` | higress/plugins/wasm-cpp/common/crypt_blowfish.c:545-598 | The loader deviates exactly if flag bit 1 is set, a character that is not the first of its word has its top bit set, and every such character follows only 0xff characters in its word |
| `BcryptKey.DeviatesNeedsFF` | higress/plugins/wasm-cpp/common/crypt_blowfish.c:515-518 | The safety measure affects only passwords that hold a 0xff character |
| `BcryptKey.DeviationUnreachable` | higress/plugins/wasm-cpp/common/crypt_blowfish.c:586-598 | initial[0] differs from P[0] xor expanded[0] exactly when the loader deviates, and then in bit 16 only; such a loader state equals that of no password and flags that do not deviate |
| `BcryptKey.NoBuggyCollision` | higress/plugins/wasm-cpp/common/crypt_blowfish.c:571-598 | For all passwords, one loaded correctly with the safety measure and one loaded with the bug give the same state if and only if they expand to the same words, none of which the bug touches |
| `BcryptKey.CollisionWithoutSafety` | higress/plugins/wasm-cpp/common/crypt_blowfish.c:571-578 | Without the safety measure the passwords 0xff 0xff 0xa3 (correct) and 0xa3 (buggy) give the same state; with it they do not |
| `Bcrypt.SwapReverses` | higress/plugins/wasm-cpp/common/crypt_blowfish.c:430-438 | Swapping reverses the bytes of a word |
| `Bcrypt.BFSwap` | higress/plugins/wasm-cpp/common/crypt_blowfish.c:430-438 | Swapping in place turns words in memory order into big-endian words on either byte order |
| `Bcrypt.StoreWords` | higress/plugins/wasm-cpp/common/crypt_blowfish.c:719-722 | On either byte order, the output words lie in memory most significant byte first once they are swapped |
| `Bcrypt.MemoryKeepsBytes` | higress/plugins/wasm-cpp/common/crypt_blowfish.c:430-438 | Reading a buffer as words and the words as bytes again gives the buffer, in either byte order |
| `Bcrypt.FillFromSalt` | higress/plugins/wasm-cpp/common/crypt_blowfish.c:641-660 | The salted chain over the context it overwrites equals the recursive key schedule |
| `Bcrypt.SaltFillWords` | higress/plugins/wasm-cpp/common/crypt_blowfish.c:641-660 | Each pair of the filled context is the block of the pair before it xored with the first half of the salt at even pairs and the second at odd ones |
| `Bcrypt.XorKeyWords` | higress/plugins/wasm-cpp/common/crypt_blowfish.c:665-690 | Word i of the P array is xored with word i of the key or salt, read over and over |
| `Bcrypt.PassWords` | higress/plugins/wasm-cpp/common/crypt_blowfish.c:670-695 | A pass leaves pairs each of which is the block of the one before, the first one of zeros, under the words replaced so far |
| `Bcrypt.PassesLast` | higress/plugins/wasm-cpp/common/crypt_blowfish.c:662-697 | Each of the count rounds is a key pass, then a salt pass |
| `Bcrypt.FinishedIs` | higress/plugins/wasm-cpp/common/crypt_blowfish.c:634-697 | The context the hash is encrypted under: the keyed P array and the initial S boxes, filled from the salt pair by pair, then a key pass and a salt pass for each of count rounds |
| `Bcrypt.BytesOfWords` | higress/plugins/wasm-cpp/common/crypt_blowfish.c:430-438 | Byte 4i + j of a buffer is byte j of word i from the most significant one, both for the salt and for the hash |
| `Bcrypt.HashDecrypts` | higress/plugins/wasm-cpp/common/crypt_blowfish.c:699-713 | Decrypting the six hash words 64 times under the finished context gives the magic text |
| `Bcrypt.HeaderIff` | higress/plugins/wasm-cpp/common/crypt_blowfish.c:600-632 | The accepted headers, the flags of each letter, and two to the power of the cost as the count |
| `Bcrypt.CryptIs` | higress/plugins/wasm-cpp/common/crypt_blowfish.c:618-726 | NULL exactly for a malformed header, a count under the minimum or a salt out of the alphabet; else sixty characters that begin with 28 of the setting and end with the text of the first 23 hash bytes |
| `Bcrypt.RunPasses` | higress/plugins/wasm-cpp/common/crypt_blowfish.c:662-697 | Each of the count passes mixes in the key, encrypts the whole context over itself, then does the same with the salt |
| `Bcrypt.BFCrypt` | higress/plugins/wasm-cpp/common/crypt_blowfish.c:605-726 | The output is the hash as the specification function computes it, or NULL for the same settings, on machines of either byte order: salt and output words are swapped in place and read through memory |
| `Bcrypt.OutputKeepsSalt` | higress/plugins/wasm-cpp/common/crypt_blowfish.c:715-723 | The salt field of the output, with its last character masked by 0x30, decodes to the salt of the setting |
| `Bcrypt.VerificationIsFixpoint` | higress/plugins/wasm-cpp/common/crypt_blowfish.c:605-726 | For every key and every accepted setting, hashing with the output as the setting gives the output |
| `Base64.TablesInverse` | higress/plugins/wasm-cpp/common/base64.h:53-59 | The two tables are inverse to each other on sextets and on valid characters, and = is not valid |
| `Base64.TableIs` | higress/plugins/wasm-cpp/common/base64.h:37-38 | The sixty-four characters in their order |
| `Base64.GroupIsBits` | higress/plugins/wasm-cpp/common/base64.h:104-160 | The characters of a group are its 24 bits from the most significant one down, missing bytes counting as zero |
| `Base64.EncodeAt` | higress/plugins/wasm-cpp/common/base64.h:104-160 | Group k of the text encodes group k of the bytes |
| `Base64.PaddedLength` | higress/plugins/wasm-cpp/common/base64.h:127-160 | Padding fills the text up to a multiple of four characters, with two at most |
| `Base64.PaddedExamples` | higress/plugins/wasm-cpp/common/base64.h:104-160 | Known answers: "M", "Ma" and "Man" give "TQ==", "TWE=" and "TWFu" |
| `Base64.RoundTrip` | higress/plugins/wasm-cpp/common/base64.h:104-200 | Decoding an encoding, padded or not, gives every non-empty byte string back |
| `Base64.DecodedExactly` | higress/plugins/wasm-cpp/common/base64.h:162-200 | A non-empty b is the result of decoding s exactly if s is the unpadded encoding of b followed by at most two = |
| `Base64.EncodeLoop` | higress/plugins/wasm-cpp/common/base64.h:104-160 | The encoder, carrying bits from byte to byte, writes the encoding and its padding |
| `Base64.DecodeWithoutPadding` | higress/plugins/wasm-cpp/common/base64.h:162-200 | The decoder returns the decoded bytes, or the empty string for every text that is not canonical; the position arithmetic of an all-padding text wraps around 2^64 harmlessly |
| `Base64.DecodeBase` | higress/plugins/wasm-cpp/common/base64.h:53-78 | One character that is not the last: or-ing into the last byte keeps the pushed bytes those of the started group |
| `Base64.DecodeLast` | higress/plugins/wasm-cpp/common/base64.h:80-102 | The last character is accepted exactly if it completes a group without spare bits |
| `Base64.SizeCheck` | higress/plugins/wasm-cpp/common/base64.h:177-198 | The length computed up front is the length produced, so the assertion at line 198 holds |
| `EventStream.SepIffTwoLineEnds` | higress/plugins/wasm-rust/src/event_stream.rs:100-128 | A separator starts exactly where two line-end bytes stand side by side; it is two to four bytes long and all line ends |
| `EventStream.NextIsLeftmost` | higress/plugins/wasm-rust/src/event_stream.rs:61-75 | A cut event holds no two adjacent line ends and does not end in one; its separator is all line ends |
| `EventStream.Conserved` | higress/plugins/wasm-rust/src/event_stream.rs:61-97 | Over every run of update, next and flush, what was taken, with separators, followed by the unread bytes is what was fed; each event takes at least two bytes |
| `EventStream.SepAppend` | higress/plugins/wasm-rust/src/event_stream.rs:100-128 | More data moves no separator, and lengthens one only at the very end of the buffer |
| `EventStream.DrainAppend` | higress/plugins/wasm-rust/src/event_stream.rs:61-87 | Across a stable boundary draining before and after gives the cuts and the remainder of draining once |
| `EventStream.DrainGrows` | higress/plugins/wasm-rust/src/event_stream.rs:61-87 | Across any other boundary the last separator cut before it comes out longer when the data is in one piece |
| `EventStream.SeparatorsSameIff` | higress/plugins/wasm-rust/src/event_stream.rs:61-87 | For every list of chunks, draining after each gives the cuts (events with the separators consumed) and the remainder of the whole stream if and only if no boundary lengthens the separator that ended the data before it |
| `EventStream.LineEndDroppedIff` | higress/plugins/wasm-rust/src/event_stream.rs:61-128 | Draining gives the same events and remainder with and without one leading line end if and only if an odd run of line ends whose last one is CR LF comes next |
| `EventStream.BoundaryUnseenIff` | higress/plugins/wasm-rust/src/event_stream.rs:61-87 | Feeding b after a was drained gives the events and the remainder of a + b if and only if the boundary lengthens no separator, or what follows the line end it adds is such an odd run |
| `EventStream.LengthenedButUnseen` | higress/plugins/wasm-rust/src/event_stream.rs:61-128 | Such a boundary exists: x CR LF, then LF CR LF y LF LF |
| `EventStream.ChunkingUnobservableIff` | higress/plugins/wasm-rust/src/event_stream.rs:61-87 | For every list of chunks, the events that next has returned and the bytes left are, after each chunk, those of all the data so far in one piece if and only if every boundary meets that condition |
| `EventStream.NoCarriageReturns` | higress/plugins/wasm-rust/src/event_stream.rs:61-87 | Without CR every chunking gives exactly the events of the whole stream |
| `EventStream.EventStream.Update` | higress/plugins/wasm-rust/src/event_stream.rs:80-87 | The data is appended to the unread bytes |
| `EventStream.EventStream.Next` | higress/plugins/wasm-rust/src/event_stream.rs:61-75 | The event is the leftmost cut of the unread bytes, which shrink by it and its separator |
| `EventStream.EventStream.Flush` | higress/plugins/wasm-rust/src/event_stream.rs:90-98 | The unread bytes are returned, and nothing stays unread |
| `EventStream.EventStream.Is2Eol` | higress/plugins/wasm-rust/src/event_stream.rs:110-128 | The size of the separator at an index, if there is one |
| `SseEndpoint.FindNextLineBreak` | higress/plugins/golang-filter/mcp-session/filter.go:388-418 | The two searches for CR and LF find the break of the first line, or LF followed by CR |
| `SseEndpoint.LineBreakIndex` | higress/plugins/golang-filter/mcp-session/filter.go:443-446 | The first occurrence of the line break found is where the first line ends, so the two not-found branches behind it are dead |
| `Strings.TrimSpaceMeans` | higress/plugins/golang-filter/mcp-session/filter.go:448-490 | strings.TrimSpace takes encoded Unicode spaces off both ends, and none is left at either |
| `SseEndpoint.FindEndpointUrl` | higress/plugins/golang-filter/mcp-session/filter.go:420-508 | The loop ends, and computes the scan of the data event by event |
| `SseEndpoint.UrlInDataLine` | higress/plugins/golang-filter/mcp-session/filter.go:448-490 | A URL that is found stands in the data at the offset in the data line where the scan read it |
| `SseEndpoint.UrlIsSubstring` | higress/plugins/golang-filter/mcp-session/filter.go:328-333 | So the search for it succeeds, at that offset or before it, and the not-found branch at line 332 is dead |
| `SseEndpoint.NextLineAppend` | higress/plugins/golang-filter/mcp-session/filter.go:388-418 | More data changes the first line only when its break ends the data, and then only the break |
| `SseEndpoint.ScanAppend` | higress/plugins/golang-filter/mcp-session/filter.go:420-508 | More data never undoes an error or a found endpoint, except LF at the very end followed by CR, which becomes an error |
| `SseEndpoint.UrlAtAppend` | higress/plugins/golang-filter/mcp-session/filter.go:420-508 | A URL that is still found after more data has the same offset |
| `SseEndpoint.FoundStaysIff` | higress/plugins/golang-filter/mcp-session/filter.go:420-508 | The URL found on d is found on d + e if and only if not (the data line ends d with LF and e starts with CR) |
| `SseEndpoint.EndpointIsFound` | higress/plugins/golang-filter/mcp-session/filter.go:420-468 | A well-formed endpoint event is found behind any text in which "event:" does not occur earlier, with LF, CR and CR LF as line breaks |
| `SseEndpoint.RewriteSeam` | higress/plugins/golang-filter/mcp-session/filter.go:346-386 | The rewritten URL is the match path and what followed the rewrite prefix, joined by exactly one slash whichever side brought one |
| `SseEndpoint.RewriteWhen` | higress/plugins/golang-filter/mcp-session/filter.go:346-366 | The URL is left alone if and only if rewriting is off or its path does not start with the prefix; a path that is the prefix becomes the match path |
| `SseEndpoint.AbsoluteUrl` | higress/plugins/golang-filter/mcp-session/filter.go:350-358 | The scheme and host of an absolute URL are dropped, and its path is rewritten like that path on its own, "/" if it is empty |
| `SseEndpoint.CutQueryMeans` | higress/plugins/golang-filter/mcp-session/filter.go:322-326 | The first question mark and what follows it is not part of the URL that is rewritten |
| `SseEndpoint.Filter.RewriteEndpointUrl` | higress/plugins/golang-filter/mcp-session/filter.go:346-386 | The rewritten URL, or no change when rewriting is off or the path does not start with the prefix |
| `SseEndpoint.Filter.EncodeData` | higress/plugins/golang-filter/mcp-session/filter.go:236-258 | For an SSE upstream a chunk is scanned only as long as the response is undecided; after that it passes unchanged |
| `SseEndpoint.Filter.EncodeDataFromSSEUpstream` | higress/plugins/golang-filter/mcp-session/filter.go:293-344 | The cached bytes, the flag and the buffer after each of the outcomes of a chunk |
| `SseEndpoint.HeldBack` | higress/plugins/golang-filter/mcp-session/filter.go:299-319 | As long as nothing is decided, all data is cached and nothing is passed on |
| `SseEndpoint.RewritesOnce` | higress/plugins/golang-filter/mcp-session/filter.go:328-337 | When the URL is rewritten the client receives, over the whole response, all the data with only the first occurrence of the URL replaced |
| `SseEndpoint.CachedIsLost` | higress/plugins/golang-filter/mcp-session/filter.go:307-312 | Otherwise the client receives the response without what was cached before the deciding chunk, hence all of it if and only if nothing was cached |
| `SseEndpoint.CachedIsLostExample` | higress/plugins/golang-filter/mcp-session/filter.go:313-344 | Without rewriting, of the chunks "event: endpoint" and "data: /s" the client receives the second only |
| `SseEndpoint.AgreesWithWhole` | higress/plugins/golang-filter/mcp-session/filter.go:299-337 | Rescanning as chunks arrive gives what one scan of the whole response gives, unless the deciding chunk ends in LF and CR follows |
| `SseEndpoint.EmptyUrlWithholds` | higress/plugins/golang-filter/mcp-session/filter.go:313-318 | After an endpoint event with an empty URL, for every list of chunks behind it, nothing is ever passed on if and only if CR does not follow directly on its LF |
| `SseEndpoint.EmptyEndpointWithholds` | higress/plugins/golang-filter/mcp-session/filter.go:313-318 | In particular, after the event "event: endpoint", "data: " and any chunks, nothing is passed on if and only if what comes next does not start with CR |
| `SseEndpoint.DataLineRewrittenIff` | higress/plugins/golang-filter/mcp-session/filter.go:328-337 | Over every response that is rewritten: the occurrence replaced is the one in the data line if and only if the URL, without its query, occurs nowhere before it, and then the client receives everything with that one replaced |
| `SseEndpoint.ReplacedWhere` | higress/plugins/golang-filter/mcp-session/filter.go:328-337 | On all data that is rewritten: the first occurrence is replaced, at the data line or before it, and what follows any earlier occurrence passes unchanged |
| `SseEndpoint.EarlierTextIsRewritten` | higress/plugins/golang-filter/mcp-session/filter.go:331-336 | If the URL occurs anywhere in front of the data line, the URL in the data line and all that follows it pass unchanged |
| `SseEndpoint.OtherEventSkipped` | higress/plugins/golang-filter/mcp-session/filter.go:420-508 | An event of another name with a data line and an empty line in front of an event does not change what is found |
| `SseEndpoint.MessageIsRewritten` | higress/plugins/golang-filter/mcp-session/filter.go:331-336 | For every URL: if a message with the URL as its data comes before the endpoint event, the message is what the replacement hits |
| `SseEndpoint.MessageExampleRewritten` | higress/plugins/golang-filter/mcp-session/filter.go:331-336 | "event: m", "data: /s", then an endpoint event for /s: the client receives /mcp/s in the message and /s in the endpoint |
| `SseEndpoint.FieldNameExampleRewritten` | higress/plugins/golang-filter/mcp-session/filter.go:331-386 | The endpoint event for the URL a: the client receives "d/mcp/ata: a" in place of its data line |
| `MemoryCache.DeferredAreStored` | higress/registry/memory/cache.go:197-283 | After every run the deferred sets name stored items only |
| `MemoryCache.StoredIff` | higress/registry/memory/cache.go:197-283 | After every run a host is stored exactly if it was published and no deletion since then has been purged unrenewed |
| `MemoryCache.SurvivesIff` | higress/registry/memory/cache.go:197-283 | A host survives a purge exactly if it was published and every later deletion was followed, before any purge, by an update of the service or of a proxy of that name |
| `MemoryCache.DeletedServiceStays` | higress/registry/memory/cache.go:238-248 | A service that is deleted stays stored through the purge if a proxy of its name is updated in between |
| `MemoryCache.LastOperationDecides` | higress/registry/memory/cache.go:197-283 | With no proxy of its name, a host survives a purge exactly if its last operation was an update |
| `MemoryCache.NeverAbsent` | higress/registry/memory/cache.go:197-217 | Between purges a stored host is never absent and keeps its create time |
| `MemoryCache.CreatedAt` | higress/registry/memory/cache.go:201-205 | The create time of a host is that of the update that brought it in, since when it was stored throughout |
| `MemoryCache.DataIsLast` | higress/registry/memory/cache.go:197-217 | What is stored for a host is what its last update brought |
| `MemoryCache.IncrementsConserved` | higress/registry/memory/cache.go:397-418 | Over every run, what the incremental calls handed out and what is pending are all updates, and all services found by deletions, each once and in order |
| `MemoryCache.ProxyIsLast` | higress/registry/memory/cache.go:229-248 | What is stored for a proxy is what its last update brought |
| `MemoryCache.ProxyCreatedAt` | higress/registry/memory/cache.go:229-248 | Its create time is that of the update that brought it in, and it was stored ever since |
| `MemoryCache.ProxySurvivesIff` | higress/registry/memory/cache.go:229-257 | Between two purges a proxy survives exactly if it was known and never deleted while known, however often it was published again |
| `MemoryCache.RepublishedProxyIsLost` | higress/registry/memory/cache.go:241-246 | A proxy that is updated, deleted and updated again is lost at the purge |
| `MemoryCache.Store.UpdateServiceWrapper` | higress/registry/memory/cache.go:197-217 | The service is stored with its create time kept, listed as updated and taken off the deferred set |
| `MemoryCache.Store.DeleteServiceWrapper` | higress/registry/memory/cache.go:219-227 | A stored service stays stored, is listed as deleted and awaits the purge |
| `MemoryCache.Store.UpdateProxyWrapper` | higress/registry/memory/cache.go:229-248 | The proxy is stored; its name is taken off the deferred services, not the deferred proxies |
| `MemoryCache.Store.DeleteProxyWrapper` | higress/registry/memory/cache.go:250-257 | A stored proxy stays stored and awaits the purge |
| `MemoryCache.Store.PurgeStaleItems` | higress/registry/memory/cache.go:260-283 | The loops remove exactly the deferred items and empty both sets; the result tells whether there were any |
| `MemoryCache.Store.GetIncrementalServiceWrapper` | higress/registry/memory/cache.go:397-418 | The updated and deleted lists are handed out and emptied |
| `MemoryCache.Distinct` | higress/registry/memory/cache.go:315-323 | Removing duplicates in place from a sorted array leaves its distinct elements, strictly sorted, at the front |
| `MemoryCache.Store.GetServiceByEndpoints` | higress/registry/memory/cache.go:289-327 | For every key exactly the versions that some workload at one of the endpoints serves, sorted and without duplicates |
| `MemoryCache.AnswerUnique` | higress/registry/memory/cache.go:294-327 | That answer does not depend on the order in which the cache is walked |
| `MemoryCache.AnswerExample` | higress/registry/memory/cache.go:283-330 | Seven workloads of a service: its key, and the two versions that were asked for at the endpoint asked for, each once and in ascending order |
| `MemoryCache.ItoaIs` | higress/registry/memory/cache.go:297-302 | The port text has digits only, no leading zero, and the port as its value |
| `ProxyPorts.NeedToFillProxyListenerPorts` | higress/registry/proxy/factory.go:105-115 | True exactly if some proxy has no listener port |
| `ProxyPorts.FillProxyListenerPorts` | higress/registry/proxy/factory.go:117-142 | In place: ports are filled as the specification says, nothing else changes, and the result tells whether anything did |
| `ProxyPorts.PresetsKept` | higress/registry/proxy/factory.go:117-142 | Preset ports stay; every port assigned is in [50001, 51000), preset nowhere and used once |
| `ProxyPorts.SmallestFree` | higress/registry/proxy/factory.go:117-142 | An assigned port is the smallest of the range that was neither preset nor assigned before it |
| `ProxyPorts.AssignsAllItCan` | higress/registry/proxy/factory.go:117-142 | Exactly min(proxies without a port, free ports of the range) ports are assigned |
| `ProxyPorts.FillTwice` | higress/registry/proxy/factory.go:117-142 | Filling a second time changes nothing |
| `ProxyPorts.FilledBuilds` | higress/registry/proxy/factory.go:144-150 | After filling, the guard on the listener port turns down exactly the proxies that got none, and none when there were enough free ports |
| `ProxyPorts.BuildsIff` | higress/registry/proxy/factory.go:144-162 | A wrapper is built if and only if there is an address, both ports are in range and rendering succeeds; it carries name, listener port and rendering |
| `Reconcile.Reconciler.ReconcileRegistries` | higress/registry/reconcile/reconcile.go:108-184 | On every return, with errors or not: registries and watchers have the same keys, the running watchers are exactly those in the map, none was stopped twice, unchanged registries keep their watcher, changed ones have a new one or are out because it failed |
| `Reconcile.ByKeyHas` | higress/registry/reconcile/reconcile.go:108-112 | A registry key is known exactly if an entry of the spec has it |
| `Reconcile.ByKeyIs` | higress/registry/reconcile/reconcile.go:108-112 | Such a key stands for the last entry that has it |
| `Reconcile.RegistriesIff` | higress/registry/reconcile/reconcile.go:117-184 | Key by key: what is generated, and which registries there are afterwards |
| `Reconcile.ByNameHas` | higress/registry/reconcile/reconcile.go:332-336 | A proxy name is known exactly if an entry of the spec has it |
| `Reconcile.ByNameIs` | higress/registry/reconcile/reconcile.go:332-336 | Such a name stands for the last entry that has it |
| `Reconcile.ProxiesIff` | higress/registry/reconcile/reconcile.go:338-379 | Key by key: a proxy that cannot be built stays out, or as it was |
| `Reconcile.RetriesFailedOnly` | higress/registry/reconcile/reconcile.go:118-167 | An identical next call generates exactly the watchers that failed, and stops none |
| `Reconcile.MissingFailedEveryTime` | higress/registry/reconcile/reconcile.go:118-167 | Over any number of calls with one spec, what is missing is exactly what failed every time |
| `Reconcile.Reconciler.ReconcileProxies` | higress/registry/reconcile/reconcile.go:332-379 | The record follows the spec except for proxies that cannot be built, each recorded proxy is cached as built, the others await deletion, and the handler is called exactly if the record changes |
| `Reconcile.Reconciler.Reconcile` | higress/registry/reconcile/reconcile.go:72-106 | Filling ports saves the spec and touches nothing else, and a saved spec is not saved again; every other return keeps the invariants, and after a successful one exactly the recorded proxies are cached |
| `NacosWatcher.SplitIff` | higress/registry/nacos/v2/watcher.go:425-438 | Splitting a key gives back its group and service exactly if neither holds "@@" and the group does not end in "@" |
| `NacosWatcher.Watcher.Fetch` | higress/registry/nacos/v2/watcher.go:392-421 | The paging ends: every page up to the first short one is fetched in exactly one successful call, a failed page is asked again, and at most twelve calls fail over all groups |
| `NacosWatcher.EndsAt` | higress/registry/nacos/v2/watcher.go:390-425 | The pages read of a group are those up to the first with fewer than fifty names |
| `NacosWatcher.FailuresAre` | higress/registry/nacos/v2/watcher.go:404-415 | The failures counted are the failed ones among the calls |
| `NacosWatcher.FetchedIff` | higress/registry/nacos/v2/watcher.go:390-425 | What is fetched: a key for every name on every page read of every group |
| `NacosWatcher.WantedIff` | higress/registry/nacos/v2/watcher.go:629-646 | Wanted are the keys of services that have a name, and one that does not start with consumers: |
| `NacosWatcher.Watcher.DropStale` | higress/registry/nacos/v2/watcher.go:423-432 | Exactly what was not fetched is dropped, until an unsubscription fails |
| `NacosWatcher.Watcher.SubscribeNew` | higress/registry/nacos/v2/watcher.go:433-463 | Exactly the fetched keys that pass the filter and are not watched are attempted, and those that succeed are watched |
| `NacosWatcher.Watcher.FetchAllServices` | higress/registry/nacos/v2/watcher.go:385-464 | On a nil return of a watcher that is not stopped, exactly the fetched keys that pass shouldSubscribe are watched; after failed subscriptions all of them but those; after a failed fetch nothing has changed |
| `NacosWatcher.MissingFailedInEveryRun` | higress/registry/nacos/v2/watcher.go:433-462 | Over any number of runs with the same services, what is still missing is exactly what was not watched at first and failed in every run |
| `RuleMatcher.StripPortMeans` | higress/plugins/wasm-cpp/common/http_util.cc:26-43 | What is stripped from a host is its last colon and the text behind it, free of colons and closing brackets; a host is left alone only without such an ending |
| `RuleMatcher.HostMeans` | higress/plugins/wasm-rust/src/rule_matcher.rs:251-300 | A leading star matches any host that ends so, else a trailing star any that starts so; without a star the host itself |
| `RuleMatcher.ServiceMeans` | higress/plugins/wasm-rust/src/rule_matcher.rs:302-320 | A service with a port is that name at that port, one without is that name at any port |
| `RuleMatcher.ServiceNameMeans` | higress/plugins/wasm-rust/src/rule_matcher.rs:302-320 | Of a cluster name direction, port, subset and name, the port and the name count |
| `Strings.SplitJoinIff` | higress/plugins/wasm-rust/src/rule_matcher.rs:302-304 | Splitting at a character gives the one list of parts that hold none and join to the text |
| `RuleMatcher.ParseRuleIff` | higress/plugins/wasm-rust/src/rule_matcher.rs:126-167 | An entry is a rule if and only if its plugin configuration parses and exactly one of its lists counts; which rule it is |
| `RuleMatcher.ParsedRuleMatches` | higress/plugins/wasm-rust/src/rule_matcher.rs:302-320 | What a parsed entry matches, in terms of its texts |
| `RuleMatcher.SelectMeans` | higress/plugins/wasm-rust/src/rule_matcher.rs:181-217 | The first rule that matches is selected, else the global configuration, if there is one |
| `RuleMatcher.AcceptsIff` | higress/plugins/wasm-rust/src/rule_matcher.rs:84-170 | What a fresh matcher of each kind accepts |
| `RuleMatcher.RouteAndServiceMeans` | higress/plugins/wasm-cpp/common/route_rule_matcher.h:191-222 | A C++ rule with routes and services needs both to match |
| `RuleMatcher.ParseOne` | higress/plugins/wasm-rust/src/rule_matcher.rs:126-167 | One rule: exactly one of the four matcher sets may hold anything, and it fixes the category |
| `RuleMatcher.AcceptanceDiffersIff` | higress/plugins/wasm-assemblyscript/assembly/rule_matcher.ts:127-207 | Rust and AssemblyScript accept the same configurations except the empty object the plugin rejects, an empty rule list without global configuration, and rule lists whose only fault is an entry that is no object |
| `RuleMatcher.RustMatcher.ParseRuleConfig` | higress/plugins/wasm-rust/src/rule_matcher.rs:84-170 | Accepted configurations add their rules in order; the global configuration is set as the code does |
| `RuleMatcher.RustMatcher.GetMatchConfigByArgs` | higress/plugins/wasm-rust/src/rule_matcher.rs:181-217 | The first rule any of whose matchers matches is selected, else the global configuration |
| `RuleMatcher.TsMatcher.ParseRuleConfig` | higress/plugins/wasm-assemblyscript/assembly/rule_matcher.ts:127-207 | As for Rust, except that entries that are not objects are passed over |
| `RuleMatcher.TsMatcher.GetMatchConfig` | higress/plugins/wasm-assemblyscript/assembly/rule_matcher.ts:73-125 | The same selection as Rust, although services are tried for every category; nothing for an empty host |
| `RuleMatcher.SelectWithBoth` | higress/plugins/wasm-assemblyscript/assembly/rule_matcher.ts:73-125 | If both matchers accept a configuration, they select the same exactly if the host is not empty or nothing is selected |
| `RuleMatcher.OneMatcherNeeded` | higress/plugins/wasm-assemblyscript/assembly/rule_matcher.ts:116-118 | Without the parse invariant the two would differ: a route rule that also lists the service of the request |
| `RuleMatcher.MatchersMean` | higress/plugins/wasm-rust/src/rule_matcher.rs:187-212 | On accepted rules the three ways of matching one rule come to the same, for C++ when the service name has no colons in its parts |
| `RuleMatcher.CppServiceAgreesIff` | higress/plugins/wasm-cpp/common/route_rule_matcher.h:599-618 | The C++ service match agrees with the other two on every non-empty service set if and only if neither the fqdn nor the port of the request holds a colon |
| `RuleMatcher.CppMatcher.GetMatchConfig` | higress/plugins/wasm-cpp/common/route_rule_matcher.h:159-235 | The first rule that matches decides, for nothing if it is disabled; on rules as the others accept them the same selection as theirs |
| `HmacSign.DecodeLoop` | higress/plugins/wasm-cpp/common/http_util.cc:89-114 | The loop decodes %XX with 8-bit arithmetic, only where two more characters follow |
| `HmacSign.DecodeUndoesEscape` | higress/plugins/wasm-cpp/common/http_util.cc:89-114 | Decoding undoes percent-encoding as section 2.1 of RFC 3986 defines it, whichever bytes were escaped |
| `HmacSign.NotHexExample` | higress/plugins/wasm-cpp/common/http_util.cc:89-114 | Known answers for digits that are none, and for sequences cut short |
| `HmacSign.EmplaceMap` | higress/plugins/wasm-cpp/common/http_util.cc:175-179 | emplace adds an entry exactly if its name is new |
| `HmacSign.ListOfMap` | higress/plugins/wasm-cpp/extensions/hmac_auth/plugin.cc:163-167 | A map is written out in one way only |
| `HmacSign.ParseParameters` | higress/plugins/wasm-cpp/common/http_util.cc:160-186 | The loop emplaces the parameters between & in order, so the first of a name counts |
| `HmacSign.PieceMeans` | higress/plugins/wasm-cpp/common/http_util.cc:160-186 | A piece is a name, or a name and a value at its first =; only then both are decoded |
| `HmacSign.BodyFillsIn` | higress/plugins/wasm-cpp/extensions/hmac_auth/plugin.cc:152-156 | Body parameters only fill in names that the path does not have |
| `HmacSign.GetStringToSignWithParam` | higress/plugins/wasm-cpp/extensions/hmac_auth/plugin.cc:145-169 | The text appended is the path in front of ? and all parameters in key order |
| `HmacSign.SmallerFirst` | higress/plugins/wasm-cpp/extensions/hmac_auth/plugin.cc:145-169 | Of two parameters the one with the smaller decoded name is written first, wherever it stands in the path |
| `HmacSign.TwoParamsExample` | higress/plugins/wasm-cpp/extensions/hmac_auth/plugin.cc:145-169 | "/p?b=2&a=1" is signed as "/p?a=1&b=2" |
| `StringOrder.LessIff` | higress/plugins/wasm-cpp/extensions/hmac_auth/plugin.cc:149-168 | The order: a proper prefix comes first, else the first char that differs decides |
| `HmacSign.SignedIsCanonical` | higress/plugins/wasm-cpp/extensions/hmac_auth/plugin.cc:145-169 | Any order of parameters with distinct names, in the path and in the body, gives the same text |
| `HmacSign.ReparsesIff` | higress/plugins/wasm-cpp/extensions/hmac_auth/plugin.cc:145-169 | Parsing the text again without decoding gives the parameters back if and only if no name holds & or = and no value holds & |
| `HmacSign.SignedDetermines` | higress/plugins/wasm-cpp/extensions/hmac_auth/plugin.cc:145-169 | Texts for such parameters are equal only if path and parameters are |
| `HmacSign.SentArrives` | higress/plugins/wasm-cpp/extensions/hmac_auth/plugin.cc:152-156 | Every map of byte strings is what the parameters of some request decode to, with any path |
| `HmacSign.SecondMapIff` | higress/plugins/wasm-cpp/extensions/hmac_auth/plugin.cc:145-169 | The text of a map is also that of another path or map if and only if the map has two entries or more, or a single one with = in its name or value |
| `HmacSign.SecondRequestIff` | higress/plugins/wasm-cpp/extensions/hmac_auth/plugin.cc:145-169 | Under the same condition exactly, it is the text of another request, with a different path or different decoded parameters |
| `HmacSign.SameTextExample` | higress/plugins/wasm-cpp/extensions/hmac_auth/plugin.cc:145-169 | /p?a%3Db=c and /p?a=b=c have different parameters and one text |
| `RateLimit.Handler.Eval` | higress/plugins/golang-filter/mcp-session/handler/rate_limit_handler.go:55-62 | The script starts a window on a missing key and counts down on any other, on this key only |
| `RateLimit.OpensIff` | higress/plugins/golang-filter/mcp-session/handler/rate_limit_handler.go:55-62 | A request starts a window if and only if it is the first, or the window before it is over |
| `RateLimit.Handler.HandleRatelimit` | higress/plugins/golang-filter/mcp-session/handler/rate_limit_handler.go:72-153 | A request passes exactly if its user is whitelisted, or Redis answers and its own counter is not overdrawn; it counts exactly if the script runs, also when the reply is lost or malformed |
| `RateLimit.KeysCountTheirRequests` | higress/plugins/golang-filter/mcp-session/handler/rate_limit_handler.go:72-100 | After every run of handler calls, by any users to any servers, each key is what the requests that count on it have made of it |
| `RateLimit.AnswerCounts` | higress/plugins/golang-filter/mcp-session/handler/rate_limit_handler.go:72-153 | In every run, a call that counts passes exactly if its request is let through among those on its key and the reply arrives; otherwise it is limited, or an error if there is no window or no reply |
| `RateLimit.AllowedIff` | higress/plugins/golang-filter/mcp-session/handler/rate_limit_handler.go:55-62 | The requests let through are exactly the first limit ones of each window |
| `RateLimit.WindowCount` | higress/plugins/golang-filter/mcp-session/handler/rate_limit_handler.go:55-62 | Of the first n requests of a window exactly min(n, limit) are let through |
| `RateLimit.IntervalBound` | higress/plugins/golang-filter/mcp-session/handler/rate_limit_handler.go:55-62 | Over every run, any half-open interval no longer than the window sees at most 2 * limit - 1 requests let through, and none for a limit that is not positive |
| `RateLimit.HandlerBound` | higress/plugins/golang-filter/mcp-session/handler/rate_limit_handler.go:72-153 | So in every run of the handler at most 2 * limit - 1 calls on one key are let through within one window length |
| `RateLimit.BoundIsReached` | higress/plugins/golang-filter/mcp-session/handler/rate_limit_handler.go:55-62 | For every positive limit some run reaches that bound |
| `RateLimit.SharedCounter` | higress/plugins/golang-filter/mcp-session/handler/rate_limit_handler.go:88-90 | Two callers share a counter exactly if server and user joined by a colon are the same text |

## Left out

- The 32-bit version number of proxy shared data may wrap around; the model counts versions without bound.
- `initializeTokenBucket` is the start state: its first writes are unconditional, so it races with itself and with a change of limits. refillToken's unbounded retry loop is a program of the machine, not a loop, since it need not end.
- The concrete P and S tables of Blowfish, the run-time self-test and the salt generators of `crypt_blowfish.c`. The unused part of an output buffer, and reading the setting past its NUL, are not modelled.
- BcryptCodec.BFDecode: writes its bytes to an out-sequence instead of a caller's buffer, so aliasing of source and target is not captured; the same holds for BcryptCodec.BFEncode, BcryptKey.BFSetKey and the `std::string&` parameters of Base64 and of the string to sign.
- MemoryCache.Store.UpdateServiceWrapper: stores values; a caller that changes a wrapper after handing it over is not captured. The mutex makes each method one step.
- Reconcile.Reconciler.Reconcile: the watchers' own goroutines do not run during a call, registry keys are given (path.Join is not modelled), and one clock reading serves the whole call.
- SseEndpoint.Filter.EncodeDataFromSSEUpstream: the chunk's buffer is a value in and a value out; response headers (which make the filter skip bodies that are no event stream), the other upstream types and the end-of-stream status are not modelled.
- NacosWatcher.Watcher.SubscribeNew: subscriptions run one after the other in any order, not in parallel; a page is the content of the call that succeeds for it.
- RuleMatcher.RustMatcher.GetMatchConfigByArgs: host properties that cannot be read, and text that is not valid UTF-8, count as the strings the host delivers. The C++ parser, its auth rules and `_disable_` parsing are left out; its matcher starts from parsed rules.
- RateLimit.Handler.HandleRatelimit: Redis is an abstract store with a clock that does not run backwards; its rounding of ttl is irrelevant since only the sign is read. The JSON-RPC error body is left out.
- `GetAllConfigs`, `UpdateServiceEntryEndpointWrapper`, the `GetAll*` listings and the IP index of the cache would add only easy members.
- `PercentEncoding::encode` writes no percent sign, so it has no inverse; `selectBestProvider`, the other registries, the other auth plugins, JSON, protobuf, regular expressions, digests and logging.
