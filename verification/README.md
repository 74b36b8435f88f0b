# gosh.ackinacki: a verified model of its protocols and algorithms

A Dafny model of the parts of the client that carry strong promises: the event-log
subscription, the on-chain manifest store, the order-book snapshot, the governed treasury
top-up, the QUIC connection pool, the transaction rate limiter, the block dedup filter, the
failure classification around paid submits, and the address and policy normalisers.
`dafny verify dfyconfig.toml` checks everything.

| file | what it models |
|---|---|
| `Wrappers.dfy`, `Common.dfy`, `Text.dfy`, `Numerals.dfy`, `Json.dfy` | optional values and results, minimum and maximum, ASCII text, printed and parsed numbers, JSON values |
| `EventSync.dfy`, `MessagesPage.dfy` | the subscription stream, and the page parser that feeds it |
| `Utf8.dfy`, `Manifest.dfy` | splitting a package into chunks, and writing, confirming and reading the chunks on chain |
| `Fields.dfy`, `OrderBook.dfy` | getter fields with the in-place hex-to-decimal conversion, and the order-id scan with its sorts |
| `FundBuyer.dfy`, `TopUpRuns.dfy`, `GovernedTopUp.dfy` | attributing a queued treasury transaction to the submit that created it, for one call, for all interleavings of calls, and with the limiter and policy in front and the second custodian's gate behind |
| `Pool.dfy`, `RateLimiter.dfy`, `Dedup.dfy` | three stateful components with eviction, cooldown or capacity |
| `ExitCode.dfy`, `SubmitAbort.dfy`, `GasEffect.dfy` | finding an exit code in a reply, printing and re-reading it, and watching for a paid effect |
| `Address.dfy`, `Policy.dfy` | account-id normalisers and spending policies |

Code that updates state is modelled as classes and loops (`EventStream`, `Account`,
`Treasury`, `ConnectionPool`, `TxRateLimiter`, `RecentBlockFilter`, `ChunkStr`,
`HexToDecimal`, `ScanOrders`, ...). Each is proved equal to a function of its old state or
inputs, or to a statement about them, and the results over whole runs are lemmas about those
functions. The environment is explicit: the message log grows between reads and reads fail;
chunk messages take effect in any order, any number of times or never; custodians submit and
settle transactions between reads; connections die; the clock is monotone.

What the model assumes about the outside:

- The GraphQL server follows the GraphQL Cursor Connections Specification (section 4.4 for
  the page, section 5 for `endCursor`), cursors are not empty and not shared by two messages,
  and the log is append-only.
- The manifest contract keeps a map from index to chunk and a count that is the largest index
  ever written plus one. sha256 is injective.
- Multisig transaction ids are never used again, one submit queues at most one transaction,
  and within one process reads of the queue do not go back in time.
- Text is ASCII where case folding and trimming matter. UTF-8 structure is modelled where
  chunks are cut (RFC 3629, section 4).

Where the code does not do what its documentation or a reader would expect, the model follows
the code and states exactly when the expectation holds:

- `bare_hex` strips white space only at the ends of the text, so on `0: <hex>` it differs from
  `Address::parse`. `Address.SenderAgreesIff`: they agree exactly when no white space follows
  the prefix. `bare_account_id` and `canon_dest` do not know the `0x` prefix
  (`Address.ReaderAgreesIff`). Every account id has both failing spellings
  (`Address.SpacedIsMissed`, `Address.HexPrefixedIsMissed`).
- The limiter is documented as 10 calls per minute. Its windows start at a call, so a 60 s span
  keeps to ten, whatever follows, exactly when at its beginning the wallet has no open window
  or a used-up one (`RateLimiter.AtMostTenIff`). Otherwise it can accept twenty less what the
  open window has accepted (`RateLimiter.AllowanceHolds`, `RateLimiter.AllowanceReached`), so
  at worst 19 (`RateLimiter.AtMostNineteen`, `RateLimiter.NineteenIsReached`).
- `field_u128` and `field_dec` disagree on `0x` with no digits and on a leading `+`
  (`Fields.ReadersAgreeIff`).
- An exit code survives the error text exactly when the Block Manager's own error code does
  not contain the token (`SubmitAbort.RejectedReadsIff`). Negative codes never do, nor does
  the zero code of an aborted result (`SubmitAbort.RejectedReads`,
  `SubmitAbort.AbortedReadsNothing`).
- A rejection that carries no exit code is still read for one: a message that mentions
  `exit_code=403` is explained as a contract abort (`SubmitAbort.MessageIsMistaken`). It is
  explained as an unknown failure exactly when its message and printed object do not read as
  403 or 137 (`SubmitAbort.OthersAreOther`).
- A governed top-up is checked for its budget when it is submitted and for the larger of budget
  and native value when it is released. Under one policy the release follows exactly when the
  native value is within the limit too (`GovernedTopUp.AllowedIsReleasedIff`,
  `GovernedTopUp.SmallTopUpsStrand`).
- A successful `set_manifest` is a promise about later reads exactly when every message that was
  in flight at the start leaves its chunk as the package has it (`Manifest.SetManifest`,
  `Manifest.LastsIff`). A leftover write behind the package can take effect between the count
  and the last chunk of the readback: the call succeeds and the package is never read again
  (`Manifest.TornReadback`).
- An entry of a policy list that is written with `0x` names no account by its id, and an account
  spelled with `0x` is named by no entry without it (`Policy.NamesAccountIff`,
  `Policy.PrefixedEntriesMiss`).
- A node that is left out of the list and listed again loses its cooldown, after every run
  (`Pool.RelistingForgets`).
- Cursors that are empty break exactly-once delivery on every log that has one behind a record
  (`EventSync.EmptyCursorRepeats`).

## Model

| member | source | states |
|---|---|---|
| EventSync.ExactlyOnceDelivery | src/sdk/client.rs:483-525 | over every run with a growing log and failing reads, delivered ++ buffered records are those of the log up to the cursor, in order, none lost or repeated |
| EventSync.CatchesUp | src/sdk/client.rs:491-515 | once the log stops growing and a page holds at least one message, at most as many good reads as the log is long reach its end, and with one more every record of the log has been delivered |
| EventSync.FailureMovesNothing | src/sdk/client.rs:516-520 | a failure comes out exactly when a read was made and failed, and then neither cursor nor buffer moves |
| EventSync.EventStream.Next | src/sdk/client.rs:485-524 | one call of the stream is a run of loop passes that ends with the first item |
| EventSync.RunsCompose | src/sdk/client.rs:415-469 | successive calls make one run, so the results about runs hold for a consumer's whole stream |
| EventSync.PageKeepsSync | src/sdk/client.rs:506-510 | a page takes the stream from its position to the end of the page, with the same records delivered or buffered |
| EventSync.StartAfterCursorAt | src/airegistry/getter.rs:155-172 | with cursors that are distinct and not empty, asking behind the cursor of a message starts right behind it |
| EventSync.EmptyCursorRepeats | src/airegistry/getter.rs:161-164 | on every log with an empty cursor, some page size and some served reads hand every record in front of that cursor out twice: an empty cursor is left out of the query |
| MessagesPage.ParseMessagesPage | src/airegistry/getter.rs:198-277 | the loop over edges yields the records of the page, or the first missing part as an error, as the page function does that the printed pages below are read by |
| MessagesPage.PrintedPageReads | src/airegistry/getter.rs:211-276 | of any page the server prints for messages in the shape of the query, exactly the type-2 messages whose body decodes come out, in order, each with its own event, id, times and cursor, together with the number scanned, whether there are more, and the end cursor |
| MessagesPage.ErrorsFail | src/airegistry/getter.rs:456-458 | a reply that reports errors is an error whatever else it carries, and `errors: null` changes nothing |
| MessagesPage.BrokenReplyFails | src/airegistry/getter.rs:203-265 | a null account, a connection that is missing or no object, edges that are no array and page info that is no object each fail with their own error |
| MessagesPage.ReadFailsClosed | src/airegistry/getter.rs:433-462 | a page comes out exactly when nothing needed is missing from the reply; "not found" never looks like "caught up" |
| MessagesPage.RecordsOfEntries | src/airegistry/getter.rs:223-258 | parsing edges and reading the log's entries give the same records |
| MessagesPage.HonestReplyServes | src/airegistry/getter.rs:211-276 | parsing any honest or broken server reply is a served read of the log |
| MessagesPage.RepliesDeliverOnce | src/airegistry/getter.rs:433-462 | from raw replies to the consumer: over every run of honest, lost or incomplete replies, delivered ++ buffered events are the decodable ext-out messages of the account's edges up to the cursor, each once and in order |
| MessagesPage.RepliesDeliverAll | src/sdk/client.rs:415-469 | on edges that have stopped growing, enough complete replies deliver every decodable message |
| MessagesPage.PrintedIsHonest | src/airegistry/getter.rs:155-177 | printing the right stretch of an account's messages is an honest reply, so the run results apply to every server that prints |
| MessagesPage.EventsDeliverOnce | src/sdk/client.rs:483-525 | from messages on the server to events at the consumer: delivered ++ buffered are exactly the type-2 messages that decode up to the cursor, each once and in order |
| MessagesPage.EventsDeliverAll | src/sdk/client.rs:415-469 | on messages that have stopped growing, enough complete replies deliver every type-2 message that decodes |
| Utf8.ChunkStr | src/mcp/airegistry.rs:735-750 | the nested index loops compute the pieces of the text, whenever every character fits into a piece |
| Utf8.PiecesSplitTheText | src/mcp/airegistry.rs:733-750 | for sizes of at least 4: pieces concatenate to the text, each is valid UTF-8 and not too long, all but the last are at most 3 bytes short, and their number is bounded |
| Utf8.CutProgressIff | src/mcp/airegistry.rs:738-745 | a turn of the loop makes progress exactly when the next character fits |
| Utf8.BoundarySplits | src/mcp/airegistry.rs:740-743 | cutting a valid text on a character boundary leaves two valid texts |
| Utf8.BoundaryNearby | src/mcp/airegistry.rs:740-742 | stepping back never takes more than three bytes |
| Utf8.CutsCount | src/mcp/airegistry.rs:735-750 | the number of pieces times the least piece length stays below the text length |
| Manifest.SetManifest | src/mcp/airegistry.rs:846-941 | success means the readback stitched to exactly the package; every later store then reads as the package exactly when only harmless messages were in flight at the start, in which case every chunk is in place and the readback never mismatches; failure means a failed operation, a chunk that did not show up, or a mismatch |
| Manifest.LastsIff | src/mcp/airegistry.rs:912-926 | with all pieces sent, every later store reads as the package exactly when the store is complete and every message in flight is harmless to it |
| Manifest.TornReadback | src/mcp/airegistry.rs:912-926 | for every package: a leftover write behind it can take effect during the readback, which still matches, and no later store reads as the package |
| Manifest.ApplyChunk | src/mcp/airegistry.rs:805-836 | the first read that matches what was sent is a success and nothing else is; failure means a refused post or four rounds of reads without a match; settled chunks stay settled throughout |
| Manifest.Prepare | src/mcp/airegistry.rs:862-881 | after deploying or reading the old count, only chunks below the larger of both counts can be wrong |
| Manifest.WritePieces | src/mcp/airegistry.rs:882-896 | afterwards every piece is in place, whatever repeats of earlier sends still arrive |
| Manifest.ClearTail | src/mcp/airegistry.rs:897-911 | afterwards nothing of a previous, larger package is left |
| Manifest.ReadPackage | src/mcp/airegistry.rs:948-983 | reading count and chunks while messages keep arriving returns the package whenever the store is complete and the network harmless |
| Manifest.PackageStays | src/mcp/airegistry.rs:948-974 | after success every later store still reads as the package |
| Manifest.ContentStaysIff | src/mcp/airegistry.rs:797-804 | a store reads the same for ever exactly when every message in flight leaves its chunk as it is |
| Manifest.ReachesKeeps | src/mcp/airegistry.rs:800-803 | any number of harmless messages, in any order and repeated, leaves settled chunks settled |
| Manifest.CompleteContent | src/mcp/airegistry.rs:912-918 | when all chunks are in place, chunks 0..count stitch to the concatenated pieces, however many deleted indices still count |
| Manifest.QuietReadback | src/mcp/airegistry.rs:912-926 | a readback during which the chunks stood still shows the content of the store |
| Manifest.OwnIsHarmless | src/mcp/airegistry.rs:882-911 | everything the call itself sends is harmless to its package |
| Fields.HexToDecimal | src/inference/book.rs:237-258 | the in-place digit loops print exactly the value of the hex digits, of any length, with carry at most 15 |
| Fields.TakeInValue | src/inference/book.rs:244-252 | taking in one hex digit multiplies the value of the decimal digits by sixteen and adds the digit |
| Fields.TakeInCanonical | src/inference/book.rs:239-253 | no leading zero ever appears, except for zero itself |
| Fields.ReadersAgreeIff | src/inference/book.rs:211-258 | the 128-bit reader and the decimal printer both succeed exactly on at least one digit, no sign, and a value that fits, and then agree |
| Fields.FieldsAgree | src/inference/book.rs:211-266 | whatever form a field has: where the 128-bit reader gets a number the decimal text is that number, missing only for a signed hex string |
| Fields.FieldDec | src/inference/book.rs:231-266 | the reader with its in-place loops answers as the value function the agreement is about |
| Fields.FieldIff | src/inference/book.rs:211-228 | a field is read as a number exactly when it is a JSON number of 64 bits or a text of decimal or `0x` digits, with white space around and a plus sign allowed, that stands for that number and fits into 128 bits |
| Fields.HashInDecimal | src/inference/book.rs:231-258 | a hash of any size, with any leading zeros and in either case, comes out as its decimal text |
| Fields.TextIsKept | src/inference/book.rs:231-266 | a text without `0x` is kept as it is, one with it has to be hex digits, and anything but a text or number is an error |
| Numerals.ShowHexReads | src/inference/book.rs:244-246 | a number written in hex digits of either case reads back as itself |
| Numerals.ShowNatReads | src/inference/book.rs:254-258 | a printed number reads back as itself and has no leading zero |
| OrderBook.FetchOrderBook | src/inference/book.rs:138-177 | both sides are exactly the live orders of the probed ids in price-time order; truncated exactly when the ids within the budget hold fewer than the book counts; with a right counter exactly when some live order was not probed, and complete otherwise |
| OrderBook.FetchStoredOrders | src/inference/book.rs:138-177 | over the printed getters of any set of stored orders a snapshot never fails, and its sides hold exactly the stored orders with a live note and a probed id, field by field, in price-time order |
| OrderBook.ProbeIff | src/inference/book.rs:145-162 | a probe yields an order exactly when the getter shows it: every field under its own name, the owning note of an account, the last three numbers cut to their widths |
| OrderBook.NothingIff | src/inference/book.rs:145-149 | a probe finds nothing exactly when the getter fails or shows no note, an empty one, or one that ends in 64 zeros |
| OrderBook.PrintedOrderReads | src/inference/book.rs:150-162 | every order within its widths comes back from its decimal or hex form as itself, or as nothing when its note is of no account |
| OrderBook.MissedIff | src/inference/book.rs:144-173 | a scan of fewer ids has fewer orders exactly when one of the further ids is live |
| OrderBook.ScanOrders | src/inference/book.rs:138-172 | the scan collects the live orders of ids 1..=probed, stops at the count, the last id or the budget, and fails on a live order with a broken field |
| OrderBook.EarlyStopIsComplete | src/inference/book.rs:144-144 | stopping at the counted number of finds loses nothing, whatever ids remain |
| OrderBook.TruncatedIff | src/inference/book.rs:173-173 | truncated exactly when the ids within the budget hold too few live orders |
| OrderBook.OrdersAscend | src/inference/book.rs:143-172 | probed ids ascend, so every live order is collected once |
| OrderBook.SideIsExact | src/inference/book.rs:164-168 | an order is on a side exactly when its id was probed, is live with it, and belongs there |
| OrderBook.SortedIsPriceTime | src/inference/book.rs:174-177 | a side scanned in id order is sorted by price, placement time, id, and is a permutation |
| OrderBook.PriceTimeUnique | src/inference/book.rs:174-177 | that order leaves only one arrangement, so no other stable sort could give another |
| GovernedTopUp.TopUp | src/mcp/airegistry.rs:1422-1520 | one submit is sent, and only after address, rate limit, policy, governance, snapshot and key have all passed; each refusal up to governance has its exact cause; nothing is sent to an account the policy blocks; the limiter counts the call; a returned id is the only new match |
| GovernedTopUp.AllowedIsReleasedIff | src/mcp/tools.rs:826-849 | under one policy a top-up allowed at the submit is released by the second custodian exactly when the native value sent along is within the limit too |
| GovernedTopUp.SmallTopUpsStrand | src/mcp/airegistry.rs:1434-1434 | under every limit below the native value, a budget within the limit passes at the submit and is refused at the release |
| FundBuyer.SubmitAndFind | src/mcp/airegistry.rs:1442-1520 | a returned id is new since the snapshot and the only transaction with this creator, destination account and amount; ambiguity and absence are reported only when real; errors in front of the submit leave nothing sent |
| FundBuyer.OwnTransaction | src/mcp/airegistry.rs:1484-1491 | with no other matching submit still to land after the snapshot, the returned id is this call's own transaction |
| TopUpRuns.LateRivalIsMistaken | src/mcp/airegistry.rs:1484-1520 | the condition on rivals is needed: from every reachable state, any rival submit that was not queued by a call's snapshot and has not left the queue can make the call return the rival's transaction |
| TopUpRuns.TopUpsNeverShare | src/mcp/airegistry.rs:1410-1421 | in every run, however calls, reads, submits and settlements interleave, no two calls return the same id and at most one is between lock and return |
| TopUpRuns.ReturnsItsOwn | src/mcp/airegistry.rs:1484-1520 | in every run a call returns its own transaction if every rival submit that ever lands had landed by its snapshot |
| TopUpRuns.StepKeepsInv | src/mcp/airegistry.rs:1421-1520 | every step of a call or of the chain keeps: the lock holder alone is active, and no snapshot in use is older than what a finished call has seen |
| TopUpRuns.TopUpInRun | src/mcp/airegistry.rs:1421-1520 | every call of the method, whatever it answers, extends a run of steps, so what holds of runs holds of it: no other call has returned its id |
| TopUpRuns.ReturnIsRun | src/mcp/airegistry.rs:1452-1520 | what a successful call promises is reached by lock, chain steps, snapshot, submit and the poll that finds the one match |
| FundBuyer.SerialTopUpsDiffer | src/mcp/airegistry.rs:1410-1421 | two successful calls under the lock return different ids |
| TopUpRuns.OverlappingTopUpsCollide | src/mcp/airegistry.rs:1410-1421 | the lock is needed: from every start, two calls with like submits that do not wait for each other can return the same transaction |
| FundBuyer.CandidateIff | src/mcp/airegistry.rs:1495-1507 | the filter selects exactly the transactions that can be attributed to the submit |
| FundBuyer.LandsInBetween | src/mcp/airegistry.rs:1452-1455 | a transaction missing from the snapshot and queued later landed in between |
| Pool.ConnectionPool.constructor | src/transport/pool.rs:28-37 | the pool starts filled up from the initial list |
| Pool.ConnectionPool.Fill | src/transport/pool.rs:100-125 | spawns ready nodes until the target is met or every other node is cooling down; which ones and in which order the spawn function says |
| Pool.FillTakesInOrder | src/transport/pool.rs:106-116 | a fill spawns nodes in the order in which they are listed, and a ready node that it leaves out is listed behind every one that it spawns |
| Pool.FirstReadyIsFirst | src/transport/pool.rs:110-116 | in front of the chosen node the list has only nodes that are active or cooling down |
| Pool.ConnectionPool.Update | src/transport/pool.rs:43-67 | drops removed nodes and their cooldowns, then fills up, keeping the invariant |
| Pool.ConnectionPool.Tick | src/transport/pool.rs:68-98 | reaps the dead into cooldown, each with a clock reading of its own, and fills up, keeping the invariant; exhausted exactly when there is no node |
| Pool.FillKeepsInv | src/transport/pool.rs:106-124 | active addresses stay distinct, listed and at most two, and what is spawned was neither active nor cooling down |
| Pool.RunIsGood | src/transport/pool.rs:41-76 | in every reachable state the invariant holds, the pool is filled up, and the log of spawns and deaths is proper |
| Pool.RunRespectsCooldown | src/transport/pool.rs:84-123 | over every run, an address spawned again died in between and at least 10 s earlier, unless a new list left it out |
| Pool.RemovedBetweenSpawns | src/transport/pool.rs:55-63 | two spawns of one address have its removal between them |
| Pool.DeathsAreGood | src/transport/pool.rs:84-98 | reaping one connection after the other keeps the log proper and the cooldowns exactly the latest deaths |
| Pool.RelistedSpawns | src/transport/pool.rs:64-66 | in every state, an address that one list leaves out and the next lists alone is spawned at once |
| Pool.RelistingForgets | src/transport/pool.rs:64-65 | after every run, any connection may die and, left out of a list and listed again, be spawned at any later time: the exception to the cooldown is real |
| RateLimiter.TxRateLimiter.Check | src/mcp/tools.rs:38-60 | decision and buckets as the sweep, the window and the count determine |
| RateLimiter.EvictionIsInvisible | src/mcp/tools.rs:42-43 | every decision of every run is the one the wallet's own calls alone would get with no eviction |
| RateLimiter.StoredWindowsAreYoung | src/mcp/tools.rs:42-43 | after each call every stored window is younger than two window lengths |
| RateLimiter.WindowsAreApart | src/mcp/tools.rs:49-55 | windows start at least 60 s apart and accept at most ten calls each |
| RateLimiter.AtMostTenIff | src/mcp/tools.rs:20-28 | whatever calls follow, a 60 s span keeps to the documented ten exactly when at its beginning no window of the wallet is open or the open one is used up |
| RateLimiter.AllowanceHolds | src/mcp/tools.rs:47-56 | a span accepts no more than ten calls if no window is open at its beginning, else twenty less those the open window has accepted |
| RateLimiter.AllowanceReached | src/mcp/tools.rs:47-56 | after every run some continuation reaches exactly that number |
| RateLimiter.AtMostNineteen | src/mcp/tools.rs:20-28 | no half-open 60 s span has more than 19 accepted calls of one wallet |
| RateLimiter.NineteenIsReached | src/mcp/tools.rs:20-28 | a run with 19 |
| RateLimiter.RejectedOnlyWhenFull | src/mcp/tools.rs:52-59 | a call is rejected only after ten accepted calls of its wallet within the last 60 s |
| Dedup.RecentBlockFilter.CheckAndInsert | src/decoder/dedup.rs:31-43 | true exactly when the hash is not among the last max(1, capacity) accepted ones, which set and queue both hold |
| Dedup.Filter | src/decoder/dedup.rs:31-43 | on every run the filter decides as the accepted history alone tells |
| Dedup.RepeatsAreFarApart | src/decoder/dedup.rs:12-14 | equal accepted hashes have at least max(1, capacity) others between them |
| Dedup.EveryBlockAccepted | src/decoder/dedup.rs:12-14 | every hash of a run is accepted at least once |
| ExitCode.ExtractsFirst | src/wallet/query.rs:150-174 | the search finds the first code in document order, at any depth |
| ExitCode.ExtractsNoneIff | src/wallet/query.rs:146-149 | nothing is found exactly when no object at any depth has an exit-code entry with an integer value |
| ExitCode.EntryCodeIff | src/wallet/query.rs:154-164 | an entry carries a code exactly when its key mentions "exit" and "code" in any case and its value is a 64-bit integer or a text that is one |
| SubmitAbort.RejectedIff | src/wallet/query.rs:89-143 | a reply is rejected exactly when it has an error that is not null, a result with a 64-bit exit code other than 0, or a result that is aborted |
| SubmitAbort.AcknowledgementPasses | src/wallet/query.rs:116-143 | a queue-only acknowledgement passes, and an executed message exactly with code 0 or none and not aborted |
| SubmitAbort.ResultIsExplained | src/wallet/query.rs:122-128 | a nonzero exit code of a result is rejected and, if positive, read back and explained as 403 or 137 exactly for those |
| SubmitAbort.RejectionReads | src/wallet/query.rs:89-143 | for every rejected reply, what is read back from the error text: the printed code, or nothing, or what an odd error code or the free text of a codeless rejection looks like |
| SubmitAbort.ExplainedByCode | src/private_note/onboard.rs:295-310 | every reply with a code is rejected, and if the code is not negative, it reads back and the 403 and 137 explanations are given exactly for those codes |
| SubmitAbort.OthersAreOther | src/private_note/onboard.rs:295-310 | a rejected reply with a negative code or none is explained as neither of the two exactly when it is not a codeless error object whose free text reads as one of them |
| SubmitAbort.CodelessReads | src/wallet/query.rs:105-110 | without a printed code, what is read is what the message and the printed object look like |
| SubmitAbort.MessageIsMistaken | src/private_note/onboard.rs:259-263 | a reply without any code whose message says `exit_code=n` is read as n, and as 403 or 137 if n is that |
| ExitCode.CodesFit | src/wallet/query.rs:150-174 | every code found fits into 64 bits |
| SubmitAbort.RejectedReads | src/wallet/query.rs:105-110 | the code printed into a rejection reads back as itself, a negative one not at all |
| SubmitAbort.RejectedReadsIff | src/private_note/onboard.rs:259-263 | every code reads back exactly when the reply's error code does not contain the token |
| SubmitAbort.NonzeroReads | src/wallet/query.rs:122-128 | the same for the code of an executed result |
| SubmitAbort.AbortedReadsNothing | src/wallet/query.rs:138-142 | an aborted result without a nonzero code reads as no code |
| SubmitAbort.ParsedBehindToken | src/private_note/onboard.rs:259-263 | cutting the text at the next token makes no difference to what is read |
| SubmitAbort.ReadCodeIff | src/private_note/onboard.rs:259-263 | a code is read exactly when the text starts, behind white space, with a whole run of digits that fits into 64 bits |
| GasEffect.ObserveShellEffect | src/private_note/onboard.rs:354-379 | funded exactly when some read reached the deposit, else confirmed short exactly when the last read succeeded, else unobserved |
| Address.CanonIdempotent | src/wallet/policy.rs:39-46 | the canonical form is its own canonical form |
| Address.CanonIsBareId | src/wallet/policy.rs:34-46 | where an account id can be read off, it is the canonical form |
| Address.ParseDisplayRoundTrip | src/sdk/types.rs:38-66 | parsing what is printed gives the address back, and parsed addresses are in stored form |
| Address.ParseIff | src/sdk/types.rs:38-51 | the parser accepts exactly 64 hex digits of either case behind `0:`, `0x` or neither, with white space around the whole and behind the prefix, and yields them in lower case |
| Address.EitherCaseParses | src/sdk/types.rs:38-51 | every account id written in upper-case hex is accepted as the one written in lower case |
| Address.ReaderAgreesIff | src/airegistry/getter.rs:73-86 | on accepted addresses the reader and the canonical form agree with the parser exactly without a 0x prefix |
| Address.SenderAgreesIff | src/wallet/query.rs:19-25 | on accepted addresses the sender's bare form agrees exactly when no white space follows the prefix |
| Address.HexPrefixedIsMissed | src/airegistry/getter.rs:73-86 | every account id written with `0x` is accepted by the parser and missed by the reader and the canonical form |
| Address.SpacedIsMissed | src/wallet/query.rs:19-25 | every account id written behind `0: ` is accepted by the parser and missed by the sender |
| Policy.SpellingDoesNotMatter | src/wallet/policy.rs:50-90 | respelling the destination or list entries within one canonical form changes neither verdict nor reason |
| Policy.NamesAccountIff | src/wallet/policy.rs:34-46 | among addresses the parser accepts, a list names an account exactly through its entries without `0x`, and a destination with `0x` only through entries with it |
| Policy.PrefixedEntriesMiss | src/wallet/policy.rs:69-90 | for every account id: a blocked `0x` entry blocks nothing, an allowed one allows nothing, and a blocked id does not block its `0x` spelling |
| Address.SameCanonIff | src/wallet/policy.rs:34-46 | accepted addresses share a canonical form only as the same account with the same use of `0x`, and always do without it |
| Policy.AllowedStaysAllowed | src/wallet/policy.rs:55-90 | a smaller amount, fewer blocked or more allowed accounts never turn allow into reject |
| Policy.ReleasedIffPolicyAllows | src/mcp/tools.rs:808-849 | a transaction is released exactly when the call is within the rate, the lookup succeeds and, under a policy, the queue can be read and the first transaction of the id is allowed for both its native value and its SHELL |
| Policy.VerdictByAccount | src/wallet/policy.rs:55-90 | in terms of accounts: a blocked account, a frozen wallet and an amount above the limit are refused; over readable lists a payment is allowed exactly when it is none of these and the allow-list is empty or lists the account |
| Policy.BlockedIsNotReleased | src/mcp/tools.rs:826-849 | no transaction to a blocked account is released, however queue or policy spell it |
| Policy.FindTxIff | src/mcp/airegistry.rs:475-479 | the lookup yields the first transaction of the id, and none exactly when there is none |
| Policy.CheckedForBoth | src/mcp/airegistry.rs:475-479 | checking the larger amount under the canonical destination is checking both amounts under the queue's spelling |

## Left out

- Liveness of polling loops: deadlines are modelled as a finite number of polls. A loop that gives up promises what its error says: for a chunk, that four rounds of reads had no match.
- EventSync.EventStream.Next: the two subscription functions share one model; a decoder that fails to load counts as a failed read.
- GovernedTopUp.TopUp: one call that holds the treasury's lock; the lock and the interleaving of calls are in `TopUpRuns`, which covers one treasury of one process. What the policy lookup, the governance read and the key store answer are parameters.
- RateLimiter.TxRateLimiter.Check: calls are taken in the order of their clock readings; the code reads the clock just before it takes the mutex.
- Parsing `getTransactions` output and policy facts out of JSON envelopes (`read_transactions`, `find_facts`, `parse_policy_from_memory`): the model starts from the parsed values.
- `OrderBook`: sorting in place is a library call; the model sorts values. Counters are unbounded, while `deadline`, `flags` and `placed_at` are cut to their integer widths.
- `Manifest`: chunk indices are unbounded, not 32-bit. Reads show the current state of the account, never a stale one.
- `MintGuard`, `dedup_addrs`, `random_secret_key`, voucher amounts, `resolve_dapp_id`: short enough that a model would only repeat them.
- HTTP, GraphQL, QUIC and MCP transport, signing, encryption, TVM encoding and getter execution.
- Unicode case folding and white space.
