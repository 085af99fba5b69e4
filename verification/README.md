# Antigravity: a verified model of its protocols and stores

This project models the parts of the repository that keep state across steps, or that write a format which
something else reads back, and proves what they keep.

- **Tokens in the editor's state blob** (`ProtobufWire`, `ProtobufRecords`, `ProtobufPrinting`, `TokenBlob`): the
  Protocol Buffers encoding of `utils/protobuf.rs` (Encoding specification, "Base 128 Varints" and "Message Structure"),
  on bit-vectors, with the program's own loops. A declarative parse into records says what a message is; the scanners
  are proved to skip, remove and find on it, with every error case, and to agree with an independent printer. On top
  stand the injection into, and the extraction from, the stored row.
- **Remote command lines** (`ShellQuoting`): quoting, against a reader that follows POSIX.1-2017, Shell Command
  Language, sections 2.2.1, 2.2.2, 2.3, 2.4, 2.6.7 and 2.10.2.
- **The account store** (`AccountModel`, `AccountIndex`, `AccountDisk`, `AccountRecovery`, `AccountContents`,
  `AccountStore`, `QuotaProtection`, `TornFiles`, `AccountRuns`): the index as a value with its invariant; each operation
  as a plan of single writes, renames and removals; what it leaves in the index and the files, field by field; a class
  whose methods are proved to take exactly those steps, up to the first file operation that fails; crash safety, repair
  and batch deletion on every prefix of a plan; interleaved saves that share a temporary file; and whole runs with
  failures, crashes, unlocked saves and unlocked listings.
- **Two persistence backends** (`QuotaFetch`): whole-record JSON writes against single-column repository updates.
- **Last-writer-wins sync** (`LwwLattice`, `MappingSync`, `ProxySync`): merging as a lattice, the server's inline loop,
  the bounded proxy merge, and what replicas agree on.
- **Concurrency and schedules** (`RequestGuard`, `WarmupScheduler`, `ProxyRotation`): the request guard as a state
  machine over single atomic accesses, warmup cooldowns over whole runs, fair rotation and least-used assignment.
- **Loops with a meaning** (`ResetTime`, `ConfigCache`): the reset-time parser, the configuration's migration and cache.

Services, clocks, randomness, hashing, JSON text, base64, UTF-8 validity, URL parsing and model-name normalisation are
parameters: an uninterpreted function, an outcome, or a value the caller passes.

Where the source promises more than its code does:

- `list_accounts` saves its repair without the index lock (storage.rs:47-90), so operations fall between its load, its
  reads and its save. `RunKeepsConsistent` and `SaveConsistentIff` say exactly when that leaves an entry without its file,
  `SaveHarmlessIff` and `UnlockedRepairLosesAdd` exactly when it changes what is listed, `DeletionsInsideListing` and
  `AddInsideListing` give such runs. It also writes the same temporary file as the locked saves: `IndexTornIff` says
  exactly which interleavings damage the index.
- Account files are saved without that lock too (fetch.rs:290, 323, 370 and 398, verification.rs:24, switch.rs:32 and
  82, state/proxy_sync.rs:147), through one temporary file for each account. `AccountTornIff` says exactly which
  interleavings tear an account's file, `StepConsistentIff` when that matters, `TornAccountIsDropped` how the account is
  then lost; a save around a deletion brings the file back (`DeletedFileReturns`). `RunRecovers` shows that an
  undisturbed listing makes the store consistent again after any run.
- `delete_accounts` removes files before it saves the index (crud.rs:144-161); `FailedBatchIff` says when a failing save
  leaves entries without their files, `BatchMayFailIff` for which ids it can.
- `reorder_accounts` duplicates an entry that is asked for twice (crud.rs:172-177), and `set_current_account_id` takes
  any id (current.rs:21-26). `ReorderMeaning` and `SetCurrentValid` give the exact conditions under which the index
  stays valid.
- `delete_accounts` removes the files of unlisted ids too; single deletions do not (`BatchVersusEach`).
- The inline mapping merge looks only at timestamps (config_sync.rs:57-64, 93-101), while the entry type has a total
  order and tombstones; `InlineIsLibrary` says exactly when that is the same. Timestamps start empty
  (state/mod.rs:114), so keys from the configuration are unstamped: `RoundConverges` and `ExchangeConverges` say exactly
  when two servers end with one mapping. A key only the puller has does not propagate (`FreshKeyStaysHome`), differing
  keys swap in an exchange (`UnstampedSwaps`), ties stay (`TieStays`), deletions arrive as mappings to the empty name
  (`TombstoneRevived`), and the timestamp that a hot reload leaves behind (accessors.rs:139) keeps a dropped key out
  (`ReloadRefusesPeer`).
- A full map of proxy assignments evicts (proxy_assignment.rs:100-107) and so forgets a timestamp it had seen.
  `KeptIff` gives the exact condition on what is held and offered, `RunsHoldBest` lifts it to runs, `EvictionForgets` is
  such a run.
- `try_new` looks its counter up again after inserting it (active_request_guard.rs:32-34), and the cleanup task removes
  zero counters (token_manager/mod.rs:173): `LookupFailsIff` says exactly when an attempt is refused for that.
- Round robin takes the wrapping counter modulo the pool size (proxy_pool.rs:258-260); `OneRoundIff` and `FairIff` say
  for which counters and sizes that is fair.
- After a 401 the JSON backend writes the caller's account again (fetch.rs:188), so what the first attempt stored can be
  lost; `BackendsAgreeIff` gives the exact condition.
- A first argument such as `NAME=value` or `if` stays unquoted (main.rs:24-35) and is not run as a command;
  `CommandReceived` shows that these are the only such cases.
- The comment in modules/proxy_pool.rs:68 says ties are broken by pool order; the code minimises over a hash map, so the
  model leaves the choice among ties open.
- The check of the skipped-to offset at protobuf.rs:107 can never fail, by the contract of `SkipField`.

## Model

| member | source | states |
|---|---|---|
| `ProtobufWire.EncodeVarint` | crates/antigravity-core/src/utils/protobuf.rs:16-24 | the pushing loop produces the 7-bit groups of the word, least significant first, every one but the last marked |
| `ProtobufWire.VarintSize` | crates/antigravity-core/src/utils/protobuf.rs:16-24 | one to ten bytes for every u64 |
| `ProtobufWire.VarintShape` | crates/antigravity-core/src/utils/protobuf.rs:16-24 | only the last byte of an encoding has its continuation bit clear |
| `ProtobufWire.ReadVarint` | crates/antigravity-core/src/utils/protobuf.rs:27-49 | the accumulating loop computes the meaning of the bytes from the offset on, moves strictly forward, stays inside the buffer and fails with the right error |
| `ProtobufWire.VarintAt` | crates/antigravity-core/src/utils/protobuf.rs:27-49 | bounds of a successful read, and the two errors a read can have |
| `ProtobufWire.VarintAtMeaning` | crates/antigravity-core/src/utils/protobuf.rs:27-49 | a read succeeds with size n exactly when the first n bytes are a varint; when exactly each of the two errors occurs |
| `ProtobufWire.VarintValueSnoc` | crates/antigravity-core/src/utils/protobuf.rs:32-46 | one more group shifted past the earlier ones is one step of the loop |
| `ProtobufWire.VarintAtStable` | crates/antigravity-core/src/utils/protobuf.rs:27-49 | bytes after a varint do not change its reading |
| `ProtobufWire.VarintValueOfVarint` | crates/antigravity-core/src/utils/protobuf.rs:16-49 | the value of an encoding is the encoded word, bit for bit |
| `ProtobufWire.VarintRoundTrip` | crates/antigravity-core/src/utils/protobuf.rs:16-49 | reading undoes encoding for every u64 and every suffix |
| `ProtobufWire.ReadAfterPrefix` | crates/antigravity-core/src/utils/protobuf.rs:16-49 | the same behind every prefix, with the exact end offset |
| `ProtobufWire.LengthCastRoundTrip` | crates/antigravity-core/src/utils/protobuf.rs:69-70 | every buffer length survives the cast to u64 and back |
| `ProtobufWire.VarintExamples` | crates/antigravity-core/src/utils/protobuf.rs:16-49 | the specification's examples: 1 is the byte 01, 150 the bytes 96 01, and these read as 150 |
| `ProtobufRecords.SkipField` | crates/antigravity-core/src/utils/protobuf.rs:52-88 | skipping lands just past the payload that `BodyAt` describes, strictly forward and inside the buffer, or gives that payload's error; which payloads those are, `ValueReadsBack` and `ShortValueFails` say |
| `ProtobufRecords.BodyAt` | crates/antigravity-core/src/utils/protobuf.rs:52-88 | a payload lies within its size and its size within the remaining bytes |
| `ProtobufRecords.BodyAtLocal` | crates/antigravity-core/src/utils/protobuf.rs:52-88 | a payload is determined by its own bytes, whatever precedes and follows |
| `ProtobufRecords.RecordAtLocal` | crates/antigravity-core/src/utils/protobuf.rs:95-113 | so is a whole record |
| `ProtobufRecords.ParseSplits` | crates/antigravity-core/src/utils/protobuf.rs:91-116 | a parse splits its input: the raw bytes of the records concatenate to it, each record well formed |
| `ProtobufRecords.ParseOfRaws` | crates/antigravity-core/src/utils/protobuf.rs:91-116 | printing any well-formed records and parsing gives the same records |
| `ProtobufRecords.RemoveField` | crates/antigravity-core/src/utils/protobuf.rs:91-116 | succeeds exactly when the data parses to the end, and then prints the records of other fields in order; otherwise the first parse error |
| `ProtobufRecords.WithoutKeeps` | crates/antigravity-core/src/utils/protobuf.rs:101-112 | filtering records is idempotent, keeps them well formed, hides the field and no other |
| `ProtobufRecords.RemovalMeaning` | crates/antigravity-core/src/utils/protobuf.rs:91-146 | the output parses to exactly the other records; removing again changes nothing; the field is then not found and every other field is found as before |
| `ProtobufRecords.FindField` | crates/antigravity-core/src/utils/protobuf.rs:119-146 | the scanning loop computes the first length-delimited match or the error met before it |
| `ProtobufRecords.FindMeaning` | crates/antigravity-core/src/utils/protobuf.rs:119-146 | a value is returned exactly when a parsed prefix without a match is followed by a matching record with that payload, whatever comes after |
| `ProtobufRecords.FindNothing` | crates/antigravity-core/src/utils/protobuf.rs:119-146 | nothing is returned exactly when the whole message parses and no record matches |
| `ProtobufRecords.FindOnParsed` | crates/antigravity-core/src/utils/protobuf.rs:119-146 | on a message that parses, the scan is a lookup of the first match |
| `ProtobufRecords.FindMatch` | crates/antigravity-core/src/utils/protobuf.rs:128-139 | the payload in place, and which error a bad length gives: overflow or truncated |
| `ProtobufRecords.LengthDelimitedRecord` | crates/antigravity-core/src/utils/protobuf.rs:160-165 | tag, length and bytes read back as one record with that payload |
| `ProtobufPrinting.TagReadsBack` | crates/antigravity-core/src/utils/protobuf.rs:97-99 | every 32-bit field number and every wire type read back from a tag; bits above 35 are dropped |
| `ProtobufPrinting.ValueReadsBack` | crates/antigravity-core/src/utils/protobuf.rs:52-88 | a varint, any 8 bytes of wire type 1, any 4 of wire type 5 and any length-delimited content are skipped exactly, whatever follows |
| `ProtobufPrinting.ShortValueFails` | crates/antigravity-core/src/utils/protobuf.rs:52-88 | fewer bytes than the wire type needs give its own error; any other wire type is unknown |
| `ProtobufPrinting.FieldReadsBack` | crates/antigravity-core/src/utils/protobuf.rs:95-113 | a field printed by an independent printer reads back as its number, wire type and payload, with its exact end |
| `ProtobufPrinting.MessageReadsBack` | crates/antigravity-core/src/utils/protobuf.rs:91-116 | so does a message of any printed fields |
| `ProtobufPrinting.RemovePrinted` | crates/antigravity-core/src/utils/protobuf.rs:91-116 | removing a field number from a printed message prints the other fields, in order |
| `ProtobufPrinting.FindPrinted` | crates/antigravity-core/src/utils/protobuf.rs:119-146 | finding a number in a printed message yields the content of its first length-delimited field, or nothing when there is none |
| `TokenBlob.CreateOauthField` | crates/antigravity-core/src/utils/protobuf.rs:157-213 | the built bytes are the nested message of four length-delimited fields, wrapped as field 6 |
| `TokenBlob.OauthMessageReadsBack` | crates/antigravity-core/src/utils/protobuf.rs:157-204 | the message parses to its four records; each field reads back, and the nested timestamp holds the expiry |
| `TokenBlob.TimestampReadsBack` | crates/antigravity-core/src/utils/protobuf.rs:188-193 | the timestamp is one varint record whose value is the expiry's 64 bits, negative ones included |
| `TokenBlob.InjectedRecords` | crates/antigravity-core/src/modules/vscode.rs:89-97 | the injected blob parses to the other records in order and one token record |
| `TokenBlob.InjectThenExtract` | crates/antigravity-core/src/modules/vscode.rs:89-97 | injection succeeds exactly on blobs that parse; extraction then returns the refresh token; every other field reads as before; a second injection gives what it alone would have given |
| `TokenBlob.OauthFieldIsPrinted` | crates/antigravity-core/src/utils/protobuf.rs:157-213 | the built bytes are field 6 around field 1 (access token), field 2 ("Bearer"), field 3 (refresh token) and field 4 around field 1 (the expiry as a varint), as an independent printer prints them |
| `TokenBlob.InjectPrinted` | crates/antigravity-core/src/modules/vscode.rs:89-97 | injecting into any printed message prints its fields other than 6, in order, and then the token field |
| `TokenBlob.ExtractPrinted` | crates/antigravity-core/src/modules/token_extraction.rs:19-41 | extracting from a printed message yields the first length-delimited field 3 of its first length-delimited field 6 |
| `TokenBlob.StateDb.InjectToken` | crates/antigravity-core/src/modules/vscode.rs:66-115 | when it succeeds, the whole new table; a failing marker leaves the new token behind, any other failure leaves the table alone |
| `TokenBlob.StateDb.ExtractRefreshToken` | crates/antigravity-core/src/modules/token_extraction.rs:6-41 | field 6, then field 3, with one error for each way to fail |
| `TokenBlob.InjectAndReadBack` | crates/antigravity-core/src/modules/vscode.rs:66-115 | a refresh token injected into a stored row is extracted from it again, even when only the marker failed |
| `ShellQuoting.EscapedArgument` | antigravity-vps-cli/src/main.rs:19-38 | one quoted argument is read as one field, the argument itself, whatever follows |
| `ShellQuoting.QuotedRun` | antigravity-vps-cli/src/main.rs:36-37 | inside quotes every character reads as itself, single quotes included |
| `ShellQuoting.CommandLineRoundTrip` | antigravity-vps-cli/src/main.rs:98 | splitting and quote removal give back the argument vector, for every vector |
| `ShellQuoting.CommandLineInjective` | antigravity-vps-cli/src/main.rs:98 | no two argument vectors share a command line |
| `ShellQuoting.FirstWordStaysBare` | antigravity-vps-cli/src/main.rs:24-35 | a quoted word is an assignment word, or a reserved word, exactly when it is a bare one that was one before |
| `ShellQuoting.CommandReceived` | antigravity-vps-cli/src/main.rs:98 | the shell runs exactly the argument vector if and only if the vector is empty or does not start with a bare assignment word or a bare reserved word; otherwise it runs fewer arguments or none |
| `ShellQuoting.MisreadAlone` | antigravity-vps-cli/src/main.rs:24-35 | one such argument alone sets a variable and runs nothing, or opens a compound command |
| `ShellQuoting.MisreadExamples` | antigravity-vps-cli/src/main.rs:24-35 | `A=b` and `if` are such arguments |
| `AccountIndex.RetainMeaning` | crates/antigravity-core/src/modules/account/crud.rs:115 | retaining keeps exactly the chosen entries and keeps ids and emails distinct |
| `AccountIndex.DeleteOneValid` | crates/antigravity-core/src/modules/account/crud.rs:114-123 | a single deletion keeps the index valid and unlists the id |
| `AccountIndex.DeleteEachMeaning` | crates/antigravity-core/src/modules/account/crud.rs:110-136 | deleting one by one drops all the ids; a deleted current becomes the first survivor of the final list |
| `AccountIndex.BatchIsEach` | crates/antigravity-core/src/modules/account/crud.rs:139-162 | the batch gives the same index and current id as one-by-one deletion, for every id list |
| `AccountIndex.ReorderMembers` | crates/antigravity-core/src/modules/account/crud.rs:165-185 | reordering neither invents nor loses an entry |
| `AccountIndex.RequestedOrder` | crates/antigravity-core/src/modules/account/crud.rs:172-177 | the requested entries come first, in the requested order, unknown ids skipped |
| `AccountIndex.ReorderMeaning` | crates/antigravity-core/src/modules/account/crud.rs:165-185 | the result is a permutation, and the index still valid, exactly when no listed id is requested twice |
| `AccountIndex.ReorderDuplicates` | crates/antigravity-core/src/modules/account/crud.rs:172-177 | one account requested twice is listed twice, and the index no longer valid |
| `AccountIndex.RepairIsBatch` | crates/antigravity-core/src/modules/account/storage.rs:74-80 | auto-repair is a batch deletion of the invalid ids and keeps the index valid |
| `AccountIndex.AppendValid` | crates/antigravity-core/src/modules/account/crud.rs:32-42 | appending a new id and email keeps the index valid, current id included |
| `AccountIndex.FindEmailMeaning` | crates/antigravity-core/src/modules/account/crud.rs:57-58 | an entry is found exactly when the email is listed, and it is that email's |
| `AccountIndex.RenameValid` | crates/antigravity-core/src/modules/account/crud.rs:79-82 | renaming an entry keeps the index valid |
| `AccountIndex.SetCurrentValid` | crates/antigravity-core/src/modules/account/current.rs:21-26 | the index stays valid exactly when the new current id is listed |
| `AccountIndex.SetCurrentUnlisted` | crates/antigravity-core/src/modules/account/current.rs:21-26 | an index of one account and any other id: no longer valid |
| `AccountContents.RenameMeaning` | crates/antigravity-core/src/modules/account/crud.rs:79-82 | the entry of the id takes the name, and no other entry changes |
| `AccountContents.RetainInOrder` | crates/antigravity-core/src/modules/account/crud.rs:115 | the entries that are kept stay in their order |
| `AccountContents.AddReads` | crates/antigravity-core/src/modules/account/crud.rs:14-46 | a successful addition leaves one new record, field by field as `Account::new` makes it with the given email, token and name, and its entry at the end of the index; no other file or entry changes |
| `AccountContents.UpsertReads` | crates/antigravity-core/src/modules/account/crud.rs:57-103 | a successful upsert of a listed email leaves the given token and name and the time in the entry's record; a readable old record keeps id, email, creation, quota, proxy and protection, and is disabled exactly when it was and both credentials are the old ones; any other is made anew; the entry is renamed, and nothing else changes |
| `AccountContents.DeleteReads` | crates/antigravity-core/src/modules/account/crud.rs:110-136 | a successful deletion takes just the entry and the file; a deleted current gives way to the first entry left; an unlisted id is an error |
| `AccountContents.DeleteManyReads` | crates/antigravity-core/src/modules/account/crud.rs:139-162 | a successful batch takes the entries of its ids and the files of those that can be removed, keeps the others in order, and settles the current id once |
| `AccountContents.ReorderReads` | crates/antigravity-core/src/modules/account/crud.rs:165-190 | a successful reordering puts the requested entries first, in the requested order, and then exactly the others, in their old order |
| `AccountContents.SetCurrentReads` | crates/antigravity-core/src/modules/account/current.rs:21-26 | a successful choice sets the current id and nothing else |
| `AccountContents.ListedMeaning` | crates/antigravity-core/src/modules/account/storage.rs:53-66 | a listing returns the accounts of exactly the readable files, in the order of the index |
| `AccountContents.ListReads` | crates/antigravity-core/src/modules/account/storage.rs:47-90 | a listing leaves the files alone, and the index either alone or with exactly the entries, in order, whose file is neither gone nor corrupt |
| `AccountDisk.SaveAccountPrefix` | crates/antigravity-core/src/modules/account/storage.rs:27-44 | after any prefix of the save the account file is wholly old or wholly new, and the index untouched |
| `AccountDisk.SaveIndexPrefix` | crates/antigravity-core/src/modules/account/index.rs:35-47 | after any prefix of the save the index is wholly old or wholly new, and the account files untouched |
| `AccountDisk.TriedStops` | crates/antigravity-core/src/modules/account/storage.rs:33-43 | an operation with failing file operations stops at the first of them, fails exactly when there is one, and at most drops its temporary account file |
| `AccountContents.SaveAccountLeaves` | crates/antigravity-core/src/modules/account/storage.rs:27-44 | a failing save leaves the account file, drops the temporary one unless it cannot be removed, and tells a failing write from a failing rename |
| `AccountContents.SaveIndexLeaves` | crates/antigravity-core/src/modules/account/index.rs:35-47 | a failing save leaves the index, and in the temporary file what it wrote |
| `AccountRecovery.AddCrashSafe` | crates/antigravity-core/src/modules/account/crud.rs:14-46 | at every crash point the index is whole and valid and no entry loses its file |
| `AccountRecovery.UpsertCrashSafe` | crates/antigravity-core/src/modules/account/crud.rs:49-103 | the same for an upsert, recreated files included |
| `AccountRecovery.DeleteCrashSafe` | crates/antigravity-core/src/modules/account/crud.rs:110-136 | the same for a deletion: the index is saved before the file goes |
| `AccountRecovery.ReorderCrashSafe` | crates/antigravity-core/src/modules/account/crud.rs:165-190 | the same for a reordering without listed repeats |
| `AccountRecovery.SetCurrentCrashSafe` | crates/antigravity-core/src/modules/account/current.rs:21-26 | the same for choosing a listed current account |
| `AccountRecovery.RepairDropsExactly` | crates/antigravity-core/src/modules/account/storage.rs:53-80 | repair keeps, in order, exactly the entries whose file is neither gone nor corrupt, and the current id unless its own entry went |
| `AccountRecovery.ListRepairs` | crates/antigravity-core/src/modules/account/storage.rs:47-90 | one listing makes a sound disk consistent and touches no account file |
| `AccountRecovery.ConsistentListsNothing` | crates/antigravity-core/src/modules/account/storage.rs:68 | on a consistent disk a listing writes nothing |
| `AccountRecovery.DeleteManyPrefix` | crates/antigravity-core/src/modules/account/crud.rs:144-161 | after any prefix of a batch the index is still the old one unless the batch is complete, and only files named for deletion are missing; after all of it, exactly those that could be removed |
| `AccountRecovery.CrashInDeleteMany` | crates/antigravity-core/src/modules/account/crud.rs:144-161 | after a crash anywhere in a batch deletion one listing drops exactly the entries whose file is gone and leaves a consistent store |
| `AccountRecovery.DeleteEffect` | crates/antigravity-core/src/modules/account/crud.rs:110-136 | index and files after a whole deletion, unlisted ids changing nothing |
| `AccountRecovery.BatchVersusEach` | crates/antigravity-core/src/modules/account/crud.rs:139-162 | batch and one-by-one deletion end with the same index; exactly which files each removes, with files that cannot be removed |
| `AccountRuns.OpCrashSafe` | crates/antigravity-core/src/modules/account/crud.rs:14-190 | every operation that changes the index, but the batch deletion, is crash safe on its own |
| `AccountRuns.OpPrefixConsistent` | crates/antigravity-core/src/modules/account/crud.rs:14-190 | stopped after any number of steps, by an error or a crash, it leaves a consistent store; quota updates too |
| `AccountRuns.OpPrefixSound` | crates/antigravity-core/src/modules/account/crud.rs:14-190 | stopped after any number of steps every operation, the batch deletion included, leaves a valid index and files named after their accounts |
| `AccountRuns.FailedBatchIff` | crates/antigravity-core/src/modules/account/crud.rs:144-161 | a batch deletion that stops after some steps leaves a consistent store exactly when it was complete or none of those steps removed the file of a listed id |
| `AccountRuns.BatchMayFailIff` | crates/antigravity-core/src/modules/account/crud.rs:144-161 | it may stop anywhere exactly when it names no listed id whose file it can remove |
| `AccountRuns.FailedBatchDangles` | crates/antigravity-core/src/modules/account/crud.rs:144-161 | two accounts and a failure after the first removal: a listed account without its file |
| `AccountRuns.SaveConsistentIff` | crates/antigravity-core/src/modules/account/storage.rs:68-87 | the save of a listing keeps the store consistent exactly when the listing found nothing missing, or everything whose file is not there whole by then |
| `AccountRuns.SaveDecides` | crates/antigravity-core/src/modules/account/storage.rs:74-82 | after a save that writes, an entry is listed exactly when the listing loaded it and did not find it missing, whatever happened to it since |
| `AccountRuns.SaveHarmlessIff` | crates/antigravity-core/src/modules/account/storage.rs:68-87 | a save leaves the listed entries as they are exactly when it writes nothing or the index lists just what the listing found |
| `AccountRuns.StepConsistentIff` | crates/antigravity-core/src/modules/account/storage.rs:33-43 | one step of a save of an account file, locked or not, keeps the store consistent exactly when it does not rename a torn temporary file over a listed account |
| `AccountRuns.EventKeepsRecoverable` | crates/antigravity-core/src/modules/account/crud.rs:14-190 | every possible event, safe or not, keeps the index valid and every account file its own account or a torn one, and keeps the record of what is missing exact for every listing under way |
| `AccountRuns.EventConsistentIff` | crates/antigravity-core/src/modules/account/crud.rs:14-190 | each event of a run (an operation finished, failed or crashed at any step, one step of an account save, one step of a listing, its save failing or crashing anywhere) keeps the store consistent exactly when it is safe |
| `AccountRuns.RunKeepsConsistent` | crates/antigravity-core/src/modules/account/crud.rs:14-190 | over every run of operations, failures, crashes, unlocked account saves step by step and any number of interleaved listings: ids and emails stay distinct, the current id valid and every entry backed by its file, throughout, exactly when every event is safe: no rename of a torn file over a listed account, no save of a listing that missed something missing, no batch deletion that fails after removing the file of a listed id |
| `AccountRuns.RunRecovers` | crates/antigravity-core/src/modules/account/storage.rs:47-90 | after any possible run, unsafe events included, one undisturbed listing makes the store consistent |
| `AccountRuns.UninterruptedListing` | crates/antigravity-core/src/modules/account/storage.rs:47-90 | a listing with nothing in between does what the listing method of the store does, whichever file operations of its save fail |
| `AccountRuns.TriedIsFailed` | crates/antigravity-core/src/modules/account/crud.rs:14-190 | what the store does in an operation with failing file operations is, disk for disk, a failed operation of the runs and at most the step that drops its temporary file |
| `AccountRuns.TriedConsistentIff` | crates/antigravity-core/src/modules/account/crud.rs:14-190 | whichever file operations fail, an operation leaves a consistent store, but for a batch deletion that cannot save the index after it removed the file of a listed id |
| `AccountRuns.UpsertRace` | crates/antigravity-core/src/modules/account/crud.rs:105-106 | of two upserts of one new email that both drop the lock, the second is refused and writes nothing |
| `AccountRuns.UnlockedRepairLosesAdd` | crates/antigravity-core/src/modules/account/storage.rs:47-90 | an account added between the load and the save of a listing, whatever else happened, leaves the index exactly when the listing found something missing; its file stays |
| `AccountRuns.DeletionsInsideListing` | crates/antigravity-core/src/modules/account/storage.rs:47-90 | a run from a consistent store, without failure or crash, in which two deletions inside a listing leave a listed account without its file |
| `AccountRuns.AddInsideListing` | crates/antigravity-core/src/modules/account/storage.rs:47-90 | a run in which an addition inside a listing is lost from the index |
| `AccountRuns.TornAccountIsDropped` | crates/antigravity-core/src/modules/account/fetch.rs:285-293 | two unlocked saves of one account, none failing: its file is torn, and the next listing drops the account from the index |
| `AccountRuns.DeletedFileReturns` | crates/antigravity-core/src/modules/account/verification.rs:18-24 | a save that starts before a deletion and ends after it leaves the deleted file in place, unlisted |
| `TornFiles.IndexTornIff` | crates/antigravity-core/src/modules/account/index.rs:35-47 | over every interleaving of steps, any number of saves among them, the index is damaged at some moment exactly when a rename of it directly follows the start of a write to the shared temporary file |
| `TornFiles.AccountTornIff` | crates/antigravity-core/src/modules/account/storage.rs:27-44 | the same for every account file, with the removals of the file and of its temporary file among the steps |
| `TornFiles.SharedTempTearsIndex` | crates/antigravity-core/src/modules/account/index.rs:38-46 | an unlocked save and a locked one interleaved so that the index is torn and no longer loads |
| `TornFiles.SharedTempTearsAccount` | crates/antigravity-core/src/modules/account/storage.rs:33-43 | two saves of one account interleaved so that its file is torn |
| `AccountStore.Store.SaveAccount` | crates/antigravity-core/src/modules/account/storage.rs:27-44 | takes the steps tear, write, rename, in this order, up to the first that fails, and then drops the temporary file; which error that gives |
| `AccountStore.Store.SaveIndex` | crates/antigravity-core/src/modules/account/index.rs:35-47 | takes the steps tear, write, rename, in this order, up to the first that fails; which error that gives |
| `AccountStore.Store.AddAccount` | crates/antigravity-core/src/modules/account/crud.rs:14-46 | result and every disk step, whichever file operation fails; duplicates are refused before any write; after success the new record and its entry, field by field |
| `AccountStore.Store.UpsertAccount` | crates/antigravity-core/src/modules/account/crud.rs:49-107 | result and every disk step of the locked half, or of an addition for a new email, whichever file operation fails; after success the given token and name are in the record of the email, field by field |
| `AccountStore.Store.DeleteAccount` | crates/antigravity-core/src/modules/account/crud.rs:110-136 | result and every disk step, whichever file operation fails; after success the entry and the file are gone and nothing else |
| `AccountStore.Store.DeleteAccounts` | crates/antigravity-core/src/modules/account/crud.rs:139-162 | the loop over ids takes exactly the removals that succeed, the others ignored, and then the steps of saving the batch's index up to the first that fails |
| `AccountStore.Store.ReorderAccounts` | crates/antigravity-core/src/modules/account/crud.rs:165-190 | the three loops build the requested entries followed by the rest; result and disk steps, whichever file operation fails |
| `AccountStore.Store.ListAccounts` | crates/antigravity-core/src/modules/account/storage.rs:47-90 | the loaded accounts, and the repair steps when there is something to repair, up to the first that fails; the answer is the same then |
| `AccountStore.Store.SetCurrentAccountId` | crates/antigravity-core/src/modules/account/current.rs:21-26 | result and every disk step, whichever file operation fails |
| `AccountStore.Store.GetCurrentAccount` | crates/antigravity-core/src/modules/account/current.rs:8-19 | every outcome, with the error for a file that is gone, corrupt or unreadable; in a consistent store it never fails and finds the listed current account unless there is none |
| `QuotaProtection.UpdateAccountQuota` | crates/antigravity-core/src/modules/account/quota.rs:14-90 | result and disk steps, whichever file operation fails; the protecting loops compute the fold over the entries |
| `QuotaProtection.ProtectionMeaning` | crates/antigravity-core/src/modules/account/quota.rs:46-73 | for a monitored id: with auto-restore the last entry whose standard id it is decides; without, any low entry protects and nothing is lifted; unmonitored ids keep their state |
| `QuotaProtection.UpdateMeaning` | crates/antigravity-core/src/modules/account/quota.rs:20-86 | forbidden protects exactly the monitored ids in addition; the same update twice is the same as once; identity and token are untouched |
| `QuotaProtection.UpdatedMeaning` | crates/antigravity-core/src/modules/account/quota.rs:20-86 | the updated record field by field: the new quota, the protected models by standard id, an older block lifted, and nothing else |
| `QuotaProtection.UpdateReads` | crates/antigravity-core/src/modules/account/quota.rs:18-89 | a successful update leaves that record in the account's file and touches no other file |
| `QuotaProtection.UpdateQuotaCrashSafe` | crates/antigravity-core/src/modules/account/quota.rs:18-89 | a crash at any step leaves a consistent store |
| `QuotaFetch.Backend.FetchQuotaWithRetry` | crates/antigravity-core/src/modules/account/fetch.rs:43-148 | result, and the stored record after the writes of the plan as the chosen backend makes them; a failed refresh is an OAuth error and disables the account exactly when its message contains "invalid_grant" |
| `QuotaFetch.Backend.HandleUnauthorizedRetry` | crates/antigravity-core/src/modules/account/fetch.rs:150-264 | the same for the retry after a 401 and its forced refresh |
| `QuotaFetch.Backend.PersistDisabled` | crates/antigravity-core/src/modules/account/fetch.rs:269-294 | one write, on either backend |
| `QuotaFetch.Backend.PersistTokenRefresh` | crates/antigravity-core/src/modules/account/fetch.rs:297-327 | one write, on either backend |
| `QuotaFetch.Backend.PersistQuotaData` | crates/antigravity-core/src/modules/account/fetch.rs:334-374 | one write, on either backend |
| `QuotaFetch.Backend.PersistName` | crates/antigravity-core/src/modules/account/fetch.rs:376-402 | one write, on either backend |
| `QuotaFetch.FirstRefreshFails` | crates/antigravity-core/src/modules/account/fetch.rs:57-68 | for every account, message and backend: when the token expires and its refresh fails, the answer is the OAuth error, and the stored record is disabled, with the reason, exactly when the message contains "invalid_grant", and unchanged otherwise |
| `QuotaFetch.RetryRefreshFails` | crates/antigravity-core/src/modules/account/fetch.rs:157-177 | the same for the forced refresh, on what the first attempt left |
| `QuotaFetch.FetchFails` | crates/antigravity-core/src/modules/account/fetch.rs:50-55 | without the proxy it needs nothing is fetched or written; an error of the quota service other than a 401 is the answer and stores no quota |
| `QuotaFetch.FetchLeaves` | crates/antigravity-core/src/modules/account/fetch.rs:57-130 | a successful fetch, field by field: the old token unless it expires within five minutes, a name asked for only when there is none or a blank one, quota and project as answered, and the caller told the same |
| `QuotaFetch.FetchStamps` | crates/antigravity-core/src/modules/account/fetch.rs:297-374 | where the backends differ after a successful fetch: the JSON file has the quota as answered and saturates a new expiry; the repository stamps the quota and keeps a tier that the answer lacks |
| `QuotaFetch.RetryLeaves` | crates/antigravity-core/src/modules/account/fetch.rs:179-264 | after a retry the new token with a rotated refresh token, and the quota as answered; for a 403 an empty one marked forbidden; for another error the old one |
| `QuotaFetch.RetryAnswers` | crates/antigravity-core/src/modules/account/fetch.rs:179-264 | what the caller is told of a retry: a 403 counts as success |
| `QuotaFetch.BackendsAgree` | crates/antigravity-core/src/modules/account/fetch.rs:57-148 | without a 401 both backends hold the same record after every single write, whatever was refreshed, found or fetched |
| `QuotaFetch.FetchRecords` | crates/antigravity-core/src/modules/account/fetch.rs:57-130 | a successful fetch leaves the fresh token, the found name, the project id and the quota on either backend: no later write restores a stale one |
| `QuotaFetch.RetryRecords` | crates/antigravity-core/src/modules/account/fetch.rs:150-264 | what each backend holds after a retry, in closed form |
| `QuotaFetch.BackendsAgreeIff` | crates/antigravity-core/src/modules/account/fetch.rs:43-264 | over all paths the backends end with the same record exactly when no retry drops a name found, or (when it ends in disabling) a token refreshed, by the first attempt |
| `QuotaFetch.RetryDropsName` | crates/antigravity-core/src/modules/account/fetch.rs:188 | an account and answers on which the repository keeps a found name and the JSON backend loses it |
| `QuotaFetch.RetryDropsToken` | crates/antigravity-core/src/modules/account/fetch.rs:286-290 | the same for a refreshed token, when the retry ends in disabling the account |
| `LwwLattice.MergeCommutes` | crates/antigravity-types/src/models/sync/mapping.rs:116-130 | merging is symmetric for every strict total order on entries |
| `LwwLattice.StringLessMeaning` | crates/antigravity-types/src/models/sync/mapping.rs:45-53 | the comparison of texts: the first difference decides, a proper prefix comes first |
| `LwwLattice.MergeAssociates` | crates/antigravity-types/src/models/sync/mapping.rs:116-130 | merging is associative |
| `LwwLattice.MergeIdempotent` | crates/antigravity-types/src/models/sync/mapping.rs:116-130 | merging the same snapshot again changes nothing and accepts nothing |
| `LwwLattice.MergeAllIsBest` | crates/antigravity-types/src/models/sync/mapping.rs:116-130 | after any list of merges each key holds an entry that was on offer and that nothing on offer beats |
| `LwwLattice.MergeAllOrderFree` | crates/antigravity-types/src/models/sync/mapping.rs:116-130 | the same snapshots in any order give the same entries |
| `LwwLattice.DeltaRoundConverges` | crates/antigravity-types/src/models/sync/mapping.rs:134-148 | the difference holds exactly what changes the other side; sending it does as much as sending everything; then nothing is left to send |
| `MappingSync.WinsOverStrictTotal` | crates/antigravity-types/src/models/sync/mapping.rs:45-53 | the comparison is a strict total order |
| `MappingSync.WriteStampMeaning` | crates/antigravity-types/src/models/sync/mapping.rs:92-93 | a write gets the earliest timestamp at or after the clock and after what is held, unless that is the last i64 |
| `MappingSync.SyncableMapping.Set` | crates/antigravity-types/src/models/sync/mapping.rs:90-98 | the whole new map; the write is stamped later than, and beats, what was held exactly below the end of the i64 range |
| `MappingSync.SyncableMapping.Remove` | crates/antigravity-types/src/models/sync/mapping.rs:101-108 | the whole new map; a tombstone that beats what was held |
| `MappingSync.SyncableMapping.MergeLww` | crates/antigravity-types/src/models/sync/mapping.rs:116-130 | the loop computes the lattice merge, and the count is the number of accepted entries |
| `MappingSync.LibraryMergeConverges` | crates/antigravity-types/src/models/sync/mapping.rs:116-148 | any order of any snapshots gives the same entries; one pull-and-push round makes two sides equal with nothing to send |
| `MappingSync.MergedEntry` | crates/antigravity-types/src/models/sync/mapping.rs:45-53 | under a shared key a library merge keeps the newer entry; of two equally old ones a deletion; then the greater target |
| `MappingSync.MappingState.MergeRemoteMapping` | antigravity-server/src/state/config_sync.rs:86-126 | the inline loop computes the strictly-newer merge of both maps, and counts the entries taken |
| `MappingSync.MappingState.SyncWithRemote` | antigravity-server/src/state/config_sync.rs:32-83 | the same, and the difference is that of the state before the merge |
| `MappingSync.MappingState.HotReload` | antigravity-server/src/state/accessors.rs:139 | the mapping is replaced and every timestamp stays |
| `MappingSync.InlineAt` | antigravity-server/src/state/config_sync.rs:57-64 | key by key: a newer entry is taken with its timestamp, any other key is left alone |
| `MappingSync.MergeInlineIdempotent` | antigravity-server/src/state/config_sync.rs:93-101 | a second merge of a snapshot changes nothing and counts nothing; timestamps never fall |
| `MappingSync.MergeInlineCommutes` | antigravity-server/src/state/config_sync.rs:93-101 | two merges commute exactly when no key is offered two targets at one timestamp newer than the local one |
| `MappingSync.ClashKeepsFirst` | antigravity-server/src/state/config_sync.rs:93-101 | two snapshots on which the first one merged stays |
| `MappingSync.MergeInlineAllBest` | antigravity-server/src/state/config_sync.rs:93-101 | after any list of merges each key holds the newest offer, or what was there if nothing newer was offered |
| `MappingSync.MergeInlineOrderFree` | antigravity-server/src/state/config_sync.rs:93-101 | the order of any list of snapshots does not matter exactly when, under each key, the newest offers newer than the replica agree on their target |
| `MappingSync.NewestFirstStays` | antigravity-server/src/state/config_sync.rs:93-101 | a newest offer that is merged first is kept |
| `MappingSync.InlineIsLibraryAt` | antigravity-server/src/state/config_sync.rs:57-64 | under a key the inline merge gives the library merge's target exactly when: a newer entry is not deleted; an older one does not win the entries' own tie-break; an unmapped key is not offered a live target it refuses |
| `MappingSync.InlineIsLibrary` | antigravity-server/src/state/config_sync.rs:57-64 | the two merges give one mapping exactly when that holds under every offered key |
| `MappingSync.StampsStayBacked` | antigravity-server/src/state/mod.rs:114 | timestamps start empty, and every merge keeps them positive and on mapped keys; a hot reload does exactly when it unmaps no stamped key |
| `MappingSync.BackedStampsPull` | antigravity-server/src/state/config_sync.rs:10-25 | on servers whose timestamps are so, every key of the peer alone is pulled, and a key of the puller alone goes unpropagated exactly when it has no timestamp |
| `MappingSync.RoundAgrees` | antigravity-server/src/config_sync.rs:43-82 | whatever the timestamps, after a pull-and-push round two servers map a key alike exactly when it is not the puller's alone with a timestamp up to the peer's, not the peer's alone published with one up to the puller's, and not tied between different targets without a tie-break |
| `MappingSync.ExchangeAgrees` | antigravity-server/src/state/config_sync.rs:10-25 | after merging each other's earlier snapshots they do exactly when, of two different targets, just one is published later than the other is recorded, and a key of one side alone is published later than the other side's timestamp |
| `MappingSync.RoundConverges` | antigravity-server/src/config_sync.rs:43-82 | one round gives the two servers one mapping exactly when no key parts them in these ways |
| `MappingSync.ExchangeConverges` | antigravity-server/src/state/config_sync.rs:10-25 | an exchange does exactly when it reconciles every key |
| `MappingSync.StampedRoundAgrees` | antigravity-server/src/config_sync.rs:43-82 | on a key stamped on both sides a round makes targets and timestamps agree exactly when they do not tie |
| `MappingSync.StampedExchangeAgrees` | antigravity-server/src/state/config_sync.rs:10-25 | so does an exchange |
| `MappingSync.StampedRoundConverges` | antigravity-server/src/config_sync.rs:43-82 | with every key stamped, one round makes the replicas equal exactly when nothing ties |
| `MappingSync.FreshKeyStaysHome` | antigravity-server/src/state/config_sync.rs:45 | a key loaded by the puller alone: it never reaches the peer |
| `MappingSync.ReloadRefusesPeer` | antigravity-server/src/state/accessors.rs:139 | a hot reload drops a key and leaves its timestamp: the peer's entry of the same age comes back neither in a round from either side nor in an exchange |
| `MappingSync.TieStays` | antigravity-server/src/config_sync.rs:43-82 | two targets recorded at one moment: a round changes neither server |
| `MappingSync.UnstampedSwaps` | antigravity-server/src/state/config_sync.rs:19 | an exchange swaps two different targets exactly when each is published later than the other is recorded; two servers after start always do |
| `MappingSync.TombstoneRevived` | antigravity-server/src/state/config_sync.rs:57-64 | a newer tombstone is where the merges part: a mapping to the empty name inline, a deletion in the library merge |
| `ProxySync.ProxyWinsStrictTotal` | crates/antigravity-types/src/models/sync/proxy_assignment.rs:36-47 | the comparison is a strict total order |
| `ProxySync.ProxyAssignments.UpdateProxyAssignment` | antigravity-server/src/state/proxy_sync.rs:29-39 | the whole new map after a local write: the given URL under the email, stamped now unless something as late is held, and then past it; no other email changes |
| `ProxySync.ProxyAssignments.MergeLww` | crates/antigravity-types/src/models/sync/proxy_assignment.rs:90-119 | a bounded merge of the entries not too far in the future, and below the size limit the lattice merge with its count |
| `ProxySync.BoundedEvict` | crates/antigravity-types/src/models/sync/proxy_assignment.rs:100-114 | evicting the oldest entry for a newer one keeps the guarantees: nothing invented, nothing held beaten by what was held or offered, nothing missing but from a full map of nothing older |
| `ProxySync.BoundedIsMerge` | crates/antigravity-types/src/models/sync/proxy_assignment.rs:90-119 | below the limit those guarantees leave only the lattice merge |
| `ProxySync.MergedEntry` | crates/antigravity-types/src/models/sync/proxy_assignment.rs:36-47 | under a shared email a merge keeps the newer entry; of two equally old ones a removal; then the greater URL |
| `ProxySync.KeptIff` | crates/antigravity-types/src/models/sync/proxy_assignment.rs:90-119 | a merge is sure to keep an email, whichever of equally old entries it evicts and in whichever order it takes the offers, exactly when fewer other emails than the limit are at least as new in the unlimited merge |
| `ProxySync.LostIff` | crates/antigravity-types/src/models/sync/proxy_assignment.rs:90-119 | it is sure to lose the email exactly when as many others as the limit are newer, so that only equally old entries leave a choice |
| `ProxySync.ProxyAssignments.MergeRemote` | antigravity-server/src/state/proxy_sync.rs:69-87 | the same on the entries with valid URLs; no invalid URL enters |
| `ProxySync.ProxyAssignments.SyncProxyWithRemote` | antigravity-server/src/state/proxy_sync.rs:49-67 | the difference is to the valid part of the snapshot and of the state before the merge of that part |
| `ProxySync.ProxyAssignments.Hydrate` | antigravity-server/src/state/proxy_sync.rs:89-111 | the loop over accounts computes the hydrated map |
| `ProxySync.HydrateKeeps` | antigravity-server/src/state/proxy_sync.rs:101-108 | hydration never touches an existing entry |
| `ProxySync.HydrateAdds` | antigravity-server/src/state/proxy_sync.rs:101-108 | a missing entry appears exactly for an account with a proxy, with such an account's URL, stamped now |
| `ProxySync.OldestExists` | crates/antigravity-types/src/models/sync/proxy_assignment.rs:121-131 | a full map has an oldest entry to evict |
| `ProxySync.EventGains` | antigravity-server/src/state/proxy_sync.rs:29-111 | an event that does not lose keeps the held entry or replaces it by one that beats it, and takes a winning offer |
| `ProxySync.HeldIsBest` | antigravity-server/src/state/proxy_sync.rs:29-111 | over any one run, evictions included, what is held covers everything seen so far, throughout, exactly when no event evicts or refuses the email at the size limit or repeats the last timestamp into a lost tie |
| `ProxySync.SafeIff` | antigravity-server/src/state/proxy_sync.rs:29-111 | an event is sure not to do that exactly when, before it, too few other held or offered entries are as new as the email's, and the write does not repeat the last timestamp into a tie it loses |
| `ProxySync.RunsHoldBest` | antigravity-server/src/state/proxy_sync.rs:29-111 | over every run on given inputs, what is held always covers everything seen, whatever the merges evict, exactly when no event of such a run is at risk by that test |
| `ProxySync.WriteBeatsIff` | antigravity-server/src/state/proxy_sync.rs:29-39 | a local write is stamped after an entry by every clock exactly when something at least as late is held and the entry does not have the last i64 timestamp |
| `ProxySync.LocalWriteBeatsSeen` | antigravity-server/src/state/proxy_sync.rs:29-39 | after any run in which no event loses, a local write is stamped after everything seen, even when the clock went back; a replica that holds something seen, full or not, takes the write exactly when the URL is valid there and its stamp at most a day ahead of the clock there, and changes nothing else |
| `ProxySync.EvictedThenWritten` | crates/antigravity-types/src/models/sync/proxy_assignment.rs:100-107 | in a full map one newer offer evicts the oldest entry, and a local write for its email under a clock set back is stamped before it |
| `ProxySync.EvictionForgets` | crates/antigravity-types/src/models/sync/proxy_assignment.rs:100-107 | a map of 10 000 entries where that happens |
| `ProxySync.ProxyRoundAgrees` | antigravity-server/src/config_sync.rs:99-141 | after a pull-and-push round two servers with room agree on an email exactly when neither refuses the other's winning entry as invalid or too far ahead |
| `ProxySync.ProxyRoundConverges` | antigravity-server/src/config_sync.rs:99-141 | so the round makes the two maps equal exactly when nothing is refused |
| `RequestGuard.StepKeepsInv` | crates/antigravity-core/src/proxy/active_request_guard.rs:17-69 | every atomic step of every thread, and every removal of a zero counter by the cleanup, keeps counter = live + released guards, exactly when it does not wrap a u32 |
| `RequestGuard.DropFindsOne` | crates/antigravity-core/src/proxy/active_request_guard.rs:55-69 | a drop always finds at least 1, so no decrement is lost |
| `RequestGuard.StepEffects` | crates/antigravity-core/src/proxy/active_request_guard.rs:17-69 | what each step does to the live guards and the counts: acquisitions add one to both, a drop takes one from both, a release the guard alone, a failed exchange neither |
| `RequestGuard.CounterIsGuards` | crates/antigravity-core/src/proxy/active_request_guard.rs:17-69 | in every interleaving a counter equals its live guards plus the released ones |
| `RequestGuard.LimitHolds` | crates/antigravity-core/src/proxy/active_request_guard.rs:27-48 | with acquisitions by `try_new` only, no interleaving lifts a counter above the largest limit asked for |
| `RequestGuard.LiveWithinLimit` | crates/antigravity-core/src/proxy/active_request_guard.rs:27-48 | so live and released guards together stay within the limit |
| `RequestGuard.TryDecides` | crates/antigravity-core/src/proxy/active_request_guard.rs:32-47 | a step ends an attempt without a guard exactly when it is a load that finds the limit reached by live and released guards, or a lookup that finds no counter; undisturbed after its lookup an attempt gets in |
| `RequestGuard.GoneIffSwept` | crates/antigravity-core/src/proxy/token_manager/mod.rs:173 | over every interleaving a counter that was there is gone exactly when the cleanup removed it and no acquisition has put it back since |
| `RequestGuard.LookupFailsIff` | crates/antigravity-core/src/proxy/active_request_guard.rs:32-34 | so the lookup of an attempt fails exactly when its counter is swept after the attempt put it there, and not put back |
| `RequestGuard.SweptAttempt` | crates/antigravity-core/src/proxy/token_manager/mod.rs:173 | a first attempt swept before its lookup: refused without a live guard |
| `WarmupScheduler.Scheduler.SelectAccounts` | antigravity-server/src/scheduler/warmup.rs:127-176 | the nested loops select the enabled accounts with a wanted model and no cooldown |
| `WarmupScheduler.Scheduler.CleanupStale` | antigravity-server/src/scheduler/state.rs:64-68 | keeps exactly the entries after the cutoff, and counts the others |
| `WarmupScheduler.Scheduler.WarmUp` | antigravity-server/src/scheduler/warmup.rs:202-231 | records exactly the selected accounts whose refresh succeeds |
| `WarmupScheduler.Scheduler.RunTick` | antigravity-server/src/scheduler/warmup.rs:38-253 | one pass of the loop: the new history and scan time, and exactly which emails are warmed |
| `WarmupScheduler.RecordedMeaning` | antigravity-server/src/scheduler/warmup.rs:50-231 | an email is warmed exactly when warmup is on and due (an interval below five minutes is an hour), an enabled account of it has a quota entry for a configured or default model at 100 percent, or below 50 in low mode, its last warmup is at least 14400 seconds back, and its refresh succeeds |
| `WarmupScheduler.TickMeaning` | antigravity-server/src/scheduler/warmup.rs:38-253 | the state after a tick: the scan time, the warmed emails stamped, other entries kept for a day |
| `WarmupScheduler.CleanupHarmless` | antigravity-server/src/scheduler/state.rs:60-68 | cleaning up changes no present or later cooldown answer, for any history, exactly when the cutoff is a full cooldown back |
| `WarmupScheduler.RunRemembers` | antigravity-server/src/scheduler/warmup.rs:178-223 | over any run a warmup stays in the history for a day |
| `WarmupScheduler.WarmupsFarApart` | antigravity-server/src/scheduler/warmup.rs:131-223 | two recorded warmups of one email are at least 14400 seconds apart, whatever the configuration does between ticks |
| `WarmupScheduler.ScansFarApart` | antigravity-server/src/scheduler/warmup.rs:61-79 | two scans are at least 300 seconds apart, whatever interval is configured |
| `ResetTime.ParseResetTime` | crates/antigravity-types/src/models/quota.rs:32-64 | looking back for digits at each unit letter computes the one-pass sum of unit contributions, saturated at the last i64 |
| `ResetTime.ResetSeconds` | crates/antigravity-types/src/models/quota.rs:32-64 | a reset time always fits an i64 |
| `ResetTime.SecondsSplit` | crates/antigravity-types/src/models/quota.rs:37-61 | the sum splits at every character that is not a digit |
| `ResetTime.UnitOrderFree` | crates/antigravity-types/src/models/quota.rs:32-64 | parts separated by a blank add up in either order |
| `ResetTime.DigitsReadBack` | crates/antigravity-types/src/models/quota.rs:45 | a printed number reads back |
| `ResetTime.PartsAddUp` | crates/antigravity-types/src/models/quota.rs:32-64 | any numbers, each followed by a character that is no digit, parse to the sum of their hours and minutes, in either case; other characters and numbers beyond i64 count nothing |
| `ResetTime.FormattedParsesBack` | crates/antigravity-types/src/models/quota.rs:29-64 | "{h}h {m}m" parses to 3600h + 60m, saturated; a number beyond i64 counts as nothing |
| `ResetTime.MinResetMeaning` | crates/antigravity-types/src/models/quota.rs:118-125 | the least reset time is attained and bounds the others; a refresh is due exactly when it is zero |
| `ProxyRotation.ProxyPool.UpdateConfig` | crates/antigravity-core/src/proxy/proxy_pool.rs:136-179 | the whole new state; the rotation counter goes on and only clients of dropped URLs go |
| `ProxyRotation.ParsedMeaning` | crates/antigravity-core/src/proxy/proxy_pool.rs:136-179 | the pool holds exactly the results of the configured URLs that parse, in order |
| `ProxyRotation.ProxyPool.SelectProxyUrl` | crates/antigravity-core/src/proxy/proxy_pool.rs:231-295 | what each mode and strategy returns; pool and custom mode never answer "no proxy" |
| `ProxyRotation.ProxyPool.GetOrCreateClient` | crates/antigravity-core/src/proxy/proxy_pool.rs:182-225 | a cached client is reused, a built one is stored, a failed build leaves the cache alone |
| `ProxyRotation.SelectTimes` | crates/antigravity-core/src/proxy/proxy_pool.rs:257-284 | selections in a row take the positions (counter + m) mod 2^64 mod n, from any counter |
| `ProxyRotation.OneRound` | crates/antigravity-core/src/proxy/proxy_pool.rs:258-260 | n consecutive picks contain each index once, when the counter does not wrap among them or n divides 2^64 |
| `ProxyRotation.RoundRobinFair` | crates/antigravity-core/src/proxy/proxy_pool.rs:258-260 | k rounds contain each index exactly k times, under the same condition |
| `ProxyRotation.OneRoundIff` | crates/antigravity-core/src/proxy/proxy_pool.rs:258-260 | one round from any counter contains each index once exactly when n divides 2^64 or the counter does not wrap within it |
| `ProxyRotation.FairEverywhereIff` | crates/antigravity-core/src/proxy/proxy_pool.rs:258-260 | every round is fair from every counter exactly when n divides 2^64 |
| `ProxyRotation.FairIff` | crates/antigravity-core/src/proxy/proxy_pool.rs:258-260 | k rounds with at most one wrap contain each index k times exactly when n divides 2^64, the counter does not wrap, or it wraps between two rounds |
| `ProxyRotation.ThreeAreUnfair` | crates/antigravity-core/src/proxy/proxy_pool.rs:258-260 | three URLs at the last counter value: the first is picked twice in a row |
| `ProxyRotation.SelectRounds` | crates/antigravity-core/src/proxy/proxy_pool.rs:231-295 | k rounds of selections pick every URL k times as often as it stands in the list, under the same condition |
| `ProxyRotation.PickLeastUsed` | crates/antigravity-core/src/modules/proxy_pool.rs:42-74 | the picked URL is in the pool and no pool URL is used by fewer accounts; the fallback when accounts cannot be listed |
| `ProxyRotation.UsageMeaning` | crates/antigravity-core/src/modules/proxy_pool.rs:42-74 | the usage of a URL is the number of accounts that have it |
| `ProxyRotation.AssignProxyFromPool` | crates/antigravity-core/src/modules/proxy_pool.rs:13-39 | nothing is assigned exactly when a proxy exists or the pool is off or empty; otherwise a pool URL, least used unless the strategy is random |
| `ProxyRotation.SpreadStaysWithin` | crates/antigravity-core/src/modules/proxy_pool.rs:42-74 | whichever ties are taken, the usage spread never exceeds the larger of one and what it was |
| `ProxyRotation.AssignmentsCatchUp` | crates/antigravity-core/src/modules/proxy_pool.rs:42-74 | once as many accounts have arrived as the pool is short of a level, every URL has reached it |
| `ConfigCache.Adopt` | crates/antigravity-core/src/modules/config.rs:88-92 | the loop over a legacy mapping, in any key order, adds exactly its keys that are neither series names nor mapped already |
| `ConfigCache.MigrateMappings` | crates/antigravity-core/src/modules/config.rs:78-119 | the edits in place give the migrated value, and the flag says whether a legacy mapping was there |
| `ConfigCache.MigrationMeaning` | crates/antigravity-core/src/modules/config.rs:78-119 | each key keeps its custom target, else its Anthropic, else its OpenAI one, series names excepted; nothing else changes; a second migration does nothing |
| `ConfigCache.LegacyMeaning` | crates/antigravity-core/src/modules/config.rs:78-119 | which names are series names, and which files hold a legacy mapping |
| `ConfigCache.LegacyFileLoads` | crates/antigravity-core/src/modules/config.rs:64-132 | the configuration loaded from a legacy file maps each key to that target |
| `ConfigCache.ConfigFile.InvalidateConfigCache` | crates/antigravity-core/src/modules/config.rs:53-57 | the cache is empty and the file untouched |
| `ConfigCache.ConfigFile.SaveConfig` | crates/antigravity-core/src/modules/config.rs:136-152 | outcome, and file and cache after it; a save that cannot write or cannot rename changes neither |
| `ConfigCache.ConfigFile.LoadConfig` | crates/antigravity-core/src/modules/config.rs:64-132 | outcome for every file, and the rewriting of a migrated one |
| `ConfigCache.ConfigFile.LoadConfigCached` | crates/antigravity-core/src/modules/config.rs:31-49 | outcome, and file and cache after it |
| `ConfigCache.ConfigFile.UpdateConfig` | crates/antigravity-core/src/modules/config.rs:156-164 | outcome, and file and cache after it: on success the file is the rendering of the updater applied to what it meant, on failure it means what it meant |
| `ConfigCache.LoadSettles` | crates/antigravity-core/src/modules/config.rs:124-129 | a load, whether or not it can rewrite the file, leaves what the file means alone; a rewritten file needs no second migration |
| `ConfigCache.LoadAnswers` | crates/antigravity-core/src/modules/config.rs:64-132 | the defaults without a file, an error for one that cannot be read, parsed or converted, and a file without legacy mappings as it stands |
| `ConfigCache.LoadRewrites` | crates/antigravity-core/src/modules/config.rs:124-129 | a load rewrites exactly a legacy file that loads, when it can be rendered and saved |
| `ConfigCache.CacheIsTransparent` | crates/antigravity-core/src/modules/config.rs:31-164 | over every sequential run of these functions a cached load returns, at any time, what an uncached one would |
| `ConfigCache.SaveThenReads` | crates/antigravity-core/src/modules/config.rs:31-152 | a saved configuration is what every later cached load returns, until the next write |
| `ConfigCache.UpdateThenReads` | crates/antigravity-core/src/modules/config.rs:156-164 | an update succeeds exactly when the file loads and the new configuration can be rendered and saved; then it is what the file holds and every later cached load returns, until the next write |
| `ConfigCache.StaleBelowTtl` | crates/antigravity-core/src/modules/config.rs:31-49 | with other writers, a cached load returns what the file said now or less than 30 seconds ago |
| `ConfigCache.EditShowsAfterTtl` | crates/antigravity-core/src/modules/config.rs:31-49 | that bound is tight: an edit right after a load is hidden until the TTL has passed, and no longer |

## Left out

- `AccountRuns.RunKeepsConsistent`: index saves are single events here, whole or stopped; those of a listing and of a locked operation interleave step by step in `TornFiles.IndexTornIff`. A locked operation's account save is whole in its event too, and can be taken step by step as `Save` events with `ListAdded` or `ListRenamed` for its index half. Each id belongs to one email, and no account file exists that cannot be read.
- `AccountRuns.OpPrefixConsistent`: needs the new identifier of an addition to be unlisted, which a random UUID is taken to be.
- `AccountStore.Store.AddAccount`: the fresh identifier is a parameter; in every method of the store a file that is there can be looked up, and the data directory exists.
- `AccountStore.Store.ListAccounts`: one undisturbed listing; `AccountRuns` splits it and `UninterruptedListing` connects the two.
- `MappingSync.RoundConverges`: compares mappings; timestamps agree as well on stamped keys (`StampedRoundConverges`).
- `ProxySync.ProxyRoundConverges`: both merges have room; at the limit `KeptIff` says which emails are sure to be kept.
- `ProxySync.KeptIff`: leaves open the order of the offers and the choice among equally old entries, both of which the source takes in key order; by `LostIff` the two conditions differ only on entries as old as the email's.
- `ProxyRotation.ProxyPool.SelectProxyUrl`: one atomic step; the order in which the pool's locks are taken is not modelled.
- `ConfigCache.CacheIsTransparent`: sequential runs; a reader that loads before a concurrent save and caches after it is not modelled.
- `ConfigCache.ConfigFile.SaveConfig`: the temporary file that a failing save leaves, which nothing reads; the data directory always exists.
- `QuotaFetch.Backend.FetchQuotaWithRetry`: one reading of the clock for a whole fetch, and persistence writes succeed (a failing one is only logged by the source).
- `QuotaFetch.BackendsAgreeIff`: leaves out token expiry, `last_updated` and the subscription tier, which the backends treat differently on purpose (`FetchStamps`).
- `WarmupScheduler.WarmupsFarApart`: one process run; a restart reads the history from its file, which may miss warmups of an interrupted tick.
- `WarmupScheduler.Scheduler.RunTick`: timestamps are unbounded integers, so an i64 overflow of `now - ts` is not modelled; matching of model names is a parameter.
- `RequestGuard.CounterIsGuards`: the token manager's own increments and decrements of the same counters are not part of this model.
- `ShellQuoting.CommandReceived`: the standard's reserved words; aliases, and the words for which section 2.4 leaves the results unspecified (`function`, `select`, a name with a colon), are not modelled.
- `TokenBlob.StateDb.InjectToken`: JSON, SQLite and base64 internals are parameters.
- `ProtobufRecords.SkipField`: usize is 64 bits wide, so the conversion error of 32-bit platforms cannot occur.
- What a hot reload does beside replacing the mapping.
- `SyncableProxyAssignments::set` with its eviction; the server writes through `update_proxy_assignment`, which has none.
- Concurrency limits, circuit breaker, rate limiting, signature cache, health monitor and request routing.
- HTTP, OAuth and database statements, the user interface, metrics and command-line printing.
- Quota lookups by name prefix and the thresholds over percentages: one-line queries.
