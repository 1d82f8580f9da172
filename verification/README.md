# Verified models of the match-up platform's core

This project models seven parts of the platform and proves what each is for. Code that changes things step by step is a
method or a class proved against a specification function; what the source promises is then proved about that function.

- **Canonical tar archives** (`Utf8Names`, `TarBytes`, `TarWriter`, `TarReader`, `TarTheorems`): the serializer byte by
  byte, and a pax-aware reader written from IEEE Std 1003.1-2017, `pax` utility, EXTENDED DESCRIPTION, sections "ustar
  Interchange Format" and "pax Extended Header". The round trip has an exact condition, because a negative mode is written
  with its sign and because surrogate escapes can spell a real character.
- **Broadcasts** (`BroadcastClaims`, `BroadcastDelivery`, `ManualPush`): claims as steps of any number of requests under an
  advancing clock, the page loop and tally, and one call as a whole. Exclusion holds exactly while no run outlives its claim.
- **Canonical JSON** (`CanonicalJson`, `JsonText`): key sorting with JavaScript's own enumeration of integer-like keys, for
  any comparison of keys, and the text that is hashed.
- **Demo-data cleanup** (`CleanupTables`, `DemoCleanup`, `ClauseMeaning`, `ShippedDeletions`): the DELETE statements as a
  small language of positive conditions, what its clauses select cell by cell, the transaction around them, and all shipped
  statements in their order.
- **Account linking** (`LinkLocks`, `TeamInvitations`, `AccountLink`): the two locks under any interleaving and any hash that
  keeps caller scopes and identity scopes apart, the hand-over of invitations, and the link transaction.
- **Official results** (`ParticipantPlan`, `OfficialResults`, `TopScorer`): the append-only lineage of revisions, mirrored
  team records, the participant plan, and the order-independent top scorer.
- **Lifecycles** (`ManagedTerms`, `GuestInquiryPurge`, `UrlBase64`): terms documents under an advancing clock, retention
  purges interleaved with the operations beside them, and the push key decoder against section 5 of RFC 4648.

`Prelude` and `Sorting` (a stable sort and filter over any comparison) are shared.

Where the code does not do what its callers might expect, the model keeps the code and states the exact condition:

- a tar archive with a negative mode, or with a name whose surrogate escapes spell a character, does not read back;
- two names of one object that `localeCompare` ties, such as U+00E9 and U+0065 U+0301, keep the order they were put in, so
  that object's canonical form, and the text hashed, depends on key order; a payload without such a pair does not;
- a broadcast that outlives its claim can be overtaken, and its failure then frees the claim that overtook it;
- a broadcast retried after a failed page query notifies the users on the pages before it a second time;
- a purge checks expiry only when it reads, although its comment says requested inquiries pass the condition again, so an
  inquiry answered again before the write is erased, new answer included;
- a status change looks for a purge before its transaction and writes without looking again, so one that started before a
  purge can reopen the purged inquiry, though nothing personal comes back;
- two purges by one admin at one millisecond log an inquiry twice;
- archiving the current terms document brings the one before it back into force if that was never archived;
- a repaired official fact keeps the stored score beside goals taken from the input; the one caller shipped, at
  `apps/v1_api/prisma/seed-alpha-showcase-results.ts:468-487`, reads its score from the stored revision and so never
  makes the two differ;
- whitespace in a push key is removed by the decoder but counted by the padding: unless it comes in fours, the key decodes
  only if its length with the whitespace is a multiple of four, as with one newline after 87 characters.

## Model

| member | source | states |
|---|---|---|
| TarTheorems.RestoredIff | scripts/release/task168_canonical_tar.py:72-112 | reading an archive back with a strict POSIX reader gives exactly the names, modes and contents that went in if and only if no mode is negative and no name spells a character in surrogate escapes |
| TarReader.ArchiveReadsBack | scripts/release/task168_canonical_tar.py:104-112 | every archive is a whole number of 10240-byte records and reads back as the name bytes, modes and contents of all members in order; a strict reader refuses it exactly when some mode is negative |
| TarTheorems.ArchiveIsInjective | scripts/release/task168_canonical_tar.py:104-112 | two member lists with faithful names and one archive are the same list |
| TarTheorems.ArchiveIsInjectiveOnBytes | scripts/release/task168_canonical_tar.py:104-112 | two member lists with one archive have the same name bytes, modes and contents, negative modes included |
| TarTheorems.ArchiveAcceptedIff | scripts/release/task168_canonical_tar.py:104-112 | a list is accepted exactly when each member is |
| TarTheorems.MemberAcceptedIff | scripts/release/task168_canonical_tar.py:72-95 | the exact condition on a member: regular typeflag, encodable name, no control byte, and mode, size and pax record within their octal fields |
| TarTheorems.ArchiveIsLaidOut | scripts/release/task168_canonical_tar.py:72-112 | byte by byte: the members one after another, then at least two NUL blocks and no more than fill up to the next multiple of 10240 |
| TarTheorems.FirstHeaderIsExtendedIff | scripts/release/task168_canonical_tar.py:90-91 | an archive starts with an extended header exactly when its first name has more than 100 bytes or one above 0x7F |
| TarTheorems.MemberIsLaidOut | scripts/release/task168_canonical_tar.py:90-95 | a member is a ustar header and its filled content alone, with an extended header and its path record in front exactly for such a name |
| TarTheorems.HeaderIsUstar | scripts/release/task168_canonical_tar.py:33-48 | every field of a header, with the zero uid, gid and mtime, magic, version and checksum written out, and NUL in every other byte |
| TarTheorems.PaxHeaderIsExtended | scripts/release/task168_canonical_tar.py:51-69 | the extended header is named pax_header, has mode 0644 and type x, and holds the one path record, whose number is its length |
| TarTheorems.NegativeModeIsWrittenButUnreadable | scripts/release/task168_canonical_tar.py:25-30 | a negative mode passes the width test, sign and all, and makes an archive no strict reader takes |
| TarTheorems.DifferentNamesSameArchive | scripts/release/task168_canonical_tar.py:83 | two lists with different names have one archive, because surrogate escapes can spell a character |
| TarReader.MemberReadsBack | scripts/release/task168_canonical_tar.py:72-95 | one encoded member in front of anything reads as that member followed by what the rest reads as |
| TarReader.HeaderReadsBack | scripts/release/task168_canonical_tar.py:33-48 | a header is never an all-NUL block, passes its checksum, and every field decodes to what was written |
| TarReader.FieldReadsBack | scripts/release/task168_canonical_tar.py:25-30 | an octal field decodes to its number; a negative one only for a reader that allows a sign |
| TarReader.RecordReadsBack | scripts/release/task168_canonical_tar.py:51-59 | a record whose number is its own length reads back, whatever bytes its value holds and whatever follows it |
| TarReader.PaxRecordReadsBack | scripts/release/task168_canonical_tar.py:51-69 | the extended header gives back the path byte for byte |
| TarReader.BlockStep | scripts/release/task168_canonical_tar.py:62-95 | one header with its padded content is consumed as a unit, never taking data for a header |
| TarReader.BodyReadsBack | scripts/release/task168_canonical_tar.py:107-109 | the concatenated members read back in order in front of any end marker |
| TarReader.MarkerEndsArchive | scripts/release/task168_canonical_tar.py:98-112 | two zero blocks and any zero padding end the list |
| TarWriter.HeaderBlock | scripts/release/task168_canonical_tar.py:33-48 | the buffer written slice by slice is the 512 header bytes, or the overflow error |
| TarWriter.Seal | scripts/release/task168_canonical_tar.py:40-48 | the checksum is the sum of the block with its own field blank, and writing it leaves every other byte |
| TarWriter.WriteSlice | scripts/release/task168_canonical_tar.py:35-43 | a slice assignment replaces its bytes and nothing else and does not resize the buffer |
| TarWriter.ChecksumFits | scripts/release/task168_canonical_tar.py:46-47 | the sum of a block has at most six octal digits |
| TarWriter.OctalFieldFits | scripts/release/task168_canonical_tar.py:25-30 | a value fits exactly when it is within its digits, a minus sign costing one, and the field has the stated width |
| TarWriter.BuildPaxRecord | scripts/release/task168_canonical_tar.py:51-59 | the loop ends within three tests with a record whose decimal prefix is its own length |
| TarWriter.PaxLengthIsLeast | scripts/release/task168_canonical_tar.py:51-59 | the length settled on counts itself, and is the least that does |
| TarWriter.TwoLengthsCountThemselves | scripts/release/task168_canonical_tar.py:51-59 | a payload of 7 bytes allows two self-counting lengths, 9 and 10 |
| TarWriter.PaxHeaderBlock | scripts/release/task168_canonical_tar.py:62-69 | the extended-header member as a whole, or the overflow error |
| TarWriter.EncodeMember | scripts/release/task168_canonical_tar.py:72-95 | all bytes of one member, or the first refusal in the order of the source |
| TarWriter.CanonicalTarBytes | scripts/release/task168_canonical_tar.py:104-112 | the archive built by appending, or the error of the first member refused |
| TarWriter.Padding | scripts/release/task168_canonical_tar.py:67 | padding is shorter than a block or record and fills it |
| Utf8Names.NameRecoveredIff | scripts/release/task168_canonical_tar.py:83 | decoding the encoded name gives it back exactly when no run of escapes spells a character |
| Utf8Names.DecodeIsLossless | scripts/release/task168_canonical_tar.py:83 | every byte string is the encoding of the name it decodes to |
| Utf8Names.DecodedNamesAreRecovered | scripts/release/task168_canonical_tar.py:83 | names that came from bytes are always recovered |
| Utf8Names.EncodeIsNotInjective | scripts/release/task168_canonical_tar.py:83 | two different names with the same bytes |
| BroadcastClaims.RunExclusiveIff | apps/v1_api/src/admin/admin-ops.service.ts:313-519 | in any interleaved run no two broadcasts of one admin and content are ever in flight together if and only if no request claims that scope while its broadcast outlives its claim, whatever other scopes do |
| BroadcastClaims.InTimeRunIsExclusive | apps/v1_api/src/admin/admin-ops.service.ts:313-519 | if every claimed run of the scope ends before its claim expires, exclusion holds in every state |
| BroadcastClaims.StepOverlapsIffLate | apps/v1_api/src/admin/admin-ops.service.ts:433-474 | one step creates an overlap exactly when it is such a late claim; every other step keeps the invariant |
| BroadcastClaims.ClaimOfBusyScope | apps/v1_api/src/admin/admin-ops.service.ts:433-474 | a claim of a scope in flight is refused, or gets through, exactly by whether the other claim has expired |
| BroadcastClaims.TimelyRunKeepsInvariant | apps/v1_api/src/admin/admin-ops.service.ts:433-519 | records agree with the requests that own them in every state of a run without late claims |
| BroadcastClaims.StoredResultIsReplayed | apps/v1_api/src/admin/admin-ops.service.ts:326-327 | after a result stored by the only broadcast of its scope in flight, a same-content request inside the window gets that result, sends nothing and changes no record |
| BroadcastClaims.StoredResultStays | apps/v1_api/src/admin/admin-ops.service.ts:481-501 | a stored result stays on record for its whole window, late runs or not, unless another broadcast of the same scope stores its own |
| BroadcastClaims.StoredAloneStays | apps/v1_api/src/admin/admin-ops.service.ts:481-501 | stored by the only broadcast of its scope in flight, it stays on record, and none of that scope flies again within the window |
| BroadcastClaims.ReleasedFailureCanRetry | apps/v1_api/src/admin/admin-ops.service.ts:508-519 | after a released failure the next same-content request claims |
| BroadcastClaims.UnreleasedFailureBlocks | apps/v1_api/src/admin/admin-ops.service.ts:508-519 | after an unreleased one it claims exactly when the old claim has expired |
| BroadcastClaims.LateRunFreesAnotherClaim | apps/v1_api/src/admin/admin-ops.service.ts:508-519 | a concrete run in which a late failure releases the claim of the broadcast that overtook it, and a third starts beside the second |
| BroadcastClaims.IdempotencyStore.ClaimBroadcast | apps/v1_api/src/admin/admin-ops.service.ts:433-474 | replay, refuse or claim, and the record written |
| BroadcastClaims.IdempotencyStore.FinalizeBroadcastClaim | apps/v1_api/src/admin/admin-ops.service.ts:481-501 | the result stored for a new window, if there is a record |
| BroadcastClaims.IdempotencyStore.ReleaseBroadcastClaim | apps/v1_api/src/admin/admin-ops.service.ts:508-519 | the record expired, if it was still in progress |
| BroadcastDelivery.DeliverToAll | apps/v1_api/src/admin/admin-ops.service.ts:356-382 | the cursor loop visits each user once in id order for every number of users; its counts are the numbers of recipients by outcome, its tally the sums of their summaries field by field, and the counts add up to the users; when a page query throws it has visited exactly the pages before it |
| BroadcastDelivery.DeliverPage | apps/v1_api/src/admin/admin-ops.service.ts:371-379 | one page added on top of the users before it |
| BroadcastDelivery.ResultIsTotal | apps/v1_api/src/admin/admin-ops.service.ts:371-379 | sent, skipped and failed are the recipients with that outcome, each of the six push numbers is the sum of that field over their summaries, and each flag is set exactly when one of theirs is |
| BroadcastDelivery.StepIsTotal | apps/v1_api/src/admin/admin-ops.service.ts:595-605 | adding one recipient keeps every number a count or a sum |
| BroadcastDelivery.QueryIsMadeIff | apps/v1_api/src/admin/admin-ops.service.ts:360-382 | query q is made exactly when q pages of 30 users come before it |
| BroadcastDelivery.NextPage | apps/v1_api/src/admin/admin-ops.service.ts:360-382 | the page after the cursor continues the visited users and is short only at the end |
| BroadcastDelivery.PageAfterCursor | apps/v1_api/src/admin/admin-ops.service.ts:360-366 | paging after a user gives the users just after it |
| BroadcastDelivery.TallyIgnoresOrder | apps/v1_api/src/admin/admin-ops.service.ts:371-379 | recipients inside a chunk may answer in any order |
| BroadcastDelivery.TallyFlags | apps/v1_api/src/admin/admin-ops.service.ts:586-605 | the native part is present, and a disabled flag set, exactly when some summary made it so |
| BroadcastDelivery.KindsPartition | apps/v1_api/src/admin/admin-ops.service.ts:374 | sent, skipped and failed partition the recipients |
| BroadcastDelivery.PushTally.Add | apps/v1_api/src/admin/admin-ops.service.ts:595-605 | one summary added field by field in place |
| ManualPush.SendManualPush | apps/v1_api/src/admin/admin-ops.service.ts:313-421 | one call as a whole: its answer, the users notified and every idempotency record after it, whichever page query, finalizing or releasing fails |
| ManualPush.SingleSend | apps/v1_api/src/admin/admin-ops.service.ts:343-355 | a send to one user notifies that user, answers for that user alone and touches no record |
| ManualPush.BroadcastIsRecorded | apps/v1_api/src/admin/admin-ops.service.ts:356-419 | a broadcast without an unexpired record answers with the totals over all active users and is on record for ten minutes from its end |
| ManualPush.BusyDoesNothing | apps/v1_api/src/admin/admin-ops.service.ts:326-339 | one with a record in progress is refused and does nothing |
| ManualPush.UnrecordedBlocksUntilExpiry | apps/v1_api/src/admin/admin-ops.service.ts:481-501 | sent but not recorded, the content is refused until ten minutes after its claim |
| ManualPush.RepeatIsReplayed | apps/v1_api/src/admin/admin-ops.service.ts:313-421 | sent once, the same content inside the window sends nothing to whatever users there are by then and answers with the first result |
| ManualPush.FailureCanRetryIff | apps/v1_api/src/admin/admin-ops.service.ts:383-392 | after a failed delivery the content can be claimed exactly when the claim was released or has expired |
| ManualPush.RetryNotifiesTwiceIff | apps/v1_api/src/admin/admin-ops.service.ts:354-392 | the retry that gets through notifies every user, and a second time exactly those on the pages before the query that threw |
| ManualPush.OtherScopesUntouched | apps/v1_api/src/admin/admin-ops.service.ts:522-533 | no call touches the record of another admin or of other content |
| CanonicalJson.CanonicalEqualIffSame | e2e/v1-tests/helpers/tournament-fixture.ts:260-270 | for a payload none of whose objects holds two tied keys, another value has the same canonical form exactly when it differs only in object key order, at any depth, under any total preorder of keys |
| CanonicalJson.CanonicalInKeyOrder | e2e/v1-tests/helpers/tournament-fixture.ts:263-267 | in every object at every depth of a canonical value names ascend by the comparison, after the integer-like keys in ascending order |
| CanonicalJson.KeyOrderNeverMattersIff | e2e/v1-tests/helpers/tournament-fixture.ts:260-270 | a payload canonicalizes the same in every key order exactly when no object in it, at any depth, holds two different names the comparison ties |
| CanonicalJson.CanonicalizeIdempotent | e2e/v1-tests/helpers/tournament-fixture.ts:260-270 | canonicalizing twice is canonicalizing once |
| CanonicalJson.PathsKept | e2e/v1-tests/helpers/tournament-fixture.ts:260-270 | every path leads to the canonical form of what was there |
| CanonicalJson.CanonicalEqualImpliesSame | e2e/v1-tests/helpers/tournament-fixture.ts:260-270 | equal canonical forms mean equal up to key order, under any comparison |
| CanonicalJson.SameImpliesCanonicalEqual | e2e/v1-tests/helpers/tournament-fixture.ts:260-270 | without ties inside an object, equal up to key order means equal canonical forms |
| CanonicalJson.CanonicalOrderUnique | e2e/v1-tests/helpers/tournament-fixture.ts:263-267 | the order of the canonical entries of an object without ties depends only on which entries there are, integer-like keys included |
| CanonicalJson.CanonicalOrderStable | e2e/v1-tests/helpers/tournament-fixture.ts:263-267 | that order is a fixed point of sorting and enumerating |
| CanonicalJson.TieShowsKeyOrder | e2e/v1-tests/helpers/tournament-fixture.ts:265 | any two names the comparison ties make an object whose two key orders canonicalize differently |
| CanonicalJson.TieKeepsOrder | e2e/v1-tests/helpers/tournament-fixture.ts:263-267 | two tied keys of an object stand in its canonical form in the order they were put in |
| CanonicalJson.GetCanonical | e2e/v1-tests/helpers/tournament-fixture.ts:263-267 | each key of a canonical object holds the canonical form of the original's value |
| JsonText.SameTextIffSamePayload | e2e/v1-tests/helpers/tournament-fixture.ts:256-258 | a payload without ties inside an object shares the text given to the hash exactly with the payloads that differ from it only in key order |
| JsonText.StringifyUnique | e2e/v1-tests/helpers/tournament-fixture.ts:257 | the text of a value determines the value, wherever a value may end |
| JsonText.QuoteUnique | e2e/v1-tests/helpers/tournament-fixture.ts:257 | a quoted string determines its characters, escapes included |
| JsonText.AtomTexts | e2e/v1-tests/helpers/tournament-fixture.ts:257 | the texts of null, true, false, numbers and strings |
| DemoCleanup.Database.Cleanup | apps/v1_api/prisma/cleanup-demo-data.ts:260-284 | the outcome in each case; a commit deletes exactly the targets of the statements before the first deletion, anything else changes nothing |
| DemoCleanup.CommitIsExact | apps/v1_api/prisma/cleanup-demo-data.ts:278-281 | nothing snapshotted survives exactly when what was deleted is what was matched at the start |
| DemoCleanup.OrderDoesNotMatter | apps/v1_api/prisma/cleanup-demo-data.ts:279-280 | two orders that both commit leave the same rows |
| DemoCleanup.HoldsMonotone | apps/v1_api/prisma/cleanup-demo-data.ts:108-196 | no condition of the statement language becomes true by deleting rows |
| DemoCleanup.OnlyTargetsDeleted | apps/v1_api/prisma/cleanup-demo-data.ts:279-280 | whatever the order, only rows matched at the start are deleted |
| DemoCleanup.ResidualIff | apps/v1_api/prisma/cleanup-demo-data.ts:243-258 | with unique keys, a residual key is a residual row |
| DemoCleanup.SameKeyIff | apps/v1_api/prisma/cleanup-demo-data.ts:213-241 | two rows have one key exactly when they agree on every primary key column |
| ClauseMeaning.TargetsAreSelected | apps/v1_api/prisma/cleanup-demo-data.ts:108-196 | a row is a target exactly when a statement about its table has an alternative it meets: a cell passing a text test or among the candidates, or holding the id of a row of another table that does |
| ClauseMeaning.ShallowHoldsIff | apps/v1_api/prisma/cleanup-demo-data.ts:108-196 | a clause holds exactly when one of its alternatives does |
| ClauseMeaning.PassesIff | apps/v1_api/prisma/cleanup-demo-data.ts:108-196 | LIKE with the wildcard after, before or around a text, as concatenation |
| DemoCleanup.HoldsReadsOnly | apps/v1_api/prisma/cleanup-demo-data.ts:108-196 | a condition depends only on the tables its sub-selects read |
| DemoCleanup.ChildrenFirstCommits | apps/v1_api/prisma/cleanup-demo-data.ts:278-281 | an order that deletes children before the parents they are found through always commits |
| DemoCleanup.ChildrenFirstDeletesAll | apps/v1_api/prisma/cleanup-demo-data.ts:279-280 | such an order deletes every row matched at the start |
| DemoCleanup.ParentsFirstLeavesResidue | apps/v1_api/prisma/cleanup-demo-data.ts:255 | the other order can leave a child that is no longer found |
| DemoCleanup.Database.SnapshotTargetKeys | apps/v1_api/prisma/cleanup-demo-data.ts:230-241 | per statement the keys of the rows it matches |
| DemoCleanup.Database.NoResidualTargetKeys | apps/v1_api/prisma/cleanup-demo-data.ts:243-258 | clean exactly when no snapshotted key is left in its table |
| DemoCleanup.Database.Execute | apps/v1_api/prisma/cleanup-demo-data.ts:278-281 | one statement deletes the rows it matches now |
| DemoCleanup.Database.RunStatements | apps/v1_api/prisma/cleanup-demo-data.ts:278-281 | the statements in order |
| ShippedDeletions.CleanupDemoData | apps/v1_api/prisma/cleanup-demo-data.ts:108-284 | the 84 shipped statements in their order never trip the residual check: confirmed, unprotected and keyed, the script always commits, and what is left is exactly the rows that met no alternative of any statement about their table |
| ShippedDeletions.ShippedOrderIsChildrenFirst | apps/v1_api/prisma/cleanup-demo-data.ts:108-198 | no shipped statement reads a table an earlier one deletes from |
| ShippedDeletions.ShippedIsShallow | apps/v1_api/prisma/cleanup-demo-data.ts:108-196 | every shipped clause is a list of simple conditions with at most one level of sub-selects |
| AccountLink.RunKeepsLineage | apps/v1_api/src/auth/account-link.service.ts:156-286 | over every run: one active identity per user and provider, none lost, taken only without a password and from users who at the start were active unfinished signups of no admin with no activity, who end up deleted and with no active identity |
| AccountLink.LinkKeepsValid | apps/v1_api/src/auth/account-link.service.ts:156-286 | one link keeps the two uniqueness rules and ownership |
| AccountLink.LinkMovesOnlyFromEmptySignups | apps/v1_api/src/auth/account-link.service.ts:200-252 | an identity changes hands only to the caller and only away from an empty unfinished signup that is not the caller |
| AccountLink.LinkSucceedsIff | apps/v1_api/src/auth/account-link.service.ts:181-252 | the exact condition, over the fields of users and identities, under which a link is not refused |
| AccountLink.RefusedCallerIff | apps/v1_api/src/auth/account-link.service.ts:181-182 | which callers are refused, and why |
| AccountLink.OwnLoginAnswer | apps/v1_api/src/auth/account-link.service.ts:184-197 | the answer to a caller who has a login of the provider |
| AccountLink.FreeIdentityAnswer | apps/v1_api/src/auth/account-link.service.ts:221-241 | the answer when nobody holds the identity |
| AccountLink.HeldIdentityAnswer | apps/v1_api/src/auth/account-link.service.ts:221-252 | an identity is taken over exactly from an unused signup: passwordless, active, unfinished, no admin, no activity, no other active login, and the one the link token names |
| AccountLink.LinkRetiresOnlyUnused | apps/v1_api/src/auth/account-link.service.ts:243-252 | a link retires only an unused signup, and its only active login moves to the caller |
| AccountLink.RunRetiresOnlyUnused | apps/v1_api/src/auth/account-link.service.ts:156-286 | at every step of every run, an account that is retired had not changed since the start and is unused |
| AccountLink.NewIdentityIsCallers | apps/v1_api/src/auth/account-link.service.ts:229-241 | linking an identity nobody held adds it to the caller and changes nothing else |
| AccountLink.EmptyIsUnused | apps/v1_api/src/auth/account-link.service.ts:394-416 | the emptiness check, field by field |
| AccountLink.RetiredAccountIsEmptied | apps/v1_api/src/auth/account-link.service.ts:331-368 | a retired account is deleted, out of signup, its contacts freed, and keeps no active identity or pending invitation; its inquiries and uploads are the caller's and nobody else's changed |
| AccountLink.RepeatedLinkChangesNothing | apps/v1_api/src/auth/account-link.service.ts:184-197 | repeating a successful link changes nothing |
| AccountLink.EmptySignupIsNotCaller | apps/v1_api/src/auth/account-link.service.ts:394-416 | an empty signup is never the caller |
| AccountLink.LinkKeepsLineage | apps/v1_api/src/auth/account-link.service.ts:156-286 | one link keeps the account of what a run may have done |
| AccountLink.AccountStore.LinkInTransaction | apps/v1_api/src/auth/account-link.service.ts:156-286 | the outcome and every table after one link, refusals in the order of the source |
| AccountLink.AccountStore.RetireEmptyAccount | apps/v1_api/src/auth/account-link.service.ts:331-368 | what retiring writes, hand-over of invitations included |
| LinkLocks.NoCyclicWait | apps/v1_api/src/auth/account-link.service.ts:161-166 | no reachable state has a cyclic wait, of any length |
| LinkLocks.InsideIsExclusive | apps/v1_api/src/auth/account-link.service.ts:161-166 | two calls sharing caller and provider, or an identity, are never both past the locks |
| LinkLocks.SomeCallProceeds | apps/v1_api/src/auth/account-link.service.ts:161-166 | while any call is under way some call can take its lock or commit |
| LinkLocks.RunKeepsInvariant | apps/v1_api/src/auth/account-link.service.ts:161-166 | each process holds exactly the locks of its phase |
| LinkLocks.WaitsOnFurther | apps/v1_api/src/auth/account-link.service.ts:161-166 | whoever is waited on is further along |
| TeamInvitations.NothingLeftWaiting | apps/v1_api/src/auth/account-link.service.ts:294-324 | afterwards the retired account has no pending invitation; each it had was moved or cancelled and nothing else changed |
| TeamInvitations.MovedExactly | apps/v1_api/src/auth/account-link.service.ts:307-314 | under the unique index an invitation is moved exactly when the caller is not in the team, has none pending from it and did not send it |
| TeamInvitations.CallerKeepsOnePending | apps/v1_api/src/auth/account-link.service.ts:307-317 | the caller keeps at most one pending invitation per team, even where the retired account had two |
| TeamInvitations.PlacedOnce | apps/v1_api/src/auth/account-link.service.ts:309-314 | each waiting invitation ends in exactly one of the two lists |
| TeamInvitations.MovedIff | apps/v1_api/src/auth/account-link.service.ts:309-314 | the loop moves an invitation exactly when nothing covered its team before it and the caller did not send it |
| TeamInvitations.HandOverRow | apps/v1_api/src/auth/account-link.service.ts:294-324 | what becomes of each row |
| TeamInvitations.InvitationTable.HandOverTeamInvitations | apps/v1_api/src/auth/account-link.service.ts:294-324 | the table after the hand-over |
| OfficialResults.RunFromPristine | apps/v1_api/prisma/canonical-tournament-seed.ts:215-291 | after any run of seeding and repair every game has one chain of official revisions that match their facts, with the pointer at the last |
| OfficialResults.RunKeepsLineageFrom | apps/v1_api/prisma/canonical-tournament-seed.ts:215-291 | the same from any state that already has this form |
| OfficialResults.SeedAnswerIff | apps/v1_api/prisma/canonical-tournament-seed.ts:235-261 | the exact answer of seeding in every state, field by field |
| OfficialResults.SeedKeepsRecordedIff | apps/v1_api/prisma/canonical-tournament-seed.ts:239-258 | after any run a recorded result is kept exactly when tournament and teams are the recorded ones |
| OfficialResults.RepairAnswerIff | apps/v1_api/prisma/showcase-official-result-repair.ts:82-136 | when a repair is refused for its current result, when it only links, and when its number is taken |
| OfficialResults.SeedWrites | apps/v1_api/prisma/canonical-tournament-seed.ts:262-290 | the revision, its fact, both team records and the game after a seeding, each said of the input |
| OfficialResults.RepairWrites | apps/v1_api/prisma/showcase-official-result-repair.ts:136-232 | the same after a repair, with what it carries over and what it takes from its input |
| OfficialResults.NumbersRunFromOne | apps/v1_api/prisma/showcase-official-result-repair.ts:136-143 | a game's revisions are numbered exactly 1 to the number of the one pointed at |
| OfficialResults.RepairStartsFromLast | apps/v1_api/prisma/showcase-official-result-repair.ts:136-170 | a repair that writes started from the last revision; from a stale one the number is taken and it is refused |
| OfficialResults.NothingOfficialChanges | apps/v1_api/prisma/showcase-official-result-repair.ts:35-234 | no revision, fact or team record is ever altered or removed by a later call |
| OfficialResults.SeedingAgainChangesNothing | apps/v1_api/prisma/canonical-tournament-seed.ts:239-260 | seeding again keeps everything |
| OfficialResults.RepairingAgainChangesNothing | apps/v1_api/prisma/showcase-official-result-repair.ts:134-136 | repairing again from the new pointer changes nothing, from the stale one is refused |
| OfficialResults.PreservingAgainChangesNothing | apps/v1_api/prisma/showcase-official-result-repair.ts:111-135 | repeating a repair that only linked changes nothing |
| OfficialResults.RepairLinksBoth | apps/v1_api/prisma/showcase-official-result-repair.ts:111-133 | both representatives end up linked to their users and no other link changes; the exact condition of the link refusal |
| OfficialResults.RepairedFactIsConsistentIff | apps/v1_api/prisma/showcase-official-result-repair.ts:136-201 | a repaired fact states one score exactly when the input's score was the stored one |
| OfficialResults.OtherScoreIsInconsistent | apps/v1_api/prisma/showcase-official-result-repair.ts:136-201 | given any other score the same repair goes through and its fact states two |
| OfficialResults.InconsistentRepair | apps/v1_api/prisma/showcase-official-result-repair.ts:136-201 | a concrete repair that does |
| OfficialResults.RunStaysBalanced | apps/v1_api/prisma/canonical-tournament-seed.ts:282-289 | over any run between different teams total wins equal losses and goals for equal goals against |
| OfficialResults.RecordsBalancedIff | apps/v1_api/prisma/canonical-tournament-seed.ts:282-289 | the records of one revision mirror each other exactly when two teams met or the score was level |
| OfficialResults.RecordsMirror | apps/v1_api/prisma/canonical-tournament-seed.ts:282-289 | the two records of a revision mirror each other in teams, goals and result |
| OfficialResults.SeedKeepsLineage | apps/v1_api/prisma/canonical-tournament-seed.ts:215-291 | one seeding keeps the chain |
| OfficialResults.RepairKeepsLineage | apps/v1_api/prisma/showcase-official-result-repair.ts:35-234 | one repair keeps the chain |
| OfficialResults.ResultStore.EnsureCanonicalOfficialResult | apps/v1_api/prisma/canonical-tournament-seed.ts:215-291 | the outcome and every table after one seeding |
| OfficialResults.ResultStore.RepairExistingShowcaseOfficialResult | apps/v1_api/prisma/showcase-official-result-repair.ts:35-234 | the outcome and every table after one repair, links rolled back on refusal |
| ParticipantPlan.PlanFacts | apps/v1_api/prisma/showcase-result-participant-plan.ts:18-57 | existing rows stay as a prefix, both representatives are in, a side is only raised to its score, and a revision is flagged exactly when a row was added |
| ParticipantPlan.RepresentativeGoals | apps/v1_api/prisma/showcase-result-participant-plan.ts:29-50 | one representative brings its side up to its score and touches no other |
| ParticipantPlan.RepresentativeRow | apps/v1_api/prisma/showcase-result-participant-plan.ts:35-48 | an added row is a starter of forty minutes with the goals its side is short of and nothing else |
| ParticipantPlan.SideGoalsAddUp | apps/v1_api/prisma/showcase-result-participant-plan.ts:35-37 | a side's goals are those of its rows added up |
| ParticipantPlan.PlanFlagged | apps/v1_api/prisma/showcase-result-participant-plan.ts:52-57 | a revision is flagged exactly when a representative is missing, whatever the score |
| ParticipantPlan.PlanIsIdempotent | apps/v1_api/prisma/showcase-result-participant-plan.ts:18-57 | planning on the planned rows adds nothing |
| ParticipantPlan.PlanBuilder.AddPrimaryParticipant | apps/v1_api/prisma/showcase-result-participant-plan.ts:29-50 | one row appended unless the participant is there |
| ParticipantPlan.BuildPlan | apps/v1_api/prisma/showcase-result-participant-plan.ts:18-57 | the plan for both sides |
| TopScorer.WinnerScoredMost | apps/v1_api/prisma/seed-alpha-tournament-qa.ts:770-788 | the winner's total is the sum of the eligible goals in the table and nobody's is greater; ties go to the earlier first goal, and the side is that of the last goal |
| TopScorer.NoneIffNoEligibleGoal | apps/v1_api/prisma/seed-alpha-tournament-qa.ts:720-780 | there is no top scorer exactly when no goal is eligible |
| TopScorer.EligibleIff | apps/v1_api/prisma/seed-alpha-tournament-qa.ts:699-779 | a goal counts for a user exactly when its official revision is the current one of a game shown live or officially, its participant is linked to the user, the user consents, and the newest snapshot of the link does not revoke that |
| TopScorer.ReadingOrderDoesNotMatter | apps/v1_api/prisma/seed-alpha-tournament-qa.ts:698-807 | the answer is the same for every order in which the tables are read, as long as no participant scores twice at one moment and the other tables keep their keys |
| TopScorer.StoredKeysSuffice | apps/v1_api/prisma/seed-alpha-tournament-qa.ts:726-744 | it does not when a revision has one row per participant and a participant is in one visible revision |
| TopScorer.ScoringRowsInOrder | apps/v1_api/prisma/seed-alpha-tournament-qa.ts:726-744 | exactly the visible official goals, in order of officialAt and then participant |
| TopScorer.DecidingSnapshotIsNewest | apps/v1_api/prisma/seed-alpha-tournament-qa.ts:757-768 | the snapshot that decides is one with the greatest version of its link |
| TopScorer.TotalIsGoals | apps/v1_api/prisma/seed-alpha-tournament-qa.ts:770-779 | a user is in the tally exactly with an eligible goal, and the total does not depend on the sort |
| TopScorer.FetchedSuffices | apps/v1_api/prisma/seed-alpha-tournament-qa.ts:747-779 | the narrowed queries credit every scoring row as the whole tables would |
| TopScorer.TallyLastSide | apps/v1_api/prisma/seed-alpha-tournament-qa.ts:778 | the side kept is that of the last credited row |
| TopScorer.TallyOrder | apps/v1_api/prisma/seed-alpha-tournament-qa.ts:770-788 | users stand in the order of their first credited rows |
| TopScorer.ComputeOfficialTopScorer | apps/v1_api/prisma/seed-alpha-tournament-qa.ts:698-807 | the two loops and the early returns compute that answer |
| ManagedTerms.RunKeepsSound | apps/v1_api/src/admin/admin-terms.service.ts:168-330 | under an advancing clock, at every moment: at most one published future-dated document, no two published ones taking effect together, no version twice |
| ManagedTerms.CurrentIff | apps/v1_api/src/admin/admin-terms.service.ts:398-415 | the current document is the published one in force that took effect last |
| ManagedTerms.CurrentIsLatest | apps/v1_api/src/admin/admin-terms.service.ts:398-415 | in any list the current one took effect last, and of those at one time was published last |
| ManagedTerms.NoCurrentIff | apps/v1_api/src/admin/admin-terms.service.ts:398-415 | there is none exactly when none is in force |
| ManagedTerms.CurrentIgnoresOrder | apps/v1_api/src/admin/admin-terms.service.ts:398-415 | it does not depend on the order of the list |
| ManagedTerms.DraftingChangesNothingInForce | apps/v1_api/src/admin/admin-terms.service.ts:168-261 | writing drafts never changes what is current; a new one supersedes exactly the document current at that moment |
| ManagedTerms.ImmediatePublishIsCurrent | apps/v1_api/src/admin/admin-terms.service.ts:278-306 | an immediate publish leaves the document the only one in force and current, and the scheduled one scheduled |
| ManagedTerms.ScheduledPublishChangesNothingNow | apps/v1_api/src/admin/admin-terms.service.ts:278-306 | a scheduled one is the only future-dated one and leaves what is in force |
| ManagedTerms.ScheduledTakesOver | apps/v1_api/src/admin/admin-terms.service.ts:263-330 | still published when its time comes, after any run, it becomes current at that moment |
| ManagedTerms.ArchivingCurrentBringsBack | apps/v1_api/src/admin/admin-terms.service.ts:302-306 | archiving the current document makes current exactly the one that took effect last before it and was never archived |
| ManagedTerms.ArchivingChangesOnlyOne | apps/v1_api/src/admin/admin-terms.service.ts:302-306 | archiving changes that document alone, and nothing in force unless it was current |
| ManagedTerms.DoneIff | apps/v1_api/src/admin/admin-terms.service.ts:211-277 | when each call is carried out |
| ManagedTerms.RunStamps | apps/v1_api/src/admin/admin-terms.service.ts:263-330 | over any run drafts have no stamps, published ones a publication and archived ones an archiving time |
| ManagedTerms.StepStamps | apps/v1_api/src/admin/admin-terms.service.ts:300-306 | a call stamps what it publishes or archives with its own time, and only that |
| ManagedTerms.RunPreserves | apps/v1_api/src/admin/admin-terms.service.ts:211-330 | over any run archived is final, published can only become archived, and no text changes after its draft |
| ManagedTerms.StepKeepsKeysApart | apps/v1_api/src/admin/admin-terms.service.ts:278-306 | one call keeps effective times apart |
| ManagedTerms.Policy.CreateVersion | apps/v1_api/src/admin/admin-terms.service.ts:168-209 | a new draft that supersedes the current document, or the duplicate error |
| ManagedTerms.Policy.UpdateDraft | apps/v1_api/src/admin/admin-terms.service.ts:211-261 | a draft rewritten, or the refusal |
| ManagedTerms.Policy.ChangeStatus | apps/v1_api/src/admin/admin-terms.service.ts:263-330 | the whole list after a change of status, or the refusal |
| GuestInquiryPurge.RunKeepsErasure | apps/v1_api/src/admin/guest-inquiry-purge.service.ts:104-172 | however purges, answers, edits and the two halves of status changes interleave, only guest inquiries are purged, and nothing personal of one remains or comes back |
| GuestInquiryPurge.PurgedStaysPurged | apps/v1_api/src/admin/guest-inquiry-purge.service.ts:122-135 | purged once, an inquiry stays purged with everything but its status as it was, and a status change still to write to it had looked at it before the purge |
| GuestInquiryPurge.PurgedIsFinalIff | apps/v1_api/src/admin/admin.service.ts:2525-2538 | a purged row never changes again, whatever runs, exactly when no such status change is still to write |
| GuestInquiryPurge.PurgedStep | apps/v1_api/src/admin/admin.service.ts:2525-2538 | the row after any step: only such a write changes it, and to what |
| GuestInquiryPurge.ReopenedAfterPurge | apps/v1_api/src/admin/admin.service.ts:2525-2538 | a status change that looks before a purge and writes after it gives the purged inquiry any status |
| GuestInquiryPurge.PurgedIffCandidate | apps/v1_api/src/admin/guest-inquiry-purge.service.ts:104-172 | an uninterrupted purge erases exactly the requested candidates |
| GuestInquiryPurge.CandidateIff | apps/v1_api/src/admin/guest-inquiry-purge.service.ts:41-62 | a candidate, field by field: an unpurged, completed guest inquiry past the days of the setting or past the days agreed to |
| GuestInquiryPurge.FewerDaysCount | apps/v1_api/src/admin/guest-inquiry-purge.service.ts:49-51 | the days that count, and that a log states, are the fewer of the two |
| GuestInquiryPurge.AllOrSelected | apps/v1_api/src/admin/guest-inquiry-purge.service.ts:104-119 | what is asked for with and without ids |
| GuestInquiryPurge.FullPurgeLeavesNoCandidate | apps/v1_api/src/admin/guest-inquiry-purge.service.ts:114-166 | a full purge leaves no candidate at its time |
| GuestInquiryPurge.StillExpiredIffUntouched | apps/v1_api/src/admin/guest-inquiry-purge.service.ts:114-135 | what a purge erases was expired when it read; it still is when it writes exactly when the row has not changed in between |
| GuestInquiryPurge.FreshAnswerIsPurged | apps/v1_api/src/admin/guest-inquiry-purge.service.ts:122-135 | an inquiry answered again between the read and the write is purged although no longer expired, new answer included |
| GuestInquiryPurge.RunLogsOnce | apps/v1_api/src/admin/guest-inquiry-purge.service.ts:137-165 | over any interleaving each inquiry is logged once, when no admin starts two purges at one millisecond |
| GuestInquiryPurge.LogsAgainIff | apps/v1_api/src/admin/guest-inquiry-purge.service.ts:137-145 | an inquiry purged before is logged again exactly when it bears this purge's own admin and time |
| GuestInquiryPurge.SameStampLogsTwice | apps/v1_api/src/admin/guest-inquiry-purge.service.ts:137-145 | two such purges log the same inquiry twice |
| GuestInquiryPurge.PurgedPlusSkipped | apps/v1_api/src/admin/guest-inquiry-purge.service.ts:167-171 | purged plus skipped is the number of distinct ids asked for, whatever happened in between |
| GuestInquiryPurge.ShorterRetentionOnlyAdds | apps/v1_api/src/admin/guest-inquiry-purge.service.ts:49-62 | shortening the retention only adds candidates |
| GuestInquiryPurge.AgreedDaysBoundRetention | apps/v1_api/src/admin/guest-inquiry-purge.service.ts:49-51 | no setting keeps an inquiry past the days agreed to |
| GuestInquiryPurge.WritePurgesIff | apps/v1_api/src/admin/guest-inquiry-purge.service.ts:122-135 | a write purges exactly the targets that are still completed guest inquiries, never a member's or an unfinished one |
| GuestInquiryPurge.StepKeepsErasure | apps/v1_api/src/admin/admin.service.ts:2429-2540 | answers, edits and status changes leave nothing personal on a purged inquiry, even one they write to |
| GuestInquiryPurge.AnswerWrites | apps/v1_api/src/admin/admin.service.ts:2429-2460 | what an answer writes, and that it is refused on a purged inquiry |
| GuestInquiryPurge.EditWrites | apps/v1_api/src/admin/admin.service.ts:2492-2523 | what a reply edit writes and logs, and when it is refused |
| GuestInquiryPurge.StatusWrites | apps/v1_api/src/admin/admin.service.ts:2534-2538 | what a status change writes: the closing time exactly when it closes |
| GuestInquiryPurge.WriteTouchesOnlyReported | apps/v1_api/src/admin/guest-inquiry-purge.service.ts:148-152 | a purge overwrites the replies to what it reports and the previews of their edits, and no others |
| GuestInquiryPurge.InquiryStore.PurgeGuestInquiries | apps/v1_api/src/admin/guest-inquiry-purge.service.ts:104-172 | the response and every table after one purge, or the rejection |
| GuestInquiryPurge.InquiryStore.WritePurge | apps/v1_api/src/admin/guest-inquiry-purge.service.ts:122-165 | the ids reported and every table after the write, in any state other purges left |
| GuestInquiryPurge.InquiryStore.RedactReplyEditPreviews | apps/v1_api/src/admin/guest-inquiry-purge.service.ts:176-194 | the previews of the purged replies overwritten, others left |
| UrlBase64.DecodesEncoded | apps/v1_web/public/sw-push.js:207-212 | the unpadded base64url text of any bytes decodes to those bytes |
| UrlBase64.AlphabetIsTable2 | apps/v1_web/public/sw-push.js:209 | the symbols are those of Table 2 of RFC 4648 |
| UrlBase64.GroupIsOneNumber | apps/v1_web/public/sw-push.js:210 | three bytes and their four symbols are one number of 24 bits |
| UrlBase64.TailIsOneNumber | apps/v1_web/public/sw-push.js:210 | one or two bytes at the end are filled up with zero bits |
| UrlBase64.EncodesDecodedIff | apps/v1_web/public/sw-push.js:207-212 | a base64url text is the encoding of what it decodes to exactly when its left-over bits are zero |
| UrlBase64.DecodesIff | apps/v1_web/public/sw-push.js:207-212 | which texts decode, and to what: the padding counts whitespace that is then removed, so the whitespace must come in fours and the signs be at most two, or there must be no sign at all, given or added |
| UrlBase64.StrayWhitespaceIff | apps/v1_web/public/sw-push.js:208 | whitespace not in fours is harmless exactly when the length counting it is a multiple of four |
| UrlBase64.PaddedToFour | apps/v1_web/public/sw-push.js:208 | the padding fills up to a multiple of four |
| UrlBase64.SplitJoins | apps/v1_web/public/sw-push.js:210 | eight-bit and six-bit groups convert back and forth |
| UrlBase64.JoinSplitsIff | apps/v1_web/public/sw-push.js:210 | the other way round exactly without left-over bits |

## Left out

- TarReader.ArchiveReadsBack: the reader applies only the `path` keyword, which is the only one the serializer writes, and does not read the device, user-name and link-name fields.
- The gzip wrapper, hashing and signing around the tar bytes.
- JsonText.SameTextIffSamePayload: the hash itself is not part of this model; strings are Unicode scalar values, so a lone surrogate, which JSON.stringify escapes, is not modelled, and a number is the text it prints as.
- CanonicalJson.KeyOrderNeverMattersIff: `localeCompare` is a parameter, any total preorder; which names it ties is not part of this model. Dates, undefined and functions, which JSON cannot hold, are not values of the model.
- BroadcastClaims.RunExclusiveIff: the hash of the content is not modelled, the content itself is the key; a database error while claiming leaves no step.
- BroadcastDelivery.DeliverToAll: the set of active users is fixed while the loop runs, and what happens for one recipient (preference, notification row, socket, push) is a function of the user.
- ManualPush.SendManualPush: the audit log is not modelled; RetryNotifiesTwiceIff takes the same active users for both calls.
- DemoCleanup.Database.Cleanup: the SQL that fills the candidate and protected tables, the parsing of statement text and the catalog query for primary keys are parameters; no cascades and no concurrent writers.
- AccountLink.AccountStore.LinkInTransaction: one atomic step, so the refusals for rows that change between two reads of one transaction cannot occur; the link token is the user id it was issued for; notifications, status logs, the returned provider list, nicknames and `clearDeletedAccountData` are not modelled.
- LinkLocks.NoCyclicWait: covers the two advisory locks; row locks are not modelled.
- TeamInvitations.MovedExactly: assumes the unique index on the retired account; without it, MovedIff says which of two is moved.
- OfficialResults.RunFromPristine: cards, goal events, MVP and notes are carried unread, and `ensureCanonicalTournamentMatch`, whose branches create or refuse the match, sides and lineups before a result exists, is not modelled.
- OfficialResults.RunStaysBalanced: for calls between two different teams; RecordsBalancedIff says what one team against itself does.
- TopScorer.ReadingOrderDoesNotMatter: assumes the unique keys of the tables, and that no participant has two scoring rows with one official time, which StoredKeysSuffice derives from one visible revision per participant; participants are numbered in the order `localeCompare` gives their ids; the names looked up for the answer are not modelled.
- ManagedTerms.Policy.ChangeStatus: one policy, and each operation atomic, although the source reads the document before its transaction; trimming of texts, content hashes and the audit log are not modelled.
- GuestInquiryPurge.RunKeepsErasure: an answer and a reply edit are one step each, their guarded updates taken to notice every purge in between; each purge carries whatever retention setting it read; only the personal fields, status, times and stamps of an inquiry are modelled, and the list of candidates shown to admins is not.
- UrlBase64.EncodesDecodedIff: for texts over the base64url alphabet; DecodesIff gives what every other text decodes to.
- Controllers, modules, SQL text, sockets and deliveries, capture and load scripts, the service worker's fetch and notification handlers, and seed constants: input and output, or only easy members.
