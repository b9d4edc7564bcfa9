# Loan eligibility resolution, modelled in Dafny

This project models the eligibility-resolution engine of a loan service. The
service keeps an in-memory registry that maps each account id to that
account's latest record per list variant. There are ten variants: five base
ineligibility categories (STR, CR, MULTIPLE_ACCOUNT, FDM, SST) and five delist
variants (D_STR … D_SST), each delist reversing one base category.

Uploaded lists are applied row by row, and every row of one upload carries the
same upload time. Two rules decide what is stored:

- An add event is stored only when it is strictly newer than the stored one.
- A delist event always overwrites the stored delist. It deactivates the paired
  base record only when the delist is strictly newer than that base.

The evaluator walks the five base categories in a fixed order. It reports a
category when its base record exists, is active, and no delist is at or after
it.

Modules, one per component:

- `Wrappers` (`wrappers.dfy`): `Option`, standing for Java `null`, and map lookup.
- `ListTypes` (`list_type.dfy`): the variant enum, its codes and the base↔delist pairing.
- `Records` (`eligibility_record.dfy`): the record value type, `equals` and `hashCode`.
- `Registry` (`registry.dfy`): the registry, `processRecord` and its two branches, and the registry invariant.
- `Evaluator` (`evaluator.dfy`): `isIneligibleForListType` and `checkEligibility`.
- `Queries` (`queries.dfy`): `getAccountRecords`' companions, `getStatistics` and `clearAllData`.
- `Resolution` (`resolution.dfy`): how an add/delist pair resolves in either arrival order, with worked histories.
- `Upload` (`upload.dfy`): `String.trim`, decoded rows, and the `uploadList` row loop with its counters.

Modelling choices:

- Timestamps are integers and `isAfter` is `>`. The upload clock is a parameter.
- The registry is an immutable `map<string, map<ListType, Record>>`. The Java
  in-place `setActive(false)` becomes a replacement by a copy whose active flag
  is false.
- In `processIneligibilityRecord`, the code after the store (lines 109-117)
  looks up the paired delist and returns in every case, so it has no effect.
  The model leaves it out, and `Registry.AddIgnoresOtherSlots` states that an
  add event does not depend on any other slot.
- `getStatistics` counts registry keys, as the code does. A reading that counts
  only accounts with a non-empty map gives the same number, because every
  stored map is non-empty (`Queries.TotalCountsNonEmptyAccounts`).

## Model

| member | source | states |
|---|---|---|
| `ListTypes.VariantsEnumerated` | src/main/java/com/loanmanagement/model/ListType.java:5-16 | there are exactly ten variants, each listed once in declaration order; the first five are not delists and the last five are |
| `ListTypes.CodesDistinct` | src/main/java/com/loanmanagement/model/ListType.java:5-16 | two variants with the same code are the same variant |
| `ListTypes.PairingDomains` | src/main/java/com/loanmanagement/model/ListType.java:41-62 | `getDelistType` is non-null exactly on base variants and returns a delist; `getIneligibilityType` is non-null exactly on delists and returns a base |
| `ListTypes.PairingRoundTrip` | src/main/java/com/loanmanagement/model/ListType.java:41-62 | base → delist → base and delist → base → delist both return the starting variant |
| `ListTypes.PairingBijective` | src/main/java/com/loanmanagement/model/ListType.java:41-62 | the pairing is injective on both sides and onto the other side: a bijection between the five bases and the five delists |
| `ListTypes.DelistOf` | src/main/java/com/loanmanagement/model/ListType.java:41-50 | the delist paired with a base is a delist whose base is the starting variant |
| `ListTypes.BaseOf` | src/main/java/com/loanmanagement/model/ListType.java:53-62 | the base paired with a delist is a base whose delist is the starting variant |
| `ListTypes.BaseOrderComplete` | src/main/java/com/loanmanagement/service/EligibilityService.java:159 | the evaluator's walk visits every base category and nothing else, in ascending declaration order |
| `Records.NewRecord` | src/main/java/com/loanmanagement/model/EligibilityRecord.java:15-21 | the constructor stores account, variant, time and reason as given and starts active |
| `Records.SetActive` | src/main/java/com/loanmanagement/model/EligibilityRecord.java:56-62 | `setActive` sets the flag and leaves account, variant, time and reason unchanged |
| `Records.SameRecordIsEquivalence` | src/main/java/com/loanmanagement/model/EligibilityRecord.java:64-72 | equality holds iff account, variant and time match; it is reflexive, symmetric and transitive, and ignores reason and active flag |
| `Records.HashCode` | src/main/java/com/loanmanagement/model/EligibilityRecord.java:74-77 | the hash is a 32-bit signed value |
| `Records.CodeUnitsRoundTrip` | src/main/java/com/loanmanagement/model/EligibilityRecord.java:76 | the account id is hashed over UTF-16 code units: a character above U+FFFF becomes a high and a low surrogate that decode back to it |
| `Records.StringHashOfSupplementary` | src/main/java/com/loanmanagement/model/EligibilityRecord.java:76 | every one-character string above U+FFFF hashes as 31 × high surrogate + low surrogate, as `String.hashCode` does over UTF-16 |
| `Records.EqualRecordsHashEqually` | src/main/java/com/loanmanagement/model/EligibilityRecord.java:64-77 | equal records have equal hash codes |
| `Registry.GetAccountRecords` | src/main/java/com/loanmanagement/service/EligibilityService.java:214-216 | a known account's map is returned as stored; an unknown account gets the empty map |
| `Registry.ProcessIneligibilityRecord` | src/main/java/com/loanmanagement/service/EligibilityService.java:97-118 | an add event fills its slot; the slot's time becomes the later of stored and new; it is replaced by a fresh active record iff empty or strictly older, otherwise the map is unchanged; other slots are untouched |
| `Registry.ProcessDelistRecord` | src/main/java/com/loanmanagement/service/EligibilityService.java:123-139 | the delist slot always receives the new record; the paired base keeps its time and reason and becomes inactive iff the delist is strictly newer; all other slots are untouched |
| `Registry.ProcessRecord` | src/main/java/com/loanmanagement/service/EligibilityService.java:82-92 | the account is materialised; its map gains the event's variant and no slot is lost; no other account changes |
| `Registry.AddPreservesWellFormedAccount` | src/main/java/com/loanmanagement/service/EligibilityService.java:97-107 | after an add event, every record still sits under its own variant and account, and delists stay active |
| `Registry.DelistPreservesWellFormedAccount` | src/main/java/com/loanmanagement/service/EligibilityService.java:123-139 | after a delist event, every record still sits under its own variant and account, and delists stay active |
| `Registry.ProcessRecordPreservesWellFormed` | src/main/java/com/loanmanagement/service/EligibilityService.java:82-92 | applying any event keeps every stored map non-empty and well formed |
| `Registry.AddIgnoresOtherSlots` | src/main/java/com/loanmanagement/service/EligibilityService.java:109-117 | an add event's outcome does not depend on any other slot, the paired delist included, so the delist check has no effect |
| `Registry.AddNeverResurrects` | src/main/java/com/loanmanagement/service/EligibilityService.java:103-107 | an add event makes an inactive slot active only by replacing it with a strictly newer record |
| `Registry.DelistNeverResurrects` | src/main/java/com/loanmanagement/service/EligibilityService.java:131-137 | a delist event never makes an inactive base slot active |
| `Registry.ActiveNeverResurrected` | src/main/java/com/loanmanagement/service/EligibilityService.java:103-137 | an inactive record stays stored and can become active again only by replacement with a strictly newer record, so an `equals`-same record stays inactive |
| `Evaluator.IsIneligibleForListType` | src/main/java/com/loanmanagement/service/EligibilityService.java:188-202 | a category counts iff the base exists and is active and there is no delist or the base is strictly newer; an equal-time delist means it does not count |
| `Evaluator.ReasonsFrom` | src/main/java/com/loanmanagement/service/EligibilityService.java:158-171 | every reason is for a contributing base category, carries the base record's reason and time, and reasons follow category order without repeats |
| `Evaluator.ReasonsComplete` | src/main/java/com/loanmanagement/service/EligibilityService.java:159-171 | every contributing category of the walk produces a reason |
| `Evaluator.ReasonsExact` | src/main/java/com/loanmanagement/service/EligibilityService.java:159-171 | a base category has a reason iff it contributes |
| `Evaluator.CheckEligibility` | src/main/java/com/loanmanagement/service/EligibilityService.java:144-183 | an absent or empty map is eligible with no reasons; the "no records found" message is given exactly then; an eligible account with records gets "eligible for loan"; eligible iff no reasons; the ineligible message counts the reasons; at most five reasons, in category order; a base has a reason iff it contributes, with its base record's reason and time |
| `Evaluator.EligibleIffNothingContributes` | src/main/java/com/loanmanagement/service/EligibilityService.java:173-180 | an account is eligible iff no base category contributes |
| `Queries.CountHolders` | src/main/java/com/loanmanagement/service/EligibilityService.java:227-229 | the per-variant count is the number of accounts whose map contains the variant |
| `Queries.GetStatistics` | src/main/java/com/loanmanagement/service/EligibilityService.java:221-235 | total accounts is the number of registry keys; every variant has a count equal to the number of accounts holding it, active or not |
| `Queries.HoldersBounded` | src/main/java/com/loanmanagement/service/EligibilityService.java:223-231 | no variant's count exceeds the total account count |
| `Queries.HoldersAfterProcess` | src/main/java/com/loanmanagement/service/EligibilityService.java:225-231 | after an event, the holders of its variant gain its account and every other variant's holders are unchanged |
| `Queries.TotalCountsNonEmptyAccounts` | src/main/java/com/loanmanagement/service/EligibilityService.java:223 | in a well-formed registry the keys are exactly the accounts holding records |
| `Queries.ClearAllData` | src/main/java/com/loanmanagement/service/EligibilityService.java:240-242 | the registry becomes empty |
| `Queries.ClearedRegistry` | src/main/java/com/loanmanagement/service/EligibilityService.java:240-242 | after a reset the registry is well formed, no variant has holders, and every account is eligible with "no records found" |
| `Resolution.AddThenDelist` | src/main/java/com/loanmanagement/service/EligibilityService.java:103-137 | when the base slot is empty or older than t1, add at t1 then delist at t2: the base keeps its reason and time, is inactive iff t2 > t1, and contributes iff t1 > t2 |
| `Resolution.DelistThenAdd` | src/main/java/com/loanmanagement/service/EligibilityService.java:97-139 | when the base slot is empty or older than t1, delist at t2 then add at t1: the base is stored fresh and active and contributes iff t1 > t2 |
| `Resolution.ArrivalOrderIrrelevant` | src/main/java/com/loanmanagement/service/EligibilityService.java:97-202 | for every registry, whether a category contributes does not depend on which of an add/delist pair arrives first; a stale add is dropped in both orders |
| `Resolution.StaleAddDropped` | src/main/java/com/loanmanagement/service/EligibilityService.java:103-107 | an add event at or before the stored time leaves the whole registry unchanged |
| `Resolution.DelistAlwaysOverwrites` | src/main/java/com/loanmanagement/service/EligibilityService.java:126-128 | a delist event replaces the stored delist whatever the two times |
| `Resolution.OrderedReasonsDistinct` | src/main/java/com/loanmanagement/service/EligibilityService.java:159 | no two reasons in category order name the same category, so reasons that all name one category are at most one |
| `Resolution.SingleContributor` | src/main/java/com/loanmanagement/service/EligibilityService.java:156-180 | when exactly one category contributes, the verdict is ineligible with that single reason |
| `Resolution.FlaggedOnce` | src/main/java/com/loanmanagement/service/EligibilityService.java:144-180 | an account flagged once for STR is ineligible with exactly that reason and time |
| `Resolution.FlaggedThenCleared` | src/main/java/com/loanmanagement/service/EligibilityService.java:131-137 | that flag, delisted later, leaves the account eligible |
| `Resolution.EarlyDelistDoesNotClear` | src/main/java/com/loanmanagement/service/EligibilityService.java:199-201 | a delist older than the FDM flag leaves the account ineligible for FDM |
| `Upload.TrimIsSlice` | src/main/java/com/loanmanagement/service/EligibilityService.java:48-49 | trimming keeps a slice of the input that starts and ends with a kept character; everything cut is at or below U+0020; the result is empty iff every character is |
| `Upload.RowAccount` | src/main/java/com/loanmanagement/service/EligibilityService.java:47-54 | a row is applied with its trimmed, non-empty account id; a readable row with a non-empty trimmed id is always applied |
| `Upload.SkippedRows` | src/main/java/com/loanmanagement/service/EligibilityService.java:48-61 | a row is skipped iff it is unreadable or its account id is only characters at or below U+0020 |
| `Upload.ApplyRows` | src/main/java/com/loanmanagement/service/EligibilityService.java:44-62 | applying a batch adds exactly the batch's accounts to the registry keys |
| `Upload.ApplyRowStoresReason` | src/main/java/com/loanmanagement/service/EligibilityService.java:48-56 | when an applied row's record is stored (always for a delist, for an add when its slot was empty or older), it holds the row's trimmed Reason field, which neither starts nor ends with a character at or below U+0020 |
| `Upload.ProcessRow` | src/main/java/com/loanmanagement/service/EligibilityService.java:47-61 | a row is applied iff it has an account id; an applied row adds its account; a skipped row changes nothing |
| `Upload.UploadList` | src/main/java/com/loanmanagement/service/EligibilityService.java:29-77 | the rows are applied in order with one shared time and the registry gains exactly the batch's accounts; the upload succeeds iff decoding does not fail; on success total = processed + skipped = number of rows and processed counts the rows with an account id; on a decoding failure the rows read so far stay applied and every counter is zero |
| `Upload.ProcessableCounted` | src/main/java/com/loanmanagement/service/EligibilityService.java:51-57 | the rows kept by the skip filter are exactly the processed count |
| `Upload.SkippedRowsNoEffect` | src/main/java/com/loanmanagement/service/EligibilityService.java:51-54 | applying only the non-skipped rows gives the same registry as applying all rows |
| `Upload.ApplyRowsPreservesWellFormed` | src/main/java/com/loanmanagement/service/EligibilityService.java:44-62 | a batch keeps the registry invariant |
| `Upload.OtherRowsFrame` | src/main/java/com/loanmanagement/service/EligibilityService.java:44-62 | rows for other accounts, and skipped rows, leave an account's records untouched |
| `Upload.BatchStampsShared` | src/main/java/com/loanmanagement/service/EligibilityService.java:31-56 | every account of a batch holds a record of the batch's variant at or after the batch time, and exactly at it for a delist batch |
| `Upload.SameTimeAddDropped` | src/main/java/com/loanmanagement/service/EligibilityService.java:103-107 | an add row at or before its slot's stored time changes nothing |
| `Upload.AddBatchKeepsFirst` | src/main/java/com/loanmanagement/service/EligibilityService.java:103-106 | in an add batch, a slot that was empty or older ends with the first row's reason for that account |
| `Upload.DelistBatchKeepsLast` | src/main/java/com/loanmanagement/service/EligibilityService.java:126-128 | in a delist batch, the slot ends with the last row's reason for that account |

## Left out

- HTTP routing and response wrapping in `LoanEligibilityController.java`, including the empty-file rejection. These are adapters around the core.
- CSV decoding and stream I/O in `uploadList` (lines 34-38). Rows arrive already decoded, and the header line is not a row, so it is not counted. A row whose AccountID or Reason field cannot be read (a row with too few fields) is the `Malformed` row. It is counted as skipped, like the per-row `catch` (lines 59-61). A readable Reason field is a string and never null, so the `""` fallback of line 49 has no counterpart.
- The decoder is lazy, so it can fail in the middle of the file, outside the per-row `catch`. The model keeps only whether it failed after the given rows (`decodeFails`), not why.
- Upload.UploadList: the counters are unbounded naturals, while Java's `int` counters would wrap past 2^31 - 1 rows.
- The clock. `LocalDateTime.now()` becomes the upload-time parameter, and `LocalDateTime` becomes an integer.
- Concurrency. `ConcurrentHashMap` is modelled as a sequential map.
- Java aliasing. `getAccountRecords` returns the live map, and `getAllRecords` returns a shallow copy (lines 207-209). The model returns values, so `getAllRecords` would be the registry itself and is not modelled separately.
- The DTOs' own `now()` timestamps, and the exact message wording. Only the three message kinds and the reason count are kept.
- Evaluator.CheckEligibility: an eligible verdict's reason list is null in the source, because only the ineligible branch sets it (line 179). The model gives the empty sequence `[]` instead, so it does not tell a null list from an empty one.
- The unused setters of `EligibilityRecord` other than `setActive`, and `toString`.
- Records.HashCode: the enum's identity hash is replaced by its ordinal, and `LocalDateTime.hashCode` by the integer time reduced to 32 bits. The property that equal records hash equally does not depend on either choice. The account id's hash follows `String.hashCode` over UTF-16 code units.
- `LoanEligibilityApplication.java` (startup) and `prompt-logging.py` (developer tooling) are not part of this model.
