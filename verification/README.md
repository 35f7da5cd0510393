# Aerodrome registry: a Dafny model

This project models the core of the aerodrome registry scripts and proves
properties of that model:

- **sync** (`sync_aerodromes.py`). It keys the OurAirports rows and the
  OpenFlights lines by ICAO code, merges them with the operator overrides
  into one registry sorted by code, and assembles the staging document.
- **release** (`release.py`). It checks the staging document, promotes it
  to production behind a backup and a `released_at` stamp, and rolls
  production back to one of the five newest backups.
- **review** (`review_changes.py`). It compares production with staging:
  new, removed and changed codes, their total, and the two warnings.
- **integrity** (`validate.py`). After the schema accepts the data, it
  runs the count check and the duplicate-ICAO check.

Layout:

- `wrappers.dfy`: `Option`.
- `text.dfy`: the Python `str` operations the scripts use (`strip`,
  `split`, `lower`, `isalpha`, `startswith`, `in`, `int()`), and
  lexicographic order.
- `json.dfy`: parsed JSON values, Python truthiness, and Python's `in` on
  them.
- `keyed.dfy`: building a dict item by item, where the last item with a key
  wins.
- `sets.dfy`: the size of a union of disjoint sets, which the counters use.
- `aerodromes.dfy`: the registry record and document, and the stable sort
  by `icao`.
- `sync.dfy`, `release.dfy`, `review.dfy`, `integrity.dfy`: the four
  scripts.

The release scripts change files in place. So `Release.FileStore` is a
class holding the working directory as a map from path to content plus
the set of directories, and its methods state the whole new state. Its
invariant `Valid` says that every backup file sits in the backups
directory; every method keeps it, and the rollback relies on it.

## Model

| member | source | states |
|---|---|---|
| Sync.ExtractIcaoCode | sync_aerodromes.py:36-45 | a returned code has 4 characters and is the stripped `icao_code`, or the stripped alphabetic `ident`; a 4-character `icao_code` always yields a code |
| Sync.IcaoCodeTakesPriority | sync_aerodromes.py:41-42 | a 4-character `icao_code` is the key whatever `ident` holds, and it need not be alphabetic |
| Sync.IdentFallback | sync_aerodromes.py:43-45 | without a usable `icao_code`, a key exists exactly when the stripped `ident` is four letters, and it is that `ident` |
| Sync.ProcessOurAirportsData | sync_aerodromes.py:47-65 | the loop builds exactly the dict of open, keyed rows, later rows overwriting earlier ones |
| Sync.AddAirport | sync_aerodromes.py:52-63 | one loop step: a closed row or a row without a key leaves the dict alone; otherwise its record is stored under its code |
| Sync.OurAirportsKeys | sync_aerodromes.py:52-63 | a code is a key exactly when some open row extracts it |
| Sync.OurAirportsLastRowWins | sync_aerodromes.py:56-63 | the record under a code is that of the last open row with that code |
| Sync.AirportRecord | sync_aerodromes.py:53-63 | a row contributes a code exactly when it is open and that code is its key, and it contributes its stripped name and country |
| Sync.TimezoneRecord | sync_aerodromes.py:72-82 | a line supplies an entry only if it is not the header and has 12 or more fields; the entry has a 4-character code and a timezone that is non-empty and not one of the invalid values |
| Sync.TimezoneLineFields | sync_aerodromes.py:72-82 | a non-header line of 12 or more comma-free fields supplies exactly field 5 and field 11 with their quotes stripped when the code has 4 characters and the timezone is non-empty and not an invalid value, and nothing otherwise |
| Sync.ProcessOpenFlightsData | sync_aerodromes.py:67-86 | the result is the dict the lines of the stripped text build, later lines overwriting earlier ones |
| Sync.CollectTimezones | sync_aerodromes.py:71-84 | the loop builds exactly the dict of the lines' entries |
| Sync.AddTimezone | sync_aerodromes.py:72-82 | one loop step adds the line's entry, if it has one |
| Sync.OpenFlightsEntries | sync_aerodromes.py:71-86 | a code is kept exactly when some line supplies it; every kept timezone is non-empty and not one of the invalid values |
| Sync.OverrideLookup | sync_aerodromes.py:118 | every override that carries a code is looked up under that code, and the override found under a code carries that code |
| Sync.LastOverrideWins | sync_aerodromes.py:118 | the override lookup holds the codes of the overrides that carry one, and under each code the last such override |
| Sync.PrimaryEntry | sync_aerodromes.py:121-144 | a primary record keeps its code; name and country come from the override where it gives them, else from the primary feed; the timezone is the one from the source the counters attribute it to: the override's (default UTC), the non-empty secondary one, or the country fallback |
| Sync.PrimaryEntryFromOverrides | sync_aerodromes.py:118-144 | stated through the override list: the last override naming a primary code gives its name, country and timezone where it has them; a code no override names keeps the primary name and country and takes the secondary timezone, or the fallback when that is missing or empty |
| Sync.NewEntry | sync_aerodromes.py:150-156 | a record for a new code is the override's code, with its name, country and timezone where given and '', '' and UTC otherwise |
| Sync.AddedEntries | sync_aerodromes.py:148-157 | at most one record per override is appended, and only for codes not among the primary codes |
| Sync.NewOverrideAppended | sync_aerodromes.py:148-157 | every override whose code is not a primary code is appended as its own record |
| Sync.AppendedFromOverride | sync_aerodromes.py:148-157 | every appended record is the record of an override whose code is not a primary code |
| Sync.AppendedInOrder | sync_aerodromes.py:148-157 | the records of two such overrides are appended in override order |
| Sync.AddedEntriesCount | sync_aerodromes.py:148-157 | a code that is not a primary code gets exactly as many appended records as there are overrides naming it |
| Sync.AppendNewOverrides | sync_aerodromes.py:148-158 | the second pass appends exactly those records, in override order, and counts them |
| Sync.PrimaryRecords | sync_aerodromes.py:120-146 | the first pass yields one record per primary code (override fields first, then the secondary timezone, then the country fallback), with each counter equal to the number of codes whose timezone came from its source |
| Sync.BuildRegistry | sync_aerodromes.py:113-162 | the result is sorted by code; each primary code has exactly its primary record; every other code has the records appended for it; the stats are the expected counters |
| Sync.StatsPartitionPrimary | sync_aerodromes.py:120-137 | matched + fallback + overridden is the number of primary codes |
| Sync.SourcesPartition | sync_aerodromes.py:121-137 | the three timezone sources split the primary codes |
| Sync.RegistrySize | sync_aerodromes.py:113-162 | the registry length is the sum of all four counters |
| Sync.RegistryIsDetermined | sync_aerodromes.py:120-161 | the output does not depend on the order in which the primary dict is walked |
| Sync.RegistryMember | sync_aerodromes.py:120-157 | every record is the primary record of its code or an appended override record |
| Sync.OverrideShadowsTimezoneSources | sync_aerodromes.py:121-129 | an overridden code takes its timezone from the override (default UTC), never from the secondary map or the fallback |
| Sync.AddedEntriesDistinct | sync_aerodromes.py:148-157 | the appended records have distinct codes exactly when no two overrides name one new code |
| Sync.RegistryRecordFields | sync_aerodromes.py:118-157 | each field of each registry record comes from where the precedence rules say: the last override naming a primary code, else the primary feed with the secondary timezone or the fallback; a non-primary code carries an override's fields with the '', '' and UTC defaults |
| Sync.RegistryDistinct | sync_aerodromes.py:113-162 | the registry has no repeated code exactly when no two overrides name one code that is not a primary code |
| Sync.NewCodeRepeated | sync_aerodromes.py:148-157 | a code repeated among the appended records is repeated in the registry |
| Sync.RegistryOfAppended | sync_aerodromes.py:113-162 | with no primary codes and the appended records in code order, the registry is exactly those records |
| Sync.RepeatedNewOverrideDuplicates | sync_aerodromes.py:148-157 | two overrides for one new code both get appended, because the set of existing codes is computed once, before the second pass |
| Sync.TimezonesPopulated | sync_aerodromes.py:127-155 | if the fallback always answers and no override sets an empty timezone, no record has an empty timezone |
| Sync.AssembleDocument | sync_aerodromes.py:192-197 | the document carries the caller's version and timestamp, the registry, and the registry's length as `total_count` |
| Aerodromes.SortByIcao | sync_aerodromes.py:161 | the sort gives a permutation in ascending code order that keeps the relative order of records with equal codes |
| Aerodromes.SortedWithSameGroupsEqual | sync_aerodromes.py:161 | two sorted lists with the same records per code, in the same order, are equal |
| Aerodromes.DistinctIcaosIff | validate.py:37-41 | codes are distinct exactly when no code has two records |
| Keyed.LastWinsKeys | review_changes.py:29 | a key is in a dict built item by item exactly when some item yields it |
| Keyed.LastWinsValue | review_changes.py:29 | the value under a key comes from the last item that yields that key |
| Release.CheckKeys | release.py:35-38 | reports all present exactly when each key is `in` the container; otherwise reports the first absent key, or the TypeError of `in` on a non-container |
| Release.CheckStaging | release.py:27-65 | a missing file and an unparsable one are reported exactly in those cases; a file that is not UTF-8 raises; a document that passes is an object; a reported missing field is one of the required ones and is absent |
| Release.ValidateStagingIff | release.py:27-65 | the staging file passes exactly when it parses to an object with the four fields, a list `aerodromes` whose length equals `total_count`, and a first record (if any) with the four record fields |
| Release.FirstMissingFieldReported | release.py:33-38 | the first absent top-level field, in the order version, last_updated, total_count, aerodromes, is the one reported |
| Release.OnlyFirstRecordChecked | release.py:48-55 | records after the first never change the verdict |
| Release.EmptyListPasses | release.py:44-58 | an empty list with `total_count` 0 passes |
| Release.AssembledDocumentPasses | release.py:27-58 | every staging document the sync step writes passes validation |
| Release.BackupPathIsNotLive | release.py:18-19 | a backup path is never the production or the staging path |
| Release.LivePathsAreNotBackups | release.py:140 | the rollback glob never picks the production or the staging file |
| Release.BackupPathMatches | release.py:19 | a backup named from a stamp without a slash is matched by the rollback glob |
| Release.Stamp | release.py:111 | the stamp adds or replaces `released_at` and keeps every other field |
| Release.StampTwice | release.py:111 | stamping again replaces the earlier stamp and nothing else |
| Release.ReleaseGate | release.py:76-97 | the release goes ahead exactly when staging passes validation and the release is forced or confirmed with yes or y; otherwise it reports a missing staging file, else the failed validation verdict, else the refused confirmation |
| Release.AfterRelease | release.py:97-115 | after a release the old production survives in the new backup, production is the staging document plus its stamp, staging is untouched, and no other path changes |
| Release.ReleasedDocumentPasses | release.py:104-115 | the released production document itself passes the staging validation |
| Release.BackupFiles | release.py:140 | the candidate set is exactly the stored paths the glob matches |
| Release.SortedDescending | release.py:140 | every matching path appears once, greatest first |
| Release.Offered | release.py:146 | the number offered is the number of backups, capped at five |
| Release.FirstCandidateIsGreatest | release.py:140-147 | the first backup listed is the greatest matching path |
| Release.SelectBackup | release.py:150-158 | `cancel`, in any case and with blanks around it, cancels; a chosen index k-1 comes only from an answer that reads as k, with k at most the number offered |
| Release.SelectByNumber | release.py:155-158 | an answer that reads as k selects index k-1 when 1 <= k <= offered, and otherwise is out of range |
| Release.TypedNumberReads | release.py:147-155 | the number printed next to a backup, typed back, reads as that number |
| Release.ChooseByNumber | release.py:155-171 | answering k and then yes restores the k-th listed backup |
| Release.NothingBeyondFifth | release.py:146-158 | no number beyond five restores anything |
| Release.Choose | release.py:146-171 | only one of the first five listed backups is ever restored, and only after yes |
| Release.CancelRestoresNothing | release.py:150-153 | answering cancel restores nothing |
| Release.RollbackPlan | release.py:132-173 | the rollback stops for a missing backups directory exactly when it is missing, and for a lack of backups exactly when the directory exists but holds no backup file |
| Release.RollbackRestoresBackup | release.py:132-173 | a rollback needs the backups directory and a yes, and it restores a stored backup file, one of the five newest |
| Release.RollbackByNumber | release.py:132-173 | with the directory present and at least k backups offered, answering k and then yes restores the k-th newest backup |
| Release.FileStore.BackupProduction | release.py:13-25 | with a production file, it is copied to the stamped backup path and the backups directory exists; without one, nothing changes and "" is returned |
| Release.FileStore.ReleaseToProduction | release.py:67-130 | a rejected release changes nothing; otherwise the store becomes the released state and the backup path is returned |
| Release.FileStore.Promote | release.py:97-115 | back up production, copy staging over it, and stamp the copy |
| Release.FileStore.RollbackProduction | release.py:132-180 | the outcome is what the store and the two answers decide; a missing backups directory means no backup file exists; on success only production changes, to the chosen backup's content |
| Review.LoadJson | review_changes.py:13-23 | a missing or unparsable file reads as the empty dict; a file that is not UTF-8, and only such a file, raises an error no handler catches |
| Review.EmptyOrMissingGivesEmpty | review_changes.py:27-28 | an empty document, or one without `aerodromes`, gives the empty dict |
| Review.GetAerodromeDict | review_changes.py:25-29 | a falsy document gives the empty dict; a non-empty dict comes only from a dict document holding `aerodromes`; every record in the dict sits under its own `icao` |
| Review.LastDuplicateWins | review_changes.py:29 | the dict exists exactly when every record has a hashable `icao`; a code is a key exactly when some record carries it; the record kept is the last one with that code |
| Review.KeyedByOwnIcao | review_changes.py:29 | every record sits under its own `icao` |
| Review.RegistryDocumentKeys | review_changes.py:25-29 | a registry document the sync step writes is keyed by exactly its records' codes |
| Review.CollectChanged | review_changes.py:83-91 | the changed list holds each common code whose records differ, once |
| Review.Summarize | review_changes.py:50-91 | the counts, net change, new codes (staging only), removed codes (production only) and changed codes |
| Review.CompareAerodromes | review_changes.py:31-128 | a file that is not UTF-8 stops the run; falsy staging data stops it before any set is computed; a keying error stops it; otherwise it gives the summary, plus the recommendation when both documents are dicts |
| Review.ChangedCount | review_changes.py:117 | the changed list is as long as the set of changed codes |
| Review.Recommend | review_changes.py:117-128 | the total is the sum of the three counts; "no changes" holds exactly when all three are zero; a warning fires only when there are changes |
| Review.WarningThresholds | review_changes.py:125-128 | the removal warning fires exactly above 100 removals, the addition warning exactly above 1000 additions |
| Review.SectionsPartition | review_changes.py:61-91 | new, removed and changed codes are pairwise disjoint, and all of them come from the two documents |
| Review.NoChangesIffIdentical | review_changes.py:117-119 | "no changes" is reported exactly when the two dicts are equal |
| Review.SwapSymmetry | review_changes.py:61-91 | swapping the documents swaps new and removed and keeps changed and the total |
| Review.NetChangeBalance | review_changes.py:57-72 | the net change is the number of new codes minus the number of removed codes |
| Integrity.IcaoValues | validate.py:37 | the code list exists exactly when every record is a dict with `icao`, and it lists those values in order |
| Integrity.DuplicateCodesExact | validate.py:38 | a code is reported exactly when it occurs and two positions carry values equal to it under Python's `==`, where `True` equals `1` |
| Integrity.CountAtLeastTwo | validate.py:38 | `count(code) > 1` exactly when two positions carry values equal to the code under Python's `==` |
| Integrity.NoDuplicatesIffDistinct | validate.py:37-41 | the duplicates list is empty exactly when no two codes are equal under Python's `==` |
| Integrity.OneAndTrueAreDuplicates | validate.py:37-41 | records keyed `1` and `true` are reported as duplicates, because Python's `1 == True` |
| Integrity.PostSchemaChecks | validate.py:26-44 | a document passes only if its list length equals `total_count` and no two of its `icao` values are equal under Python's `==`; a count failure reports the actual length, which differs from `total_count`; a duplicates failure names at least one code |
| Integrity.CountMismatchFails | validate.py:31-34 | a declared count that differs from the list length fails, whatever the records hold |
| Integrity.ListVerdict | validate.py:31-44 | a list of records passes exactly when the count matches, every code is hashable and no two codes are equal under Python's `==`; with a matching count and hashable codes, the failure lists exactly the codes that have an equal partner |
| Integrity.ValidateAerodromeData | validate.py:11-61 | True exactly when both files load, the schema accepts the data, and the count and duplicate checks pass; every other path, a file that is not UTF-8 included, returns False |
| JsonValues.EqualsIntIsEqualityKey | validate.py:32 | comparing with an integer is Python's `==`, under which `True` is `1` and `False` is `0` |
| Integrity.DistinctRegistryPasses | validate.py:31-44 | a registry document with distinct codes passes the checks after the schema |
| Integrity.SyncOutputPasses | validate.py:31-44 | the registry that build_registry produces passes the checks after the schema when no two overrides name one code that is not a primary code |
| Text.JoinSplit | sync_aerodromes.py:71 | joining the pieces of a split gives the text back |
| Text.SplitJoin | sync_aerodromes.py:76 | splitting the join of pieces free of the separator gives the pieces back |
| Text.ParseIntOfNatToString | release.py:155 | `int()` reads back any non-negative number's decimal form |

## Intended behaviour versus code

Where the intended behaviour and the code differ, the model follows the
code:

- The intended behaviour is that every `icao` is a valid ICAO code, four
  upper-case letters; sync_aerodromes.py:37 calls the result a valid ICAO
  code. The code accepts any 4-character `icao_code` cell and any 4-letter
  `ident`, lower-case letters included (`Sync.IcaoCodeTakesPriority`).
- The intended behaviour is that the output never repeats an `icao`;
  validate.py:36-41 rejects a registry that does. The code appends two
  overrides that name the same new code twice
  (`Sync.RepeatedNewOverrideDuplicates`). The registry has distinct codes
  exactly when no two overrides name one code that is not a primary code
  (`Sync.RegistryDistinct`).
- The intended behaviour is that validation reports every failed check.
  The code stops at the first failed check, both in `validate_staging` and
  in `validate_aerodrome_data`.
- The intended behaviour is that backups are listed newest first, as the
  comment at release.py:146 ("Show last 5 backups") says. The code sorts
  their paths in reverse lexicographic order. For the fixed-width stamps
  `backup_production` writes, the two orders agree.

## Left out

- Network downloads, CSV tokenising (`csv.DictReader`), console output
  and console input are not modelled. Rows arrive as maps from column to
  cell, and prompt answers arrive as strings.
- The clock is a parameter. The stamps `backup_production` and the
  release write are passed in.
- Latitude and longitude are not carried, because they never reach the
  registry. So a cell `float()` rejects, which aborts the sync in the
  code, is not modelled.
- `load_aerodrome_overrides` and reading the `VERSION` file are not
  modelled. Overrides arrive as a sequence, the version as a string.
  Overrides are records of optional strings, so an override field that
  holds JSON `null` or a non-string is not modelled.
- `get_fallback_timezone` (the country table) is not part of this model.
  It is a parameter `fallback`.
- The JSON schema check (`jsonschema.validate`) is a foreign library. It
  is a parameter `accepts(schema, instance)`.
- JSON numbers are integers only, so floats such as `1.0` are not
  modelled. Python's equality between `True` and `1` (and `False` and `0`)
  is modelled in the two count checks (`JsonValues.EqualsInt`) and in the
  duplicate check of `validate.py` (`JsonValues.EqualityKey`). It is not
  modelled in the review: dict keys and record equality there are
  structural. So a record that differs only by `1`
  versus `true` counts as changed, and a key `1` is a different key from
  `true`.
- Strings are sequences of characters. `strip`, `lower` and `isalpha`
  cover ASCII only. Unicode whitespace, case mapping and letters are not
  modelled. `Text.ParseInt` reads ASCII digits only, while Python's
  `int()` also reads other Unicode decimal digits such as a full-width
  `３`; such an answer to the rollback prompt is read as not a number.
- Exceptions are modelled as outcomes. An uncaught `TypeError` or
  `KeyError` in `validate_staging` is the `Raised` verdict; one in the
  review's keying is `Crashed`; one in `validate.py` is `Raised`. A file
  that is not UTF-8 (`Undecodable`) raises `UnicodeDecodeError`, which the
  `JSONDecodeError` handlers do not catch: it is `Raised` in
  `validate_staging`, `Crashed` in the review, and `Raised` in
  `validate.py`, whose `except Exception` catches it. The
  outcomes name the check that failed, not the message printed.
- Errors while reading or writing a file partway through a release or a
  rollback are not modelled. Neither are concurrent writers to the
  working directory, nor a directory standing where a file is expected.
- Integrity.PostSchemaChecks: the `Duplicates` verdict holds every code
  value that has an equal partner, so both `1` and `true`. Python's list
  holds one value per group of equal codes, whichever one the set kept.
  Only the printed warning differs; the verdict is the same.
- Review.CompareAerodromes: the printing of the first ten sorted codes
  per section is not modelled. In the code that printing can raise, when
  codes of mixed types cannot be sorted or a listed record lacks `name`
  or `country`, and then the run stops before the recommendation; the
  model always reaches it.
- Review.CollectChanged: the order of the changed list follows Python's
  set iteration order, which is unspecified. The model promises the
  list's elements and that none repeats, not their order.
