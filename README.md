# Ultra-2 validation: a verified model of the SSNIT mapping and schedule passes

Ultra-2 Validation is a Streamlit dashboard that reconciles pension payroll
schedules with a company's member records. Members are identified by their
SSNIT number. The dashboard:

- merges a lookup table (`vlookup_<company>.xlsx`) with an uploaded master
  report into one SSNIT-keyed mapping of account numbers and names;
- writes the mapped account number and names into every schedule row whose
  SSNIT it knows, and lists the rows whose SSNIT it does not know;
- turns a schedule into a fixed output layout;
- screens the lookup table and each schedule for duplicate names, account
  numbers and SSNITs;
- renames each processed schedule to carry its tier-2 total.

This project models that logic in Dafny and proves what it promises. The
modules follow the program's pieces:

| module | file | what it models |
|---|---|---|
| `Text` | text.dfy | cell text (`astype(str)`, where a missing cell reads `nan`), Python `str.strip()` with the full `str.isspace` set, `upper()`/`lower()`, prefix and suffix tests |
| `Seqs` | seqs.dfy | mapping a function over a sequence, and permutation lemmas about it |
| `Names` | names.dfy | `str.split()`, Python's string order, `sorted`, `' '.join`, and `standardize_name` |
| `Mapping` | mapping.dfy | the current `create_comprehensive_mapping`, the definition that shadows the first one at module level; its loops are a method proved against the merge function |
| `LegacyMapping` | legacy.dfy | the first `create_comprehensive_mapping` and the merge written inline in the validation page; both fill every blank field of an existing entry |
| `FileNames` | filenames.dfy | the file-selection filters of the pages, `os.path.splitext`, the two-decimal total in integer cents, and the Append Total renaming loop |
| `Annotation` | annotation.dfy | the row loop of `process_schedule_files` over a schedule held in an array, the pass over a folder's schedules, and `process_dataframe` |
| `Duplicates` | duplicates.dfy | `duplicated(keep=False)` and the row selection it drives, the keys of the three duplicate screens, the account standardisation of `check_individual_schedule_duplicates`, and the name groups of `multiple_ssnit` |

The source's loops become methods with loop invariants:
`Mapping.CreateComprehensiveMapping`, `LegacyMapping.CreateLegacyMapping`,
`LegacyMapping.BuildValidationLookup`, `Annotation.AnnotateSheet`,
`Annotation.ProcessScheduleFiles`, `FileNames.AppendTotal` and
`Duplicates.DuplicateGroups`. Each is proved equal to a function, and the
properties are proved about that function. Expressions and comprehensions
become functions and lemmas.

The current `create_comprehensive_mapping` (ultra2_validation_dash.py:1312-1313)
and `process_schedule_files` (ultra2_validation_dash.py:1366) call
`.str.strip().upper()` on a pandas Series. That raises AttributeError. The
model follows the evident intent: strip, then upper-case (`Mapping.Key`).

## Model

| member | source | states |
|---|---|---|
| Text.TrimSpec | ultra2_validation_dash.py:1312-1313 | `strip()` returns a contiguous slice of its input; the slice neither starts nor ends with whitespace; everything removed before and after it is whitespace |
| Text.LeadEndSpec | ultra2_validation_dash.py:1312 | the leading scan stops at the first non-whitespace character, or at the end, and passes only whitespace |
| Text.TrailStartSpec | ultra2_validation_dash.py:1312 | the trailing scan stops after the last non-whitespace character, or at its lower bound, and passes only whitespace |
| Text.TrimStripped | ultra2_validation_dash.py:1320-1321 | stripping text that neither starts nor ends with whitespace changes nothing |
| Text.TrimIdempotent | ultra2_validation_dash.py:1320-1321 | stripping twice equals stripping once, so the guard's second `strip()` sees the stored key unchanged |
| Text.RemoveChar | ultra2_validation_dash.py:1191 | `replace(',', '')` leaves no comma and keeps the count of every other character |
| Text.RemoveCharConcat | ultra2_validation_dash.py:1191 | removing commas works piece by piece: the text of a concatenation is the concatenation of the texts, so the other characters keep their order |
| Text.RemoveCharAbsent | ultra2_validation_dash.py:1191 | text without a comma is left exactly as it is |
| Names.WordLen | ultra2_validation_dash.py:1123 | the first word runs up to the first whitespace character or the end, and holds no whitespace |
| Names.WordsAreWords | ultra2_validation_dash.py:1123 | every word `split()` returns is non-empty and holds no whitespace; the words of upper-case text are upper-case |
| Names.WordsSpaceConcat | ultra2_validation_dash.py:326 | splitting two texts joined by one space gives the words of the first followed by the words of the second |
| Names.WordsUpper | ultra2_validation_dash.py:1123 | upper-casing then splitting equals splitting then upper-casing each word |
| Names.WordsOfJoin | ultra2_validation_dash.py:1123 | splitting words joined with single spaces gives the same words back |
| Names.JoinUpper | ultra2_validation_dash.py:1123 | joining upper-case words gives upper-case text |
| Names.BelowReflexive | ultra2_validation_dash.py:1123 | Python's string `<=` is reflexive |
| Names.BelowTotal | ultra2_validation_dash.py:1123 | any two strings are ordered one way or the other |
| Names.BelowAntisymmetric | ultra2_validation_dash.py:1123 | two strings each `<=` the other are equal |
| Names.BelowTransitive | ultra2_validation_dash.py:1123 | the string order is transitive |
| Names.Insert | ultra2_validation_dash.py:1123 | inserting into a sorted list keeps it sorted and adds exactly the one element |
| Names.SortWords | ultra2_validation_dash.py:1123 | `sorted` returns a sorted permutation of its input |
| Names.SortedUnique | ultra2_validation_dash.py:1123 | two sorted permutations of the same words are equal, so `sorted` has one possible result |
| Names.SortedName | ultra2_validation_dash.py:327 | `' '.join(sorted(x.split()))`: its words are sorted, are the input's words as a multiset, are joined by single spaces, and are upper-case when the input is |
| Names.SortedNameWordOrder | ultra2_validation_dash.py:327 | two names get the same sorted form exactly when they hold the same words with the same counts, whatever their order and spacing |
| Names.StandardizeName | ultra2_validation_dash.py:1121-1123 | the result is upper-case, its words are sorted, are the upper-cased name's words as a multiset, and are joined by single spaces |
| Names.StandardizeNameWordOrder | ultra2_validation_dash.py:1121-1123 | names with the same words, in any order and spacing, standardise to the same text |
| Names.StandardizeNameIdempotent | ultra2_validation_dash.py:1121-1123 | standardising twice equals standardising once |
| Mapping.KeyIsNormal | ultra2_validation_dash.py:1312-1313 | a normalised SSNIT is already stripped and upper-case |
| Mapping.KeyGuard | ultra2_validation_dash.py:1320-1321 | the guard on a normalised key is the same as "not 'NAN', not 'NONE', not empty": its `strip()` test adds nothing |
| Mapping.CreateComprehensiveMapping | ultra2_validation_dash.py:1307-1348 | the two loops build exactly the merge function's map, and every key in it passes the guard, is stripped and is upper-case |
| Mapping.LookupSnoc | ultra2_validation_dash.py:1319-1328 | one lookup-loop iteration writes the row's entry under its key exactly when the key passes the guard |
| Mapping.MasterSnoc | ultra2_validation_dash.py:1331-1346 | one master-loop iteration is one merge step |
| Mapping.MasterStepAt | ultra2_validation_dash.py:1332-1346 | a master row leaves other keys untouched; for its own key it adds a 'Master' entry when absent, else fills only an empty account number |
| Mapping.FilledTwice | ultra2_validation_dash.py:1345-1346 | two fills of the account number keep the first non-empty offer |
| Mapping.LookupPassAt | ultra2_validation_dash.py:1319-1328 | after the lookup loop, a valid key holds the entry of its last lookup row; any other key keeps what it had |
| Mapping.MasterPassAt | ultra2_validation_dash.py:1331-1346 | after the master loop, an existing entry gets the first non-empty account number offered; a new key appears exactly when a master row has it, built from the first such row |
| Mapping.MasterPassInvalid | ultra2_validation_dash.py:1333 | the master loop never touches a key that fails the guard |
| Mapping.NoMasterNoAccount | ultra2_validation_dash.py:1343-1346 | no master row with the key means no account number offered |
| Mapping.MappingAt | ultra2_validation_dash.py:1307-1348 | a key is in the mapping exactly when it passes the guard and some row of either source has it; its entry is the last lookup row's, or else the first master row's, with the account number filled from the first non-empty master offer |
| Mapping.LastLookupAt | ultra2_validation_dash.py:1319-1328 | the last lookup row with a key is the one with no later row sharing it |
| Mapping.LastLookupNone | ultra2_validation_dash.py:1319-1328 | there is no lookup row for a key exactly when no row has it |
| Mapping.FirstMasterAt | ultra2_validation_dash.py:1334-1341 | the first master row with a key is the one with no earlier row sharing it |
| Mapping.FirstMasterNone | ultra2_validation_dash.py:1334-1341 | there is no master row for a key exactly when no row has it |
| Mapping.FirstAccountAt | ultra2_validation_dash.py:1343-1346 | the account number filled in is that of the first master row with the key and a non-empty account number |
| Mapping.FirstAccountNone | ultra2_validation_dash.py:1343-1346 | when every master row with the key has an empty account number, none is filled in |
| Mapping.MappingKeySet | ultra2_validation_dash.py:1319-1341 | the mapping's keys are exactly the valid keys of the lookup rows together with those of the master rows |
| Mapping.MappingKeysValid | ultra2_validation_dash.py:1320-1333 | no key is empty, 'NAN' or 'NONE', and every key is stripped and upper-case |
| Mapping.LookupRowWins | ultra2_validation_dash.py:1319-1346 | a key's last lookup row decides its names and a non-empty account number, and the entry is tagged 'VLOOKUP'; a master row overwrites none of these |
| Mapping.EmptyAccountFilled | ultra2_validation_dash.py:1343-1346 | an empty lookup account number is filled from the first master row with the key and a non-empty Client Account Number |
| Mapping.EmptyAccountUnfilled | ultra2_validation_dash.py:1343-1346 | with no non-empty master account number for the key, the account number stays empty |
| Mapping.MasterOnlyEntry | ultra2_validation_dash.py:1334-1346 | a key that only master rows have is tagged 'Master', takes its names from the first such row, and takes the first non-empty account number they offer |
| LegacyMapping.CreateLegacyMapping | ultra2_validation_dash.py:1125-1170 | the first definition's loops build exactly the legacy merge, and every key is non-empty and stripped |
| LegacyMapping.BuildValidationLookup | ultra2_validation_dash.py:736-766 | the inline loops build exactly the inline merge, without source tags |
| LegacyMapping.FillBlanks | ultra2_validation_dash.py:1158-1168 | the four `if not entry[...]` updates fill exactly the blank fields from the master row |
| LegacyMapping.AddLookupSnoc | ultra2_validation_dash.py:1134-1143 | one lookup iteration writes the row's tagged record exactly when the variant admits its key |
| LegacyMapping.AddMasterSnoc | ultra2_validation_dash.py:1146-1168 | one master iteration is one merge step |
| LegacyMapping.FillFromGet | ultra2_validation_dash.py:1158-1168 | each field of a filled entry is its old value when truthy, else the master row's offer |
| LegacyMapping.SettleKeeps | ultra2_validation_dash.py:1158-1168 | a truthy field is never overwritten by later master rows |
| LegacyMapping.SettleAllBlank | ultra2_validation_dash.py:1158-1168 | when nothing truthy is offered, a blank field ends with the last offer, or itself when there is none |
| LegacyMapping.SettleFirstTruthy | ultra2_validation_dash.py:1158-1168 | a blank field ends with the first truthy offer |
| LegacyMapping.MasterStepExisting | ultra2_validation_dash.py:1146-1168 | a master row keeps an existing entry's tag and changes a field only when the row has the entry's key |
| LegacyMapping.MasterPassExisting | ultra2_validation_dash.py:1146-1168 | after the master loop, each field of an existing entry has settled over the offers of the master rows with its key |
| LegacyMapping.MasterPassAbsent | ultra2_validation_dash.py:1146-1168 | a key no master row has, or one the variant rejects, is left as it was |
| LegacyMapping.AddMasterConcat | ultra2_validation_dash.py:1146-1168 | the master loop over two runs of rows is the loop over the first run, then over the second |
| LegacyMapping.LookupPassAt | ultra2_validation_dash.py:1134-1143 | after the lookup loop, an admitted key holds its last row's record tagged 'VLOOKUP' |
| LegacyMapping.LookupPassAbsent | ultra2_validation_dash.py:1134-1143 | a key no lookup row has, or one the variant rejects, is left as it was |
| LegacyMapping.LookupKeysOf | ultra2_validation_dash.py:1134-1143 | the lookup loop adds exactly the admitted lookup keys |
| LegacyMapping.MasterKeysOf | ultra2_validation_dash.py:1146-1157 | the master loop adds exactly the admitted master keys |
| LegacyMapping.MergeKeySet | ultra2_validation_dash.py:1125-1170 | the merge's keys are exactly the admitted keys of both sources |
| LegacyMapping.LegacyKeysStripped | ultra2_validation_dash.py:1130-1148 | the first definition never stores an empty or unstripped key |
| LegacyMapping.MissingSsnitKeyedNan | ultra2_validation_dash.py:1130-1137 | a lookup row with a missing SSNIT is stored under the key "nan" in both variants |
| LegacyMapping.LookupEntry | ultra2_validation_dash.py:1134-1168 | a key from the lookup table is tagged 'VLOOKUP', and each field is its last lookup row's value settled over the master offers |
| LegacyMapping.LookupValueKept | ultra2_validation_dash.py:1158-1168 | a truthy field from the lookup table survives the master loop |
| LegacyMapping.LookupBlankFilled | ultra2_validation_dash.py:1158-1168 | a blank lookup field takes the first truthy master offer |
| LegacyMapping.MasterOnlyEntry | ultra2_validation_dash.py:1146-1168 | a key only master rows have is tagged 'Master', and each field is its first row's value settled over the later rows' offers |
| LegacyMapping.FirstMasterRow | ultra2_validation_dash.py:1149-1157 | the first master row with a new key stores its own record tagged 'Master' |
| FileNames.AppendCandidateIsScheduleFile | ultra2_validation_dash.py:884-886 | every file the Append Total page renames is also a file the other pages select |
| FileNames.SchedulePrefixShape | ultra2_validation_dash.py:772-773 | a name skipped by the schedule filter holds `_` or starts with a prefix the scan filter skips |
| FileNames.ScanPrefixIsSchedulePrefix | ultra2_validation_dash.py:369-370 | every prefix the scan filter skips is also skipped by the schedule filter |
| FileNames.ScheduleFileIsScanFile | ultra2_validation_dash.py:1210-1211 | a file the schedule pages select is also selected by the duplicate-name scan |
| FileNames.GeneratedFilesSkipped | ultra2_validation_dash.py:884-886 | the generated `vlookup_` and `duplicate_ssnit_` workbooks are selected by no page |
| FileNames.LastIndex | ultra2_validation_dash.py:940 | finds the last occurrence of a character, or reports that there is none |
| FileNames.SplitExtSpec | ultra2_validation_dash.py:940 | `splitext` splits a name into root and extension that concatenate back to it; the extension is empty or one dot and no further dots, and the root is not all dots |
| FileNames.SplitExtXlsx | ultra2_validation_dash.py:940 | the extension of a `.xlsx` name is `.xlsx` |
| FileNames.Decimal | ultra2_validation_dash.py:937 | a decimal numeral is a non-empty string of digits with no leading zero; it starts with `0` only for zero, and is then just `"0"` |
| FileNames.DecimalValue | ultra2_validation_dash.py:937 | reading a numeral back gives the number |
| FileNames.FormatCents | ultra2_validation_dash.py:937 | the two-decimal total holds no `_` |
| FileNames.ParseFormatCents | ultra2_validation_dash.py:937 | the two-decimal text of a cent amount reads back as that amount, negative amounts included |
| FileNames.RenamedNotCandidate | ultra2_validation_dash.py:940-942 | a renamed file is never a candidate for renaming again |
| FileNames.AppendedNameRoundTrip | ultra2_validation_dash.py:940-942 | the new name can be split back into the old root and the total |
| FileNames.ParseNameParts | ultra2_validation_dash.py:942 | a name of the form root `_` amount `.xlsx` parses to its root and amount |
| FileNames.Candidates | ultra2_validation_dash.py:884-886 | the candidates are exactly the folder's files that pass the Append Total filter |
| FileNames.CountProcessed | ultra2_validation_dash.py:949 | no more files are processed than there are |
| FileNames.AppendTotal | ultra2_validation_dash.py:918-949 | each file's status and new name are those of its own outcome, and `processed_count` counts the processed files |
| FileNames.NameAfterRoundTrip | ultra2_validation_dash.py:940-946 | a processed file's new name parses back to its root and its total |
| FileNames.SecondRunSkipsRenamed | ultra2_validation_dash.py:884-886 | on a second run the only candidates are files that failed the first time, unchanged |
| Annotation.NormalizeSsnitColumn | ultra2_validation_dash.py:1366 | the `ssnit` column is normalised in every row and nothing else changes |
| Annotation.RowStep | ultra2_validation_dash.py:1374-1393 | a row is overwritten exactly when its key is valid and maps to a non-empty account number, and then exactly its four identity columns take the entry's values; a row is listed as unmapped exactly when its key is valid and not in the mapping |
| Annotation.UnmappedRecordsSnoc | ultra2_validation_dash.py:1387-1393 | one row adds exactly one `{file, ssnit, row = idx + 1}` record when it is unmapped, and none otherwise |
| Annotation.AnnotateSheet | ultra2_validation_dash.py:1366-1393 | the row loop leaves the schedule annotated row by row; `changes_made` holds exactly when some row was overwritten; the unmapped list is `UnmappedRecords` of the original rows, in row order |
| Annotation.AnnotatedColumns | ultra2_validation_dash.py:1378-1386 | an overwritten row takes the entry's four identity values; `ssnit` is normalised; salary and every other column are untouched; any other row changes only in `ssnit` |
| Annotation.EmptyAccountRowKept | ultra2_validation_dash.py:1380-1381 | a row whose entry has an empty account number is neither overwritten nor listed as unmapped |
| Annotation.UnmappedRecordsSound | ultra2_validation_dash.py:1387-1393 | every unmapped record names this file, an unmapped row's key, and that row's index plus one |
| Annotation.UnmappedRecordsOrdered | ultra2_validation_dash.py:1373-1393 | the unmapped records come in strictly increasing row order |
| Annotation.UnmappedRecordsComplete | ultra2_validation_dash.py:1387-1393 | every unmapped row has its record in the list |
| Annotation.UnmappedRecordAt | ultra2_validation_dash.py:1387-1393 | an unmapped row at a given index has its record in the list |
| Annotation.UnmappedIffNoSourceRow | ultra2_validation_dash.py:1378-1393 | with the comprehensive mapping, a row with a valid key is unmapped exactly when no lookup row and no master row has its key |
| Annotation.ProcessScheduleFiles | ultra2_validation_dash.py:1350-1415 | the pass over the files returns exactly `ProcessFiles`: per file in turn, its name and written sheet when it was modified and saved, and its unmapped records |
| Annotation.ModifiedFilesSpec | ultra2_validation_dash.py:1395-1398 | a file is listed as modified exactly when it was updated and written back, and one written sheet goes with each listed name |
| Annotation.GatherModified | ultra2_validation_dash.py:1395-1401 | gathering per-file outcomes lists a name exactly when one of its files was modified |
| Annotation.ResultsFromScheduleFiles | ultra2_validation_dash.py:1357-1358 | only files that pass the schedule filter appear among the modified files or the unmapped records |
| Annotation.UnmappedRecordsFile | ultra2_validation_dash.py:1389-1401 | every unmapped record of a file names that file |
| Annotation.ProcessDataframeShape | ultra2_validation_dash.py:1172-1195 | for `process_dataframe` as written and for the version that normalises the SSNIT: a missing `ssnit` or `salary` column is reported; otherwise the output has exactly the seven columns in order, one row per input row, and `tier1` zero throughout |
| Annotation.ProcessDataframeRow | ultra2_validation_dash.py:1178-1189 | row by row, for `process_dataframe` as written (looked up by the stripped SSNIT) and for the version that normalises it (looked up by `Key`): a mapped row takes the entry's four values; an unmapped row gets `#N/A` as its account number and empty names; `tier1` is zero and the salary text is the cell with its commas removed, then stripped |
| Annotation.ProcessDataframeAgreesWithAnnotation | ultra2_validation_dash.py:1185-1189 | for the version that normalises the SSNIT only: the output row agrees with the schedule annotation: the same values for an updated row, `#N/A` for an unmapped one |
| Annotation.LowercaseSsnitMissed | ultra2_validation_dash.py:1178 | a lower-case SSNIT that the mapping holds upper-cased gets `#N/A` as written, and its account number once normalised |
| Annotation.NormalizedFindsLookupRows | ultra2_validation_dash.py:1178-1189 | with normalised keys, a schedule row finds the account number of the last lookup row with its SSNIT |
| Duplicates.KeepFromAscending | ultra2_validation_dash.py:332 | the positions kept from a given one on ascend |
| Duplicates.KeepFromMembers | ultra2_validation_dash.py:332 | from a given position on, a row is kept exactly when another row has its key |
| Duplicates.KeepFalse | ultra2_validation_dash.py:332 | `duplicated(keep=False)` keeps, in their original order, exactly the rows whose key another row shares |
| Duplicates.TwinIffCount | ultra2_validation_dash.py:332 | a row has a twin exactly when its key occurs at least twice |
| Duplicates.KeepFromCount | ultra2_validation_dash.py:332 | from a given position on, a key occurring twice or more is selected as often as it occurs there, and any other key not at all |
| Duplicates.SelectedKeyCounts | ultra2_validation_dash.py:332 | the selected keys are every key that occurs at least twice, each as often as it occurs |
| Duplicates.SelectionPermutationInvariant | ultra2_validation_dash.py:328-332 | reordering the rows, as `sort_values` does, does not change which keys are selected or how often |
| Duplicates.FullNameWords | ultra2_validation_dash.py:326 | the words of the joined full name are the surname's, then the first name's, then the other names' |
| Duplicates.NameKeyIff | ultra2_validation_dash.py:326-327 | two rows share the sorted-name key exactly when their three name columns hold the same words with the same counts |
| Duplicates.NameKeyStable | ultra2_validation_dash.py:327 | the sorted-name key is already in sorted-name form |
| Duplicates.DuplicatesBy | ultra2_validation_dash.py:332 | the selected positions are in range and ascending, and are exactly those whose key another row shares |
| Duplicates.NameDuplicates | ultra2_validation_dash.py:326-332 | `multiple_ssnit` reports exactly the rows whose sorted-name key another row shares |
| Duplicates.AccountDuplicates | ultra2_validation_dash.py:436-442 | the account screen reports exactly the rows whose stripped, upper-cased account number another row shares |
| Duplicates.FullNameDuplicates | ultra2_validation_dash.py:437-445 | the name screen reports exactly the rows whose stripped, upper-cased joined name another row shares |
| Duplicates.ScheduleDuplicates | ultra2_validation_dash.py:1263-1264 | the schedule check reports exactly the rows whose stripped SSNIT another row shares |
| Duplicates.NameTwinsTogether | ultra2_validation_dash.py:332 | two rows with the same sorted-name key are both reported |
| Duplicates.NameDuplicatesPermutationInvariant | ultra2_validation_dash.py:326-332 | the sorted-name screen reports the same keys, as often, for any order of the lookup rows |
| Duplicates.FirstIndexOf | ultra2_validation_dash.py:1280 | `iloc[0]` finds the first position with the key |
| Duplicates.StandardizeSchedule | ultra2_validation_dash.py:1275-1284 | the standardised schedule has the same number of rows |
| Duplicates.StandardizeScheduleSpec | ultra2_validation_dash.py:1275-1284 | the `ssnit` column is stripped; rows sharing an SSNIT share an account number; the first row of each SSNIT keeps its own; no other column changes |
| Duplicates.StandardizeScheduleIdempotent | ultra2_validation_dash.py:1275-1284 | standardising a standardised schedule changes nothing |
| Duplicates.CheckScheduleDuplicates | ultra2_validation_dash.py:1260-1293 | a schedule is written back exactly when it has both an `ssnit` and an `accountno` column and a shared trimmed SSNIT; without `ssnit` it is skipped, and without `accountno` the KeyError is caught before the save; what is written keeps the columns and has its accounts standardised (`StandardizeSchedule`) |
| Duplicates.StandardizeScheduleKeys | ultra2_validation_dash.py:1263-1284 | standardising keeps every row's trimmed SSNIT |
| Duplicates.CheckScheduleRerun | ultra2_validation_dash.py:1260-1293 | checking a schedule the check saved saves the same schedule again |
| Duplicates.GroupsOfStep | ultra2_validation_dash.py:338-343 | one reported row adds its `Ssnit` cell to its name's group, creating the group if needed |
| Duplicates.GroupsOfKeys | ultra2_validation_dash.py:338-343 | a group exists exactly for each name of a reported row |
| Duplicates.GroupsOfMembers | ultra2_validation_dash.py:338-343 | each group holds exactly the `Ssnit` cells of the reported rows with its name |
| Duplicates.GroupsOfSpec | ultra2_validation_dash.py:338-343 | the grouping loop's result has exactly the groups, and exactly the members, of the reported rows |
| Duplicates.GroupsByPosition | ultra2_validation_dash.py:338-343 | groups and members, restated in terms of the reported positions |
| Duplicates.GroupDuplicates | ultra2_validation_dash.py:338-343 | the loop over the reported rows builds exactly those groups |
| Duplicates.GroupsOfShared | ultra2_validation_dash.py:332-343 | grouping the rows `duplicated(keep=False)` selects gives a group for exactly each key two rows share, holding the cells of every row with that key |
| Duplicates.DuplicateGroups | ultra2_validation_dash.py:326-343 | `duplicate_dict` has a group for exactly each `SortedFullName` two vlookup rows share, holding exactly the `Ssnit` cells of the rows with that name |

## Left out

- The Streamlit interface is not modelled: pages, widgets, progress bars, messages and session state.
- File and directory I/O is not modelled: `read_excel`, `to_excel`, `os.walk`, `os.listdir`, `os.rename`. A workbook is its rows, a failed read is `None`, and the success of a save or a rename is a parameter.
- Floating point is not modelled. The tier-2 sum and its `:.2f` text are integer cents (`FileNames.FormatCents`). The salary parse (`pd.to_numeric`) and `tier2 = salary * 0.05` are left out; the output row carries the cleaned salary text instead.
- Annotation.ProcessDataframeRow: does not state the `tier2` value, because the float product is not modelled.
- `upper()` and `lower()` are modelled on ASCII letters only; Python maps all of Unicode.
- `pd.notna` and `astype(str)` are modelled with `Option` cells, where a missing cell reads `nan`. Other pandas coercions are not modelled, such as numbers read from Excel turning into `12345.0`.
- The validation page's own annotation loop (ultra2_validation_dash.py:803-809) and its tier computation are not modelled. It writes every truthy field of the inline merge's entry into the matching rows; only the merge it uses is modelled (`LegacyMapping.BuildValidationLookup`).
- `check_and_standardize_accounts` (ultra2_validation_dash.py:1197-1244) and the `schedule_findings` scan that goes with the duplicate-name page are not modelled. They search and display, and change no data.
- Duplicates.KeepFalse: row order from `sort_values` is not modelled. `multiple_ssnit` sorts by `SortedFullName` before it selects (ultra2_validation_dash.py:327-331). `multiple_account_names` sorts each selection afterwards (ultra2_validation_dash.py:441, 444). `check_individual_schedule_duplicates` does not sort (ultra2_validation_dash.py:1264). The model returns positions in input order; `SelectionPermutationInvariant` shows that the selected keys do not depend on row order.
- The `len(duplicates) // 2` counts in the warnings and the display of `duplicate_dict` are not modelled.
- `create_comprehensive_mapping` also writes the normalised `Ssnit` column back into the caller's data frames. The model returns only the mapping.
- The AttributeError raised by `.str.strip().upper()` (ultra2_validation_dash.py:1312, 1366) is not modelled; the model strips, then upper-cases.
- FileNames.AppendTotal: assumes a rename succeeds or fails on its own. A rename onto an existing file name, which differs by operating system, is not modelled.
- Rows of the duplicate screens carry only the columns the keys read; `columns_to_keep` is not modelled.
- setup.py holds packaging metadata only and is not part of this model.

## Findings

| source | as written | input that shows it | evidently intended | confidence | as-written member | corrected member |
|---|---|---|---|---|---|---|
| ultra2_validation_dash.py:1178 | `process_dataframe` strips the schedule's `ssnit` but does not upper-case it. The mapping it looks up in has upper-cased keys (ultra2_validation_dash.py:1312-1313). | Lookup row with SSNIT `p1` and account `A1`, and a schedule row with SSNIT `p1`. The mapping holds `P1`, and the output row gets `#N/A`. | Normalise the schedule's SSNIT the same way as the keys, as `process_schedule_files` does at ultra2_validation_dash.py:1366. | medium, not executed | Annotation.LowercaseSsnitMissed | Annotation.NormalizedFindsLookupRows |
