# Balanced face selection and age export, modelled in Dafny

This project models two scripts that prepare the face stimuli of a survey
built on the Chicago Face Database (CFD).

- `convert_names.py` runs `clean_sort_rename`. It scans a directory of CFD
  images (`CFD-<race><gender>-<id>-N_<variant>.jpg`) and classifies each
  identity by race and gender from its `_color.jpg` file. It checks that every
  cell of `TARGETS` has at least twice its quota. It shuffles each cell and
  gives the first `needed` identities to experiment 1 and the next `needed` to
  experiment 2. It shuffles both experiment lists. Finally it renames the kept
  variants to `face_001`…`face_200` and deletes the other variants and every
  leftover `CFD-` file.
- `scripts/export_norming_to_face_ages.py` picks the model-ID and age columns
  of the CFD norming sheet. It builds a map from model ID to age. It writes
  `face_actual_ages.csv`, with one row for each of the first 200 non-blank
  lines of `face_order.txt`.

How the scripts are represented:

- The directory is an immutable `set<string>` of file names.
- `safe_rename` and `delete_file` are functions on that set.
- `random.shuffle` is CPython's Fisher–Yates loop over an input sequence of
  random draws. Every result about a run is stated for all draws. Where the
  argument needs it, it is also stated for every permutation of every cell
  (`SelectionProperties.ShuffleInvariance`).
- The spreadsheet becomes its column labels plus the `(model, age)` rows that
  pandas extracts from it.

Modules, one file each:

- `Wrappers` holds `Option`.
- `Strings` holds the Python string operations the scripts use: `startswith`,
  `endswith`, `in`, `lower`, `strip`, `replace(pat, '')`, `str(int)` and
  `zfill`.
- `FaceIds` holds `str(n).zfill(3)`.
- `Naming` holds the race/gender cells, the `CFD-([A-Z])([A-Z])-.+` match and
  the classification of one file.
- `Selection` and `SelectionProperties` hold `TARGETS`, the shuffle, the
  quota check and slicing loop, and the balance and disjointness results.
- `Renaming` holds `safe_rename`, `delete_file`, the keep/delete plans, the
  two renaming loops and the clean-up.
- `SortingRun` holds the scanning loop and `clean_sort_rename` end to end.
- `AgeExport` holds the export script.

## Model

| member | source | states |
|---|---|---|
| Strings.ContainsAtSomeIndex | scripts/export_norming_to_face_ages.py:35-43 | `sub in s` holds exactly when `sub` starts at some index of `s` |
| Strings.Strip | scripts/export_norming_to_face_ages.py:73 | `str.strip()` never lengthens a string; a non-empty result starts and ends with a non-whitespace character |
| Strings.StripTrims | scripts/export_norming_to_face_ages.py:73 | `str.strip()` is the input with a run of leading and a run of trailing whitespace removed and nothing else: a slice of the input with only whitespace outside it |
| Strings.StripEmptyIffAllSpace | scripts/export_norming_to_face_ages.py:73 | a line strips to the empty string exactly when every character is Python whitespace, which is what `if ln.strip()` drops |
| Strings.StripIdempotent | scripts/export_norming_to_face_ages.py:77 | stripping an already stripped ID again (`cfd_id.strip()`) changes nothing |
| Strings.RemoveAllOnlyAtEnd | convert_names.py:39 | `replace('_color.jpg', '')` on a name whose only occurrence of the suffix is at its end gives back exactly the part before the suffix |
| Strings.RemoveAllAfterClean | convert_names.py:39 | `replace` removes an occurrence and carries on after it: the clean prefix is kept and the rest is processed in turn |
| Strings.DecimalRoundTrip | convert_names.py:91 | `str(n)` is a decimal numeral whose value is `n` |
| Strings.ZFill | convert_names.py:91 | `zfill(width)` returns a string of at least `width` characters unchanged; a shorter digit string gets zeros on the left up to exactly `width`, stays all digits and keeps its value |
| FaceIds.FaceId | convert_names.py:91 | `str(n).zfill(3)` is all digits, reads back as `n`, and is three characters long exactly when `n < 1000` |
| FaceIds.FaceIdInjective | convert_names.py:91 | two positions get the same ID only when they are the same number |
| FaceIds.ExperimentIdRanges | convert_names.py:88-102 | positions 0..99 of experiment 1 get IDs 001..100 and of experiment 2 get 101..200, all of length 3, never shared between the experiments |
| Naming.CellOfCode | convert_names.py:46 | the letter pair names a pool cell exactly when the race is one of `AWLB` and the gender one of `FM` |
| Naming.CellOfBase | convert_names.py:41-46 | a base gets a cell only when it matches the CFD pattern, and so starts with `CFD-` |
| Naming.ScanFileSpec | convert_names.py:20-51 | a file is skipped exactly when it does not end in `_color.jpg`; a classified file's base is the name with the suffix removed, matches the CFD pattern, and its letters name its cell; an unknown category is a matching base whose letters are not a pool key; an unparsed base fails the pattern |
| Naming.ScanCleanColorFile | convert_names.py:37-51 | a colour file whose suffix occurs only at its end is judged on exactly the part before the suffix |
| Naming.ClassifiesWellFormedName | convert_names.py:39-47 | conversely, `CFD-XY-<rest>_color.jpg` with a known cell, a non-empty `rest` whose first character is not a newline (what `.+` needs), and a clean suffix is classified under exactly its base and cell |
| Naming.UnknownRaceNeverClassified | convert_names.py:46-49 | `CFD-QF-<rest>_color.jpg`, with a non-empty `rest` that starts with no newline and holds no underscore, is reported as an unknown category `Q-F`, never put in a cell; for any listing, `SortingRun.MembersSpec` keeps every unknown code out of the cells |
| Naming.DoubledSuffixSameBase | convert_names.py:39 | a file carrying the colour suffix twice gets the same identity as the ordinary colour file |
| Selection.TargetsFacts | convert_names.py:8-13 | `TARGETS` lists each cell once, asks 15 per Asian and White cell and 10 per Latino and Black cell, 100 in all |
| Selection.TargetsTotal | convert_names.py:6-13 | the quotas add up to 100 per experiment |
| Selection.TargetsQuotas | convert_names.py:8-13 | each Asian and White cell asks for 15, each Latino and Black cell for 10 |
| Selection.Shuffle | convert_names.py:69 | `random.shuffle` returns a permutation: same length, same multiset of names |
| Selection.Allocate | convert_names.py:58-77 | the loop stops at the first cell in table order with fewer than twice its quota, reporting that cell, its quota and its size; otherwise both experiment lists have the summed quota as length |
| SelectionProperties.CellCountPermutation | convert_names.py:82-83 | reordering a list does not change how many of its names fall in any cell |
| SelectionProperties.AllocateFromSlices | convert_names.py:72-77 | experiment 1 holds only names from some cell's `[:needed]` slice and experiment 2 only from its `[needed:needed*2]` slice |
| SelectionProperties.AllocateCells | convert_names.py:46-47 | every selected name's own letters place it in a cell of the table |
| SelectionProperties.AllocateBalanced | convert_names.py:58-77 | each cell contributes exactly its quota to each experiment |
| SelectionProperties.SlicesDisjoint | convert_names.py:72-76 | in a list without repeats, `[:n]` and `[n:2n]` share no element |
| SelectionProperties.AllocateDisjoint | convert_names.py:69-77 | with repeat-free cells, neither experiment repeats a name and no name is in both |
| SelectionProperties.ShuffleInvariance | convert_names.py:63-69 | reordering cells changes neither whether nor where the run aborts, and keeps the lists well classified and repeat-free |
| Renaming.VariantFileInjective | convert_names.py:93-108 | a variant file name determines its identity and variant |
| Renaming.TargetFileInjective | convert_names.py:93-105 | two output names coincide only for the same number and the same variant |
| Renaming.SafeRename | convert_names.py:119-121 | a missing source changes nothing; otherwise the target exists afterwards, the source is gone, and every other name is untouched |
| Renaming.DeleteFile | convert_names.py:123-125 | the file is absent afterwards, a missing file changes nothing, and every other name is untouched |
| Renaming.Cleanup | convert_names.py:113-115 | afterwards no name starts with `CFD-`, and every other name is kept exactly when it was there |
| Renaming.ProcessFaceEffect | convert_names.py:90-97 | one iteration removes all four files of the identity and adds the new names of the kept variants that existed, and nothing else |
| Renaming.ProcessExperimentEffect | convert_names.py:90-108 | for an experiment list of CFD identities without repeats, the loop removes every file of its identities and adds exactly the renamed kept variants; every other file stays |
| Renaming.SecondLoopSeesStart | convert_names.py:88-108 | when experiment 1 has no repeats and shares no identity with experiment 2, experiment 1's loop leaves experiment 2's files alone, so the second loop renames what was there at the start |
| Renaming.RenamePhaseEffect | convert_names.py:88-115 | when neither experiment repeats an identity and they share none, after both loops and the clean-up the directory is its starting non-`CFD-` files plus exactly the renamed kept variants of both experiments |
| Renaming.ProducedMembership | convert_names.py:90-105 | `face_<n>_<v>.jpg` is produced exactly when `n` is `first + i` for a position `i`, `v` is a kept variant of the plan, and identity `i` had that variant |
| Renaming.AllSourcesOwner | convert_names.py:93-108 | a variant file is touched by an experiment loop exactly when its identity is in that experiment |
| SortingRun.MembersSpec | convert_names.py:37-47 | a name is in `pool[r][g]` exactly when some listed file is classified under that name and cell, and every member's letters name its cell |
| SortingRun.MembersDistinct | convert_names.py:20-47 | on a listing without repeats whose colour files carry the suffix only at the end, no cell holds an identity twice |
| SortingRun.DoubledSuffixDuplicatesIdentity | convert_names.py:39-47 | `X_color.jpg` next to `X_color.jpg_color.jpg` puts `X` in its cell twice |
| SortingRun.BuildPool | convert_names.py:29-51 | the scanning loop fills every cell with its members in listing order, keeps the lists well classified, and warns exactly on unparsed and unknown-category colour files, in order |
| SortingRun.ShuffledPool | convert_names.py:69 | shuffling every cell keeps each cell's multiset of names |
| SortingRun.Run | convert_names.py:15-117 | an abort leaves the directory exactly as listed; a completed run has 100 names per experiment and no `CFD-` file left |
| SortingRun.RunAbortsIffShort | convert_names.py:58-66 | the run aborts exactly when some cell has fewer than twice its quota, so exactly twice is enough |
| SortingRun.AbortReportsShortCell | convert_names.py:60-66 | an abort reports a cell that is short: its quota, and the number of identities found for it, which is below twice the quota |
| SortingRun.ExactPoolCompletes | convert_names.py:63 | a pool with exactly twice every quota completes |
| SortingRun.RunBalanced | convert_names.py:58-83 | after the final shuffles, each cell still has exactly its quota in each experiment |
| SortingRun.RunSelectsFromPool | convert_names.py:37-83 | every selected identity was scanned into the cell its own letters name, so an unknown code is never selected |
| SortingRun.RunDisjoint | convert_names.py:69-83 | with a repeat-free listing and clean colour names, no identity is in both experiments and neither repeats one |
| SortingRun.OutputsNeverScanned | convert_names.py:20-47 | files named `face_…` are never put in a cell |
| SortingRun.RunOnOutputAborts | convert_names.py:58-66 | rerunning on a directory of only `face_` files stops at the Asian-female entry with 15 needed and 0 found, and changes nothing |
| SortingRun.RunFinalDirectory | convert_names.py:88-115 | a completed run leaves every non-`CFD-` file of the start plus exactly the renamed kept variants of both experiments |
| AgeExport.FirstWhere | scripts/export_norming_to_face_ages.py:34-37 | the scan returns the first index satisfying the test, and none exactly when no label satisfies it |
| AgeExport.FindAgeColumn | scripts/export_norming_to_face_ages.py:33-37 | returns the first non-empty column whose lower-cased label contains `age`, and `None` exactly when there is none |
| AgeExport.FindIdColumn | scripts/export_norming_to_face_ages.py:40-45 | returns the first column whose lower-cased label contains `target`, `model`, `id` or `face`, else the first column; it fails only on an empty header |
| AgeExport.ChooseColumns | scripts/export_norming_to_face_ages.py:58-62 | an empty header fails in the ID lookup, a header without an age label stops with no age column, otherwise the chosen columns are exactly what `find_age_column` and `find_id_column` return |
| AgeExport.StripModels | scripts/export_norming_to_face_ages.py:65 | every model ID is stripped and every age kept, row for row |
| AgeExport.StrippedKeys | scripts/export_norming_to_face_ages.py:65-70 | the age map's keys are exactly the stripped model IDs of the norming rows |
| AgeExport.AgeMapKeys | scripts/export_norming_to_face_ages.py:70 | the map's keys are exactly the rows' model IDs |
| AgeExport.AgeMap | scripts/export_norming_to_face_ages.py:70 | every row's model ID is a key of the map |
| AgeExport.AgeMapLastWins | scripts/export_norming_to_face_ages.py:70 | when a model ID repeats, the later row's age wins |
| AgeExport.AgeMapHasLast | scripts/export_norming_to_face_ages.py:70 | every key's age is the age of the last row with that model ID |
| AgeExport.NonBlankLines | scripts/export_norming_to_face_ages.py:73 | the kept lines are stripped and non-empty, and there are no more of them than raw lines |
| AgeExport.NonBlankLinesConcat | scripts/export_norming_to_face_ages.py:73 | filtering keeps file order: it distributes over concatenation |
| AgeExport.NonBlankLine | scripts/export_norming_to_face_ages.py:73 | one line is kept, stripped, exactly when it is not all whitespace |
| AgeExport.LookupAge | scripts/export_norming_to_face_ages.py:77 | a truthy exact match wins; otherwise the `-N` key's age; `None` exactly when neither applies |
| AgeExport.LookupExact | scripts/export_norming_to_face_ages.py:70-77 | an ID whose last norming row has a non-zero age gets that age |
| AgeExport.LookupFallback | scripts/export_norming_to_face_ages.py:70-77 | an ID that is missing, or whose last row has age 0, gets the age of the last `<id>-N` row |
| AgeExport.LookupBlank | scripts/export_norming_to_face_ages.py:70-78 | with no usable exact row and no `-N` row the age cell is empty, even when an exact row with age 0 exists |
| AgeExport.AgeText | scripts/export_norming_to_face_ages.py:78-82 | a missing age is written as the empty string; a found one as its decimal digits, with a leading `-` when negative, reading back as the age |
| AgeExport.AgeTextCanonical | scripts/export_norming_to_face_ages.py:78-82 | the written age is canonical as `str(age)` writes it: zero is written `0`, and no other age has a leading zero, before or after a minus sign |
| AgeExport.BuildRows | scripts/export_norming_to_face_ages.py:75-78 | there are `min(200, lines)` rows, and row `i` is numbered `i + 1` and carries the age looked up for line `i` |
| AgeExport.RowIdsIncrease | scripts/export_norming_to_face_ages.py:75-76 | every face ID has three digits, row `i`'s reads as `i + 1`, and they strictly increase |
| AgeExport.RenderCsv | scripts/export_norming_to_face_ages.py:80 | the file text starts with the header `face_id,actual_age` |
| AgeExport.CsvRoundTrip | scripts/export_norming_to_face_ages.py:80-82 | reading the file text back, line by line and split at the comma, gives exactly the rows in order after the header |
| AgeExport.ExportRowsPlain | scripts/export_norming_to_face_ages.py:76-82 | the rows the loop writes contain no comma in the ID and no newline in either field, so the file can be read back |
| AgeExport.Export | scripts/export_norming_to_face_ages.py:58-85 | a column failure exits; with no order file only the norming output is made; otherwise the face-ages text reads back to `min(200, non-blank lines)` rows, row `i` numbered `i + 1` with the age looked up for non-blank line `i` in the map built from the norming rows |

## Left out

- The operating system calls are not modelled: `os.listdir`, `os.rename`, `os.remove`, `os.path.exists`, `os.makedirs` and the file reads and writes. The directory is a set of names; listing order is the input sequence; file contents are input sequences.
- `random.shuffle`'s randomness and its distribution: the random draws are an input. The model does not prove that every permutation is reachable. The balance and disjointness results are therefore also stated for arbitrary permutations of each cell.
- The pandas and openpyxl reading of the spreadsheet is not modelled: `ExcelFile`, the choice of the first sheet, `dropna`, `pd.to_numeric(errors="coerce")` and `astype(int)`. The model takes the surviving `(model, age)` rows as integers. The same goes for writing `cfd_norming_ages.csv` (line 68).
- Non-string column labels, and `str()` of them, are left out: labels are strings, and a label is truthy when it is non-empty.
- `str.lower` is modelled for ASCII letters only.
- The file iterator's universal-newline translation is not modelled: the order file arrives as the sequence of lines it yields.
- Printed progress, warnings and the closing "400 perfectly balanced images" message are left out. Warnings are returned as data by `SortingRun.BuildPool`.
- The missing-spreadsheet and missing-pandas exits are outside the model: `AgeExport.Export` starts from a sheet that was read. The no-age-column exit is modelled as "stop, nothing written".
- Renaming.SafeRename: replaces an existing target, as POSIX `os.rename` does. On Windows `os.rename` raises `FileExistsError` instead, which is not modelled.
- The internals of Python's regex engine are not modelled. The `CFD-([A-Z])([A-Z])-.+` match is a hand-written prefix test. `.` does not match a newline, so the character after the second dash must not be `\n`.
- `process_images/convert_faces.py` is not part of this model. It is floating-point colour arithmetic and image I/O delegated to libraries.
- SortingRun.Run: the abort report names the first short cell in table order, because the loop returns at once. It does not list every short cell.
- SortingRun.RunDisjoint: disjointness is stated under the hypotheses that the listing has no repeats and that every colour file carries `_color.jpg` only at its end. `replace` removes every occurrence of the suffix, so two such files can name one identity, as `SortingRun.DoubledSuffixDuplicatesIdentity` shows.
- SortingRun.RunFinalDirectory: stated under the same two hypotheses as `SortingRun.RunDisjoint`.
- Renaming.ProcessExperimentEffect: stated for experiment lists without repeats. A repeated identity's later position renames nothing, because its files are already gone, so the exact effect is not claimed there.
- Renaming.RenamePhaseEffect: stated when neither experiment repeats an identity and the two share none, which `SortingRun.RunDisjoint` establishes under its hypotheses.
