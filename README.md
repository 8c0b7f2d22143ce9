# MirGeneDB merge engine, modelled in Dafny

This project models the reconciliation step of the MirGeneDB download-and-merge
script. Each species ships a table of miRNA records (CSV) and three FASTA files:
precursor, mature and star sequences. For every table row the script does four things:

- it normalises the row's identifier;
- it looks up the precursor;
- it decides which arm (5p or 3p) is the mature one, using the seed sequence
  when both arms are present;
- it finds the star sequence through a three-step fallback chain.

It then adds three length columns and keeps a fixed list of output columns.

The model is split into six modules:

- `Wrappers`: the `Option` datatype.
- `Strings`: the Python string operations the script relies on, written out
  over `seq<char>`. These are `strip()` with Python's whitespace set,
  `startswith`/`endswith`, substring `in`, `replace(c, "")` and `"".join`.
- `Identifiers`: `clean_csv_id`, `clean_fasta_header`, and the version-tag
  substitution `[-_]v\d+` written out as a left-to-right scan.
- `Fasta`: `parse_fasta` as an imperative loop (`ParseFasta`). It is proved
  equal to `FastaMap`, a record-by-record definition: each header starts a
  record, its body is the non-blank stripped lines up to the next header,
  records are stored in order, a later record overwrites an earlier one with
  the same key, and an empty key is never stored.
- `Resolution`: `resolve_mature`, the star-sequence fallback chain, the
  precursor lookup and the length rule.
- `Merge`: the ID-column search over the two candidate header rows, and the
  row loop. The loop's result is stated column by column through `LookupsOf`,
  which gives each column's value for every row. The module also has the
  column bookkeeping: the rename, the assignment of the derived columns and
  the final filter.

Python truthiness is explicit where the code tests it:

- In `resolve_mature` (lines 91-96) an arm's entry counts as present only
  when its key is there and its sequence is not `""` (`Present`).
- The `not s_seq` tests of lines 165 and 169 treat a missing entry and `""`
  alike.
- `None` and `""` are the same "no key" for the FASTA parser (lines 75 and 82).

The precursor lookup (line 150) and the legacy star lookup (line 169) test
key membership only. A stored `""` precursor is returned as `""`, not as
"N/A". A missing seed (NaN) is `None` and behaves like the empty seed.

Two consequences of the code that are easy to miss:

- With no resolved arm (location "N/A"), the `else` of line 158 makes the
  star target arm 5p, and the legacy lookup of line 169 uses the key
  `<id>_N/A`.
- `clean_csv_id` removes one trailing `" V"` (a space, then `V`). So
  `"mir1 VV"` does not end in `" V"` and is returned unchanged, while
  `"mir1 V V"` becomes `"mir1 V"`.

## Model

| member | source | states |
|---|---|---|
| Identifiers.CleanCsvId | code/2.1-download-and-merge/mergedata.py:38-42 | `clean_csv_id`: strip, then drop one trailing `" V"`; what it returns is stated by `CleanCsvIdShape` and the lemmas below |
| Identifiers.CleanCsvIdShape | code/2.1-download-and-merge/mergedata.py:38-42 | the cleaned ID is the stripped ID when that does not end in `" V"`, or the stripped ID minus exactly one `" V"` |
| Identifiers.CleanCsvIdDropsOneSuffix | code/2.1-download-and-merge/mergedata.py:39-41 | a trimmed ID followed by `" V"` cleans back to exactly that ID |
| Identifiers.CleanCsvIdKeepsOthers | code/2.1-download-and-merge/mergedata.py:39-42 | a trimmed ID without the suffix is returned unchanged |
| Identifiers.CleanCsvIdExampleSuffix | code/2.1-download-and-merge/mergedata.py:38-42 | `"mir1 V"` cleans to `"mir1"` |
| Identifiers.CleanCsvIdExampleOnce | code/2.1-download-and-merge/mergedata.py:38-42 | `"mir1 V V"` cleans to `"mir1 V"`: the suffix goes only once |
| Identifiers.CleanCsvIdExampleNoSpace | code/2.1-download-and-merge/mergedata.py:38-42 | `"mir1 VV"` is unchanged: `"VV"` is not the suffix |
| Identifiers.ArmTag | code/2.1-download-and-merge/mergedata.py:88 | the tag table of the key f-strings: `"5p"` exactly for the 5p arm, and `"3p"` for the 3p arm |
| Identifiers.ArmKey | code/2.1-download-and-merge/mergedata.py:88 | the `<id>_5p` / `<id>_3p` key of an arm, as built by the f-strings |
| Identifiers.IsDigit | code/2.1-download-and-merge/mergedata.py:48 | the `\d` class, as the ASCII digits `0`-`9` |
| Identifiers.TagAt | code/2.1-download-and-merge/mergedata.py:48 | `[-_]v\d` matches at a position: a `-` or `_`, then `v`, then a digit |
| Identifiers.DigitRun | code/2.1-download-and-merge/mergedata.py:48 | `\d+` takes the maximal run of digits: every counted character is a digit and the next one is not |
| Identifiers.StripVersionTags | code/2.1-download-and-merge/mergedata.py:48 | the substitution never lengthens the name and introduces no new characters |
| Identifiers.KeepsTagFreePrefix | code/2.1-download-and-merge/mergedata.py:48 | a prefix at which the pattern never matches is copied and the scan carries on after it |
| Identifiers.NoTagUnchanged | code/2.1-download-and-merge/mergedata.py:48 | a name in which `[-_]v\d` never matches is left unchanged |
| Identifiers.TagRemovedAtFront | code/2.1-download-and-merge/mergedata.py:48 | a tag at the front (separator, `v`, whole digit run) is deleted and the scan resumes after it |
| Identifiers.TagRemoved | code/2.1-download-and-merge/mergedata.py:48 | after a tag-free prefix, a whole version tag is deleted and nothing else around it changes |
| Identifiers.CleanedName | code/2.1-download-and-merge/mergedata.py:47-48 | the cleaned header name contains no `>` and no `*` |
| Identifiers.SplitSuffix | code/2.1-download-and-merge/mergedata.py:50-57 | the arm is 5p/3p exactly when the name ends in `_5p`/`_3p` (both directions); base plus removed suffix gives back the name, for `_pre` too; otherwise the name is kept whole |
| Identifiers.CleanFastaHeader | code/2.1-download-and-merge/mergedata.py:45-57 | the base identifier never contains `>` or `*` |
| Identifiers.HeaderKeyIsCleanedName | code/2.1-download-and-merge/mergedata.py:50-57 | the storage key of a header is its cleaned name with only a trailing `_pre` dropped |
| Identifiers.StorageKey | code/2.1-download-and-merge/mergedata.py:78 | `<base>_<arm>` when the header has an arm, the bare base otherwise |
| Identifiers.ExampleMarkersRemoved | code/2.1-download-and-merge/mergedata.py:47 | `>mir1-v2_5p` loses its `>` marker after stripping |
| Identifiers.ExampleTagRemoved | code/2.1-download-and-merge/mergedata.py:48 | `mir1-v2_5p` loses its `-v2` tag, giving `mir1_5p` |
| Identifiers.ExampleSuffixSplit | code/2.1-download-and-merge/mergedata.py:50-51 | `mir1_5p` splits into base `mir1` and arm 5p |
| Identifiers.CleanFastaHeaderExample | code/2.1-download-and-merge/mergedata.py:45-57 | `>mir1-v2_5p` cleans to (`mir1`, 5p) and is stored under `mir1_5p` |
| Strings.IsSpace | code/2.1-download-and-merge/mergedata.py:39 | the whitespace set `str.strip()` removes (Python's `str.isspace()`), used by every `strip()` of lines 39, 47, 71 and 97 |
| Strings.TrimStart | code/2.1-download-and-merge/mergedata.py:39 | what is cut off the front is whitespace and the result does not start with whitespace |
| Strings.TrimEnd | code/2.1-download-and-merge/mergedata.py:39 | what is cut off the end is whitespace and the result does not end with whitespace |
| Strings.TrimStartIsSuffix | code/2.1-download-and-merge/mergedata.py:39 | leading-whitespace removal yields a suffix of the input |
| Strings.TrimEndIsPrefix | code/2.1-download-and-merge/mergedata.py:39 | trailing-whitespace removal yields a prefix of the input |
| Strings.Strip | code/2.1-download-and-merge/mergedata.py:71 | a non-empty stripped string neither starts nor ends with whitespace |
| Strings.StripIsSlice | code/2.1-download-and-merge/mergedata.py:71 | `strip()` returns a slice of its input with only whitespace before and after it |
| Strings.Contains | code/2.1-download-and-merge/mergedata.py:98-101 | `sub in s` holds exactly when `sub` occurs at some position of `s` (both directions) |
| Strings.RemoveChar | code/2.1-download-and-merge/mergedata.py:47 | `replace(c, "")` leaves no `c`, keeps exactly the characters other than `c` (as a set) and never lengthens the string; order and multiplicity are stated by the three lemmas below |
| Strings.RemoveAbsentChar | code/2.1-download-and-merge/mergedata.py:47 | removing a character that does not occur leaves the string unchanged |
| Strings.RemoveCharMultiset | code/2.1-download-and-merge/mergedata.py:47 | every character other than `c` is kept exactly as often as it occurs, and every `c` is dropped |
| Strings.RemoveCharOne | code/2.1-download-and-merge/mergedata.py:47 | one character alone is dropped when it is `c` and kept otherwise |
| Strings.RemoveCharAppend | code/2.1-download-and-merge/mergedata.py:47 | removing from a concatenation is removing from each part and concatenating: the kept characters stay in order |
| Strings.StartsWith | code/2.1-download-and-merge/mergedata.py:74 | `s.startswith(p)`: `p` is the prefix of `s` of its length |
| Strings.EndsWith | code/2.1-download-and-merge/mergedata.py:40 | `s.endswith(p)`: `p` is the suffix of `s` of its length |
| Strings.Concat | code/2.1-download-and-merge/mergedata.py:76 | `"".join(parts)`: the parts concatenated in order with no separator |
| Fasta.Classify | code/2.1-download-and-merge/mergedata.py:71-81 | a line is blank exactly when it strips to `""`, a header exactly when it starts with `>`, otherwise a sequence line holding its stripped text; a header carries its record's storage key |
| Fasta.ClassifyAll | code/2.1-download-and-merge/mergedata.py:70-71 | every line is classified, in order |
| Fasta.SequenceLines | code/2.1-download-and-merge/mergedata.py:80-81 | the sequence lines of a record body in order; blank lines add nothing |
| Fasta.Records | code/2.1-download-and-merge/mergedata.py:70-83 | the records of a FASTA text in order: lines before the first header belong to none, and a record's body is the joined sequence lines up to the next header; characterised by `RecordsSkipPreamble` and `RecordsOfBlock` |
| Fasta.Store | code/2.1-download-and-merge/mergedata.py:75-76 | `if current_key: seqs[current_key] = ...`: an empty key stores nothing |
| Fasta.StoreAll | code/2.1-download-and-merge/mergedata.py:75-83 | the records stored one after the other; characterised by `StoreAllKeys`, `StoreAllUntouched` and `StoreAllLastWins` |
| Fasta.FastaMap | code/2.1-download-and-merge/mergedata.py:65-84 | the map a FASTA text describes; the loop `ParseFasta` is proved to build it, and `FastaMapKeys` / `FastaMapLastWins` state its keys and values |
| Fasta.BodyLength | code/2.1-download-and-merge/mergedata.py:74-81 | the number of lines up to the next header line or the end, never past the end; what it counts is stated by `BodyLengthStopsAtHeader` and `BodyLengthOf` |
| Fasta.BodyLengthStopsAtHeader | code/2.1-download-and-merge/mergedata.py:74-81 | a record body runs over non-header lines and stops at the next header |
| Fasta.BodyLengthOf | code/2.1-download-and-merge/mergedata.py:74-81 | a run of non-header lines ending at a header or the end is the whole body |
| Fasta.RecordsSkipPreamble | code/2.1-download-and-merge/mergedata.py:75-81 | lines before the first header belong to no record |
| Fasta.RecordsOfBlock | code/2.1-download-and-merge/mergedata.py:74-83 | a header, its body lines and what follows give one record (key and joined body) followed by the records of the rest |
| Fasta.StoreAllKeys | code/2.1-download-and-merge/mergedata.py:75-76 | a key ends up stored exactly when it was there or some record has it and it is non-empty |
| Fasta.StoreAllUntouched | code/2.1-download-and-merge/mergedata.py:75-76 | a key no record has keeps its value |
| Fasta.StoreAllLastWins | code/2.1-download-and-merge/mergedata.py:75-76 | the last record with a key decides that key's value |
| Fasta.FastaMapKeys | code/2.1-download-and-merge/mergedata.py:65-84 | the keys of the parsed map are exactly the non-empty keys of the records |
| Fasta.FastaMapLastWins | code/2.1-download-and-merge/mergedata.py:65-84 | a repeated header keeps the sequence of its last record |
| Fasta.ExampleRecords | code/2.1-download-and-merge/mergedata.py:70-81 | a two-record file gives its two records in order, the blank line adding nothing and body lines joined |
| Fasta.FastaMapExample | code/2.1-download-and-merge/mergedata.py:65-84 | a stray line before the first header is ignored and each key maps to its joined body |
| Fasta.ParseFasta | code/2.1-download-and-merge/mergedata.py:65-84 | the map the line loop builds is `FastaMap` of the classified lines |
| Resolution.Lookup | code/2.1-download-and-merge/mergedata.py:89 | `d.get(k)`: the entry when the key is there, nothing otherwise |
| Resolution.Present | code/2.1-download-and-merge/mergedata.py:91-96 | the truthiness of `d.get(k)`: the key is there and its sequence is not empty |
| Resolution.LocationLabel | code/2.1-download-and-merge/mergedata.py:92-104 | the location is "N/A" exactly when no arm was resolved, otherwise the arm's tag |
| Resolution.SeedText | code/2.1-download-and-merge/mergedata.py:97 | `str(seed).strip()` for a seed that is there, `""` for NaN |
| Resolution.ResolveMature | code/2.1-download-and-merge/mergedata.py:87-104 | `resolve_mature`; what it returns is stated by `ResolveMatureSpec` and the lemmas below |
| Resolution.ResolveMatureSpec | code/2.1-download-and-merge/mergedata.py:87-104 | an arm is chosen exactly when either arm entry is present; the chosen arm is present and gives the sequence; 3p is chosen exactly when only 3p is present or both are and the seed occurs in 3p but not 5p; with neither, the sequence is "N/A" |
| Resolution.EmptySeedPicksFiveP | code/2.1-download-and-merge/mergedata.py:96-102 | an empty or missing seed with both arms present always selects 5p |
| Resolution.ResolveMatureExamples | code/2.1-download-and-merge/mergedata.py:87-104 | a seed found only in 5p picks 5p; a lone 5p arm is chosen whatever the seed; no arm gives ("N/A", none) |
| Resolution.ResolveMatureSeedInNeither | code/2.1-download-and-merge/mergedata.py:96-102 | with both arms present and a seed in neither, 5p is chosen |
| Resolution.ResolveMatureSeedInBoth | code/2.1-download-and-merge/mergedata.py:96-102 | with both arms present and a seed in both, 5p is chosen |
| Resolution.StarTarget | code/2.1-download-and-merge/mergedata.py:158 | the star target is never the resolved arm, and is 5p when no arm was resolved |
| Resolution.FirstNonEmpty | code/2.1-download-and-merge/mergedata.py:162-170 | the result is `""` exactly when every candidate is empty or missing, and otherwise is the first candidate that is present and non-empty |
| Resolution.StarCandidates | code/2.1-download-and-merge/mergedata.py:158-170 | the three lookups of the chain in priority order: mature map under the target arm, star map under the target arm, star map under `<id>_<location>` |
| Resolution.StarSequence | code/2.1-download-and-merge/mergedata.py:158-172 | the star sequence of a row; its priority order is stated by `StarPriority` |
| Resolution.StarPriority | code/2.1-download-and-merge/mergedata.py:158-170 | the star sequence is the mature map's target-arm entry if present, else the star map's target-arm entry, else the star map's `<id>_<location>` entry, else `""` |
| Resolution.ScenarioRowA | code/2.1-download-and-merge/mergedata.py:153-170 | with both arms present and the seed only in 3p, 3p is mature and the 5p mature entry becomes the star |
| Resolution.ScenarioRowB | code/2.1-download-and-merge/mergedata.py:153-170 | with only 3p in the mature map, the star comes from the star map's 5p entry |
| Resolution.Precursor | code/2.1-download-and-merge/mergedata.py:150 | the precursor is the map entry for the ID, or "N/A" when the ID is missing |
| Resolution.SequenceLength | code/2.1-download-and-merge/mergedata.py:180-188 | a length is 0 exactly for `""` and "N/A", and otherwise the sequence's length |
| Merge.FindIdColumn | code/2.1-download-and-merge/mergedata.py:124 | the index found is the first column whose name contains "MirGeneDB ID"; none exactly when no column does |
| Merge.PickIdColumn | code/2.1-download-and-merge/mergedata.py:123-131 | the second header row is used exactly when it has an ID column, the first row only otherwise, and the species is skipped exactly when neither has one |
| Merge.RowMature | code/2.1-download-and-merge/mergedata.py:146-153 | the mature resolution of one row, on its cleaned ID and its seed |
| Merge.RowStar | code/2.1-download-and-merge/mergedata.py:146-170 | the star sequence of one row, from its cleaned ID and resolved location |
| Merge.LookupStar | code/2.1-download-and-merge/mergedata.py:158-170 | the imperative fallback chain computes `StarSequence` |
| Merge.LookupsOf | code/2.1-download-and-merge/mergedata.py:143-172 | the four lists after a prefix of the rows: each has one entry per row |
| Merge.LookupsAt | code/2.1-download-and-merge/mergedata.py:145-172 | entry j of each looked-up column is the precursor, mature sequence, location and star of row j |
| Merge.LookupsStep | code/2.1-download-and-merge/mergedata.py:145-172 | one more row appends its four values to the four columns |
| Merge.LookUpRows | code/2.1-download-and-merge/mergedata.py:143-172 | the row loop builds exactly `LookupsOf` of the rows, in row order |
| Merge.EnrichRows | code/2.1-download-and-merge/mergedata.py:143-188 | each added column has one entry per row: row j's precursor, resolved mature sequence and location, star sequence, and the three lengths of those sequences |
| Merge.Lengths | code/2.1-download-and-merge/mergedata.py:180-188 | a length column: one entry per row, each the `SequenceLength` of that row's sequence |
| Merge.ColumnListsDistinct | code/2.1-download-and-merge/mergedata.py:19-35 | `FINAL_COLUMNS` has fifteen distinct names starting with "MirGeneDB ID", and the seven assigned column names are distinct |
| Merge.DerivedColumnsInOrder | code/2.1-download-and-merge/mergedata.py:19-35 | the seven assigned columns (lines 175-188) occur in `FINAL_COLUMNS` in the order they are assigned |
| Merge.KeepPresent | code/2.1-download-and-merge/mergedata.py:191 | the kept columns are exactly the wanted ones that are present, in the wanted order, without duplicates when the wanted list has none |
| Merge.AvailableColumns | code/2.1-download-and-merge/mergedata.py:191 | the sheet columns are the output columns present in the table, in output-column order |
| Merge.Rename | code/2.1-download-and-merge/mergedata.py:132 | every column named like the ID column becomes "MirGeneDB ID"; the others are kept in place |
| Merge.WithColumns | code/2.1-download-and-merge/mergedata.py:175-188 | assigning columns keeps the existing ones in place and adds exactly the new names |
| Merge.WorkingColumns | code/2.1-download-and-merge/mergedata.py:132-188 | the working table's columns: the CSV columns with the ID column renamed, then the derived columns assigned; characterised by `SheetColumns` |
| Merge.RenamedColumns | code/2.1-download-and-merge/mergedata.py:132 | a column name is present after the rename exactly when it is "MirGeneDB ID" or a CSV column other than the ID column |
| Merge.SheetColumns | code/2.1-download-and-merge/mergedata.py:132-191 | the sheet has exactly the output columns that are the ID column, a derived column, or another CSV column; in particular the ID and all seven derived columns are always there |

## Left out

- File access: the `os.path.exists` checks with their warnings
  (`mergedata.py` lines 61-63 and 117-119) and the opening of files. `ParseFasta`
  takes the file's lines, and a missing FASTA file would give the empty map.
- `pd.read_csv`, its two header-row attempts as I/O, and the exception
  handler (lines 121-135). The header rows are inputs to `PickIdColumn`,
  and the table's rows are inputs to `EnrichRows`.
- The species loop and `SPECIES_MAP` (lines 11-16, 112-113, 138-140). The
  model treats one species at a time, with its three maps as inputs.
- The Excel writer, sheet naming, column widths and all `print` output
  (lines 108-111, 195-209): these are output formatting and I/O.
- `str()` of non-string cells: an ID or seed cell that is a number, or a NaN
  ID, is given to the model already as text. A NaN seed is `None`.
- Row: a CSV without a "Seed" column gives every row the seed `""`
  (`row.get("Seed", "")`). The model expects the caller to pass `Some("")`
  in that case.
- Identifiers.DigitRun: `\d` is modelled as the ASCII digits `0`-`9`.
  Python's `re` also matches other Unicode decimal digits in `str` patterns.
- Strings.IsSpace: it follows `str.isspace()` for the characters `strip()`
  removes. There is no Unicode normalisation or case folding.
- Merge.WorkingColumns: pandas renames every column equal to the ID column's
  label. The model does not cover a CSV that already has a second column
  named exactly "MirGeneDB ID", where `row["MirGeneDB ID"]` would be a Series.
  `pd.read_csv` column-name deduplication is not modelled either.
- Merge.EnrichRows: the per-row values are computed as in the source loop
  (`LookUpRows` builds the four lists and returns them as one `Lookups`
  value), and the seven columns are returned as one `Columns` value instead
  of being assigned into a DataFrame in place.
