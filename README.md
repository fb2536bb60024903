# generate_uniblock.py, modelled in Dafny

`generate_uniblock.py` produces `uniblock.h` for makeotf. It reads two tables:

- `UnicodeData.txt` gives the set of assigned code points.
- `os2_ur.txt` is the OpenType OS/2 table's ulUnicodeRange bit list.

For each row of the bit list, except the reserved `123-127` row and the rows of bit 57, it builds one block descriptor `(start, end, count, os2_num, name)`. A continuation row, which has no bit number of its own, repeats the bit of the last descriptor built before it, or 0 if none has been built; the reserved row and the bit-57 rows do not change it (`Os2Ranges.ContinuationInheritsBit`). So one bit can have several descriptors. It sorts the descriptors in Python's tuple order and prints them, after a fixed comment header, as fixed-width C initializer lines.

This project models that program as it stands once file reading, `csv` splitting and `print` are taken away:

- Each input is a sequence of rows of fields (`seq<seq<string>>`).
- The output is a sequence of lines.
- Every abort of the Python program becomes a `Failure`, which records the input file, the zero-based row and the reason.

The Python functions that change state in loops are methods with loop invariants:

- `_get_unichars` is `CodePoints.GetUnichars`.
- `_count_chars_in_range` is `CodePoints.CountCharsInRange`.
- `_get_os2_ur_records` is `Os2Ranges.BuildOs2Records` and `Os2Ranges.GetOs2UrRecords`.
- `_print_records` is `Emitter.PrintRecords`.
- `_main` is `Uniblock.Generate`.

Each of these is proved equal to a function that describes its result: `Load`, `CountInRange`, `Os2Scan`/`UrRecords`, `TableLines` and `Run`. The lemmas then state the program's properties about those functions.

The pure parts are functions with lemmas about them:

- the name repair `_fix_title_casing`;
- the row format;
- `sorted`, a verified insertion sort.

Modules, one per file:

| module | file | contents |
|---|---|---|
| `Wrappers` | `wrappers.dfy` | `Option`, `Result`, and the failure reasons |
| `Text` | `text.dfy` | Python string operations: `in`, `replace`, `split`, `isdigit`, `lower`, `%Ns`/`%-Ns` padding; also a `Trim` used by the line reader |
| `Numerals` | `numerals.dfy` | `int(x, 16)`, `int(x)`, `%X`, `%d`, `%04X` |
| `NameRepair` | `name_repair.dfy` | `_fix_title_casing` |
| `CodePoints` | `code_points.dfy` | `_get_unichars`, `_count_chars_in_range` |
| `Os2Ranges` | `os2_ranges.dfy` | `_get_os2_ur_records` |
| `Emitter` | `emitter.dfy` | the header, `sorted`, the row format, `_print_records` |
| `Uniblock` | `uniblock.dfy` | `_main` |

The emitted line format gets a partner: a reader `Emitter.ParseRow` that strips the frame, splits at commas, trims the padding and reads the five values back. `Emitter.FormatRowRoundTrip` proves that every line whose name has no comma reads back as its record.

Two behaviours of the code are worth knowing:

- **Repeated repair.** The name repair is not idempotent: `"x And And y"` becomes `"x and And y"`, and only a second repair gives `"x and and y"`. The two occurrences share a space, and `str.replace` does not re-examine a space it has already consumed (`NameRepair.FixTitleCasingNotIdempotent`).
- **Output on failure.** The header is printed before either table is read, so a failing run has already written the header (`Uniblock.Run`, `Uniblock.Generate`).

## Model

| member | source | states |
|---|---|---|
| `Numerals.ParseNumeral` | c/makeotf/makeotf_lib/utils/generate_uniblock.py:71 | `int(s, base)` on a digit string: `None` for the empty string and for any character that is not a digit of the base, otherwise the value of the digits |
| `Numerals.ParseHex` | c/makeotf/makeotf_lib/utils/generate_uniblock.py:71 | `int(row[0], 16)` (also `int(x, 16)` on the range pieces at line 101): `ParseNumeral` in base 16, letters in either case |
| `Numerals.ParseDecimal` | c/makeotf/makeotf_lib/utils/generate_uniblock.py:100 | `int(os2_num)` on a written bit number: `ParseNumeral` in base 10 |
| `Numerals.FormatDigits` | c/makeotf/makeotf_lib/utils/generate_uniblock.py:118-122 | the shortest upper-case digit string of a number in base 10 or 16, most significant digit first |
| `Numerals.FormatHex` | c/makeotf/makeotf_lib/utils/generate_uniblock.py:118-119 | `%X`: `FormatDigits` in base 16 |
| `Numerals.FormatDecimal` | c/makeotf/makeotf_lib/utils/generate_uniblock.py:121-122 | `%d` (and the digits of `%5d`, `%3d`): `FormatDigits` in base 10 |
| `Numerals.PaddedHex` | c/makeotf/makeotf_lib/utils/generate_uniblock.py:118-119 | `%04X`: the hexadecimal numeral with zeros in front up to the width, never truncated |
| `Numerals.FormatParseRoundTrip` | c/makeotf/makeotf_lib/utils/generate_uniblock.py:118-121 | reading the digits that `%X`/`%d` write, with `int(x, 16)`/`int(x)`, gives back the number |
| `Numerals.ZeroPaddedRoundTrip` | c/makeotf/makeotf_lib/utils/generate_uniblock.py:118-119 | the zero-padded numeral (`%04X`) of any width also reads back as the number |
| `Numerals.PaddedHexShape` | c/makeotf/makeotf_lib/utils/generate_uniblock.py:118-119 | `%04X` reads back as the number, has at least 4 characters, and every character is `0-9` or `A-F` |
| `Numerals.FormatDigitsShape` | c/makeotf/makeotf_lib/utils/generate_uniblock.py:118-121 | a written numeral is non-empty, made only of upper-case digits of its base, and starts with `0` exactly when it is the numeral of zero |
| `Numerals.FormatDigitsLength` | c/makeotf/makeotf_lib/utils/generate_uniblock.py:118-121 | a number below `base^k` has at most `k` digits, and a number of at least `base^(k-1)` has at least `k` |
| `Text.Contains` | c/makeotf/makeotf_lib/utils/generate_uniblock.py:35 | `p in s`: `p` starts the string or occurs in its tail; `Text.ContainsIff` characterizes it by an index of occurrence |
| `Text.ReplaceAll` | c/makeotf/makeotf_lib/utils/generate_uniblock.py:36 | `str.replace` for a non-empty pattern: occurrences are taken left to right without overlap, each replaced and scanning resumed after it; its properties are the three lemmas below |
| `Text.ReplaceAllChanges` | c/makeotf/makeotf_lib/utils/generate_uniblock.py:36 | `str.replace` with an equal-length replacement keeps the length; every character it changes lies inside an occurrence of the pattern and becomes the matching character of the replacement |
| `Text.ReplaceAllAbsent` | c/makeotf/makeotf_lib/utils/generate_uniblock.py:36 | `str.replace` returns the string unchanged when the pattern does not occur |
| `Text.ReplaceAllAtFirst` | c/makeotf/makeotf_lib/utils/generate_uniblock.py:36 | at the first occurrence `i` of the pattern, `str.replace` keeps `s[..i]`, writes the replacement, and continues on the text after the occurrence; with `ReplaceAllAbsent` this determines the result on every input |
| `Text.ContainsIff` | c/makeotf/makeotf_lib/utils/generate_uniblock.py:35 | Python's substring test `p in s` holds exactly when `p` occurs at some index of `s` |
| `Text.IsDigit` | c/makeotf/makeotf_lib/utils/generate_uniblock.py:95 | `isdigit()` on the first character of the first field, for the ASCII digits |
| `Text.Lower` | c/makeotf/makeotf_lib/utils/generate_uniblock.py:36 | `lower()` keeps the length and maps exactly the ASCII capitals to their small letters |
| `Text.Split` | c/makeotf/makeotf_lib/utils/generate_uniblock.py:101 | `split(sep)`: the pieces between separators, always at least one; `Text.SplitJoin` and `Text.JoinSplit` are its inverse pair with `Join` |
| `Text.SplitJoin` | c/makeotf/makeotf_lib/utils/generate_uniblock.py:101 | `split('-')` loses nothing: joining the pieces gives back the string, and no piece holds the separator |
| `Text.JoinSplit` | c/makeotf/makeotf_lib/utils/generate_uniblock.py:101 | conversely, separator-free pieces joined by the separator split back into the same pieces |
| `Text.PadLeft` | c/makeotf/makeotf_lib/utils/generate_uniblock.py:121 | `%8s`, `%5d`, `%3d`: the text is right-justified, never truncated, and preceded only by the fill character |
| `Text.PadRight` | c/makeotf/makeotf_lib/utils/generate_uniblock.py:121 | `%-41s`: the text is left-justified, never truncated, and followed only by the fill character |
| `CodePoints.CountInRange` | c/makeotf/makeotf_lib/utils/generate_uniblock.py:23-28 | the number of members of `unichars` from `start` to `end` inclusive, the value the counting loop returns |
| `CodePoints.CountCharsInRange` | c/makeotf/makeotf_lib/utils/generate_uniblock.py:23-28 | the counting loop returns the number of members of `unichars` between `start` and `end` inclusive |
| `CodePoints.CountInRangeIsIntersection` | c/makeotf/makeotf_lib/utils/generate_uniblock.py:23-28 | that count is the size of `unichars` intersected with the interval `[start, end]` |
| `CodePoints.CountInRangeBounds` | c/makeotf/makeotf_lib/utils/generate_uniblock.py:23-28 | the count is at most `end - start + 1`, and 0 when `end < start` |
| `NameRepair.RepairPass` | c/makeotf/makeotf_lib/utils/generate_uniblock.py:34-36 | one pass of the loop body: when the spaced word occurs, `str.replace` with its lower-cased form, otherwise the name as it was |
| `NameRepair.FixTitleCasing` | c/makeotf/makeotf_lib/utils/generate_uniblock.py:31-37 | the passes for `And` then `For`, each on the result of the one before |
| `NameRepair.Repair` | c/makeotf/makeotf_lib/utils/generate_uniblock.py:33-36 | the loop over the conjunctions in order: each spaced conjunction is one `RepairPass` on the name the pass before it left |
| `NameRepair.RepairPassChanges` | c/makeotf/makeotf_lib/utils/generate_uniblock.py:34-36 | one pass keeps the length and changes only characters inside occurrences of the spaced word |
| `NameRepair.RepairPassAtFirst` | c/makeotf/makeotf_lib/utils/generate_uniblock.py:34-36 | conversely, a pass does lower the first occurrence of the word: the name before it is kept and the occurrence becomes the lowered word |
| `NameRepair.FixTitleCasingChanges` | c/makeotf/makeotf_lib/utils/generate_uniblock.py:31-37 | the repair keeps the length of the name; the only characters it changes are the initial letters of `" And "` and `" For "` occurrences in the input, which become `a` and `f` |
| `NameRepair.FixTitleCasingLowersFirstAnd` | c/makeotf/makeotf_lib/utils/generate_uniblock.py:33-36 | the first `" And "` of a name has its `A` turned into `a` by the repair |
| `NameRepair.FixTitleCasingLowersFirstFor` | c/makeotf/makeotf_lib/utils/generate_uniblock.py:33-36 | the first `" For "` of a name has its `F` turned into `f`: the `And` pass leaves the occurrences of `" For "` exactly where they were |
| `NameRepair.FixTitleCasingUnchanged` | c/makeotf/makeotf_lib/utils/generate_uniblock.py:35 | a name with neither `" And "` nor `" For "` comes back unchanged |
| `NameRepair.FixTitleCasingExample` | c/makeotf/makeotf_lib/utils/generate_uniblock.py:31-37 | `"Latin Extended-A And B"` becomes `"Latin Extended-A and B"` |
| `NameRepair.FixTitleCasingNotIdempotent` | c/makeotf/makeotf_lib/utils/generate_uniblock.py:36 | on `"x And And y"`, one repair gives `"x and And y"` and a second gives `"x and and y"`: the repair is not idempotent |
| `CodePoints.ParseUnicodeRow` | c/makeotf/makeotf_lib/utils/generate_uniblock.py:71-72 | field 0 is read as hexadecimal before field 1 is looked at; a missing field or a non-hexadecimal code point is a failure |
| `CodePoints.MarkerOf` | c/makeotf/makeotf_lib/utils/generate_uniblock.py:73-75 | a name containing `First` opens a range, checked before `Last`, which closes one; any other name is a single code point |
| `CodePoints.LoadStep` | c/makeotf/makeotf_lib/utils/generate_uniblock.py:73-80 | a `First` row records its code point as pending; a `Last` row adds the interval from the pending start and clears it, failing when nothing is pending; any other row adds its code point |
| `CodePoints.Load` | c/makeotf/makeotf_lib/utils/generate_uniblock.py:69-80 | the loop over the rows in file order, ending at the first row that cannot be read or the first unmatched `Last`; `CodePoints.LoadedCodePoints` states what it computes |
| `CodePoints.GetUnichars` | c/makeotf/makeotf_lib/utils/generate_uniblock.py:65-81 | the loop computes exactly the loader function `Load`: the same set on success, the same failure (row and reason) otherwise |
| `CodePoints.LoadFailsAtFirstBadRow` | c/makeotf/makeotf_lib/utils/generate_uniblock.py:70-76 | a failure names a row of the table, and every row before it loads: loading stops at the first offending row |
| `CodePoints.LoadedCodePoints` | c/makeotf/makeotf_lib/utils/generate_uniblock.py:69-80 | on success every row was readable, and a code point is in the set exactly when it is on a row with neither `First` nor `Last`, or lies between a `First` row and the `Last` row that closes it (so a `First` row adds nothing by itself) |
| `CodePoints.ScanCharacterized` | c/makeotf/makeotf_lib/utils/generate_uniblock.py:69-80 | over read entries, the loop fails exactly when some `Last` row has no pending `First`; otherwise its set is the assigned code points and its pending start is that of the `First` row still open |
| `CodePoints.LoadFailsOnUnmatchedLast` | c/makeotf/makeotf_lib/utils/generate_uniblock.py:75-76 | for readable rows, loading fails exactly when a `Last` row has no pending `First` row |
| `CodePoints.LoadIsScan` | c/makeotf/makeotf_lib/utils/generate_uniblock.py:70-80 | loading succeeds exactly when every row is readable and the entry loop succeeds, and then the two agree |
| `CodePoints.Interval` | c/makeotf/makeotf_lib/utils/generate_uniblock.py:76-77 | `range(start, unichar + 1)` holds exactly the code points from `start` to `unichar` |
| `Os2Ranges.IsContinuation` | c/makeotf/makeotf_lib/utils/generate_uniblock.py:95 | a row whose first field starts with a character that is not a digit: the previous bit number is put in front of it |
| `Os2Ranges.IsReserved` | c/makeotf/makeotf_lib/utils/generate_uniblock.py:97 | the row whose first field is `123-127`, skipped |
| `Os2Ranges.BitValue` | c/makeotf/makeotf_lib/utils/generate_uniblock.py:100 | the bit number as a number: an inherited one is already an integer, a written one is read as decimal |
| `Os2Ranges.ParseRange` | c/makeotf/makeotf_lib/utils/generate_uniblock.py:101 | the range field is split at `-` and the pieces read as hexadecimal left to right; fewer or more than two pieces is an unpacking failure, and a bad piece read before that fails as such |
| `Os2Ranges.Os2Row` | c/makeotf/makeotf_lib/utils/generate_uniblock.py:95-110 | one row given the previous bit: a continuation row takes that bit; the reserved row and bit 57 yield nothing; otherwise four fields, a decimal bit, a hexadecimal range, and a record; `Os2Ranges.Os2RowOutcome` states its outcome |
| `Os2Ranges.Os2Scan` | c/makeotf/makeotf_lib/utils/generate_uniblock.py:94-111 | the loop over the rows in file order, keeping the records and `prev_os2_num`, ending at the first failing row |
| `Os2Ranges.UrRecords` | c/makeotf/makeotf_lib/utils/generate_uniblock.py:89-112 | the code points are loaded first and the bit list is scanned against them; a failure in either ends it |
| `Os2Ranges.ParseRangeRoundTrip` | c/makeotf/makeotf_lib/utils/generate_uniblock.py:101 | a range field written `%04X-%04X` reads back as its two ends |
| `Os2Ranges.BuildOs2Records` | c/makeotf/makeotf_lib/utils/generate_uniblock.py:90-112 | the loop computes exactly the builder function `Os2Scan`: the same records on success, the same failure otherwise |
| `Os2Ranges.GetOs2UrRecords` | c/makeotf/makeotf_lib/utils/generate_uniblock.py:84-112 | the code points are loaded first, so a bad UnicodeData.txt row fails before the bit list is read; otherwise the records are those of the bit list scanned against the loaded set |
| `Os2Ranges.Os2ErrorPersists` | c/makeotf/makeotf_lib/utils/generate_uniblock.py:94-111 | once a prefix of the bit list fails, the whole list fails with that failure |
| `Os2Ranges.Os2RowOutcome` | c/makeotf/makeotf_lib/utils/generate_uniblock.py:95-110 | the reserved row yields nothing; any other row yields nothing only when it resolves to bit 57; a record never has bit 57, has count 1 for a flag-on-any-character bit and the exact count otherwise, has the hexadecimal range of the row's third field and the repaired name of its second, and takes the previous bit on a continuation row |
| `Os2Ranges.Os2ScanInvariant` | c/makeotf/makeotf_lib/utils/generate_uniblock.py:87-111 | every record appended obeys the record rule (no bit 57, count 1 or the exact count); `prev_os2_num` is always the bit of the last record appended, or 0, and so is never 57 |
| `Os2Ranges.Os2FailureRow` | c/makeotf/makeotf_lib/utils/generate_uniblock.py:94-101 | a failure in the bit list names a row of it, and the rows before it scan without failure |
| `Os2Ranges.SkippedRowsYieldNothing` | c/makeotf/makeotf_lib/utils/generate_uniblock.py:97-98 | the reserved row and a row that writes bit 57 yield nothing whatever the previous bit; at any point the builder reaches, a row that yields nothing is one of these |
| `Os2Ranges.SkippedRowIsInert` | c/makeotf/makeotf_lib/utils/generate_uniblock.py:97-103 | inserting a skipped row anywhere changes nothing: the same records, or the same failure with later rows renumbered; this includes `prev_os2_num` |
| `Os2Ranges.ContinuationInheritsBit` | c/makeotf/makeotf_lib/utils/generate_uniblock.py:95-96 | a continuation row that goes through appends a record carrying the bit of the record appended before it, or 0 when there is none |
| `Os2Ranges.RecordsOnlyAppended` | c/makeotf/makeotf_lib/utils/generate_uniblock.py:109-110 | the records of any prefix of the bit list are a prefix of the final records |
| `Os2Ranges.RecordOfRow` | c/makeotf/makeotf_lib/utils/generate_uniblock.py:109-110 | a row that appends a record put it at the position counted by the records of the rows before it |
| `Os2Ranges.AppendedInRowOrder` | c/makeotf/makeotf_lib/utils/generate_uniblock.py:94-110 | of two rows that append records, the earlier row's record has the smaller position |
| `Os2Ranges.RowOfRecord` | c/makeotf/makeotf_lib/utils/generate_uniblock.py:109-110 | every record was appended by some row, whose predecessors appended exactly the records before it, and `Os2Row` on that row, given the bit those predecessors left, yields the record, so `Os2RowOutcome` describes every final record |
| `Emitter.StrLe` | c/makeotf/makeotf_lib/utils/generate_uniblock.py:116 | Python's `<=` on strings: code point by code point, a proper prefix first |
| `Emitter.RecordLe` | c/makeotf/makeotf_lib/utils/generate_uniblock.py:116 | Python's `<=` on the record tuples, which `sorted` uses: by start, then end, count, bit and name |
| `Emitter.StrLeTotal` | c/makeotf/makeotf_lib/utils/generate_uniblock.py:116 | Python's string `<=` is total |
| `Emitter.StrLeAntisymmetric` | c/makeotf/makeotf_lib/utils/generate_uniblock.py:116 | Python's string `<=` is antisymmetric |
| `Emitter.StrLeTransitive` | c/makeotf/makeotf_lib/utils/generate_uniblock.py:116 | Python's string `<=` is transitive |
| `Emitter.RecordLeTotal` | c/makeotf/makeotf_lib/utils/generate_uniblock.py:116 | the tuple order on `(start, end, count, os2_num, name)` is total |
| `Emitter.RecordLeAntisymmetric` | c/makeotf/makeotf_lib/utils/generate_uniblock.py:116 | the tuple order is antisymmetric |
| `Emitter.RecordLeTransitive` | c/makeotf/makeotf_lib/utils/generate_uniblock.py:116 | the tuple order is transitive |
| `Emitter.Insert` | c/makeotf/makeotf_lib/utils/generate_uniblock.py:116 | insertion adds exactly the one record to the multiset |
| `Emitter.InsertSorted` | c/makeotf/makeotf_lib/utils/generate_uniblock.py:116 | insertion into a sorted sequence keeps it sorted |
| `Emitter.SortRecords` | c/makeotf/makeotf_lib/utils/generate_uniblock.py:116 | `sorted(records)` is in ascending tuple order and is a permutation of the records |
| `Emitter.SortedUnique` | c/makeotf/makeotf_lib/utils/generate_uniblock.py:116 | two sorted permutations of the same records are equal, so any correct sort gives the same table |
| `Emitter.SortedByStart` | c/makeotf/makeotf_lib/utils/generate_uniblock.py:116 | a sorted table is in ascending order of first code point |
| `Emitter.Quoted` | c/makeotf/makeotf_lib/utils/generate_uniblock.py:120 | `'"%s"'`: the name between double quotes |
| `Emitter.HexField` | c/makeotf/makeotf_lib/utils/generate_uniblock.py:118-119 | `0x` and four or more upper-case hexadecimal digits; `Emitter.HexFieldParses` reads it back |
| `Emitter.FormatRow` | c/makeotf/makeotf_lib/utils/generate_uniblock.py:117-122 | one C initializer line: the seven fields padded to their widths between `    { ` and ` },`; `Emitter.FormatRowRoundTrip` and `Emitter.RowLayout` state its shape |
| `Emitter.FormatRowRoundTrip` | c/makeotf/makeotf_lib/utils/generate_uniblock.py:117-122 | for a record whose name has no comma, the emitted line reads back as that record: the value in each column is the one formatted there |
| `Emitter.HexFieldParses` | c/makeotf/makeotf_lib/utils/generate_uniblock.py:118-119 | `'0x%04X'` reads back as the number after the `0x` prefix |
| `Emitter.RowLayout` | c/makeotf/makeotf_lib/utils/generate_uniblock.py:121 | the format string's layout is the seven fields joined at commas between `    { ` and ` },` |
| `Emitter.FormatRowWidth` | c/makeotf/makeotf_lib/utils/generate_uniblock.py:121-122 | for values within the padding widths every line has the same length, 88, so the columns line up |
| `Emitter.Header` | c/makeotf/makeotf_lib/utils/generate_uniblock.py:40-62 | the sixteen lines of the fixed comment header, the last one empty |
| `Emitter.TableLines` | c/makeotf/makeotf_lib/utils/generate_uniblock.py:115-122 | one formatted line per record of `sorted(records)`, in that order |
| `Emitter.PrintRecords` | c/makeotf/makeotf_lib/utils/generate_uniblock.py:115-122 | the loop writes exactly `TableLines`: one formatted line per record of `sorted(records)`, in that order |
| `Emitter.MapRecords` | c/makeotf/makeotf_lib/utils/generate_uniblock.py:116-122 | one line per record, line `i` formatted from record `i` |
| `Emitter.TableListsRecords` | c/makeotf/makeotf_lib/utils/generate_uniblock.py:115-122 | the table has one line per record; its records are a permutation of the input whose first code points ascend; line `i` reads back as the `i`-th record of `sorted(records)` when that record's name has no comma |
| `Uniblock.Run` | c/makeotf/makeotf_lib/utils/generate_uniblock.py:125-128 | the header, written before either table is read, then the table of the records; on a failure, the header and the failure |
| `Uniblock.Generate` | c/makeotf/makeotf_lib/utils/generate_uniblock.py:125-128 | the run writes exactly what `Run` describes: the header, then the table, or the header and the failure |
| `Uniblock.RunWritesTable` | c/makeotf/makeotf_lib/utils/generate_uniblock.py:125-128 | a successful run writes the header followed by the table of the records; UnicodeData.txt loaded, and every listed record obeys the record rule |
| `Uniblock.UnicodeDataFailure` | c/makeotf/makeotf_lib/utils/generate_uniblock.py:89 | a failure while UnicodeData.txt is read names its first bad row |
| `Uniblock.BitListFailure` | c/makeotf/makeotf_lib/utils/generate_uniblock.py:89-101 | once UnicodeData.txt has loaded, a failure names the first bad row of os2_ur.txt |

## Left out

- File reading and `csv.reader` (lines 67-68, 92-93) are not modelled. The inputs are rows already split into fields, and the quoting rules of `csv` are not modelled.
- `print` (lines 41, 121) is not modelled. The output is a sequence of lines, and the header's closing newline plus `print`'s own newline is one final empty line.
- The line reader `Emitter.ParseRow` is not part of the program. It exists only as the inverse the format is proved against.
- Python's `int()` is lenient: it allows surrounding whitespace, underscores and a sign, accepts every Unicode decimal digit (`int('٣') == 3`), and with base 16 also a `0x` prefix. The model's parsers accept only non-empty runs of ASCII digits (and, in base 16, the letters `A`-`F` and `a`-`f`) and refuse everything else.
- Negative values are absent, since every number in the model is a `nat`.
- `str.isdigit` (line 95) is true for every Unicode digit character, including superscript and circled digits such as `'²'` and `'①'` (on those the program then fails at `int()`, line 100). The model accepts ASCII `0`-`9` only.
- Python's exception types are not modelled; each abort is a `Reason`:
  - `IndexError` is `MissingField`.
  - An unpacking `ValueError` is `WrongFieldCount`.
  - `int()`'s `ValueError` is `BadHex` or `BadDecimal`.
  - `range(None, …)`'s `TypeError` is `LastWithoutFirst`.
  - The order in which the code meets these errors is kept.
- Emitter.FormatRowRoundTrip: requires a name without commas. The reader splits at every comma, so it cannot read back a name that holds one. The program itself writes such names unchanged.
- Emitter.TableListsRecords: promises that a line reads back only when its name has no comma, for the reason just given.
- Text.Lower: lower-cases the ASCII letters only. Python's `lower()` also lowers other letters and can change the length of a string (`'İ'` becomes two characters). The repair applies it only to `" And "` and `" For "`, which are ASCII.
- Emitter.FormatRowWidth: holds only for values within the padding widths: code points below 0x1000000, counts below 100000, bits below 1000, names of at most 39 characters. Wider values widen the line, since `%` formatting never truncates.
- The header claims that ranges do not overlap. The code does not check this, so nothing about it is proved. It depends on the contents of os2_ur.txt.
- The performance of the set membership test at line 26 is not modelled.
