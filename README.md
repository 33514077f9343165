# A verified model of a small C CSV reader

The repository is a CSV reader written in C, in two variants that share one
allocator:

- `csvParser.c` reads a file line by line. It copies every token into arena
  memory, trims the header names and indexes them in a hash table.
- `csvParser2.c` reads the whole file into one NUL-terminated buffer and
  slices it in place. Each header name and cell is a `String_View`
  (start address and size) into that buffer, and the byte that ends a field is
  overwritten with NUL.

Both variants infer a type for each column (Integer, Float, Boolean or String).
They use the same three-flag scan but treat empty cells differently.

This project models that core in Dafny and proves what it does. It has six
modules:

- `Bytes` (`bytes.dfy`): bytes, C strings (the bytes before the first NUL,
  `CStr`, `StrLen`), and the C-locale `isspace` and `isdigit`. `Wrappers`
  holds `Option`, which stands for a C value that may be NULL.
- `ArenaAllocator` (`arena.dfy`): the region-chained bump arena, which is
  identical in both files.
  - `Allocate`, `Reallocate` and `Cleared` specify `arena_alloc`,
    `arena_realloc` and `arena_reset` as pure functions of the chain.
  - The class `Arena` holds the chain (`regions`) and the index of the
    current region (`end`). Its methods update them in place and are proved
    equal to those functions.
  - The lemmas prove the following:
    - the arena invariant: every region is aligned and within its capacity,
      and every region after `end` is untouched;
    - alignment and the bump size;
    - the sizing of new regions;
    - exactly when a region is appended and when NULL is returned;
    - reuse after a reset;
    - the copy that a growing realloc performs.
- `ColumnIndex` (`column_index.dfy`): `hash_function`, which is djb2 over
  the key's signed chars with u64 wrap-around, reduced modulo 8. It also
  models `insert_into_hash`, which puts the new entry at the head of its
  chain, and `get_column_index`. The class `IndexTable` holds the array of 8
  chains. The lemmas state three facts:
  - looking up a name after an insert gives the new index for that name and
    the old result for every other name;
  - a name that no entry carries gives -1;
  - indexing a header and then looking a name up gives the last column with
    that name.
- `Tokens` (`tokens.dfy`): the copying tokenizer of `csvParser.c`.
  - `r_trim`, `l_trim` and `trim` work in place on a NUL-terminated `array`.
  - `is_bool` is the four spellings `true`, `TRUE`, `false` and `FALSE`.
  - `count_fields` is a strchr counting loop.
  - `get_token_before_delim` finds the earliest of `;`, `,` and `\n`, and an
    empty token becomes `"NULL"`.
  - The cell loop of `parse` is applied to one line.
- `TypeInference` (`type_inference.dfy`): the flag scan of
  `detect_column_type`.
  - `ScanColumn` is one definition for both variants; a flag tells whether
    empty cells are skipped.
  - `ScanColumnFlags` and `InferTypeMeaning` say what the flags and the type
    mean, on the cells alone.
  - `DetectColumnType1` is the `csvParser.c` method, which skips NULL and
    empty cells.
- `ZeroCopy` (`zero_copy.dfy`): the in-place reader of `csvParser2.c`.
  - The two buffer counters.
  - The slicing of one field (`SliceField`, specified by `CutAt`).
  - The header, row and table loops (`ParseHeader`, `ParseRow` and `Parse`,
    specified by `Header`, `RowCells` and `Rows`).
  - `DetectColumnType2`, which scans every cell up to the NUL that ends it.

Three places in `csvParser2.c` do not work as written, so the model follows
what is evidently intended:

- The column counter of `parse_header` is never initialised
  (csvParser2.c:165). The model starts it at 0.
- `parse` has no `return` statement. Reaching its end counts as success.
- `is_bool` is called but not defined in that file. It is modelled as the
  same four-spelling test applied to the span's bytes.

## Model

| member | source | states |
|---|---|---|
| `ArenaAllocator.AlignUp` | csvParser.c:9-10 | ALIGN_UP(bytes, 16) is a multiple of 16 in [bytes, bytes + 15] |
| `ArenaAllocator.NewCapacity` | csvParser.c:37-41 | a new region's capacity is at least 8192 and at least the aligned request, and equals one of the two |
| `ArenaAllocator.Walk` | csvParser.c:50-53 | the walk moves from `end` past regions that cannot take the request and stops at the first one that can, or at the tail |
| `ArenaAllocator.AllocateKeepsInvariant` | csvParser.c:31-74 | arena_alloc keeps the invariant: marks aligned and within capacity, regions after `end` untouched |
| `ArenaAllocator.AllocateBumps` | csvParser.c:33-73 | a successful allocation hands out the 16-aligned old mark of the region that becomes `end` (offset 0 of an appended region), bumps that mark by exactly ALIGN_UP(bytes, 16) within capacity, appends at most one region, and changes no other region |
| `ArenaAllocator.AllocateFresh` | csvParser.c:71-72 | a block live before an allocation stays live, keeps its bytes, and ends at or before a new block in the same region, so the new block overlaps no live block |
| `ArenaAllocator.AllocatePlacement` | csvParser.c:34-69 | a region is appended, at the tail, exactly when no region from `end` on fits and memory is available; it has capacity max(8192, aligned size) and the block at offset 0; NULL is returned exactly when a region is needed and memory is not available, with the chain unchanged; otherwise the block is in the first region from `end` that fits |
| `ArenaAllocator.ClearedKeepsInvariant` | csvParser.c:95-102 | arena_reset sets every mark to 0 with `end` at the first region, and keeps the chain, every capacity and all storage |
| `ArenaAllocator.ResetReuses` | csvParser2.c:100-107 | after a reset, a request that fits some region's capacity appends nothing and lands at offset 0 of the first region big enough; one that fits the first region lands at its start |
| `ArenaAllocator.ReallocateCopies` | csvParser.c:76-92 | arena_realloc keeps the invariant; with newsize <= oldsize it returns the old block and changes nothing; otherwise the block and `end` are those arena_alloc gives, the new block is live for newsize bytes, its first oldsize bytes equal the old block's, the old block keeps its bytes, and NULL comes back exactly when the allocation fails |
| `ArenaAllocator.ReallocateKeepsLive` | csvParser.c:76-92 | every block live before arena_realloc is live afterwards and keeps its bytes |
| `ArenaAllocator.CopyMoves` | csvParser.c:91 | memcpy between non-overlapping blocks gives the destination the source's bytes, leaves the source intact, changes no byte outside the destination and no other region, and changes no mark or capacity |
| `ArenaAllocator.Arena.constructor` | csvParser.c:152-153 | a zero-initialised arena has no regions |
| `ArenaAllocator.Arena.Alloc` | csvParser.c:31-74 | the method leaves the state and result that `Allocate` gives, and keeps `Valid` |
| `ArenaAllocator.Arena.FindRegion` | csvParser.c:50-53 | the walk loop ends on the region `Walk` names |
| `ArenaAllocator.Arena.Realloc` | csvParser.c:76-93 | the method leaves the state and result that `Reallocate` gives, and keeps `Valid` |
| `ArenaAllocator.Arena.Reset` | csvParser.c:95-102 | the chain becomes `Cleared` of the old chain and `end` its first region |
| `ArenaAllocator.Arena.Free` | csvParser.c:104-115 | no regions are left and `begin = end = NULL` |
| `ColumnIndex.Djb2` | csvParser.c:117-121 | the djb2 accumulator stays a u64 value |
| `ColumnIndex.Hash` | csvParser.c:122 | the bucket of a key is below BUCKETS = 8 |
| `ColumnIndex.HashFunction` | csvParser.c:117-123 | the accumulator loop, wrapping at 2^64 on each step, computes the djb2 bucket of the key |
| `ColumnIndex.FirstMatch` | csvParser.c:141-148 | the chain walk stops at the first entry with the key; every entry before it has another key |
| `ColumnIndex.Insert` | csvParser.c:126-135 | inserting keeps the table at 8 chains; its meaning is `LookupAfterInsert` |
| `ColumnIndex.EmptyTable` | csvParser.c:162-165 | init_csv leaves 8 chains |
| `ColumnIndex.InsertAll` | csvParser.c:311-325 | indexing a header keeps 8 chains; its meaning is `LookupInsertAll` |
| `ColumnIndex.LastIndex` | csvParser.c:321 | the reference lookup: the last position holding the name, or -1 exactly when no position holds it |
| `ColumnIndex.LookupAfterInsert` | csvParser.c:126-150 | after insert(k, i), get_column_index(k) is i (the newest entry wins), and every other name gives what it gave before |
| `ColumnIndex.LookupMissing` | csvParser.c:141-149 | a name that no entry of its own chain carries gives -1 |
| `ColumnIndex.LookupInsertAll` | csvParser.c:311-325 | after indexing the header names in order, looking a name up gives the last column with that name, or -1 when no column has it |
| `ColumnIndex.IndexTable.constructor` | csvParser.c:162-165 | every bucket starts empty |
| `ColumnIndex.IndexTable.InsertIntoHash` | csvParser.c:126-135 | the key's chain gets the new entry at its head; no other chain changes |
| `ColumnIndex.IndexTable.GetColumnIndex` | csvParser.c:137-150 | the chain walk returns what `Lookup` gives and changes nothing |
| `ColumnIndex.IndexTable.IndexHeader` | csvParser.c:313-325 | the header loop leaves the table `InsertAll` gives |
| `Tokens.LeadingSpaces` | csvParser.c:183-186 | the length of the maximal whitespace run that starts the string |
| `Tokens.KeptLength` | csvParser.c:174-177 | the length without the maximal whitespace run that ends the string |
| `Tokens.StripLeading` | csvParser.c:182-191 | l_trim's result is a suffix of the string after a whitespace run, and is empty or starts with a non-space byte |
| `Tokens.StripTrailing` | csvParser.c:173-179 | r_trim's result is a prefix of the string before a whitespace run, and is empty or ends with a non-space byte |
| `Tokens.Strip` | csvParser.c:193-197 | trim's result is no longer than the string, and is empty or has non-space bytes at both ends |
| `Tokens.StripShape` | csvParser.c:193-197 | trim cuts the string into a whitespace run, the result and a whitespace run; the result is an unchanged slice that is empty or starts and ends with a non-space byte |
| `Tokens.StripUnique` | csvParser.c:193-197 | whenever a string is spaces, a middle that is empty or has non-space ends, and spaces, trim gives exactly the middle |
| `Tokens.IsBool` | csvParser.c:199-205 | a boolean spelling has 4 or 5 bytes, none of them a digit, whitespace or NUL, so a boolean cell is never all digits |
| `Tokens.StripIdempotent` | csvParser.c:193-197 | trimming twice is trimming once |
| `Tokens.LTrimmed` | csvParser.c:188-190 | the memmove of l_trim keeps the buffer's length |
| `Tokens.RTrimmedString` | csvParser.c:173-179 | after r_trim the buffer's string is the old one without its trailing whitespace |
| `Tokens.LTrimmedString` | csvParser.c:182-191 | after l_trim the buffer's string is the old one without its leading whitespace |
| `Tokens.RTrim` | csvParser.c:173-179 | the backward loop and the NUL store leave `RTrimmed` of the old buffer |
| `Tokens.LTrim` | csvParser.c:182-191 | the skip loop and the memmove leave `LTrimmed` of the old buffer |
| `Tokens.SkipSpaces` | csvParser.c:183-186 | the skip loop stops after the leading whitespace |
| `Tokens.MoveDown` | csvParser.c:188-190 | memmove(str, str + start, len - start + 1) moves the tail of the string, terminator included, to the front and keeps the rest of the buffer |
| `Tokens.Trim` | csvParser.c:193-197 | trim leaves l_trim then r_trim of the buffer, whose string is the old string trimmed |
| `Tokens.Chr` | csvParser.c:272 | strchr finds the first occurrence at or after the cursor, or NULL when there is none |
| `Tokens.CountChar` | csvParser.c:270-276 | the strchr loop counts every occurrence of the byte |
| `Tokens.CountFields` | csvParser.c:268-278 | count_fields is the number of delimiter occurrences plus 1 |
| `Tokens.FirstDelim` | csvParser.c:333-340 | the earliest index holding any of the delimiters, or none when no byte is a delimiter |
| `Tokens.TokenBefore` | csvParser.c:342 | a cursor, when there is one, lies between 1 and the length of the string |
| `Tokens.TokenBeforeMeaning` | csvParser.c:330-366 | the token is the bytes before the earliest `;`, `,` or `\n` (the whole string when there is none), or `"NULL"` when that is empty; `next` is one past that delimiter, or NULL exactly when no delimiter occurs |
| `Tokens.GetTokenBeforeDelim` | csvParser.c:330-366 | one strchr per delimiter, keeping the earliest hit, gives the token and cursor of `TokenBefore` |
| `Tokens.SplitLine` | csvParser.c:387-407 | the cell loop of parse on one line stores the cells `LineCells` gives |
| `Tokens.TokenClean` | csvParser.c:343-365 | every token is non-empty and holds no delimiter |
| `Tokens.LineCellsClean` | csvParser.c:390-406 | a line gives at most `cols` cells, each non-empty and free of delimiters |
| `Tokens.LineCellsCount` | csvParser.c:390-406 | with enough columns a line gives one cell per delimiter, plus one for a last field no delimiter ends |
| `TypeInference.CellEffect` | csvParser.c:227-247 | the byte scan leaves the flags of an all-digit cell alone; for a decimal (a first `.` after index 0 among digits) it sets is_float and clears is_integer; for anything else, a sign or a leading or second `.` included, it clears both; is_boolean is untouched |
| `TypeInference.Classify` | csvParser.c:250-265 | Integer exactly when is_integer holds, Boolean exactly when is_integer does not and is_boolean does, Float exactly when only is_float holds, else String |
| `TypeInference.Present` | csvParser2.c:228 | every row contributes the content of its span |
| `TypeInference.ScanColumnFlags` | csvParser.c:209-248 | after the pass, is_integer holds exactly when every scanned cell is all digits, is_boolean exactly when every scanned cell is a boolean spelling, and is_float exactly when some scanned cell is a decimal and every later scanned cell is all digits |
| `TypeInference.InferType1` | csvParser.c:207-266 | the csvParser.c type of a column, with NULL and empty cells skipped, is the type its cells call for: Integer when every scanned cell is digits, else Boolean when every one is a boolean, else Float when the float condition holds, else String |
| `TypeInference.InferType2` | csvParser2.c:219-274 | the csvParser2.c type of a column is the type its cells call for as for csvParser.c, with no cell skipped |
| `TypeInference.InferTypeMeaning` | csvParser.c:207-266 | the type on the cells alone: Integer when every scanned cell is digits (also when none is scanned), else Boolean when every scanned cell is a boolean, else Float when the float condition holds, else String |
| `TypeInference.FlagsMonotone` | csvParser.c:222-245 | is_integer and is_boolean, once cleared, stay cleared |
| `TypeInference.Column` | csvParser.c:216 | the cells `rows[row].data[col]` of a column, in row order |
| `TypeInference.ScanCell` | csvParser.c:227-247 | the byte loop with its early break gives the flags of `ScanFrom` |
| `TypeInference.DetectColumnType1` | csvParser.c:207-266 | types[col] becomes the inferred type of the column, with NULL and empty cells skipped; no other entry changes |
| `TypeInference.VariantsAgree` | csvParser2.c:219-274 | on a column with no empty cell both variants infer the same type |
| `TypeInference.EmptySpanNotBoolean` | csvParser2.c:228-233 | in csvParser2.c a column holding an empty span is never Boolean |
| `TypeInference.ExampleIntegers` | csvParser.c:250-253 | "1", "23" is Integer |
| `TypeInference.ExampleBooleans` | csvParser.c:199-205 | "true", "FALSE" is Boolean |
| `TypeInference.ExampleFloatAgain` | csvParser.c:234-239 | "abc" then "1.5" is Float: a later cell sets is_float again |
| `TypeInference.ExampleNotNumeric` | csvParser.c:240-244 | "-1" and ".5" are String |
| `TypeInference.ExampleEmptyCell` | csvParser.c:217-220 | "true", "" is Boolean under the csvParser.c rule but String under the csvParser2.c rule; the csvParser.c pipeline never yields an empty cell: a blank field becomes the text "NULL" (csvParser.c:345-353, `Tokens.TokenClean`), which is scanned like a word (see `TypeInference.ExampleBlankField`) |
| `TypeInference.ExampleBlankField` | csvParser.c:345-353 | a blank field is tokenized as "NULL", and "true" with that cell is String: "NULL" fails is_bool and clears is_integer and is_float |
| `ZeroCopy.CountRows` | csvParser2.c:126-135 | the row count is the number of `\n` bytes before the terminator; a last line without `\n` is not counted |
| `ZeroCopy.LeadingBreaks` | csvParser2.c:140-143 | the length of the run of `\n` and `\r` bytes at the start |
| `ZeroCopy.FirstLine` | csvParser2.c:145-152 | the bytes before the first `\n` |
| `ZeroCopy.ColumnCount` | csvParser2.c:137-154 | a buffer announces at least one column and at most one more than its `;` and `,` bytes; it announces exactly that many when the buffer has no line break |
| `ZeroCopy.CountColumns` | csvParser2.c:137-154 | after the leading line breaks, one more than the number of `;` and `,` bytes on the first line |
| `ZeroCopy.SkipLineBreaks` | csvParser2.c:140-143 | the first loop stops after the leading `\n` and `\r` bytes |
| `ZeroCopy.CountSeparators` | csvParser2.c:145-152 | the second loop stops at the first `\n` or the end and counts the `;` and `,` bytes before it |
| `ZeroCopy.RunEnd` | csvParser2.c:169-172 | the cursor stops at the first `;`, `,`, `\n` or NUL, and no byte before it is one |
| `ZeroCopy.CutAt` | csvParser2.c:167-178 | slicing keeps the buffer's length and terminator, and the cursor stays in the buffer |
| `ZeroCopy.CutMeaning` | csvParser2.c:167-178 | a span starts at the cursor and is the maximal run without a stop byte; only the byte that ends it can change, and only to NUL; the cursor moves one past a delimiter and stays on a NUL |
| `ZeroCopy.Header` | csvParser2.c:164-179 | the header loop keeps the buffer's length and terminator |
| `ZeroCopy.RowCells` | csvParser2.c:199-215 | the cell loop keeps the buffer's length and terminator |
| `ZeroCopy.Rows` | csvParser2.c:190-216 | the row loop keeps the buffer's length and terminator |
| `ZeroCopy.HeaderSlices` | csvParser2.c:164-179 | the header has exactly `cols` spans; slicing only turns stop bytes into NUL; each span is a field of the original buffer, unchanged and followed by a NUL; the first span starts at the cursor, each later one where the previous one left it (past its delimiter, or on the NUL), and nothing from the final cursor on is touched |
| `ZeroCopy.HeaderChain` | csvParser2.c:166-178 | the header's spans are the consecutive fields from the cursor, and no byte from the final cursor on changes |
| `ZeroCopy.RowSlices` | csvParser2.c:199-215 | a row has at most `cols` spans, each a field of the original buffer as for the header; a row cut short leaves the cursor on a NUL; the spans are the consecutive fields from the cursor and nothing from the final cursor on is touched |
| `ZeroCopy.RowChain` | csvParser2.c:199-214 | a row's spans are the consecutive fields from the cursor, and no byte from the final cursor on changes |
| `ZeroCopy.StuckAtNul` | csvParser2.c:200 | at a NUL no cell is taken and nothing moves |
| `ZeroCopy.RowsSlices` | csvParser2.c:190-216 | parse gives exactly the requested number of rows, each of at most `cols` spans that are fields of the original buffer; after a row cut short by the terminator every later row is empty and the cursor rests on a NUL; the rows read in order are the consecutive fields from the start, each row beginning where the previous one stopped |
| `ZeroCopy.RowsChain` | csvParser2.c:190-216 | all rows' spans, in order, are the consecutive fields from the start cursor; nothing from the final cursor on is touched; once a row is cut short the cursor ends on a NUL |
| `ZeroCopy.EmptyAfterNul` | csvParser2.c:200 | from a cursor on a NUL every row is empty, and buffer and cursor stay as they are |
| `ZeroCopy.HoldsReadsAsCString` | csvParser2.c:174-178 | a sliced span, read as a C string from its start, is exactly its original field |
| `ZeroCopy.SliceField` | csvParser2.c:202-213 | the inner loop and the NUL store do what `CutAt` says |
| `ZeroCopy.ParseHeader` | csvParser2.c:156-181 | parse_header leaves the spans, buffer and cursor that `Header` gives |
| `ZeroCopy.ParseRow` | csvParser2.c:199-215 | one row of parse leaves what `RowCells` gives |
| `ZeroCopy.Parse` | csvParser2.c:183-217 | parse slices `rows_count - 1` rows (none when rows_count is 0) and leaves what `Rows` gives |
| `ZeroCopy.DataRows` | csvParser2.c:191 | the number of data rows is one fewer than the newline count (the header line), and never more than that count |
| `ZeroCopy.RowBoundAsWritten` | csvParser2.c:191 | the loop bound `rows_count - 1` as written is a u64 value |
| `ZeroCopy.NoNewlineWraps` | csvParser2.c:191 | on a buffer with no newline the bound as written is 2^64 - 1 rows, while there is no data row |
| `ZeroCopy.DataRowsAgrees` | csvParser2.c:191 | the corrected bound never exceeds the newline count; it equals the bound as written for every nonzero count and is 0 where that one wraps |
| `ZeroCopy.ColumnTexts` | csvParser2.c:228 | the texts of cell `col` of every row, in row order |
| `ZeroCopy.ParsedSpansTerminate` | csvParser2.c:209-213 | every parsed span ends at a NUL in the final buffer and reads as its original field |
| `ZeroCopy.ScanSpan` | csvParser2.c:235-255 | the byte loop, running to the NUL that ends the span, gives the flags of `ScanFrom` on the span's bytes |
| `ZeroCopy.ScanColumnCell` | csvParser2.c:228-255 | one row of the scan: is_bool on the span, then its byte scan, with no empty cell skipped |
| `ZeroCopy.ScanColumnSpans` | csvParser2.c:226-272 | the row loop of detect_column_type gives the flags of the pass over the column's spans in row order, none skipped |
| `ZeroCopy.DetectColumnType2` | csvParser2.c:219-274 | types[col] becomes the inferred type of the column with every span scanned; no other entry changes |
| `ZeroCopy.RaggedLines` | csvParser2.c:200-215 | with two columns, "1\n2,3\n" gives rows [1, 2] and [3]: a short line takes its missing cell from the next line |
| `ZeroCopy.EmptyField` | csvParser2.c:169-178 | two delimiters in a row give a span of size 0 |

## Left out

- File input is not modelled: `read_csv` in both files (fopen, fseek, fread), `count_rows(FILE *)` and the fgets/strtok line reading of `csvParser.c`. Instead, the trimming, tokenizing and indexing are applied to given strings, because the model has no file system.
- The strtok header split of `csvParser.c` `parse_header` (csvParser.c:311-323) is not modelled. strtok is a library tokenizer with hidden state; only the trim and the index insertion applied to each name are modelled.
- The header skip in `csvParser2.c` `read_csv` (csvParser2.c:312-316) is not modelled. `Parse` takes its start offset as a parameter.
- `print_csv`, `main.c`, the `convert_*` and `append_*` helpers and the prototypes in `csvParser.h` without bodies are not modelled, because they are output, floating point or outside the core.
- Memory failure is not visible to the program, so whether `malloc` grants a new region is the parameter `memoryAvailable`. `free_region` and the release of memory are not modelled; `Free` only empties the chain.
- The arena allocations made inside `insert_into_hash`, `get_token_before_delim`, both `parse_header`s and both `parse`s are not modelled, and neither are their NULL paths. Keys, tokens and span arrays are values in the model. This also covers the allocation size `sizeof(Row) * csv->rows_count - 1` (csvParser2.c:185), where `- 1` applies to the product.
- A region's capacity counts `uintptr_t` words (csvParser.c:14), while its size is added to in bytes (csvParser.c:72) and used as a word index into `data` (csvParser.c:71). The model counts both in bytes and gives a region exactly `capacity` bytes of storage.
- `ArenaAllocator.NewRegion`: a fresh region's storage is zeros, whereas `malloc` leaves it indeterminate.
- Integer widths are unbounded in the model. This covers the u32 `size` and `capacity` of a region, the size_t wrap of ALIGN_UP near 2^64, the u32 field and column counters and the s32 column index. Only the u64 wrap of djb2, and the u64 `rows_count - 1` under Findings, are written out.
- `TypeInference.DetectColumnType1` scans the rows it is given, which are the rows `parse` fills: `count_rows` runs after `parse_header` has read the header line, so it counts only the data lines (csvParser.c:285-290, 370), and the loop `row < rows_count` (csvParser.c:214) reads only filled rows. File reading is not modelled, so neither is this: as written, `read_csv` reads the whole file with `fread` (csvParser.c:440) without rewinding, so the `fgets` of `parse_header` (csvParser.c:298) finds end of file and `read_csv` fails before anything is parsed. The model follows the evident intent of reading from the start.
- `TypeInference.DetectColumnType1` and `ZeroCopy.DetectColumnType2` require every row to hold cell `col`. A cell the parse loop never set (a line cut short at the terminator) is indeterminate memory in the source, with no defined value to model. In `csvParser.c` a NULL cell is the `None` cell, which is skipped.
- `Tokens.RTrim` on an empty string gives the empty string. The source computes an address one before the string (csvParser.c:174) and stores NUL after it, which is at the string's start.
- `Tokens.CountChar` and `Tokens.CountFields` require the searched byte to be other than NUL. For NUL, strchr would find the terminator and the loop would step past the end of the string.

## Findings

| source | as written | input that shows it | evidently intended | confidence | as-written member | corrected member |
|---|---|---|---|---|---|---|
| csvParser2.c:191 | the row loop runs while `row < csv->rows_count - 1`, and that subtraction is on the u64 `rows_count`, which is 0 when the buffer holds no `\n`; it wraps to 2^64 - 1 (the same bound is at csvParser2.c:226) | the one-line buffer `a,b` without a final newline | no data row: `rows_count - 1` rows when rows_count > 0, none otherwise | not executed | `ZeroCopy.NoNewlineWraps` | `ZeroCopy.DataRowsAgrees` |
