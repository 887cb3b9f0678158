# Chunk column model

This project models `Column` from TiDB's `pkg/util/chunk/column.go` and proves properties of it. A `Column` is one column of a chunk, stored the way the Apache Arrow columnar format lays out its "Validity bitmaps" and "Variable-size Binary Layout" sections. It has five buffers:

- `length`: the number of rows.
- `nullBitmap`: one bit per row, least significant bit first. A 1 means not null.
- `offsets`: used by variable-length columns only. Row `i` holds `data[offsets[i] .. offsets[i+1]]`.
- `data`: the flat byte buffer.
- `elemBuf`: nil for a variable-length column. For a fixed-length column it is a buffer whose length is the element width.

The Dafny class `Chunk.Column` keeps these five buffers as fields and changes them in place, as the Go methods do.

- A nil `elemBuf` is `None`.
- `Valid()` is the layout invariant:
  - the bitmap has `(length + 7) / 8` bytes, and every bit from `length` on is zero;
  - a variable-length column has `length + 1` offsets that start at 0, never decrease and end at `|data|`;
  - a fixed-length column has exactly `length * width` data bytes.
- Two ghost views state the contracts:
  - `Cells()` gives, row by row, the null flag and the raw bytes the row holds. A null row may still hold bytes.
  - `Values()` is what a reader sees: `None` for a null row, otherwise `Some(bytes)`.

The model has four modules:

- `NullBitmap` (bitmap.dfy): the bit arithmetic on `seq<bv8>` bitmaps. It covers single bits, masks, padding and trimming, AND-merging and counting.
- `ColumnLayout` (layout.dfy): the layout predicates and the raw view of the rows. It also holds the lemmas that connect each buffer update to the row view, and the specification of selection (`Select`).
- `NameValueCodec` (namevalue.dfy): the Enum/Set row format. A row is the 8 bytes of the value, in the order they lie in memory, followed by the name. The model fixes that order to little-endian.
- `Chunk` (column.dfy): the `Column` class and its operations.

`Option` and `Outcome` are in wrappers.dfy. A Go panic that the source raises on purpose is modelled as an `Outcome.Fail` (`Reset`, `MergeNulls`). An out-of-range index that the Go code does not guard becomes a precondition.

## Model

| member | source | states |
|---|---|---|
| Chunk.Column.NewFixedLen | pkg/util/chunk/column.go:124-130 | a new fixed-length column is valid and has no rows; its element buffer is `elemLen` zero bytes |
| Chunk.Column.NewVarLen | pkg/util/chunk/column.go:133-139 | a new variable-length column is valid and has no rows; its offsets are the single 0 |
| Chunk.NewColumn | pkg/util/chunk/column.go:113-121 | a valid empty column, variable-length exactly when the width is VarElemLen, otherwise of that width |
| Chunk.Column.typeSize | pkg/util/chunk/column.go:153-158 | VarElemLen exactly when there is no element buffer or it is empty, otherwise the buffer's positive width |
| Chunk.Column.isFixed | pkg/util/chunk/column.go:160-162 | true exactly when elemBuf is not nil; a column that is not fixed-length has type size VarElemLen |
| Chunk.Column.IsNull | pkg/util/chunk/column.go:208-211 | true exactly when the row's bit is 0; for a row of a valid column, exactly when the row reads as null |
| Chunk.Column.GetRaw | pkg/util/chunk/column.go:727-736 | the raw bytes of the row, which are the row's value when it is not null; a fixed-length row has the column's width |
| Chunk.Column.GetBytes | pkg/util/chunk/column.go:689-691 | the bytes of a variable-length row, between its two offsets |
| Chunk.Column.appendNullBitmap | pkg/util/chunk/column.go:237-246 | the bitmap gains the bit of row `length` with the given value; the earlier bits are kept, and the padding stays zero |
| Chunk.Column.appendMultiSameNullBitmap | pkg/util/chunk/column.go:275-295 | the bitmap gains `num` bits of the same value after the old rows; the old bits are kept and the new padding is zero |
| Chunk.Column.padNullBitmap | pkg/util/chunk/column.go:281-283 | the bitmap gains k bytes, all 0xFF or all 0 |
| Chunk.Column.AppendNull | pkg/util/chunk/column.go:314-322 | the column stays valid and gains one null row: a copy of elemBuf when fixed-length, no bytes when variable-length; earlier rows are unchanged |
| Chunk.Column.AppendNNulls | pkg/util/chunk/column.go:298-311 | the column stays valid and gains n null rows, each as AppendNull makes it; earlier rows are unchanged |
| Chunk.Column.appendNullRaws | pkg/util/chunk/column.go:300-309 | the layout gains n rows, each with the null row's raw bytes |
| Chunk.Column.finishAppendFixed | pkg/util/chunk/column.go:324-328 | the element in elemBuf becomes a new not-null last row; earlier rows are unchanged |
| Chunk.Column.finishAppendVar | pkg/util/chunk/column.go:354-358 | the bytes after the last offset become a new not-null last row of a valid column |
| Chunk.Column.AppendBytes | pkg/util/chunk/column.go:367-370 | the column gains one row: not null, its bytes read back by GetBytes as b, with every earlier row unchanged |
| Chunk.Column.appendRawNTimes | pkg/util/chunk/column.go:256-268 | the layout gains `times` rows that each hold the given bytes |
| Chunk.Column.AppendCellNTimes | pkg/util/chunk/column.go:249-270 | the column gains `times` copies of src's row pos, with its null flag and its raw bytes; earlier rows are unchanged |
| Chunk.Column.appendCopies | pkg/util/chunk/column.go:250-269 | the column gains `times` rows with the given flag and bytes |
| Chunk.Column.appendNameValue | pkg/util/chunk/column.go:45-51 | the column gains one not-null row encoding (name, value), and GetNameValue of it returns that pair |
| Chunk.Column.AppendEnum | pkg/util/chunk/column.go:379-381 | GetEnum of the new last row returns the Enum appended |
| Chunk.Column.AppendSet | pkg/util/chunk/column.go:67-69 | GetSet of the new last row returns the Set appended |
| Chunk.Column.GetNameValue | pkg/util/chunk/column.go:716-724 | the row decoded as an 8-byte little-endian value followed by the name; an empty row is ("", 0) |
| Chunk.Column.GetEnum | pkg/util/chunk/column.go:694-697 | the row's raw bytes decoded as a name and a value |
| Chunk.Column.GetSet | pkg/util/chunk/column.go:700-703 | the row's raw bytes decoded as a name and a value |
| Chunk.Column.SetRaw | pkg/util/chunk/column.go:742-744 | only the row's bytes change: the first min(\|bs\|, row length) bytes are overwritten, the layout and the null flags are kept |
| Chunk.Column.resizeData | pkg/util/chunk/column.go:400-410 | data has n * typeSize bytes, all zero unless the rows are null |
| Chunk.Column.resizeNullBitmap | pkg/util/chunk/column.go:412-439 | the bitmap is the canonical bitmap of n rows that all have the same flag |
| Chunk.Column.resize | pkg/util/chunk/column.go:399-448 | a valid fixed-length column of n rows of the given width, all null or all not null; not-null rows are zero bytes |
| Chunk.Column.reserve | pkg/util/chunk/column.go:452-476 | a valid empty variable-length column: offsets [0], no data, an empty bitmap |
| Chunk.Column.reset | pkg/util/chunk/column.go:195-205 | a valid empty column of the same type; a variable-length column keeps the single offset 0 |
| Chunk.Column.Reset | pkg/util/chunk/column.go:166-187 | for each known evaluation type, an empty column of that type's width, or variable-length; an unknown type fails and changes nothing |
| Chunk.Column.SetNull | pkg/util/chunk/column.go:479-485 | exactly the row's bit changes; in a valid column only that row's flag changes |
| Chunk.Column.SetNulls | pkg/util/chunk/column.go:488-503 | exactly the bits in [begin, end) take the new flag and every other bit is kept; in a valid column only those rows' flags change |
| Chunk.Column.setNullsBitwise | pkg/util/chunk/column.go:489-492 | the bit-by-bit phase extends the run of set rows up to the byte boundary or end, and leaves the other bits alone |
| Chunk.Column.setNullBytes | pkg/util/chunk/column.go:493-499 | the whole-byte phase extends the run of set rows by whole bytes, and leaves the other bits alone |
| Chunk.Column.nullCount | pkg/util/chunk/column.go:506-518 | the number of rows that read as null |
| Chunk.Column.nullBytes | pkg/util/chunk/column.go:508-511 | stops at the last whole-byte boundary (`i` a multiple of 8 with fewer than 8 rows left), with the count of zero bits over the rows before it |
| Chunk.Column.nullBits | pkg/util/chunk/column.go:512-516 | the count extended bit by bit to all length rows |
| Chunk.Column.moveFixedRow | pkg/util/chunk/column.go:754-761 | row dst takes row src's bit, and its bytes too when src is not null; nothing else changes |
| Chunk.Column.reconstructFixed | pkg/util/chunk/column.go:751-763 | for a strictly increasing selection, row k takes the flag of row sel[k], and its bytes too when that row is not null |
| Chunk.Column.moveVarRow | pkg/util/chunk/column.go:767-778 | row dst takes row src's bit; a not-null row's bytes are copied down to tail, and the bytes after the new tail are kept |
| Chunk.Column.packVarRow | pkg/util/chunk/column.go:766-779 | one iteration keeps the packing invariant: rows 0..j are packed from offset 0, and the unread rows are intact |
| Chunk.Column.packVarRows | pkg/util/chunk/column.go:765-779 | after the loop every selected row is packed, in order |
| Chunk.Column.reconstructVar | pkg/util/chunk/column.go:764-782 | a variable-length column of \|sel\| rows: row k holds the flag of row sel[k], and that row's bytes when it is not null (no bytes otherwise) |
| Chunk.Column.moveSelected | pkg/util/chunk/column.go:751-782 | for either kind of column, row k holds the flag and the not-null bytes of row sel[k] |
| Chunk.Column.trimNullBitmap | pkg/util/chunk/column.go:785-791 | the bitmap becomes canonical for n rows and keeps their bits |
| Chunk.Column.reconstruct | pkg/util/chunk/column.go:747-792 | a nil selection changes nothing; otherwise the column stays valid with the selected rows, in order: Values() == Select(old Values(), sel) |
| Chunk.Column.Zero | pkg/util/chunk/column.go:224 | the zero Column value: no rows and every buffer nil |
| Chunk.Column.CopyConstruct | pkg/util/chunk/column.go:215-230 | dst, or a new column, gets every buffer of the source; a valid source gives a valid copy with the same rows |
| Chunk.Column.appendCell | pkg/util/chunk/column.go:825-841 | the column gains one last row with the given flag and bytes |
| Chunk.Column.copySelected | pkg/util/chunk/column.go:822-842 | an empty dst of the same kind ends up with the cells sel names, in sel's order |
| Chunk.Column.CopyReconstruct | pkg/util/chunk/column.go:796-844 | dst, or a new column, is valid and has the source's kind. For a nil sel, or a strictly increasing sel that names every row, it equals the source buffer by buffer. Otherwise it holds the cells sel names, in sel's order, with their flags and raw bytes, null rows included. The source is not modified |
| Chunk.Column.MergeNulls | pkg/util/chunk/column.go:851-866 | fails with nothing changed iff the receiver is variable-length or a length differs; otherwise a row is null iff it was null here or in any of cols, and not-null rows keep their value |
| Chunk.Column.sameLength | pkg/util/chunk/column.go:855-859 | true iff every column in cols has the receiver's length |
| Chunk.Column.mergeNulls | pkg/util/chunk/column.go:860-865 | a row becomes null iff it is null here or in any of cols, and not-null rows keep their value |
| Chunk.Column.mergeBitmaps | pkg/util/chunk/column.go:860-865 | every bit is the AND of the receiver's and every column's bit, and the bitmap stays canonical |
| Chunk.Column.andNullBitmap | pkg/util/chunk/column.go:861-864 | every bit is the AND of the two bitmaps' bits, and the padding stays zero |
| Chunk.Column.ContainsVeryLargeElement | pkg/util/chunk/column.go:878-894 | true iff the column is variable-length and some row holds more than MaxUint32 bytes |
| Chunk.ascendAsWritten | pkg/util/chunk/column.go:804-810 | true iff the selection never decreases, which is the test as written |
| Chunk.ascending | pkg/util/chunk/column.go:803-810 | true iff the selection strictly increases, which is the corrected test |
| NullBitmap.SingleBit | pkg/util/chunk/column.go:483 | the mask `1 << k` has exactly bit k set |
| NullBitmap.LowMask | pkg/util/chunk/column.go:293 | the mask `(1 << m) - 1` has exactly bits 0..m-1 set |
| NullBitmap.FillByte | pkg/util/chunk/column.go:493-496 | the byte SetNulls writes has every bit equal to the not-null flag |
| NullBitmap.SetBit | pkg/util/chunk/column.go:483 | OR-ing the row's mask sets that row's bit and keeps every other bit |
| NullBitmap.ClearBit | pkg/util/chunk/column.go:481 | AND-ing with the inverted mask clears that row's bit and keeps every other bit |
| NullBitmap.WriteRunByte | pkg/util/chunk/column.go:497-499 | writing a whole byte extends the run of set rows by 8 and keeps the bits outside it |
| NullBitmap.SetFrom | pkg/util/chunk/column.go:288-290 | the bits from row n to the end of its byte are set and the others kept |
| NullBitmap.ClearFrom | pkg/util/chunk/column.go:292-294 | the bits of the last byte from row t on are cleared and the others kept |
| NullBitmap.FillBytes | pkg/util/chunk/column.go:281-283 | k bytes whose every bit is the flag |
| NullBitmap.PadBits | pkg/util/chunk/column.go:276-283 | after padding, the old rows' bits are kept, the old padding reads 0 and the new bytes read as the flag |
| NullBitmap.FillOnes | pkg/util/chunk/column.go:287-290 | after step 1 every bit from the first new row on is set, and the old rows' bits are kept |
| NullBitmap.ClearPastOnes | pkg/util/chunk/column.go:291-294 | after step 2 the bitmap is the old one plus num set bits, with the padding cleared |
| NullBitmap.UniformBitmap | pkg/util/chunk/column.go:420-438 | the canonical bitmap of n rows that all have the same flag |
| NullBitmap.TrimBitmap | pkg/util/chunk/column.go:786-791 | cutting to ceil(t/8) bytes and masking the last byte gives a canonical bitmap for t rows with their bits kept |
| NullBitmap.AndBitmap | pkg/util/chunk/column.go:861-864 | a byte-wise AND of two bitmaps ANDs every bit and keeps the padding zero |
| NullBitmap.CanonicalUnique | pkg/util/chunk/column.go:785-791 | two canonical bitmaps with the same row flags are equal, so the clean-up leaves one bitmap per row sequence |
| NullBitmap.OnesCount8 | pkg/util/chunk/column.go:510 | the population count of a byte is at most 8 |
| NullBitmap.NullsInSplit | pkg/util/chunk/column.go:506-518 | counting zero bits over a range equals the sum of the counts over the two halves |
| NullBitmap.NullsInByte | pkg/util/chunk/column.go:512-516 | the zero bits among the first k of a byte's bits are k minus that byte's ones |
| NullBitmap.WholeByteNulls | pkg/util/chunk/column.go:510 | a whole byte contributes 8 minus its population count to the null count |
| ColumnLayout.Zeros | pkg/util/chunk/column.go:404 | k bytes, every one 0 |
| ColumnLayout.RawOf | pkg/util/chunk/column.go:727-736 | a fixed-length row's bytes have the column's width |
| ColumnLayout.RawsAppendFixed | pkg/util/chunk/column.go:325 | appending one element keeps the fixed layout and adds exactly one row with those bytes |
| ColumnLayout.RawsAppendVar | pkg/util/chunk/column.go:354-358 | appending bytes and their end offset keeps the variable layout and adds exactly one row with those bytes |
| ColumnLayout.ZeroRaws | pkg/util/chunk/column.go:406-410 | zeroed data gives n rows of zero bytes |
| ColumnLayout.RawsReplaceVar | pkg/util/chunk/column.go:743 | overwriting a row's bytes in place with as many bytes changes that row only |
| ColumnLayout.RawsReplaceFixed | pkg/util/chunk/column.go:759 | overwriting one element changes that row only |
| ColumnLayout.RawsTruncateFixed | pkg/util/chunk/column.go:763 | cutting the data to t elements keeps the first t rows |
| ColumnLayout.SetFlags | pkg/util/chunk/column.go:479-503 | the rows in [begin, end) take the flag and keep their bytes; the other rows are unchanged |
| ColumnLayout.CellsReflag | pkg/util/chunk/column.go:488-503 | a bitmap that differs only in [begin, end) gives the same cells with those flags changed |
| ColumnLayout.CountNulls | pkg/util/chunk/column.go:506-518 | the number of null rows is at most the number of rows |
| ColumnLayout.NullsInMatch | pkg/util/chunk/column.go:506-518 | counting zero bits over a prefix counts the null rows of that prefix |
| ColumnLayout.NullsInRows | pkg/util/chunk/column.go:506-518 | the zero bits among the first length bits are the null rows of the column |
| ColumnLayout.CellsReflagged | pkg/util/chunk/column.go:860-865 | a new canonical bitmap keeps every row's bytes and gives each row its new flag |
| ColumnLayout.CellsAppended | pkg/util/chunk/column.go:237-246 | appending k bits of one value and k raw rows appends exactly those k cells |
| ColumnLayout.CopiesAppended | pkg/util/chunk/column.go:249-270 | appending the same cell `times` times appends `times` copies of it, cells and rows alike |
| ColumnLayout.IncreasingLowerBound | pkg/util/chunk/column.go:753-761 | in a strictly increasing selection sel[j] >= j, so each row moves down or stays |
| ColumnLayout.IncreasingUpperBound | pkg/util/chunk/column.go:753 | in a strictly increasing selection sel[j] <= n - \|sel\| + j |
| ColumnLayout.SelectionLength | pkg/util/chunk/column.go:753 | a strictly increasing in-range selection has at most n entries |
| ColumnLayout.FixedMoveStep | pkg/util/chunk/column.go:753-762 | one fixed-length move keeps the invariant of the reconstruct loop |
| ColumnLayout.VarPackedStart | pkg/util/chunk/column.go:765 | before the loop, no row is packed and all rows are intact |
| ColumnLayout.VarPackedNext | pkg/util/chunk/column.go:773 | the next selected row is still intact when the loop reaches it |
| ColumnLayout.VarPackedStep | pkg/util/chunk/column.go:766-779 | moving one row keeps the packing invariant |
| ColumnLayout.VarPackedDone | pkg/util/chunk/column.go:780-781 | after the loop, cutting offsets and data gives the selected rows' bytes, with none for a null row |
| ColumnLayout.KeptRawsSelected | pkg/util/chunk/column.go:766-779 | a not-null selected row keeps its bytes |
| ColumnLayout.SelectedRows | pkg/util/chunk/column.go:747-792 | the rebuilt column's rows are the old rows selected by sel |
| ColumnLayout.FullSelectionIsIdentity | pkg/util/chunk/column.go:811-813 | a strictly increasing selection of every row selects the whole column, which justifies the CopyConstruct shortcut |
| ColumnLayout.SelectStep | pkg/util/chunk/column.go:825-829 | selecting one more index appends that row |
| ColumnLayout.SelectRowsOf | pkg/util/chunk/column.go:825-841 | selecting cells and then reading them equals reading and then selecting |
| ColumnLayout.AscendAsWrittenAcceptsRepeats | pkg/util/chunk/column.go:804-813 | [0, 0] passes the ascend test as written on a 2-row column, but selecting it is not the column |
| ColumnLayout.AppendToEmpty | pkg/util/chunk/column.go:221 | Go's `append(x[:0], y...)` is nil only when x is nil and y is empty, and always holds y's bytes |
| ColumnLayout.CopyElemBufAsWrittenTurnsFixed | pkg/util/chunk/column.go:221 | a fixed-length dst receiving a variable-length column gets a non-nil empty elemBuf, and a valid variable-length layout is then no longer valid |
| ColumnLayout.PackVarAsWritten | pkg/util/chunk/column.go:766-779 | the Go loop as written, from selected row j on; when it does not panic it keeps the lengths of offsets and data, never moves tail back, and leaves the offsets up to j alone |
| ColumnLayout.ReconstructVarAsWritten | pkg/util/chunk/column.go:765-781 | the whole variable-length branch as written; when it does not panic it leaves \|sel\| + 1 offsets, starting with the old first one, and no more data than before |
| ColumnLayout.NullRowWithBytes | pkg/util/chunk/column.go:479-485 | a valid variable-length column can hold a null row with bytes, as SetNull leaves it |
| ColumnLayout.ReconstructVarAsWrittenMergesRows | pkg/util/chunk/column.go:766-781 | on that column, the Go loop as written gives row 1 the bytes of rows 0 and 1 |
| NameValueCodec.LittleEndian | pkg/util/chunk/column.go:46-47 | the value written as exactly `width` bytes |
| NameValueCodec.FromLittleEndian | pkg/util/chunk/column.go:722 | the value read from s is below 256^\|s\| |
| NameValueCodec.LittleEndianRoundTrip | pkg/util/chunk/column.go:46-47 | reading back a value that fits the width gives it back |
| NameValueCodec.FromLittleEndianRoundTrip | pkg/util/chunk/column.go:722 | writing back what was read gives the same bytes |
| NameValueCodec.Encode | pkg/util/chunk/column.go:45-51 | the row is 8 bytes longer than the name |
| NameValueCodec.RoundTrip | pkg/util/chunk/column.go:716-724 | decoding an encoded (name, value) gives it back |
| NameValueCodec.Decode | pkg/util/chunk/column.go:716-724 | an empty row reads as ("", 0); any row of at least 8 bytes is the encoding of what it decodes to |

## Left out

- Slice capacities and the allocator are not modelled, because they only affect allocation. This covers `cap()` choices, `getDataMemCap`/`getNullBitmapCap`/`getOffsetsCap`, `ColumnAllocator`, the Go `NewColumn(ft *types.FieldType, capacity int)` and `NewEmptyColumn`, `getFixedLen` and `avoidReusing`. Where Go reslices within the capacity, the model keeps only the visible length.
- `Chunk.Column.resize` does not fix the bytes of null rows. The Go code leaves whatever bytes the buffer held, so the contract says only that those rows are null.
- `Chunk.Column.reserve` ignores n and `Chunk.NewColumn` ignores its capacity argument, because both only size allocations.
- The typed appenders and getters are left out, because they reinterpret host memory through `unsafe` and depend on the layout of types outside this file. This covers `AppendInt64`, `AppendUint64`, `AppendTime`, `AppendMyDecimal`, `AppendDuration`, `GetInt64`, `GetTime`, `GetDecimal`, `GetDuration` and the slice views `Int64s` and the like. Fixed-length elements are opaque byte strings of the column's width, and `finishAppendFixed` models what follows the write into elemBuf.
- Floating point is left out: `AppendFloat32`/`AppendFloat64` and their getters.
- JSON and vector rows are left out, because they use the types package's serialisers: `AppendJSON`, `GetJSON`, `AppendVectorFloat32`, `GetVectorFloat32`.
- `DestroyDataForTest` is left out: it writes random bytes.
- `AppendString` and `GetString` are the same operations as `AppendBytes` and `GetBytes`, since a Go string is a byte sequence.
- `AppendNullBitmap`, `Rows` and the `Resize*`/`Reserve*` wrappers are not separate members. Each forwards to `appendNullBitmap`, `length`, `resize` or `reserve` with a constant width, and `Reset` uses those width constants directly.
- `Chunk.Column.appendMultiSameNullBitmap` and `Chunk.Column.AppendCellNTimes` exclude one case: zero not-null bits appended to a column whose row count is a multiple of 8. There the Go code indexes one byte past the bitmap and panics.
- `Chunk.Column.GetNameValue` excludes rows of 1 to 7 bytes, where the Go slice expression panics.
- `Chunk.Column.appendNameValue` and `Chunk.Column.GetNameValue` fix the host byte order to little-endian. The Go code copies the uint64's bytes as they lie in memory, both when writing and when reading. So the round trip holds for either order, but the stored bytes are those of a little-endian host.
- `Chunk.Column.AppendCellNTimes` requires both columns to be of the same kind. The Go code branches on the receiver's kind but reads the source's width or offsets, which is meaningful only for columns of the same type, as its callers use it.
- Other out-of-range row indices are preconditions. In Go they panic.
- `Chunk.Column.CopyConstruct` copies elemBuf as it is, nil included, which is the corrected behaviour (see Findings). The model does not distinguish a nil `offsets`, `nullBitmap` or `data` slice from an empty one, because no operation tests those for nil.
- Aliasing between a column and the other columns passed to it is not modelled. The model passes bitmaps and rows by value. In `MergeNulls`, the Go loop reads each byte of the other bitmap before writing the same byte, so passing the receiver itself ANDs the bitmap with itself in both versions.

## Findings

| source | as written | input that shows it | evidently intended | confidence | as-written member | corrected member |
|---|---|---|---|---|---|---|
| pkg/util/chunk/column.go:766-781 | In reconstruct's variable-length loop, a null row stores the end offset `tail` in `offsets[dst+1]` before the next iteration reads `offsets[src]` for `src == dst+1`. | Rows [None, Some([3]), Some([4])] where row 0 is null but still holds bytes [1, 2], as SetNull leaves it (offsets [0,2,3,4], data [1,2,3,4]), with sel [0, 1]. Row 1 comes out as [1, 2, 3] instead of [3]. | Row k holds exactly the bytes of row sel[k]. | high, not executed | ColumnLayout.ReconstructVarAsWrittenMergesRows | Chunk.Column.reconstruct |
| pkg/util/chunk/column.go:803-813 | The ascend test only rejects a decrease, `sel[i] < sel[i-1]`. A full-length selection with repeats therefore takes the CopyConstruct shortcut. | A 2-row column with sel [0, 0] is copied whole, instead of as row 0 twice. | Take the shortcut only for a strictly increasing selection, which is the identity. | medium, not executed | Chunk.ascendAsWritten | Chunk.Column.CopyReconstruct |
| pkg/util/chunk/column.go:221 | `append(dst.elemBuf[:0], c.elemBuf...)` makes a non-nil empty elemBuf when dst is fixed-length and the source is variable-length. | A variable-length one-row column holding [7], copied into a fixed-length dst. The copy is fixed-length with width 0, so its row reads as no bytes. | dst gets the source's elemBuf, nil included. | medium, not executed | ColumnLayout.CopyElemBufAsWrittenTurnsFixed | Chunk.Column.CopyConstruct |
