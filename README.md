# Kudu wire protocol codecs, modelled in Dafny

This project models `src/common/wire_protocol.cc` from Kudu. That file holds the
codecs between Kudu's in-memory objects and their wire messages. The model
covers three codecs:

- **Status codec** (`status_codec.dfy`). A status is either OK or an error with a
  code, a message and a posix code. It is written to an `AppStatusPB`, which
  carries a wire code, an optional message and an optional posix code, and read
  back from one.
- **Schema codec** (`schema_codec.dfy`). A schema is an ordered list of columns
  whose first `numKeyColumns` entries form the key. Its wire form is a list of
  column descriptors, each flagged `is_key`. Decoding refuses a key descriptor
  that follows a non-key one, and refuses two columns with the same name.
- **Row-block codec** (`row_block_codec.dfy`). This codec works in place on a
  `RowwiseRowBlockPB`, a class whose `rows`, `rowsSize` and `indirectData`
  fields its methods update.
  - `AddRowToRowBlockPB` appends a row image. It zeroes null cells. It copies
    each non-null STRING cell's bytes to the end of `indirect_data` and rewrites
    the cell to hold their offset; the host data stays where it is.
  - `ExtractRowsFromRowBlockPB` does the reverse. It checks that the `rows`
    buffer is a whole number of rows. It turns every offset back into a
    reference into `indirect_data`, after checking with overflow detection that
    the slice lies within it. Finally it lists the start of every row.

`kudu_status.dfy` holds the local `Status` and `Result` types the codecs produce.

A cell's bytes are not laid out in memory. Instead a STRING cell is a tagged
value:

- `HostSlice(data)`: a pointer to host memory;
- `Offset(off, len)`: the cell as it travels on the wire;
- `Ref(off, len)`: a reference into `indirect_data` after decoding.

Fixed-width cells are `Fixed(bytes)`. A row image occupies `rowSize` bytes of
the `rows` buffer. `rowsSize` is that buffer's byte length. Offsets and lengths
are `size_t` values, bounded by `SIZE_MAX` = 2^64 - 1.

The main results:

- `RowBlockRoundTrip` and `EncodeThenExtract`: rows appended one by one and
  then extracted come back with their null flags, fixed-width bytes and STRING
  bytes, each at its stride position.
- `ExtractRowsFromRowBlockPB` is characterised exactly. It succeeds if and only
  if the block is aligned and has no bad slice. On failure it reports the first
  bad slice, by column and then by row.
- `SchemaRoundTrip`: every schema with distinct names and a key count no larger
  than its number of columns round-trips.
- `RecognisedRoundTrip` and `UnrecognisedRoundTrip`: what survives the status
  round trip.

## Model

| member | source | states |
|---|---|---|
| StatusCodec.PosixToPB | src/common/wire_protocol.cc:52-54 | the posix code is sent exactly when it is not the sentinel -1, and then unchanged |
| StatusCodec.StatusToPB | src/common/wire_protocol.cc:15-55 | OK is sent as code OK with no message and no posix code. The seven listed codes keep their message and are never sent as UNKNOWN_ERROR or ALREADY_PRESENT. Any other code is sent as UNKNOWN_ERROR with its name, ": " and the message. Every error carries a message and the posix code unless it is -1 |
| StatusCodec.StatusFromPB | src/common/wire_protocol.cc:57-84 | the result is OK exactly for code OK. An absent posix code reads as -1. Listed codes keep the message. UNKNOWN_ERROR and unlisted codes give RuntimeError "(unknown error code)", followed by ": message" when the message is non-empty |
| StatusCodec.OkRoundTrip | src/common/wire_protocol.cc:18-21 | OK encodes to the bare OK code and decodes back to OK |
| StatusCodec.RecognisedRoundTrip | src/common/wire_protocol.cc:22-35 | every error with one of the seven listed codes decodes back to itself: code, message and posix code |
| StatusCodec.UnrecognisedRoundTrip | src/common/wire_protocol.cc:36-46 | any other error comes back as RuntimeError "(unknown error code): <code name>: <message>", with its posix code |
| StatusCodec.AlreadyPresentLosesItsCode | src/common/wire_protocol.cc:36-41 | as written, AlreadyPresent is sent as UNKNOWN_ERROR and comes back as RuntimeError |
| StatusCodec.StatusToPBCorrected | src/common/wire_protocol.cc:73-74 | the corrected encoder sends ALREADY_PRESENT exactly for AlreadyPresent, falls back to UNKNOWN_ERROR exactly for codes with no wire code, sends OK exactly for OK, and keeps the message and posix code of every other error |
| StatusCodec.CorrectedRoundTrip | src/common/wire_protocol.cc:15-84 | with the correction, every status whose code has a wire code round-trips exactly |
| SchemaCodec.ColumnSchemaToPB | src/common/wire_protocol.cc:86-90 | name, type and nullability are written so that decoding gives the column back; the is_key flag is left untouched |
| SchemaCodec.ColumnSchemaFromPB | src/common/wire_protocol.cc:92-94 | the column read back keeps the descriptor's name, type and nullability |
| SchemaCodec.ColumnSchemaPBRoundTrip | src/common/wire_protocol.cc:86-94 | decoding a descriptor and encoding it back into itself changes nothing |
| SchemaCodec.SchemaReset | src/common/wire_protocol.cc:121 | a schema is built exactly when column names are distinct, and otherwise InvalidArgument is returned |
| SchemaCodec.EncodedColumns | src/common/wire_protocol.cc:124-135 | one descriptor per column, in order, each decoding to its column, flagged key exactly when its index is below the key count |
| SchemaCodec.SchemaToColumnPBs | src/common/wire_protocol.cc:124-135 | the loop emits exactly EncodedColumns and returns OK |
| SchemaCodec.LeadingKeyCount | src/common/wire_protocol.cc:101-114 | the counted keys are exactly the leading run of key descriptors |
| SchemaCodec.ContiguousKeysAreLeadingRun | src/common/wire_protocol.cc:101-114 | when keys come first, a descriptor is a key exactly when it lies in the leading run |
| SchemaCodec.LeadingKeyCountIs | src/common/wire_protocol.cc:101-114 | the leading run ends at the first non-key descriptor |
| SchemaCodec.DecodeColumns | src/common/wire_protocol.cc:96-122 | out-of-order keys are refused with "Got out-of-order key column". Otherwise a duplicate name is refused. Success happens exactly when keys are contiguous and names distinct; the columns are then kept in order and the key is exactly the descriptors flagged is_key |
| SchemaCodec.ColumnPBsToSchema | src/common/wire_protocol.cc:96-122 | the one-pass loop with its early return computes exactly DecodeColumns |
| SchemaCodec.SchemaRoundTrip | src/common/wire_protocol.cc:86-135 | a schema with distinct names and a key count within bounds decodes back to itself |
| SchemaCodec.NonContiguousKeyRefused | src/common/wire_protocol-test.cc:93-119 | key flags [true, false, true] are refused as out of order |
| SchemaCodec.DuplicateNameRefused | src/common/wire_protocol-test.cc:121-147 | two columns of one name are refused whatever the key flags; when the keys come first (as in the test's flags true, false, false) the refusal is exactly the duplicate-name error |
| RowBlockCodec.ZeroCell | src/common/wire_protocol.cc:215-219 | a zeroed fixed-width cell keeps its width and holds only zero bytes; a zeroed slice is offset 0, length 0 |
| RowBlockCodec.EncodeCell | src/common/wire_protocol.cc:213-231 | a null cell of a nullable column is zeroed. A non-null STRING cell becomes an offset at or past the indirect_data length before the row, keeps its length, and ends within the bytes the row adds. Any other cell is kept as copied |
| RowBlockCodec.PartiallyEncoded | src/common/wire_protocol.cc:210-232 | the row image being rewritten keeps one cell per column and its null flags |
| RowBlockCodec.AppendRow | src/common/wire_protocol.cc:199-233 | one more row image of rowSize bytes; earlier row images and earlier indirect bytes are kept as a prefix |
| RowBlockCodec.AddRowToRowBlockPB | src/common/wire_protocol.cc:199-233 | the loop leaves the block equal to AppendRow of the old block, and rowsSize stays rowSize times the number of rows |
| RowBlockCodec.EncodedSliceResolves | src/common/wire_protocol.cc:222-231 | a non-null STRING cell becomes the offset indirect_data had when it was reached; it keeps its length, and indirect_data holds exactly its bytes there |
| RowBlockCodec.NullCellZeroed | src/common/wire_protocol.cc:215-219 | a null cell of a nullable column is zeroed and adds nothing to indirect_data |
| RowBlockCodec.AddWithOverflowCheck | src/common/wire_protocol.cc:173-174 | the sum modulo 2^64, flagged overflowed exactly when the true sum exceeds SIZE_MAX |
| RowBlockCodec.BadSliceTest | src/common/wire_protocol.cc:167-175 | the decoder's overflow-checked test fails exactly on a bad slice |
| RowBlockCodec.ResolveRowUpTo | src/common/wire_protocol.cc:155-189 | a row with its first n columns resolved keeps one cell per column and its null flags |
| RowBlockCodec.Resolve | src/common/wire_protocol.cc:155-189 | every row keeps its shape and null flags; each non-null STRING cell becomes a reference with its wire offset and length, and every other cell is unchanged |
| RowBlockCodec.SizeError | src/common/wire_protocol.cc:149-153 | a Corruption status without posix code whose message starts "Row block has N bytes of data" |
| RowBlockCodec.BadSliceError | src/common/wire_protocol.cc:175-181 | a Corruption status without posix code whose message starts "Row #k contained bad indirect slice for column <name>" |
| RowBlockCodec.ShortBlockMessage | src/common/wire_protocol-test.cc:200-203 | a one-byte rows buffer is not aligned to any row size above 1, and its message starts "Row block has 1 bytes of data" |
| RowBlockCodec.HostileBlockRefusedAtRowZero | src/common/wire_protocol-test.cc:205-209 | the one-STRING-column block of 16 'x' bytes, whose cell reads as the slice (0x7878787878787878, 0x7878787878787878) against empty indirect data, is framed and aligned, its first bad slice is row 0, and the error reported for it starts "Row #0 contained bad indirect slice" |
| RowBlockCodec.RowStarts | src/common/wire_protocol.cc:191-195 | one start per row |
| RowBlockCodec.ResolveColumn | src/common/wire_protocol.cc:155-189 | for one STRING column, rows are visited in storage order. On success every non-null cell of the column now refers into indirect_data and no row has a bad slice in it. Otherwise the error names the first bad row with its wire offset and length |
| RowBlockCodec.CollectRowStarts | src/common/wire_protocol.cc:191-196 | appends to the row pointers the start of every row, k * rowSize, in order |
| RowBlockCodec.ExtractRowsFromRowBlockPB | src/common/wire_protocol.cc:138-197 | the result is OK exactly when rowsSize is a multiple of rowSize and no non-null STRING slice overflows or passes the end of indirect_data. A misaligned block gives the size error and is left untouched. Otherwise the error names the first bad slice by column, then row. On failure the row pointers are unchanged. On success every row is resolved and the row pointers gain every row start |
| RowBlockCodec.DecodedRowsReadable | src/common/wire_protocol.cc:167-183 | after a successful decode each non-null STRING cell refers to indirect_data[off..off+len] with its wire offset and length; all other cells and null flags are untouched |
| RowBlockCodec.CarriesGrow | src/common/wire_protocol.cc:226-228 | appending bytes to indirect_data leaves what earlier rows point at unchanged |
| RowBlockCodec.AppendRowCarries | src/common/wire_protocol.cc:199-233 | appending a row keeps earlier rows readable and makes the new row image carry the new row's values |
| RowBlockCodec.EncodeRowsCarries | src/common/wire_protocol.cc:199-233 | a block built by appending rows one by one carries exactly those rows |
| RowBlockCodec.CarriedBlockDecodes | src/common/wire_protocol.cc:138-197 | a block that carries some rows passes every decoder check and reads back as those rows' values |
| RowBlockCodec.RowBlockRoundTrip | src/common/wire_protocol-test.cc:149-192 | rows appended into an empty block form a block the decoder accepts, and it reads back as the rows' null flags, fixed-width bytes and STRING bytes |
| RowBlockCodec.EncodeThenExtract | src/common/wire_protocol-test.cc:149-192 | appending the rows with AddRowToRowBlockPB and extracting them returns OK, one row pointer per row at its stride, and the original values |

## Left out

- Logging: the warnings at src/common/wire_protocol.cc:37-38 and :81 have no effect on results.
- Protobuf machinery (`Clear`, `has_*`, `ShortDebugString`, repeated fields) is modelled by plain values. The debug string that follows "Got out-of-order key column" is not part of the message here.
- StatusToPB's `pb->Clear()`: the encoder returns a fresh message instead of overwriting one.
- Status internals: `src/util/status.cc` is not part of this model. The code names used by `CodeAsString`, and the ": " that joins a status's two messages, are taken as the Status type documents them. Only the codes the wire protocol names are modelled; all others are `Other(name)`.
- Posix code width: posix codes are unbounded integers; the 32-bit field is not modelled.
- Schema construction: `src/common/schema.cc` is not part of this model. `SchemaReset` keeps only the duplicate-name check that the codec relies on, and column types are a plain tag list without the type registry.
- Physical row layout: `ContiguousRowHelper::row_size`, the null bitmap and cell offsets are abstract. `rowSize` is a parameter and must be positive, so an empty schema (a zero row size, where the source would divide by zero) is outside the model. A row image is a cell sequence, so `rows` holds whole images and the extra bytes of a misaligned buffer are represented only by `rowsSize`.
- Pointers: host pointers and `reinterpret_cast` between pointers and offsets are replaced by the tagged cells `HostSlice`, `Offset` and `Ref`. Buffer lifetime and aliasing of the returned row pointers with the `rows` buffer are not modelled. A row pointer is its byte offset within `rows`.
- col.ToString() in the bad-slice message is replaced by the column name.
- StringPrintf formatting: messages are assembled from decimal renderings of the numbers.
- AddRowToRowBlockPB: requires that `rowsSize` be a whole number of rows before the append (the source appends blindly). The round-trip lemmas require that `indirect_data` stay within SIZE_MAX bytes.
- ExtractRowsFromRowBlockPB: when it fails after resolving some columns, the partly rewritten block is left unspecified (only its sizes and `indirect_data` are stated). The source leaves the block in that state too.
- StatusCodec.ErrorCode.Unlisted stands for any wire code the decoder's switch does not name; it is handled by the `default` branch.
- StatusFromPB decodes ALREADY_PRESENT (src/common/wire_protocol.cc:73-74) but StatusToPB never sends it; the model follows the code (see Findings).

## Findings

| source | as written | input that shows it | evidently intended | confidence | as-written member | corrected member |
|---|---|---|---|---|---|---|
| src/common/wire_protocol.cc:22-41 | StatusToPB has no branch for AlreadyPresent, so such a status is sent as UNKNOWN_ERROR although StatusFromPB (line 73-74) decodes ALREADY_PRESENT | Error(AlreadyPresent, "m", -1) comes back as RuntimeError "(unknown error code): Already present: m" | encode AlreadyPresent as ALREADY_PRESENT so it round-trips | high, not executed | StatusCodec.AlreadyPresentLosesItsCode | StatusCodec.CorrectedRoundTrip |
