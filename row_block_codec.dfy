/**
 * RowBlockCodec: rows travel as a wire row block, a `rows` buffer of fixed-size
 * row images laid end to end plus an `indirect_data` buffer holding the bytes of
 * every variable-length (STRING) cell.  On the wire a STRING cell holds an
 * offset into `indirect_data` instead of a pointer.
 *
 * The byte layout of a row is abstract here: a row image is one cell per column
 * plus the null flags, and occupies `rowSize` bytes of the `rows` buffer.  A
 * STRING cell is a tagged value instead of a pointer-sized integer:
 *   HostSlice(data)  in memory, a slice pointing at `data`;
 *   Offset(off, len) on the wire, `len` bytes at `off` in `indirect_data`;
 *   Ref(off, len)    after decoding, a slice pointing into `indirect_data`.
 */
module RowBlockCodec {
  import opened KuduStatus
  import opened SchemaCodec

  newtype byte = x: int | 0 <= x < 256

  /** Largest value of the platform's size_t. */
  const SIZE_MAX: nat := 0xFFFF_FFFF_FFFF_FFFF

  datatype Cell =
    | Fixed(bytes: seq<byte>)
    | HostSlice(data: seq<byte>)
    | Offset(off: nat, len: nat)
    | Ref(off: nat, len: nat)

  /** One row image: a cell per column, and the row's null flags (consulted
      only for nullable columns). */
  datatype Row = Row(cells: seq<Cell>, isNull: seq<bool>)

  predicate HasColumns(schema: Schema, row: Row)
  {
    |row.cells| == |schema.columns| && |row.isNull| == |schema.columns|
  }

  predicate IsNullCell(schema: Schema, row: Row, i: nat)
    requires HasColumns(schema, row) && i < |schema.columns|
  {
    schema.columns[i].isNullable && row.isNull[i]
  }

  /** A cell whose bytes live in `indirect_data` on the wire: a non-null STRING. */
  predicate IsIndirect(schema: Schema, row: Row, i: nat)
    requires HasColumns(schema, row) && i < |schema.columns|
  {
    schema.columns[i].typ == STRING && !IsNullCell(schema, row, i)
  }

  /** A row as the caller holds it in memory: STRING cells point at host data. */
  predicate InMemoryRow(schema: Schema, row: Row)
  {
    HasColumns(schema, row) &&
    forall i :: 0 <= i < |schema.columns| ==>
      if schema.columns[i].typ == STRING then row.cells[i].HostSlice? else row.cells[i].Fixed?
  }

  /** A row image as read from the wire: every STRING cell is some pair of
      size_t values, taken as offset and length. */
  predicate WireRow(schema: Schema, row: Row)
  {
    HasColumns(schema, row) &&
    forall i :: 0 <= i < |schema.columns| ==>
      if schema.columns[i].typ == STRING
      then row.cells[i].Offset? && row.cells[i].off <= SIZE_MAX && row.cells[i].len <= SIZE_MAX
      else row.cells[i].Fixed?
  }

  predicate WireRows(schema: Schema, rows: seq<Row>)
  {
    forall k :: 0 <= k < |rows| ==> WireRow(schema, rows[k])
  }

  /** The wire row block's contents.  `rows` holds the complete row images of the
      `rows` buffer, whose byte length is `rowsSize`. */
  datatype WireBlock = WireBlock(rows: seq<Row>, rowsSize: nat, indirectData: seq<byte>)

  /** The row images are what a `rowSize` stride finds in `rowsSize` bytes. */
  predicate Framed(b: WireBlock, rowSize: nat)
  {
    rowSize > 0 && |b.rows| == b.rowsSize / rowSize
  }

  predicate Aligned(b: WireBlock, rowSize: nat)
    requires rowSize > 0
  {
    b.rowsSize % rowSize == 0
  }

  /** The wire row block, updated in place by both directions of the codec. */
  class RowwiseRowBlockPB {
    var rows: seq<Row>
    var rowsSize: nat
    var indirectData: seq<byte>

    constructor ()
      ensures rows == [] && rowsSize == 0 && indirectData == []
    {
      rows, rowsSize, indirectData := [], 0, [];
    }

    function Image(): WireBlock
      reads this
    {
      WireBlock(rows, rowsSize, indirectData)
    }
  }

  /** Replaces cell `i` of row `k`, leaving every other cell alone. */
  function SetCell(rows: seq<Row>, k: nat, i: nat, c: Cell): (r: seq<Row>)
    requires k < |rows| && i < |rows[k].cells|
    ensures |r| == |rows| && |r[k].cells| == |rows[k].cells|
    ensures r[k].cells[i] == c && r[k].isNull == rows[k].isNull
    ensures forall k' :: 0 <= k' < |rows| && k' != k ==> r[k'] == rows[k']
    ensures forall i' :: 0 <= i' < |rows[k].cells| && i' != i ==> r[k].cells[i'] == rows[k].cells[i']
  {
    rows[k := rows[k].(cells := rows[k].cells[i := c])]
  }

  // ===========================================================================
  // Encoding: appending one row

  /** A cell whose bytes were zeroed: fixed-width bytes all become 0, and a
      slice becomes a null pointer of length 0, which reads as offset 0. */
  function ZeroCell(c: Cell): (z: Cell)
    ensures c.Fixed? ==> z.Fixed? && |z.bytes| == |c.bytes| && forall j :: 0 <= j < |z.bytes| ==> z.bytes[j] == 0
    ensures !c.Fixed? ==> z == Offset(0, 0)
  {
    if c.Fixed? then Fixed(seq(|c.bytes|, _ => 0)) else Offset(0, 0)
  }

  /** The bytes that the first `n` columns of `row` add to `indirect_data`:
      each non-null STRING cell's data, in column order. */
  function Payload(schema: Schema, row: Row, n: nat): seq<byte>
    requires InMemoryRow(schema, row) && n <= |schema.columns|
  {
    if n == 0 then []
    else Payload(schema, row, n - 1) + (if IsIndirect(schema, row, n - 1) then row.cells[n - 1].data else [])
  }

  /** Cell `i` once encoded, given that `indirect_data` held `base` bytes
      before the row. */
  function EncodeCell(schema: Schema, row: Row, base: nat, i: nat): (c: Cell)
    requires InMemoryRow(schema, row) && i < |schema.columns|
    ensures IsNullCell(schema, row, i) ==> c == ZeroCell(row.cells[i])
    ensures IsIndirect(schema, row, i) ==>
              c.Offset? && c.len == |row.cells[i].data| &&
              base <= c.off && c.off + c.len <= base + |Payload(schema, row, |schema.columns|)|
    ensures schema.columns[i].typ != STRING && !IsNullCell(schema, row, i) ==> c == row.cells[i]
  {
    PayloadPrefix(schema, row, i + 1, |schema.columns|);
    if IsNullCell(schema, row, i) then ZeroCell(row.cells[i])
    else if schema.columns[i].typ == STRING then Offset(base + |Payload(schema, row, i)|, |row.cells[i].data|)
    else row.cells[i]
  }

  /** The appended row image after its first `n` columns were processed. */
  function PartiallyEncoded(schema: Schema, row: Row, base: nat, n: nat): (r: Row)
    requires InMemoryRow(schema, row) && n <= |schema.columns|
    ensures HasColumns(schema, r) && r.isNull == row.isNull
  {
    Row(seq(|schema.columns|, i requires 0 <= i < |schema.columns| =>
          if i < n then EncodeCell(schema, row, base, i) else row.cells[i]),
        row.isNull)
  }

  lemma EncodeStep(schema: Schema, row: Row, base: nat, i: nat)
    requires InMemoryRow(schema, row) && i < |schema.columns|
    ensures PartiallyEncoded(schema, row, base, i + 1) ==
            Row(PartiallyEncoded(schema, row, base, i).cells[i := EncodeCell(schema, row, base, i)], row.isNull)
  {
  }

  function EncodeRow(schema: Schema, row: Row, base: nat): Row
    requires InMemoryRow(schema, row)
  {
    PartiallyEncoded(schema, row, base, |schema.columns|)
  }

  /** The block after one row was appended. */
  function AppendRow(schema: Schema, rowSize: nat, b: WireBlock, row: Row): (r: WireBlock)
    requires InMemoryRow(schema, row)
    ensures r.rowsSize == b.rowsSize + rowSize
    ensures |r.rows| == |b.rows| + 1 && r.rows[..|b.rows|] == b.rows
    ensures |b.indirectData| <= |r.indirectData| && r.indirectData[..|b.indirectData|] == b.indirectData
  {
    var r := WireBlock(b.rows + [EncodeRow(schema, row, |b.indirectData|)],
                       b.rowsSize + rowSize,
                       b.indirectData + Payload(schema, row, |schema.columns|));
    assert r.rows[..|b.rows|] == b.rows;
    assert r.indirectData[..|b.indirectData|] == b.indirectData;
    r
  }

  /** Appends one row: its image goes to the end of `rows`; a null cell of a
      nullable column is zeroed; a non-null STRING cell's bytes go to the end of
      `indirect_data` and the cell is rewritten to their offset there. */
  method AddRowToRowBlockPB(schema: Schema, rowSize: nat, row: Row, pb: RowwiseRowBlockPB)
    requires rowSize > 0 && pb.rowsSize == |pb.rows| * rowSize
    requires InMemoryRow(schema, row)
    modifies pb
    ensures pb.Image() == AppendRow(schema, rowSize, old(pb.Image()), row)
    ensures pb.rowsSize == |pb.rows| * rowSize
  {
    pb.rows := pb.rows + [row];
    pb.rowsSize := pb.rowsSize + rowSize;
    var last := |pb.rows| - 1;
    ghost var base := |pb.indirectData|;
    assert PartiallyEncoded(schema, row, base, 0) == row by {
      assert PartiallyEncoded(schema, row, base, 0).cells == row.cells;
    }
    for i := 0 to |schema.columns|
      invariant pb.rows == old(pb.rows) + [PartiallyEncoded(schema, row, base, i)]
      invariant pb.indirectData == old(pb.indirectData) + Payload(schema, row, i)
      invariant pb.rowsSize == old(pb.rowsSize) + rowSize
    {
      var col := schema.columns[i];
      var dstCell := pb.rows[last].cells[i];
      assert dstCell == row.cells[i];
      EncodeStep(schema, row, base, i);
      if col.isNullable && row.isNull[i] {
        // Zeroed so that no stale bytes reach another host.
        SetLastCell(old(pb.rows), PartiallyEncoded(schema, row, base, i), i, ZeroCell(dstCell));
        pb.rows := SetCell(pb.rows, last, i, ZeroCell(dstCell));
      } else if col.typ == STRING {
        var offsetInIndirect := |pb.indirectData|;
        pb.indirectData := pb.indirectData + dstCell.data;
        SetLastCell(old(pb.rows), PartiallyEncoded(schema, row, base, i), i, Offset(offsetInIndirect, |dstCell.data|));
        pb.rows := SetCell(pb.rows, last, i, Offset(offsetInIndirect, |dstCell.data|));
      } else {
        ghost var before := PartiallyEncoded(schema, row, base, i);
        assert before.cells[i := dstCell] == before.cells;
      }
    }
  }

  /** Setting a cell of the last row touches nothing before it. */
  lemma SetLastCell(rows: seq<Row>, last: Row, i: nat, c: Cell)
    requires i < |last.cells|
    ensures SetCell(rows + [last], |rows|, i, c) == rows + [Row(last.cells[i := c], last.isNull)]
  {
    assert (rows + [last])[|rows| := Row(last.cells[i := c], last.isNull)] == rows + [Row(last.cells[i := c], last.isNull)];
  }

  // ===========================================================================
  // Decoding: validating the block and resolving offsets

  /** What AddWithOverflowCheck computes for two size_t values: the sum modulo
      2^64 and whether it wrapped. */
  function AddWithOverflowCheck(a: nat, b: nat): (r: (nat, bool))
    requires a <= SIZE_MAX && b <= SIZE_MAX
    ensures r.1 <==> a + b > SIZE_MAX
    ensures r.0 == (a + b) % (SIZE_MAX + 1)
  {
    if a + b > SIZE_MAX then (a + b - (SIZE_MAX + 1), true) else (a + b, false)
  }

  /** A wire slice that lies within `indirect_data` of the given size. */
  predicate SliceFits(c: Cell, size: nat)
  {
    c.Offset? && c.off + c.len <= SIZE_MAX && c.off + c.len <= size
  }

  /** Row `k` holds, in column `c`, a non-null STRING cell that does not fit. */
  predicate BadSlice(schema: Schema, b: WireBlock, k: int, c: int)
  {
    0 <= k < |b.rows| && 0 <= c < |schema.columns| && HasColumns(schema, b.rows[k]) &&
    IsIndirect(schema, b.rows[k], c) && !SliceFits(b.rows[k].cells[c], |b.indirectData|)
  }

  ghost predicate NoBadSlice(schema: Schema, b: WireBlock)
  {
    forall k, c :: !BadSlice(schema, b, k, c)
  }

  /** The bad slice met first when columns are visited in order and, within a
      column, rows in storage order. */
  ghost predicate FirstBadSlice(schema: Schema, b: WireBlock, k: int, c: int)
  {
    BadSlice(schema, b, k, c) &&
    forall k', c' :: BadSlice(schema, b, k', c') ==> c < c' || (c == c' && k <= k')
  }

  /** The overflow-checked test the decoder applies to a cell decides exactly
      whether it is a bad slice. */
  lemma BadSliceTest(schema: Schema, b: WireBlock, k: nat, i: nat)
    requires WireRows(schema, b.rows) && k < |b.rows| && i < |schema.columns|
    requires IsIndirect(schema, b.rows[k], i)
    ensures var c := b.rows[k].cells[i];
            var (maxOffset, overflowed) := AddWithOverflowCheck(c.off, c.len);
            BadSlice(schema, b, k, i) <==> overflowed || maxOffset > |b.indirectData|
  {
  }

  function ResolveCell(schema: Schema, row: Row, i: nat): Cell
    requires WireRow(schema, row) && i < |schema.columns|
  {
    if IsIndirect(schema, row, i) then Ref(row.cells[i].off, row.cells[i].len) else row.cells[i]
  }

  lemma ResolveStep(schema: Schema, row: Row, i: nat)
    requires WireRow(schema, row) && i < |schema.columns|
    ensures ResolveRowUpTo(schema, row, i + 1) ==
            Row(ResolveRowUpTo(schema, row, i).cells[i := ResolveCell(schema, row, i)], row.isNull)
  {
  }

  /** Resolving cell `i` of row `k` moves that row from the rows still to be
      visited to the rows already visited; no other row changes. */
  lemma ResolveRowsStep(schema: Schema, orig: seq<Row>, rows: seq<Row>, k: nat, i: nat)
    requires WireRows(schema, orig) && i < |schema.columns| && k < |orig| == |rows|
    requires forall j :: 0 <= j < k ==> rows[j] == ResolveRowUpTo(schema, orig[j], i + 1)
    requires forall j :: k <= j < |orig| ==> rows[j] == ResolveRowUpTo(schema, orig[j], i)
    ensures IsIndirect(schema, orig[k], i) ==>
              HasColumns(schema, rows[k]) &&
              var r := SetCell(rows, k, i, Ref(orig[k].cells[i].off, orig[k].cells[i].len));
              (forall j :: 0 <= j < k + 1 ==> r[j] == ResolveRowUpTo(schema, orig[j], i + 1)) &&
              (forall j :: k + 1 <= j < |orig| ==> r[j] == ResolveRowUpTo(schema, orig[j], i))
    ensures !IsIndirect(schema, orig[k], i) ==>
              (forall j :: 0 <= j < k + 1 ==> rows[j] == ResolveRowUpTo(schema, orig[j], i + 1)) &&
              (forall j :: k + 1 <= j < |orig| ==> rows[j] == ResolveRowUpTo(schema, orig[j], i))
  {
    ResolveStep(schema, orig[k], i);
  }

  /** A wire row whose first `n` columns were resolved. */
  function ResolveRowUpTo(schema: Schema, row: Row, n: nat): (r: Row)
    requires WireRow(schema, row) && n <= |schema.columns|
    ensures HasColumns(schema, r) && r.isNull == row.isNull
  {
    Row(seq(|schema.columns|, i requires 0 <= i < |schema.columns| =>
          if i < n then ResolveCell(schema, row, i) else row.cells[i]),
        row.isNull)
  }

  /** The rows after decoding: every non-null STRING cell refers into
      `indirect_data`; every other cell is as it came. */
  function Resolve(schema: Schema, rows: seq<Row>): (r: seq<Row>)
    requires WireRows(schema, rows)
    ensures |r| == |rows|
    ensures forall k :: 0 <= k < |rows| ==>
              HasColumns(schema, r[k]) && r[k].isNull == rows[k].isNull &&
              forall i :: 0 <= i < |schema.columns| ==>
                (IsIndirect(schema, rows[k], i) ==> r[k].cells[i] == Ref(rows[k].cells[i].off, rows[k].cells[i].len)) &&
                (!IsIndirect(schema, rows[k], i) ==> r[k].cells[i] == rows[k].cells[i])
  {
    seq(|rows|, k requires 0 <= k < |rows| => ResolveRowUpTo(schema, rows[k], |schema.columns|))
  }

  /** Start of each of `n` rows stored at a `rowSize` stride. */
  function RowStarts(n: nat, rowSize: nat): (r: seq<nat>)
    ensures |r| == n
  {
    seq(n, k requires 0 <= k < n => k * rowSize)
  }

  /** The Corruption status for a `rows` buffer of `rowsSize` bytes. */
  function SizeError(rowsSize: nat, rowSize: nat): (s: Status)
    ensures s.Error? && s.code == Corruption && s.posixCode == -1
    ensures StartsWith(s.message, "Row block has " + NatToString(rowsSize) + " bytes of data")
  {
    var head := "Row block has " + NatToString(rowsSize) + " bytes of data";
    var tail := " which is not a multiple of row size " + NatToString(rowSize);
    PrefixOfConcat(head, tail);
    MakeStatus(Corruption, head + tail, "", -1)
  }

  /** The Corruption status for row `rowIdx`'s bad slice in column `col`. */
  function BadSliceError(rowIdx: nat, col: ColumnSchema, off: nat, len: nat): (s: Status)
    ensures s.Error? && s.code == Corruption && s.posixCode == -1
    ensures StartsWith(s.message, "Row #" + NatToString(rowIdx) + " contained bad indirect slice")
    ensures StartsWith(s.message, "Row #" + NatToString(rowIdx) + " contained bad indirect slice for column " + col.name)
  {
    var lead := "Row #" + NatToString(rowIdx) + " contained bad indirect slice";
    var column := " for column " + col.name;
    var tail := ": (" + NatToString(off) + ", " + NatToString(len) + ")";
    assert lead + column == "Row #" + NatToString(rowIdx) + " contained bad indirect slice for column " + col.name;
    PrefixOfConcat(lead + column, tail);
    PrefixOfPrefix(lead + column + tail, lead, column);
    MakeStatus(Corruption, lead + column + tail, "", -1)
  }

  predicate StartsWith(s: string, prefix: string)
  {
    |prefix| <= |s| && s[..|prefix|] == prefix
  }

  lemma PrefixOfConcat(p: string, q: string)
    ensures StartsWith(p + q, p)
  {
  }

  lemma PrefixOfPrefix(s: string, p: string, q: string)
    requires StartsWith(s, p + q)
    ensures StartsWith(s, p)
  {
    assert s[..|p|] == (p + q)[..|p|];
  }

  /** A one-byte `rows` buffer is refused by its size whatever the row size,
      and the message reports the single byte. */
  lemma ShortBlockMessage(rowSize: nat)
    requires rowSize > 1
    ensures !Aligned(WireBlock([], 1, []), rowSize)
    ensures StartsWith(SizeError(1, rowSize).message, "Row block has 1 bytes of data")
  {
    assert NatToString(1) == "1";
    assert "Row block has " + NatToString(1) + " bytes of data" == "Row block has 1 bytes of data";
  }

  /** A one-STRING-column schema, and a block whose single 16-byte row image is
      all 'x' bytes: its cell reads as the slice (0x7878787878787878,
      0x7878787878787878) against an empty `indirect_data`. */
  const OneStringColumn := Schema([ColumnSchema("col1", STRING, false)], 1)
  const XWord: nat := 0x7878_7878_7878_7878
  const HostileBlock := WireBlock([Row([Offset(XWord, XWord)], [false])], 16, [])

  /** That block is framed and aligned, so the decoder goes on to the slices;
      its first bad slice is row 0, reported as "Row #0 contained bad indirect
      slice". */
  lemma HostileBlockRefusedAtRowZero()
    ensures WireRows(OneStringColumn, HostileBlock.rows)
    ensures Framed(HostileBlock, 16) && Aligned(HostileBlock, 16)
    ensures FirstBadSlice(OneStringColumn, HostileBlock, 0, 0)
    ensures NatToString(0) == "0"
    ensures StartsWith(BadSliceError(0, OneStringColumn.columns[0], XWord, XWord).message,
                       "Row #" + NatToString(0) + " contained bad indirect slice")
  {
    assert BadSlice(OneStringColumn, HostileBlock, 0, 0);
  }

  lemma StrideBound(k: nat, n: nat, rowSize: nat)
    requires rowSize > 0
    ensures k < n <==> k * rowSize < n * rowSize
  {
    if k < n {
      assert n * rowSize == k * rowSize + (n - k) * rowSize;
    } else {
      assert k * rowSize == n * rowSize + (k - n) * rowSize;
    }
  }

  /** The first pass over one STRING column `i`: visits the rows in storage
      order and points each non-null cell into `indirect_data`, stopping with
      Corruption at the first cell whose offset plus length overflows or passes
      the end of `indirect_data`.  `orig` holds the rows as they arrived. */
  method ResolveColumn(schema: Schema, rowSize: nat, pb: RowwiseRowBlockPB, i: nat,
                       ghost orig: seq<Row>, ghost origBlock: WireBlock)
    returns (s: Status, ghost badRow: nat)
    requires rowSize > 0 && i < |schema.columns| && schema.columns[i].typ == STRING
    requires WireRows(schema, orig) && origBlock == WireBlock(orig, pb.rowsSize, pb.indirectData)
    requires pb.rowsSize == |orig| * rowSize && |pb.rows| == |orig|
    requires forall k :: 0 <= k < |orig| ==> pb.rows[k] == ResolveRowUpTo(schema, orig[k], i)
    modifies pb
    ensures pb.rowsSize == old(pb.rowsSize) && pb.indirectData == old(pb.indirectData) && |pb.rows| == |orig|
    ensures s == Ok ==> forall k :: 0 <= k < |orig| ==> pb.rows[k] == ResolveRowUpTo(schema, orig[k], i + 1)
    ensures s == Ok ==> forall k :: !BadSlice(schema, origBlock, k, i)
    ensures s != Ok ==> BadSlice(schema, origBlock, badRow, i) &&
                        s == BadSliceError(badRow, schema.columns[i], orig[badRow].cells[i].off, orig[badRow].cells[i].len) &&
                        forall k :: 0 <= k < badRow ==> !BadSlice(schema, origBlock, k, i)
  {
    var col := schema.columns[i];
    var rowIdx := 0;
    var offset := 0;
    while offset < pb.rowsSize
      invariant 0 <= rowIdx <= |orig| && offset == rowIdx * rowSize
      invariant pb.rowsSize == old(pb.rowsSize) && pb.indirectData == old(pb.indirectData)
      invariant |pb.rows| == |orig|
      invariant forall k :: 0 <= k < rowIdx ==> pb.rows[k] == ResolveRowUpTo(schema, orig[k], i + 1)
      invariant forall k :: rowIdx <= k < |orig| ==> pb.rows[k] == ResolveRowUpTo(schema, orig[k], i)
      invariant forall k :: 0 <= k < rowIdx ==> !BadSlice(schema, origBlock, k, i)
      decreases pb.rowsSize - offset
    {
      StrideBound(rowIdx, |orig|, rowSize);
      ResolveRowsStep(schema, orig, pb.rows, rowIdx, i);
      var row := pb.rows[rowIdx];
      if !col.isNullable || !row.isNull[i] {
        var slice := row.cells[i];
        assert slice == orig[rowIdx].cells[i];
        BadSliceTest(schema, origBlock, rowIdx, i);
        var (maxOffset, overflowed) := AddWithOverflowCheck(slice.off, slice.len);
        if overflowed || maxOffset > |pb.indirectData| {
          return BadSliceError(rowIdx, col, slice.off, slice.len), rowIdx;
        }
        pb.rows := SetCell(pb.rows, rowIdx, i, Ref(slice.off, slice.len));
      }
      offset := offset + rowSize;
      rowIdx := rowIdx + 1;
    }
    StrideBound(rowIdx, |orig|, rowSize);
    s, badRow := Ok, 0;
  }

  /** The second pass: appends the start of each row, in storage order. */
  method CollectRowStarts(rowsSize: nat, rowSize: nat, rowPtrsIn: seq<nat>) returns (rowPtrs: seq<nat>)
    requires rowSize > 0 && rowsSize % rowSize == 0
    ensures rowPtrs == rowPtrsIn + RowStarts(rowsSize / rowSize, rowSize)
  {
    rowPtrs := rowPtrsIn;
    var offset := 0;
    ghost var count := 0;
    while offset < rowsSize
      invariant 0 <= count <= rowsSize / rowSize && offset == count * rowSize
      invariant rowPtrs == rowPtrsIn + RowStarts(count, rowSize)
      decreases rowsSize - offset
    {
      StrideBound(count, rowsSize / rowSize, rowSize);
      rowPtrs := rowPtrs + [offset];
      offset := offset + rowSize;
      count := count + 1;
    }
    StrideBound(count, rowsSize / rowSize, rowSize);
  }

  /** Validates the block and resolves its offsets in place, then appends the
      start of every row to `rowPtrs`.  Fails with Corruption when the `rows`
      buffer is not a whole number of rows, or at the first non-null STRING cell
      (by column, then row) whose offset plus length overflows or passes the end
      of `indirect_data`; on failure `rowPtrs` is left as it was. */
  method ExtractRowsFromRowBlockPB(schema: Schema, rowSize: nat, pb: RowwiseRowBlockPB, rowPtrsIn: seq<nat>)
    returns (s: Status, rowPtrs: seq<nat>)
    requires Framed(pb.Image(), rowSize) && WireRows(schema, pb.rows)
    modifies pb
    ensures pb.rowsSize == old(pb.rowsSize) && pb.indirectData == old(pb.indirectData)
    ensures s == Ok <==> Aligned(old(pb.Image()), rowSize) && NoBadSlice(schema, old(pb.Image()))
    ensures !Aligned(old(pb.Image()), rowSize) ==>
              s == SizeError(pb.rowsSize, rowSize) && rowPtrs == rowPtrsIn && pb.rows == old(pb.rows)
    ensures Aligned(old(pb.Image()), rowSize) && s != Ok ==>
              rowPtrs == rowPtrsIn &&
              exists k, c :: FirstBadSlice(schema, old(pb.Image()), k, c) &&
                             s == BadSliceError(k, schema.columns[c], old(pb.rows)[k].cells[c].off, old(pb.rows)[k].cells[c].len)
    ensures s == Ok ==> pb.rows == Resolve(schema, old(pb.rows)) && rowPtrs == rowPtrsIn + RowStarts(|pb.rows|, rowSize)
  {
    rowPtrs := rowPtrsIn;
    ghost var orig := pb.rows;
    ghost var origBlock := pb.Image();
    if pb.rowsSize % rowSize != 0 {
      return SizeError(pb.rowsSize, rowSize), rowPtrs;
    }
    assert pb.rowsSize == |orig| * rowSize;

    for i := 0 to |schema.columns|
      invariant pb.rowsSize == old(pb.rowsSize) && pb.indirectData == old(pb.indirectData)
      invariant |pb.rows| == |orig|
      invariant forall k :: 0 <= k < |orig| ==> pb.rows[k] == ResolveRowUpTo(schema, orig[k], i)
      invariant forall k, c :: 0 <= c < i ==> !BadSlice(schema, origBlock, k, c)
    {
      if schema.columns[i].typ != STRING {
        forall k | 0 <= k < |orig|
          ensures ResolveRowUpTo(schema, orig[k], i + 1) == ResolveRowUpTo(schema, orig[k], i)
        {
        }
        continue;
      }
      ghost var badRow;
      s, badRow := ResolveColumn(schema, rowSize, pb, i, orig, origBlock);
      if s != Ok {
        assert FirstBadSlice(schema, origBlock, badRow, i);
        return s, rowPtrs;
      }
    }
    assert pb.rows == Resolve(schema, orig);

    rowPtrs := CollectRowStarts(pb.rowsSize, rowSize, rowPtrs);
    s := Ok;
  }

  // ===========================================================================
  // What a reader sees, and the round trip

  /** The value of one cell as a reader of the row sees it. */
  datatype Value = Null | FixedValue(bytes: seq<byte>) | StringValue(data: seq<byte>)

  function InMemoryValue(schema: Schema, row: Row, i: nat): Value
    requires InMemoryRow(schema, row) && i < |schema.columns|
  {
    if IsNullCell(schema, row, i) then Null
    else if schema.columns[i].typ == STRING then StringValue(row.cells[i].data)
    else FixedValue(row.cells[i].bytes)
  }

  /** A decoded row whose every non-null STRING cell refers to bytes that lie
      within `indirect`. */
  predicate Readable(schema: Schema, row: Row, indirect: seq<byte>)
  {
    HasColumns(schema, row) &&
    forall i :: 0 <= i < |schema.columns| ==>
      (IsIndirect(schema, row, i) ==> row.cells[i].Ref? && row.cells[i].off + row.cells[i].len <= |indirect|) &&
      (schema.columns[i].typ != STRING ==> row.cells[i].Fixed?)
  }

  function DecodedValue(schema: Schema, row: Row, indirect: seq<byte>, i: nat): Value
    requires Readable(schema, row, indirect) && i < |schema.columns|
  {
    if IsNullCell(schema, row, i) then Null
    else if schema.columns[i].typ == STRING then StringValue(indirect[row.cells[i].off..row.cells[i].off + row.cells[i].len])
    else FixedValue(row.cells[i].bytes)
  }

  /** After a successful decode every row is readable: each non-null STRING cell
      refers to `indirect_data[off..off+len]` with the offset and length it
      arrived with, and every other cell and every null flag is untouched. */
  lemma DecodedRowsReadable(schema: Schema, b: WireBlock)
    requires WireRows(schema, b.rows) && NoBadSlice(schema, b)
    ensures forall k :: 0 <= k < |b.rows| ==>
              Readable(schema, Resolve(schema, b.rows)[k], b.indirectData) &&
              Resolve(schema, b.rows)[k].isNull == b.rows[k].isNull
    ensures forall k, i :: 0 <= k < |b.rows| && 0 <= i < |schema.columns| ==>
              Resolve(schema, b.rows)[k].cells[i] ==
                if IsIndirect(schema, b.rows[k], i) then Ref(b.rows[k].cells[i].off, b.rows[k].cells[i].len)
                else b.rows[k].cells[i]
  {
    forall k, i | 0 <= k < |b.rows| && 0 <= i < |schema.columns| && IsIndirect(schema, b.rows[k], i)
      ensures b.rows[k].cells[i].off + b.rows[k].cells[i].len <= |b.indirectData|
    {
      assert !BadSlice(schema, b, k, i);
    }
  }

  /** The bytes a row adds so far only ever grow by appending. */
  lemma {:induction false} PayloadPrefix(schema: Schema, row: Row, i: nat, j: nat)
    requires InMemoryRow(schema, row) && i <= j <= |schema.columns|
    ensures |Payload(schema, row, i)| <= |Payload(schema, row, j)|
    ensures Payload(schema, row, j)[..|Payload(schema, row, i)|] == Payload(schema, row, i)
  {
    if i < j {
      PayloadPrefix(schema, row, i, j - 1);
      var p := Payload(schema, row, j - 1);
      assert Payload(schema, row, j)[..|p|] == p;
    }
  }

  /** Each non-null STRING cell of an appended row becomes an offset equal to the
      length `indirect_data` had when the cell was reached, keeps its length, and
      the grown `indirect_data` holds exactly the cell's bytes there. */
  lemma EncodedSliceResolves(schema: Schema, rowSize: nat, b: WireBlock, row: Row, i: nat)
    requires InMemoryRow(schema, row) && i < |schema.columns| && IsIndirect(schema, row, i)
    ensures var r := AppendRow(schema, rowSize, b, row);
            var c := r.rows[|b.rows|].cells[i];
            c == Offset(|b.indirectData| + |Payload(schema, row, i)|, |row.cells[i].data|) &&
            c.off + c.len <= |r.indirectData| &&
            r.indirectData[c.off..c.off + c.len] == row.cells[i].data
  {
    var full := Payload(schema, row, |schema.columns|);
    var before := Payload(schema, row, i);
    var data := row.cells[i].data;
    PayloadPrefix(schema, row, i + 1, |schema.columns|);
    assert Payload(schema, row, i + 1) == before + data;
    var m := |before| + |data|;
    assert full == before + data + full[m..] by {
      assert full[..m] == before + data;
      assert full == full[..m] + full[m..];
    }
    SliceInMiddle(b.indirectData, before, data, full[m..]);
  }

  lemma SliceInMiddle<T>(a: seq<T>, p: seq<T>, d: seq<T>, q: seq<T>)
    ensures (a + (p + d + q))[|a| + |p|..|a| + |p| + |d|] == d
  {
    assert a + (p + d + q) == (a + p) + d + q;
  }

  /** A null cell of a nullable column is zeroed and adds nothing to
      `indirect_data`. */
  lemma NullCellZeroed(schema: Schema, rowSize: nat, b: WireBlock, row: Row, i: nat)
    requires InMemoryRow(schema, row) && i < |schema.columns| && IsNullCell(schema, row, i)
    ensures AppendRow(schema, rowSize, b, row).rows[|b.rows|].cells[i] == ZeroCell(row.cells[i])
    ensures Payload(schema, row, i + 1) == Payload(schema, row, i)
  {
  }

  /** Wire row `w` carries in-memory row `m`: same null flags, and every non-null
      cell reads back as `m`'s value, STRING cells through `indirect`. */
  predicate Carries(schema: Schema, w: Row, m: Row, indirect: seq<byte>)
  {
    InMemoryRow(schema, m) && WireRow(schema, w) && w.isNull == m.isNull &&
    forall i :: 0 <= i < |schema.columns| && !IsNullCell(schema, m, i) ==>
      if schema.columns[i].typ == STRING
      then SliceFits(w.cells[i], |indirect|) &&
           indirect[w.cells[i].off..w.cells[i].off + w.cells[i].len] == m.cells[i].data
      else w.cells[i] == m.cells[i]
  }

  /** Block `b` holds, one image per row, exactly the rows `rows`. */
  predicate BlockCarries(schema: Schema, rowSize: nat, b: WireBlock, rows: seq<Row>)
  {
    rowSize > 0 && |b.rows| == |rows| && b.rowsSize == |rows| * rowSize &&
    forall k :: 0 <= k < |rows| ==> Carries(schema, b.rows[k], rows[k], b.indirectData)
  }

  const EmptyBlock := WireBlock([], 0, [])

  /** The block after the rows were appended one by one, in order. */
  function EncodeRows(schema: Schema, rowSize: nat, b: WireBlock, rows: seq<Row>): (r: WireBlock)
    requires forall k :: 0 <= k < |rows| ==> InMemoryRow(schema, rows[k])
    ensures |b.indirectData| <= |r.indirectData|
  {
    if rows == [] then b
    else AppendRow(schema, rowSize, EncodeRows(schema, rowSize, b, rows[..|rows| - 1]), rows[|rows| - 1])
  }

  /** Appending to `indirect_data` leaves what a row already carries intact. */
  lemma CarriesGrow(schema: Schema, w: Row, m: Row, indirect: seq<byte>, more: seq<byte>)
    requires Carries(schema, w, m, indirect)
    ensures Carries(schema, w, m, indirect + more)
  {
    forall i | 0 <= i < |schema.columns| && !IsNullCell(schema, m, i) && schema.columns[i].typ == STRING
      ensures (indirect + more)[w.cells[i].off..w.cells[i].off + w.cells[i].len] == m.cells[i].data
    {
      assert (indirect + more)[w.cells[i].off..w.cells[i].off + w.cells[i].len]
          == indirect[w.cells[i].off..w.cells[i].off + w.cells[i].len];
    }
  }

  /** Appending a row keeps every earlier row readable and makes the new row
      carry the appended one. */
  lemma AppendRowCarries(schema: Schema, rowSize: nat, b: WireBlock, rows: seq<Row>, row: Row)
    requires BlockCarries(schema, rowSize, b, rows) && InMemoryRow(schema, row)
    requires |AppendRow(schema, rowSize, b, row).indirectData| <= SIZE_MAX
    ensures BlockCarries(schema, rowSize, AppendRow(schema, rowSize, b, row), rows + [row])
  {
    var r := AppendRow(schema, rowSize, b, row);
    var more := Payload(schema, row, |schema.columns|);
    assert r.indirectData == b.indirectData + more;
    forall k | 0 <= k < |rows|
      ensures Carries(schema, r.rows[k], (rows + [row])[k], r.indirectData)
    {
      assert r.rows[k] == b.rows[k];
      CarriesGrow(schema, b.rows[k], rows[k], b.indirectData, more);
    }
    var w := r.rows[|rows|];
    forall i | 0 <= i < |schema.columns|
      ensures if schema.columns[i].typ == STRING
              then w.cells[i].Offset? && w.cells[i].off <= SIZE_MAX && w.cells[i].len <= SIZE_MAX
              else w.cells[i].Fixed?
      ensures !IsNullCell(schema, row, i) ==>
                if schema.columns[i].typ == STRING
                then SliceFits(w.cells[i], |r.indirectData|) &&
                     r.indirectData[w.cells[i].off..w.cells[i].off + w.cells[i].len] == row.cells[i].data
                else w.cells[i] == row.cells[i]
    {
      if IsIndirect(schema, row, i) {
        EncodedSliceResolves(schema, rowSize, b, row, i);
      }
    }
    assert WireRow(schema, w);
    assert Carries(schema, w, row, r.indirectData);
    assert r.rowsSize == (|rows| + 1) * rowSize;
  }

  /** One step of the induction below: the last appended row. */
  lemma EncodeRowsCarriesStep(schema: Schema, rowSize: nat, rows: seq<Row>)
    requires rowSize > 0 && rows != []
    requires forall k :: 0 <= k < |rows| ==> InMemoryRow(schema, rows[k])
    requires |EncodeRows(schema, rowSize, EmptyBlock, rows).indirectData| <= SIZE_MAX
    requires BlockCarries(schema, rowSize, EncodeRows(schema, rowSize, EmptyBlock, rows[..|rows| - 1]), rows[..|rows| - 1])
    ensures BlockCarries(schema, rowSize, EncodeRows(schema, rowSize, EmptyBlock, rows), rows)
  {
    var init, last := rows[..|rows| - 1], rows[|rows| - 1];
    assert init + [last] == rows;
    var prev := EncodeRows(schema, rowSize, EmptyBlock, init);
    assert EncodeRows(schema, rowSize, EmptyBlock, rows) == AppendRow(schema, rowSize, prev, last);
    AppendRowCarries(schema, rowSize, prev, init, last);
  }

  lemma {:induction false} EncodeRowsCarries(schema: Schema, rowSize: nat, rows: seq<Row>)
    requires rowSize > 0
    requires forall k :: 0 <= k < |rows| ==> InMemoryRow(schema, rows[k])
    requires |EncodeRows(schema, rowSize, EmptyBlock, rows).indirectData| <= SIZE_MAX
    ensures BlockCarries(schema, rowSize, EncodeRows(schema, rowSize, EmptyBlock, rows), rows)
  {
    if rows != [] {
      var init := rows[..|rows| - 1];
      assert |EncodeRows(schema, rowSize, EmptyBlock, init).indirectData| <= SIZE_MAX;
      EncodeRowsCarries(schema, rowSize, init);
      EncodeRowsCarriesStep(schema, rowSize, rows);
    }
  }

  lemma {:induction false} MulAtLeast(d: int, rowSize: nat)
    requires d >= 1 && rowSize > 0
    ensures d * rowSize >= rowSize
  {
    if d > 1 {
      MulAtLeast(d - 1, rowSize);
      assert d * rowSize == (d - 1) * rowSize + rowSize;
    }
  }

  lemma MultipleOfRowSize(n: nat, rowSize: nat)
    requires rowSize > 0
    ensures (n * rowSize) % rowSize == 0 && (n * rowSize) / rowSize == n
  {
    var q, r := (n * rowSize) / rowSize, (n * rowSize) % rowSize;
    assert (n - q) * rowSize == r;
    if n - q >= 1 {
      MulAtLeast(n - q, rowSize);
    } else if q - n >= 1 {
      MulAtLeast(q - n, rowSize);
    }
  }

  /** A row that carries an in-memory row has no slice the decoder refuses. */
  lemma CarriedRowFits(schema: Schema, w: Row, m: Row, indirect: seq<byte>, c: nat)
    requires Carries(schema, w, m, indirect) && c < |schema.columns|
    ensures IsIndirect(schema, w, c) ==> SliceFits(w.cells[c], |indirect|)
  {
  }

  /** What a reader sees in the decoded rows `decoded`: one row per entry of
      `rows`, each cell holding that row's in-memory value (null, the same
      fixed-width bytes, or the same STRING bytes). */
  ghost predicate HoldValuesOf(schema: Schema, decoded: seq<Row>, indirect: seq<byte>, rows: seq<Row>)
  {
    |decoded| == |rows| &&
    (forall k :: 0 <= k < |rows| ==> InMemoryRow(schema, rows[k])) &&
    forall k, i :: 0 <= k < |rows| && 0 <= i < |schema.columns| ==>
      Readable(schema, decoded[k], indirect) &&
      DecodedValue(schema, decoded[k], indirect, i) == InMemoryValue(schema, rows[k], i)
  }

  /** Decoding `b` shows a reader exactly the values of `rows`. */
  ghost predicate ReadsBackAs(schema: Schema, b: WireBlock, rows: seq<Row>)
  {
    WireRows(schema, b.rows) && HoldValuesOf(schema, Resolve(schema, b.rows), b.indirectData, rows)
  }

  /** A block that carries some rows passes every check of the decoder, and what
      a reader then sees in each cell is the value the row had in memory. */
  lemma CarriedBlockDecodes(schema: Schema, rowSize: nat, b: WireBlock, rows: seq<Row>)
    requires BlockCarries(schema, rowSize, b, rows)
    ensures Framed(b, rowSize) && Aligned(b, rowSize) && NoBadSlice(schema, b)
    ensures ReadsBackAs(schema, b, rows)
  {
    MultipleOfRowSize(|rows|, rowSize);
    assert WireRows(schema, b.rows);
    forall k, c | 0 <= k < |rows| && 0 <= c < |schema.columns|
      ensures !BadSlice(schema, b, k, c)
    {
      CarriedRowFits(schema, b.rows[k], rows[k], b.indirectData, c);
    }
    DecodedRowsReadable(schema, b);
    forall k, i | 0 <= k < |rows| && 0 <= i < |schema.columns|
      ensures DecodedValue(schema, Resolve(schema, b.rows)[k], b.indirectData, i) == InMemoryValue(schema, rows[k], i)
    {
      assert Carries(schema, b.rows[k], rows[k], b.indirectData);
    }
  }

  /** Row round trip: rows appended one by one into an empty block form a block
      the decoder accepts, with one row image per row, and decoding it gives
      back every row's null flags, STRING bytes and fixed-width bytes. */
  lemma RowBlockRoundTrip(schema: Schema, rowSize: nat, rows: seq<Row>)
    requires rowSize > 0
    requires forall k :: 0 <= k < |rows| ==> InMemoryRow(schema, rows[k])
    requires |EncodeRows(schema, rowSize, EmptyBlock, rows).indirectData| <= SIZE_MAX
    ensures Framed(EncodeRows(schema, rowSize, EmptyBlock, rows), rowSize)
    ensures Aligned(EncodeRows(schema, rowSize, EmptyBlock, rows), rowSize)
    ensures NoBadSlice(schema, EncodeRows(schema, rowSize, EmptyBlock, rows))
    ensures ReadsBackAs(schema, EncodeRows(schema, rowSize, EmptyBlock, rows), rows)
  {
    EncodeRowsCarries(schema, rowSize, rows);
    CarriedBlockDecodes(schema, rowSize, EncodeRows(schema, rowSize, EmptyBlock, rows), rows);
  }

  /** A sender appends `rows` one by one to a new block; the receiver extracts
      them: every row comes back, at its stride position, with its values. */
  method EncodeThenExtract(schema: Schema, rowSize: nat, rows: seq<Row>)
    returns (s: Status, rowPtrs: seq<nat>, decoded: seq<Row>, indirect: seq<byte>)
    requires rowSize > 0
    requires forall k :: 0 <= k < |rows| ==> InMemoryRow(schema, rows[k])
    requires |EncodeRows(schema, rowSize, EmptyBlock, rows).indirectData| <= SIZE_MAX
    ensures s == Ok && rowPtrs == RowStarts(|rows|, rowSize)
    ensures HoldValuesOf(schema, decoded, indirect, rows)
  {
    var pb := new RowwiseRowBlockPB();
    for k := 0 to |rows|
      invariant pb.Image() == EncodeRows(schema, rowSize, EmptyBlock, rows[..k])
      invariant pb.rowsSize == |pb.rows| * rowSize
    {
      AddRowToRowBlockPB(schema, rowSize, rows[k], pb);
      assert rows[..k + 1][..k] == rows[..k];
    }
    assert rows[..|rows|] == rows;
    RowBlockRoundTrip(schema, rowSize, rows);
    s, rowPtrs := ExtractRowsFromRowBlockPB(schema, rowSize, pb, []);
    decoded, indirect := pb.rows, pb.indirectData;
  }
}
