/**
 * SchemaCodec: the mapping between a schema (an ordered list of columns whose
 * first numKeyColumns entries form the key) and its wire form, an ordered list
 * of column descriptors each flagged is_key.
 */
module SchemaCodec {
  import opened KuduStatus

  /** Column type tags. */
  datatype DataType = UINT8 | INT8 | UINT16 | INT16 | UINT32 | INT32 | UINT64 | INT64 | STRING

  datatype ColumnSchema = ColumnSchema(name: string, typ: DataType, isNullable: bool)

  datatype Schema = Schema(columns: seq<ColumnSchema>, numKeyColumns: nat)

  /** The wire column descriptor. */
  datatype ColumnSchemaPB = ColumnSchemaPB(name: string, typ: DataType, isNullable: bool, isKey: bool)

  /** A freshly added descriptor, before any field is set. */
  const NewColumnSchemaPB := ColumnSchemaPB("", UINT8, false, false)

  const OutOfOrderKeyColumn := MakeStatus(InvalidArgument, "Got out-of-order key column", "", -1)
  const DuplicateName := MakeStatus(InvalidArgument, "Duplicate name present", "", -1)

  /** Writes name, type and nullability into `pb`; its is_key flag is left as it was. */
  function ColumnSchemaToPB(col: ColumnSchema, pb: ColumnSchemaPB): (r: ColumnSchemaPB)
    ensures ColumnSchemaFromPB(r) == col
    ensures r.isKey == pb.isKey
  {
    pb.(name := col.name, typ := col.typ, isNullable := col.isNullable)
  }

  /** Reads a column back from its descriptor; the is_key flag is not part of
      a column. */
  function ColumnSchemaFromPB(pb: ColumnSchemaPB): (col: ColumnSchema)
    ensures col.name == pb.name && col.typ == pb.typ && col.isNullable == pb.isNullable
  {
    ColumnSchema(pb.name, pb.typ, pb.isNullable)
  }

  /** Decoding a descriptor and encoding the column back into it changes nothing. */
  lemma ColumnSchemaPBRoundTrip(pb: ColumnSchemaPB)
    ensures ColumnSchemaToPB(ColumnSchemaFromPB(pb), pb) == pb
  {
  }

  predicate DistinctNames(columns: seq<ColumnSchema>)
  {
    forall i, j :: 0 <= i < j < |columns| ==> columns[i].name != columns[j].name
  }

  /** Building a schema from its columns and key count: refused with
      InvalidArgument when two columns share a name. */
  function SchemaReset(columns: seq<ColumnSchema>, numKeyColumns: nat): (r: Result<Schema>)
    requires numKeyColumns <= |columns|
    ensures r.Success? <==> DistinctNames(columns)
    ensures r.Success? ==> r.value.columns == columns && r.value.numKeyColumns == numKeyColumns
    ensures r.Failure? ==> r.status == DuplicateName
  {
    if DistinctNames(columns) then Success(Schema(columns, numKeyColumns)) else Failure(DuplicateName)
  }

  // ---------------------------------------------------------------------------
  // Encoding

  /** The wire form of a schema: one descriptor per column, in order, marked as
      key exactly when its index is below the key count. */
  function EncodedColumns(schema: Schema): (pbs: seq<ColumnSchemaPB>)
    ensures |pbs| == |schema.columns|
    ensures forall i :: 0 <= i < |pbs| ==>
              ColumnSchemaFromPB(pbs[i]) == schema.columns[i] && (pbs[i].isKey <==> i < schema.numKeyColumns)
  {
    seq(|schema.columns|, i requires 0 <= i < |schema.columns| =>
      ColumnSchemaToPB(schema.columns[i], NewColumnSchemaPB).(isKey := i < schema.numKeyColumns))
  }

  /** Emits the columns one by one; never fails. */
  method SchemaToColumnPBs(schema: Schema) returns (s: Status, cols: seq<ColumnSchemaPB>)
    ensures s == Ok
    ensures cols == EncodedColumns(schema)
  {
    cols := [];
    var idx := 0;
    while idx < |schema.columns|
      invariant 0 <= idx <= |schema.columns|
      invariant cols == EncodedColumns(schema)[..idx]
    {
      var colPB := ColumnSchemaToPB(schema.columns[idx], NewColumnSchemaPB);
      colPB := colPB.(isKey := idx < schema.numKeyColumns);
      cols := cols + [colPB];
      idx := idx + 1;
    }
    s := Ok;
  }

  // ---------------------------------------------------------------------------
  // Decoding

  /** No key descriptor follows a non-key one. */
  predicate KeysContiguous(pbs: seq<ColumnSchemaPB>)
  {
    forall i, j :: 0 <= i < j < |pbs| && pbs[j].isKey ==> pbs[i].isKey
  }

  /** Length of the leading run of key descriptors. */
  function LeadingKeyCount(pbs: seq<ColumnSchemaPB>): (n: nat)
    ensures n <= |pbs|
    ensures forall i :: 0 <= i < n ==> pbs[i].isKey
    ensures n < |pbs| ==> !pbs[n].isKey
  {
    if pbs == [] || !pbs[0].isKey then 0 else 1 + LeadingKeyCount(pbs[1..])
  }

  /** Under the prefix rule, a descriptor is a key exactly when it lies in the
      leading run. */
  lemma ContiguousKeysAreLeadingRun(pbs: seq<ColumnSchemaPB>, i: nat)
    requires KeysContiguous(pbs) && i < |pbs|
    ensures pbs[i].isKey <==> i < LeadingKeyCount(pbs)
  {
  }

  /** The leading run is determined by where the first non-key sits. */
  lemma {:induction false} LeadingKeyCountIs(pbs: seq<ColumnSchemaPB>, n: nat)
    requires n <= |pbs|
    requires forall i :: 0 <= i < n ==> pbs[i].isKey
    requires n < |pbs| ==> !pbs[n].isKey
    ensures LeadingKeyCount(pbs) == n
  {
    if n > 0 {
      LeadingKeyCountIs(pbs[1..], n - 1);
    }
  }

  function ColumnsOf(pbs: seq<ColumnSchemaPB>): (columns: seq<ColumnSchema>)
    ensures |columns| == |pbs|
    ensures forall i :: 0 <= i < |pbs| ==> columns[i] == ColumnSchemaFromPB(pbs[i])
  {
    seq(|pbs|, i requires 0 <= i < |pbs| => ColumnSchemaFromPB(pbs[i]))
  }

  /** The schema a descriptor list stands for: refused when a key descriptor
      follows a non-key one, or when two names clash; otherwise the columns in
      order, with exactly the descriptors marked is_key forming the key. */
  function DecodeColumns(pbs: seq<ColumnSchemaPB>): (r: Result<Schema>)
    ensures !KeysContiguous(pbs) ==> r == Failure(OutOfOrderKeyColumn)
    ensures r.Success? <==> KeysContiguous(pbs) && DistinctNames(ColumnsOf(pbs))
    ensures KeysContiguous(pbs) && r.Failure? ==> r == Failure(DuplicateName)
    ensures r.Success? ==>
              |r.value.columns| == |pbs| && r.value.numKeyColumns <= |pbs| &&
              forall i :: 0 <= i < |pbs| ==>
                r.value.columns[i] == ColumnSchemaFromPB(pbs[i]) && (pbs[i].isKey <==> i < r.value.numKeyColumns)
  {
    if !KeysContiguous(pbs) then
      Failure(OutOfOrderKeyColumn)
    else
      var r := SchemaReset(ColumnsOf(pbs), LeadingKeyCount(pbs));
      assert r.Success? ==> forall i :: 0 <= i < |pbs| ==> (pbs[i].isKey <==> i < r.value.numKeyColumns) by {
        forall i | 0 <= i < |pbs| {
          ContiguousKeysAreLeadingRun(pbs, i);
        }
      }
      r
  }

  /** One pass over the descriptors, counting the leading keys and stopping
      at the first key that follows a non-key. */
  method ColumnPBsToSchema(pbs: seq<ColumnSchemaPB>) returns (r: Result<Schema>)
    ensures r == DecodeColumns(pbs)
  {
    var columns: seq<ColumnSchema> := [];
    var numKeyColumns := 0;
    var isHandlingKey := true;
    var k := 0;
    while k < |pbs|
      invariant 0 <= numKeyColumns <= k <= |pbs|
      invariant columns == ColumnsOf(pbs[..k])
      invariant KeysContiguous(pbs[..k])
      invariant forall i :: 0 <= i < numKeyColumns ==> pbs[i].isKey
      invariant numKeyColumns < k ==> !pbs[numKeyColumns].isKey
      invariant isHandlingKey <==> numKeyColumns == k
    {
      var pb := pbs[k];
      columns := columns + [ColumnSchemaFromPB(pb)];
      if pb.isKey {
        if !isHandlingKey {
          assert !KeysContiguous(pbs) by {
            assert numKeyColumns < k && !pbs[numKeyColumns].isKey && pbs[k].isKey;
          }
          return Failure(OutOfOrderKeyColumn);
        }
        numKeyColumns := numKeyColumns + 1;
      } else {
        isHandlingKey := false;
      }
      k := k + 1;
    }
    assert pbs[..k] == pbs;
    LeadingKeyCountIs(pbs, numKeyColumns);
    r := SchemaReset(columns, numKeyColumns);
  }

  // ---------------------------------------------------------------------------
  // Properties

  /** A well-formed schema survives encoding then decoding unchanged. */
  lemma SchemaRoundTrip(schema: Schema)
    requires schema.numKeyColumns <= |schema.columns| && DistinctNames(schema.columns)
    ensures DecodeColumns(EncodedColumns(schema)) == Success(schema)
  {
    var pbs := EncodedColumns(schema);
    assert ColumnsOf(pbs) == schema.columns;
    LeadingKeyCountIs(pbs, schema.numKeyColumns);
  }

  /** Key flags [true, false, true] are refused as out of order. */
  lemma NonContiguousKeyRefused()
    ensures DecodeColumns([ColumnSchemaPB("c0", STRING, false, true),
                           ColumnSchemaPB("c1", STRING, false, false),
                           ColumnSchemaPB("c2", STRING, false, true)]) == Failure(OutOfOrderKeyColumn)
  {
    var pbs := [ColumnSchemaPB("c0", STRING, false, true),
                ColumnSchemaPB("c1", STRING, false, false),
                ColumnSchemaPB("c2", STRING, false, true)];
    assert pbs[2].isKey && !pbs[1].isKey;
  }

  /** Two columns named "c0" are refused whatever their key flags, and when
      the keys come first the refusal is the duplicate-name error. */
  lemma DuplicateNameRefused(k0: bool, k1: bool, k2: bool)
    ensures DecodeColumns([ColumnSchemaPB("c0", STRING, false, k0),
                           ColumnSchemaPB("c1", STRING, false, k1),
                           ColumnSchemaPB("c0", STRING, false, k2)]).Failure?
    ensures (k1 ==> k0) && (k2 ==> k1) ==>
              DecodeColumns([ColumnSchemaPB("c0", STRING, false, k0),
                             ColumnSchemaPB("c1", STRING, false, k1),
                             ColumnSchemaPB("c0", STRING, false, k2)]) == Failure(DuplicateName)
  {
    var pbs := [ColumnSchemaPB("c0", STRING, false, k0),
                ColumnSchemaPB("c1", STRING, false, k1),
                ColumnSchemaPB("c0", STRING, false, k2)];
    assert ColumnsOf(pbs)[0].name == ColumnsOf(pbs)[2].name;
  }
}
