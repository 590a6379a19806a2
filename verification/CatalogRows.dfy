/** Tables and the rows that describe them: each can be had from the other. */
module CatalogRows {
  import opened Bytes
  import opened HeapModel
  import opened HeapStates
  import opened TableHeaps
  import opened HeapScan
  import opened Schemas
  import opened Tuples
  import opened TupleCodec
  import opened Formats

  type Name = seq<byte>

  datatype Entry = Entry(rid: RID, first: nat, columns: seq<Column>)

  type Entries = map<Name, Entry>

  const CATALOG_SCHEMA: seq<Column> := [
    Column([116, 97, 98, 108, 101, 95, 110, 97, 109, 101], VARCHAR, 128),
    Column([102, 105, 114, 115, 116, 95, 112, 97, 103, 101, 95, 105, 100], UINT32, 0),
    Column([115, 99, 104, 101, 109, 97, 95, 98, 121, 116, 101, 115], VARBINARY, 4096)
  ]

  /** A table as the values of a catalog row. */
  function RowValues(name: Name, first: nat, columns: seq<Column>): (r: seq<Value>)
    ensures |r| == 3
  {
    [Str(name), UInt32(first), Blob(SchemaBytes(columns))]
  }

  /** What the in-memory types of the source allow, short of 65536 columns. */
  predicate Storable(first: nat, columns: seq<Column>) {
    first < 0x1_0000_0000 && |columns| < 0x1_0000
    && forall i :: 0 <= i < |columns| ==> columns[i].typeId.Valid() && columns[i].length < 0x1_0000
  }

  function RowBytes(name: Name, first: nat, columns: seq<Column>): EncodeResult {
    Encode(CATALOG_SCHEMA, RowValues(name, first, columns))
  }

  /** The row is the stored form of the table, within what a page can hold. */
  predicate Describes(row: seq<byte>, name: Name, first: nat, columns: seq<Column>) {
    Storable(first, columns) && RowBytes(name, first, columns) == Encoded(row) && |row| <= MAX_TUPLE
  }

  /** The bytes of a table's row: the bitmap, the two lengths, the page id, the name and the stored schema. */
  function RowSize(name: Name, columns: seq<Column>): nat {
    9 + |name| + |SchemaBytes(columns)|
  }

  /** The row of a table cannot be written exactly when its name is longer than 128 bytes, and has this size otherwise. */
  lemma RowSizeIs(name: Name, first: nat, columns: seq<Column>)
    requires first < 0x1_0000_0000
    ensures RowBytes(name, first, columns).Failed? <==> |name| > 128
    ensures RowBytes(name, first, columns).Encoded? ==> |RowBytes(name, first, columns).bytes| == RowSize(name, columns)
  {
    hide Encode;
    hide SchemaBytes;
    var values := RowValues(name, first, columns);
    RowMatches(name, first, columns);
    RefusedExactly(CATALOG_SCHEMA, values);
    if |name| > 128 {
      assert TooLong(CATALOG_SCHEMA[0], values[0]);
    }
    if RowBytes(name, first, columns).Encoded? {
      RowFormat(CATALOG_SCHEMA, values);
      RowWidth(name, first, columns);
    }
  }

  lemma RowWidth(name: Name, first: nat, columns: seq<Column>)
    ensures CellsWidth(CATALOG_SCHEMA, RowValues(name, first, columns), 3) == 8 + |name| + |SchemaBytes(columns)|
  {
    hide SchemaBytes;
    var values := RowValues(name, first, columns);
    assert CellsWidth(CATALOG_SCHEMA, values, 1) == 2 + |name|;
    assert CellsWidth(CATALOG_SCHEMA, values, 2) == 6 + |name|;
  }

  /** Three cells: a text, a number of four bytes and a text. */
  lemma RowParts(row: seq<byte>, name: Name, first: nat, blob: seq<byte>)
    requires var values := [Str(name), UInt32(first), Blob(blob)];
             forall i: nat :: i < 3 ==> CellAt(row, 1 + CellsWidth(CATALOG_SCHEMA, values, i), CATALOG_SCHEMA[i], values[i])
    ensures var n := |name|;
            && 9 + n + |blob| <= |row| && U16Is(row, 1, n) && row[3..3 + n] == name
            && (forall k: nat :: k < 4 ==> row[3 + n + k] as nat == Digit(first, 256, k))
            && U16Is(row, 7 + n, |blob|) && row[9 + n..9 + n + |blob|] == blob
  {
    hide Digit;
    hide CellAt;
    hide U16Is;
    var values := [Str(name), UInt32(first), Blob(blob)];
    assert CellsWidth(CATALOG_SCHEMA, values, 0) == 0;
    assert CellsWidth(CATALOG_SCHEMA, values, 1) == 2 + |name|;
    assert CellsWidth(CATALOG_SCHEMA, values, 2) == 6 + |name|;
    TextPart(row, 1, CATALOG_SCHEMA[0], values[0]);
    NumberPart(row, 3 + |name|, CATALOG_SCHEMA[1], first);
    TextPart(row, 7 + |name|, CATALOG_SCHEMA[2], values[2]);
  }

  lemma TextPart(row: seq<byte>, p: nat, c: Column, v: Value)
    requires CellAt(row, p, c, v) && (c.typeId.VARCHAR? || c.typeId.VARBINARY?) && !v.Null?
    ensures p + 2 + |TextOf(v)| <= |row| && U16Is(row, p, |TextOf(v)|) && row[p + 2..p + 2 + |TextOf(v)|] == TextOf(v)
  {
  }

  lemma NumberPart(row: seq<byte>, p: nat, c: Column, x: nat)
    requires CellAt(row, p, c, UInt32(x)) && c.typeId.UINT32?
    ensures p + 4 <= |row| && forall k: nat :: k < 4 ==> row[p + k] as nat == Digit(x, 256, k)
  {
    hide Digit;
    assert CellWidth(c, UInt32(x)) == 4 && NumberOf(UInt32(x)) == x;
  }

  lemma NoNullBits(row: seq<byte>, values: seq<Value>)
    requires |values| == 3 && RowIs(CATALOG_SCHEMA, values, row) && forall i :: 0 <= i < 3 ==> !values[i].Null?
    ensures row != [] && forall j: nat :: j < 3 ==> Digit(row[0], 2, j) != 1
  {
    hide Digit;
    hide CellAt;
    hide CellsWidth;
    forall j: nat | j < 3
      ensures Digit(row[0], 2, j) != 1
    {
      assert j / 8 == 0 && j % 8 == j;
    }
  }

  /** Where the parts of a table's row are: no nulls, the name, the first page's id, the stored schema. */
  lemma CatalogRowFormat(name: Name, first: nat, columns: seq<Column>)
    requires first < 0x1_0000_0000 && RowBytes(name, first, columns).Encoded?
    ensures var row, n, schema := RowBytes(name, first, columns).bytes, |name|, SchemaBytes(columns);
            && |row| == 9 + n + |schema| && U16Is(row, 1, n) && row[3..3 + n] == name
            && (forall k: nat :: k < 4 ==> row[3 + n + k] as nat == Digit(first, 256, k))
            && U16Is(row, 7 + n, |schema|) && row[9 + n..9 + n + |schema|] == schema
            && forall j: nat :: j < 3 ==> Digit(row[0], 2, j) != 1
  {
    hide Encode;
    hide SchemaBytes;
    hide Digit;
    hide CellAt;
    hide CellsWidth;
    var values := RowValues(name, first, columns);
    RowMatches(name, first, columns);
    RowFormat(CATALOG_SCHEMA, values);
    RowWidth(name, first, columns);
    var row := RowBytes(name, first, columns).bytes;
    RowParts(row, name, first, SchemaBytes(columns));
    NoNullBits(row, values);
  }

  /** What loading makes of a row. */
  function EntryOf(x: Row): Option<(Name, Entry)> {
    if !Readable(CATALOG_SCHEMA, x.1) then None
    else
      var values := Decode(CATALOG_SCHEMA, x.1);
      if !values[0].Str? || !values[1].UInt32? || !values[2].Blob? then None
      else
        var columns := SchemaOf(values[2].s);
        if columns.None? then None else Some((values[0].s, Entry(x.0, values[1].u, columns.value)))
  }

  lemma SchemaShape()
    ensures CharsHaveLength(CATALOG_SCHEMA) && Known(CATALOG_SCHEMA) && |CATALOG_SCHEMA| == 3
  {
  }

  lemma RowMatches(name: Name, first: nat, columns: seq<Column>)
    requires first < 0x1_0000_0000
    ensures Matches(CATALOG_SCHEMA, RowValues(name, first, columns))
  {
  }

  lemma RowNormal(name: Name, first: nat, columns: seq<Column>)
    ensures Normalized(CATALOG_SCHEMA, RowValues(name, first, columns)) == RowValues(name, first, columns)
  {
  }

  lemma {:induction false} NamesFit(columns: seq<Column>, i: nat)
    requires i < |columns|
    ensures |columns[i].name| <= |ColumnsBytes(columns)|
  {
    if i > 0 {
      NamesFit(columns[1..], i - 1);
    }
  }

  lemma StoredSchemaFits(name: Name, first: nat, columns: seq<Column>, row: seq<byte>)
    requires Describes(row, name, first, columns)
    ensures 2 + |ColumnsBytes(columns)| <= |row|
  {
    var values := RowValues(name, first, columns);
    CellInside(CATALOG_SCHEMA, values, 2);
    PayloadInside(CATALOG_SCHEMA[2], values[2]);
    assert columns[..Wrap16(|columns|)] == columns;
  }

  lemma StoredSchemaBack(name: Name, first: nat, columns: seq<Column>, row: seq<byte>)
    requires Describes(row, name, first, columns)
    ensures SchemaOf(SchemaBytes(columns)) == Some(columns)
  {
    StoredSchemaFits(name, first, columns, row);
    hide RowBytes;
    hide ColumnsBytes;
    hide SchemaBytes;
    hide SchemaOf;
    forall i | 0 <= i < |columns|
      ensures columns[i].Valid()
    {
      NamesFit(columns, i);
    }
    StartsRise(columns, 2, if columns == [] then 0 else |columns| - 1, |columns|);
    SchemaRoundTrip(columns, []);
    assert SchemaBytes(columns) + [] == SchemaBytes(columns);
  }

  lemma RowIsShort(name: Name, first: nat, columns: seq<Column>, row: seq<byte>)
    requires Describes(row, name, first, columns)
    ensures RowReached(CATALOG_SCHEMA, RowValues(name, first, columns))
  {
    hide Cells;
    hide Bitmap;
    hide RowReached;
    ShortRow(CATALOG_SCHEMA, RowValues(name, first, columns));
  }

  lemma DescribedValues(row: seq<byte>, name: Name, first: nat, columns: seq<Column>)
    requires Describes(row, name, first, columns)
    ensures Readable(CATALOG_SCHEMA, row) && Decode(CATALOG_SCHEMA, row) == RowValues(name, first, columns)
  {
    hide Readable;
    hide Decode;
    hide Encode;
    hide Normalized;
    SchemaShape();
    RowMatches(name, first, columns);
    RowNormal(name, first, columns);
    RowIsShort(name, first, columns, row);
    TupleRoundTrip(CATALOG_SCHEMA, RowValues(name, first, columns));
  }

  /** A row describing a table is loaded as exactly that table. */
  lemma {:induction false} RowBack(x: Row, name: Name, first: nat, columns: seq<Column>)
    requires Describes(x.1, name, first, columns)
    ensures EntryOf(x) == Some((name, Entry(x.0, first, columns)))
  {
    DescribedValues(x.1, name, first, columns);
    StoredSchemaBack(name, first, columns, x.1);
    hide Readable;
    hide Decode;
    hide SchemaOf;
    hide SchemaBytes;
    hide Describes;
  }

  // ----- The map and the rows -----

  /** Tables and rows correspond one to one, each row describing its table. */
  ghost predicate Corresponds(tables: Entries, rows: HeapMap) {
    && (forall n :: n in tables ==>
          tables[n].rid in rows && Describes(rows[tables[n].rid], n, tables[n].first, tables[n].columns))
    && (forall r :: r in rows ==> exists n :: n in tables && tables[n].rid == r)
  }

  lemma {:induction false} OneRowEach(tables: Entries, rows: HeapMap, n: Name, m: Name)
    requires Corresponds(tables, rows) && n in tables && m in tables && tables[n].rid == tables[m].rid
    ensures n == m
  {
    var x: Row := (tables[n].rid, rows[tables[n].rid]);
    RowBack(x, n, tables[n].first, tables[n].columns);
    RowBack(x, m, tables[m].first, tables[m].columns);
  }

  lemma {:induction false} RowCreated(tables: Entries, rows: HeapMap, n: Name, e: Entry, row: seq<byte>)
    requires Corresponds(tables, rows) && n !in tables && e.rid !in rows && Describes(row, n, e.first, e.columns)
    ensures Corresponds(tables[n := e], rows[e.rid := row])
  {
    hide Describes;
    var tables', rows' := tables[n := e], rows[e.rid := row];
    forall r | r in rows'
      ensures exists m :: m in tables' && tables'[m].rid == r
    {
      if r != e.rid {
        var m :| m in tables && tables[m].rid == r;
        assert m in tables' && tables'[m].rid == r;
      } else {
        assert n in tables' && tables'[n].rid == r;
      }
    }
  }

  lemma {:induction false} RowDropped(tables: Entries, rows: HeapMap, n: Name)
    requires Corresponds(tables, rows) && n in tables
    ensures Corresponds(tables - {n}, rows - {tables[n].rid})
  {
    hide Describes;
    var tables', rows' := tables - {n}, rows - {tables[n].rid};
    forall m | m in tables'
      ensures tables'[m].rid in rows' && rows'[tables'[m].rid] == rows[tables[m].rid]
    {
      if tables[m].rid == tables[n].rid {
        OneRowEach(tables, rows, m, n);
      }
    }
    forall r | r in rows'
      ensures exists m :: m in tables' && tables'[m].rid == r
    {
      var m :| m in tables && tables[m].rid == r;
      assert m in tables' && tables'[m].rid == r;
    }
  }

  // ----- Reload -----

  /** The map after loading the given rows in order. */
  function Loaded(rows: seq<Row>): Entries {
    if rows == [] then map[]
    else
      var before := Loaded(rows[..|rows| - 1]);
      var e := EntryOf(rows[|rows| - 1]);
      if e.None? then before else before[e.value.0 := e.value.1]
  }

  ghost predicate Among(rows: seq<Row>, all: HeapMap) {
    forall i :: 0 <= i < |rows| ==> rows[i].0 in all && all[rows[i].0] == rows[i].1
  }

  ghost predicate Seen(rows: seq<Row>, r: RID) {
    exists i :: 0 <= i < |rows| && rows[i].0 == r
  }

  /** Loading some of the rows gives exactly the tables those rows belong to. */
  lemma {:induction false} LoadedIsPart(tables: Entries, all: HeapMap, rows: seq<Row>)
    requires Corresponds(tables, all) && Among(rows, all)
    ensures Loaded(rows) == map n | n in tables && Seen(rows, tables[n].rid) :: tables[n]
    decreases |rows|
  {
    hide Describes;
    hide EntryOf;
    if rows != [] {
      var k := |rows| - 1;
      var before, x := rows[..k], rows[k];
      LoadedIsPart(tables, all, before);
      var n :| n in tables && tables[n].rid == x.0;
      RowBack(x, n, tables[n].first, tables[n].columns);
      forall m | m in tables
        ensures Seen(rows, tables[m].rid) <==> m == n || Seen(before, tables[m].rid)
      {
        SeenMore(rows, tables[m].rid);
        if tables[m].rid == x.0 {
          OneRowEach(tables, all, m, n);
        }
      }
    }
  }

  lemma SeenMore(rows: seq<Row>, r: RID)
    requires rows != []
    ensures Seen(rows, r) <==> rows[|rows| - 1].0 == r || Seen(rows[..|rows| - 1], r)
  {
    var k := |rows| - 1;
    if Seen(rows, r) && rows[k].0 != r {
      var i :| 0 <= i < |rows| && rows[i].0 == r;
      assert rows[..k][i].0 == r;
    }
    if Seen(rows[..k], r) {
      var i :| 0 <= i < k && rows[..k][i].0 == r;
      assert rows[i].0 == r;
    }
  }

  /** The sequence has every record, and nothing else. */
  ghost predicate Lists(s: seq<Row>, rows: HeapMap) {
    forall x :: x in s <==> x.0 in rows && rows[x.0] == x.1
  }

  /** Loading every row rebuilds the whole map. */
  lemma {:induction false} LoadedIsAll(tables: Entries, all: HeapMap, rows: seq<Row>)
    requires Corresponds(tables, all)
    requires Lists(rows, all)
    ensures Loaded(rows) == tables
  {
    hide Describes;
    assert Among(rows, all) by {
      assert forall i :: 0 <= i < |rows| ==> rows[i] in rows;
    }
    LoadedIsPart(tables, all, rows);
    forall n | n in tables
      ensures Seen(rows, tables[n].rid)
    {
      var x := (tables[n].rid, all[tables[n].rid]);
      assert x in rows;
      var i :| 0 <= i < |rows| && rows[i] == x;
      assert rows[i].0 == tables[n].rid;
    }
  }

  lemma AllRows(heap: TableHeap)
    requires heap.Ready()
    ensures Lists(ChainRows(heap.pages, heap.chain, 0), Rows(heap.pages))
    ensures OneOfEach(ChainRows(heap.pages, heap.chain, 0))
  {
    HeapIsHoused(heap);
    ScanIsExact(heap.pages, heap.chain);
  }

  lemma NothingLoaded()
    ensures Loaded([]) == map[]
  {
  }

  lemma LoadedMore(done: seq<Row>, x: Row)
    requires EntryOf(x).Some?
    ensures Loaded(done + [x]) == Loaded(done)[EntryOf(x).value.0 := EntryOf(x).value.1]
  {
    assert (done + [x])[..|done|] == done;
  }

  /** Every row of the catalog's heap can be loaded. */
  lemma RowEntry(tables: Entries, rows: HeapMap, all: seq<Row>, i: nat)
    requires Corresponds(tables, rows) && i < |all|
    requires Lists(all, rows)
    ensures EntryOf(all[i]).Some? && EntryOf(all[i]).value.0 in tables
    ensures tables[EntryOf(all[i]).value.0] == EntryOf(all[i]).value.1
  {
    hide Describes;
    hide EntryOf;
    assert all[i] in all;
    var n :| n in tables && tables[n].rid == all[i].0;
    RowBack(all[i], n, tables[n].first, tables[n].columns);
  }

  /** A prefix of the rows loads a part of the map, and the whole map exactly when nothing is left of the rows. */
  lemma LoadedExactly(tables: Entries, rows: HeapMap, all: seq<Row>, done: seq<Row>, rest: seq<Row>)
    requires Corresponds(tables, rows) && done + rest == all
    requires Lists(all, rows) && OneOfEach(all)
    ensures Loaded(done) == tables <==> rest == []
    ensures forall n :: n in Loaded(done) ==> n in tables && Loaded(done)[n] == tables[n]
  {
    hide Describes;
    hide EntryOf;
    hide Loaded;
    assert Among(done, rows) by {
      forall i | 0 <= i < |done|
        ensures done[i].0 in rows && rows[done[i].0] == done[i].1
      {
        assert all[i] in all && done[i] == all[i];
      }
    }
    LoadedIsPart(tables, rows, done);
    if rest == [] {
      assert done == all;
      LoadedIsAll(tables, rows, all);
    } else {
      var k := |done|;
      assert all[k] in all && all[k] == rest[0];
      var n :| n in tables && tables[n].rid == all[k].0;
      assert !Seen(done, tables[n].rid) by {
        forall i | 0 <= i < |done|
          ensures done[i].0 != all[k].0
        {
          assert done[i] == all[i];
        }
      }
    }
  }

  lemma SomeRow(tables: Entries, rows: HeapMap, all: seq<Row>)
    requires Corresponds(tables, rows) && Lists(all, rows) && tables != map[]
    ensures all != []
  {
    hide Describes;
    var n :| n in tables;
    assert (tables[n].rid, rows[tables[n].rid]) in all;
  }

  /** A part of the map corresponds to the rows exactly when it is the whole. */
  lemma PartCorresponds(known: Entries, tables: Entries, rows: HeapMap)
    requires Corresponds(known, rows) && forall n :: n in tables ==> n in known && tables[n] == known[n]
    ensures Corresponds(tables, rows) <==> tables == known
  {
    hide Describes;
    if Corresponds(tables, rows) {
      forall n | n in known
        ensures n in tables
      {
        var m :| m in tables && tables[m].rid == known[n].rid;
        OneRowEach(known, rows, n, m);
      }
    }
  }

  ghost predicate OneOfEach(rows: seq<Row>) {
    forall i, j :: 0 <= i < j < |rows| ==> rows[i].0 != rows[j].0
  }

  lemma StoredBytes(name: Name, first: nat, columns: seq<Column>, row: seq<byte>)
    requires Storable(first, columns) && RowBytes(name, first, columns) == Encoded(row)
    ensures row != [] && |name| <= 128 && (Describes(row, name, first, columns) <==> |row| <= MAX_TUPLE)
  {
  }

  lemma RowGone(tables: Entries, rows: HeapMap, n: Name)
    requires n in tables && tables[n].rid !in rows
    ensures !Corresponds(tables, rows)
  {
  }

  lemma TableRow(tables: Entries, rows: HeapMap, n: Name)
    requires Corresponds(tables, rows) && n in tables
    ensures tables[n].rid in rows && rows[tables[n].rid] != []
  {
    var row := rows[tables[n].rid];
    StoredBytes(n, tables[n].first, tables[n].columns, row);
  }

  lemma EntryIs(x: Row)
    requires EntryOf(x).Some?
    ensures Readable(CATALOG_SCHEMA, x.1)
    ensures var values := Decode(CATALOG_SCHEMA, x.1);
            && |values| == 3 && values[0].Str? && values[1].UInt32? && values[2].Blob? && SchemaOf(values[2].s).Some?
            && EntryOf(x).value == (values[0].s, Entry(x.0, values[1].u, SchemaOf(values[2].s).value))
  {
    hide Readable;
    hide Decode;
    hide SchemaOf;
  }

  lemma StorableThere(first: nat, columns: seq<Column>)
    requires Storable(0, columns) && first < INVALID_PAGE_ID
    ensures Storable(first, columns)
  {
  }
}
