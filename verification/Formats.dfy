/** What the stored bytes are, told without the functions that write and read them. */
module Formats {
  import opened Bytes
  import opened Schemas
  import opened Tuples

  lemma {:induction false} BitIs(b: nat, i: nat)
    ensures Bit(b, i) <==> Digit(b, 2, i) == 1
  {
    if i > 0 {
      DigitStep(b, 2, i);
      BitIs(b / 2, i - 1);
    } else {
      assert Power(2, 0) == 1;
    }
  }

  // ----- Rows -----

  function TextOf(v: Value): seq<byte> {
    match v
    case Str(s) => s
    case Blob(s) => s
    case _ => []
  }

  /** The value as an unsigned number of its width; a negative one stands for its two's complement. */
  function NumberOf(v: Value): nat {
    match v
    case Int64(i) => i % 0x1_0000_0000_0000_0000
    case Int32(i) => i % 0x1_0000_0000
    case UInt64(u) => u
    case UInt32(u) => u
    case Double(bits) => bits
    case Float(bits) => bits
    case Bool(b) => if b then 1 else 0
    case _ => 0
  }

  /** How many bytes a value takes in a row. */
  function CellWidth(c: Column, v: Value): nat {
    match c.typeId
    case BOOL => 1
    case INT32 => 4
    case UINT32 => 4
    case FLOAT => 4
    case INT64 => 8
    case UINT64 => 8
    case DOUBLE => 8
    case CHAR => c.length
    case _ => 2 + |TextOf(v)|
  }

  /** The bytes of a value at position `p`: zeros for a null, a number low byte first, text padded or after its length. */
  predicate CellAt(row: seq<byte>, p: nat, c: Column, v: Value) {
    && p + CellWidth(c, v) <= |row|
    && if v.Null? then row[p..p + CellWidth(c, v)] == Zeros(CellWidth(c, v))
       else
         var s := TextOf(v);
         match c.typeId
         case CHAR =>
           |s| <= c.length && row[p..p + c.length] == s + Zeros(c.length - |s|)
         case VARCHAR =>
           row[p] as nat == |s| % 256 && row[p + 1] as nat == |s| / 256 % 256 && row[p + 2..p + 2 + |s|] == s
         case VARBINARY =>
           row[p] as nat == |s| % 256 && row[p + 1] as nat == |s| / 256 % 256 && row[p + 2..p + 2 + |s|] == s
         case _ => forall k: nat :: k < CellWidth(c, v) ==> row[p + k] as nat == Digit(NumberOf(v), 256, k)
  }

  /** The bytes of the first `n` cells. */
  function CellsWidth(columns: seq<Column>, values: seq<Value>, n: nat): nat
    requires n <= |columns| == |values|
  {
    if n == 0 then 0 else CellsWidth(columns, values, n - 1) + CellWidth(columns[n - 1], values[n - 1])
  }

  /** One bit a column, rounded up to bytes, set for the nulls; then the cells, one after the other. */
  predicate RowIs(columns: seq<Column>, values: seq<Value>, row: seq<byte>)
    requires |columns| == |values|
  {
    var n := |columns|;
    var bitmap := (n + 7) / 8;
    && |row| == bitmap + CellsWidth(columns, values, n)
    && (forall j: nat :: j < 8 * bitmap ==> (Digit(row[j / 8], 2, j % 8) == 1 <==> j < n && values[j].Null?))
    && (forall i: nat :: i < n ==> CellAt(row, bitmap + CellsWidth(columns, values, i), columns[i], values[i]))
  }

  lemma TwosComplement(i: int)
    ensures -0x8000_0000 <= i < 0x8000_0000 ==> Unsigned(i, 0x1_0000_0000) == i % 0x1_0000_0000
    ensures -0x8000_0000_0000_0000 <= i < 0x8000_0000_0000_0000 ==>
              Unsigned(i, 0x1_0000_0000_0000_0000) == i % 0x1_0000_0000_0000_0000
  {
  }

  lemma PayloadDigits(c: Column, v: Value, k: nat)
    requires !c.typeId.Unknown? && v.Valid() && v.Type() == ValueTypeOf(c.typeId) && !v.Null? && !v.Str? && !v.Blob?
    requires k < CellWidth(c, v)
    ensures |v.Payload()| == CellWidth(c, v) && v.Payload()[k] as nat == Digit(NumberOf(v), 256, k)
  {
    hide LE;
    hide Digit;
    match v
    case Int64(i) =>
      TwosComplement(i);
      LEByte(NumberOf(v), 8, k);
    case Int32(i) =>
      TwosComplement(i);
      LEByte(NumberOf(v), 4, k);
    case UInt64(u) => LEByte(u, 8, k);
    case UInt32(u) => LEByte(u, 4, k);
    case Double(u) => LEByte(u, 8, k);
    case Float(u) => LEByte(u, 4, k);
    case Bool(b) => SmallDigit(NumberOf(v));
    case _ =>
  }

  lemma SmallDigit(x: nat)
    requires x < 256
    ensures Digit(x, 256, 0) == x
  {
    assert Power(256, 0) == 1;
  }

  lemma NumberCell(c: Column, v: Value)
    requires !c.typeId.Unknown? && v.Valid() && v.Type() == ValueTypeOf(c.typeId) && !v.Null? && !v.Str? && !v.Blob?
    ensures |Cell(c, v)| == CellWidth(c, v) && CellAt(Cell(c, v), 0, c, v)
  {
    hide Digit;
    hide NumberOf;
    hide Value.Payload;
    PayloadDigits(c, v, 0);
    forall k: nat | k < CellWidth(c, v)
      ensures v.Payload()[k] as nat == Digit(NumberOf(v), 256, k)
    {
      PayloadDigits(c, v, k);
    }
  }

  lemma TextCell(c: Column, v: Value)
    requires c.Valid() && !c.typeId.Unknown? && v.Type() == ValueTypeOf(c.typeId) && CellError(c, v).None?
    requires v.Null? || v.Str? || v.Blob?
    ensures |Cell(c, v)| == CellWidth(c, v) && CellAt(Cell(c, v), 0, c, v)
  {
  }

  lemma CellFormat(c: Column, v: Value)
    requires c.Valid() && !c.typeId.Unknown? && v.Valid() && v.Type() == ValueTypeOf(c.typeId) && CellError(c, v).None?
    ensures |Cell(c, v)| == CellWidth(c, v) && CellAt(Cell(c, v), 0, c, v)
  {
    hide Cell;
    hide CellAt;
    hide CellWidth;
    hide CellError;
    if v.Null? || v.Str? || v.Blob? {
      TextCell(c, v);
    } else {
      NumberCell(c, v);
    }
  }

  lemma {:induction false} WidthFromFront(columns: seq<Column>, values: seq<Value>, n: nat)
    requires 0 < n <= |columns| == |values|
    ensures CellsWidth(columns, values, n) == CellWidth(columns[0], values[0]) + CellsWidth(columns[1..], values[1..], n - 1)
  {
    if n > 1 {
      WidthFromFront(columns, values, n - 1);
    }
  }

  lemma FirstCell(columns: seq<Column>, values: seq<Value>)
    requires Matches(columns, values) && FirstError(columns, values).None? && columns != []
    ensures var cell := Cell(columns[0], values[0]);
            && |cell| == CellWidth(columns[0], values[0]) && CellAt(cell, 0, columns[0], values[0])
            && Cells(columns, values) == cell + Cells(columns[1..], values[1..])
    ensures Matches(columns[1..], values[1..]) && FirstError(columns[1..], values[1..]).None?
  {
    hide Cell;
    hide CellAt;
    hide CellWidth;
    CellFormat(columns[0], values[0]);
  }

  lemma SliceBehind(a: seq<byte>, b: seq<byte>, p: nat, n: nat)
    requires p + n <= |b|
    ensures (a + b)[|a| + p..|a| + p + n] == b[p..p + n]
  {
  }

  /** The cells are where the widths before them say. */
  lemma {:induction false} CellsPlaced(columns: seq<Column>, values: seq<Value>, i: nat)
    requires Matches(columns, values) && FirstError(columns, values).None? && i < |columns|
    ensures |Cells(columns, values)| == CellsWidth(columns, values, |columns|)
    ensures var p, cell := CellsWidth(columns, values, i), Cell(columns[i], values[i]);
            && p + |cell| <= |Cells(columns, values)| && Cells(columns, values)[p..p + |cell|] == cell
            && |cell| == CellWidth(columns[i], values[i]) && CellAt(cell, 0, columns[i], values[i])
    decreases |columns|
  {
    hide Cell;
    hide CellAt;
    hide CellWidth;
    hide Cells;
    hide Matches;
    hide FirstError;
    var n := |columns|;
    SameCount(columns, values);
    FirstCell(columns, values);
    SameCount(columns[1..], values[1..]);
    var first, rest := Cell(columns[0], values[0]), Cells(columns[1..], values[1..]);
    WidthFromFront(columns, values, n);
    if i > 0 {
      CellsPlaced(columns[1..], values[1..], i - 1);
      WidthFromFront(columns, values, i);
      SliceBehind(first, rest, CellsWidth(columns[1..], values[1..], i - 1), |Cell(columns[i], values[i])|);
    } else if n > 1 {
      CellsPlaced(columns[1..], values[1..], 0);
    } else {
      NoCells(columns[1..], values[1..]);
    }
  }

  lemma NoCells(columns: seq<Column>, values: seq<Value>)
    requires columns == [] && values == []
    ensures Cells(columns, values) == []
  {
  }

  lemma NumberMoved(row: seq<byte>, p: nat, cell: seq<byte>, c: Column, v: Value)
    requires p + |cell| <= |row| && row[p..p + |cell|] == cell && |cell| == CellWidth(c, v) && CellAt(cell, 0, c, v)
    requires !v.Null? && !c.typeId.CHAR? && !c.typeId.VARCHAR? && !c.typeId.VARBINARY?
    ensures CellAt(row, p, c, v)
  {
    hide Digit;
    hide NumberOf;
    forall k: nat | k < |cell|
      ensures row[p + k] == cell[k]
    {
      assert row[p..p + |cell|][k] == row[p + k];
    }
  }

  lemma TextMoved(row: seq<byte>, p: nat, cell: seq<byte>, c: Column, v: Value)
    requires p + |cell| <= |row| && row[p..p + |cell|] == cell && |cell| == CellWidth(c, v) && CellAt(cell, 0, c, v)
    requires v.Null? || c.typeId.CHAR? || c.typeId.VARCHAR? || c.typeId.VARBINARY?
    ensures CellAt(row, p, c, v)
  {
    hide Digit;
    hide NumberOf;
    hide TextOf;
    assert cell[..|cell|] == cell;
    if !v.Null? && !c.typeId.CHAR? {
      assert row[p..p + |cell|][0] == row[p] && row[p..p + |cell|][1] == row[p + 1];
      SliceOf(row, p, cell, 2, |TextOf(v)|);
    }
  }

  lemma CellMoved(row: seq<byte>, p: nat, cell: seq<byte>, c: Column, v: Value)
    requires p + |cell| <= |row| && row[p..p + |cell|] == cell && |cell| == CellWidth(c, v) && CellAt(cell, 0, c, v)
    ensures CellAt(row, p, c, v)
  {
    hide *;
    if v.Null? || c.typeId.CHAR? || c.typeId.VARCHAR? || c.typeId.VARBINARY? {
      TextMoved(row, p, cell, c, v);
    } else {
      NumberMoved(row, p, cell, c, v);
    }
  }

  lemma BitmapBitsAre(values: seq<Value>, row: seq<byte>, j: nat)
    requires Bitmap(values, |values|) <= row && j < 8 * BitmapSize(|values|)
    ensures Digit(row[j / 8], 2, j % 8) == 1 <==> j < |values| && values[j].Null?
  {
    hide Digit;
    BitIs(row[j / 8], j % 8);
    assert row[j / 8] == Bitmap(values, |values|)[j / 8];
    BitsSet(values, |values|, j);
  }

  /** No bit beyond the columns is set either. */
  lemma {:induction false} BitsSet(values: seq<Value>, n: nat, j: nat)
    requires n <= |values| && j < 8 * BitmapSize(|values|)
    ensures IsNull(Bitmap(values, n), j) <==> j < n && values[j].Null?
  {
    hide Bit;
    if n == 0 {
      ZeroBits(j % 8);
    } else {
      BitsSet(values, n - 1, j);
      if values[n - 1].Null? {
        SetNullBits(Bitmap(values, n - 1), n - 1, j);
      }
    }
  }

  lemma RowCells(columns: seq<Column>, values: seq<Value>, bits: seq<byte>, i: nat)
    requires Matches(columns, values) && FirstError(columns, values).None? && i < |columns|
    ensures CellAt(bits + Cells(columns, values), |bits| + CellsWidth(columns, values, i), columns[i], values[i])
  {
    hide *;
    SameCount(columns, values);
    CellsPlaced(columns, values, i);
    var p, cell, cells := CellsWidth(columns, values, i), Cell(columns[i], values[i]), Cells(columns, values);
    SliceBehind(bits, cells, p, |cell|);
    CellMoved(bits + cells, |bits| + p, cell, columns[i], values[i]);
  }

  lemma SameCount(columns: seq<Column>, values: seq<Value>)
    requires Matches(columns, values)
    ensures |values| == |columns|
  {
  }

  lemma CellsLength(columns: seq<Column>, values: seq<Value>)
    requires Matches(columns, values) && FirstError(columns, values).None?
    ensures |Cells(columns, values)| == CellsWidth(columns, values, |columns|)
  {
    if columns != [] {
      CellsPlaced(columns, values, 0);
    }
  }

  /** What is written for a row, byte by byte. */
  lemma RowFormat(columns: seq<Column>, values: seq<Value>)
    requires Matches(columns, values) && Encode(columns, values).Encoded?
    ensures RowIs(columns, values, Encode(columns, values).bytes)
  {
    hide Cells;
    hide CellAt;
    hide CellsWidth;
    hide Digit;
    hide Bitmap;
    hide Matches;
    hide FirstError;
    SameCount(columns, values);
    var row, bits, cells := Encode(columns, values).bytes, Bitmap(values, |values|), Cells(columns, values);
    assert row == bits + cells;
    CellsLength(columns, values);
    forall j: nat | j < 8 * BitmapSize(|values|)
      ensures Digit(row[j / 8], 2, j % 8) == 1 <==> j < |values| && values[j].Null?
    {
      BitmapBitsAre(values, row, j);
    }
    forall i: nat | i < |columns|
      ensures CellAt(row, |bits| + CellsWidth(columns, values, i), columns[i], values[i])
    {
      RowCells(columns, values, bits, i);
    }
  }

  // ----- Refusals -----

  /** The text does not fit its column: more than a CHAR or a bounded VARCHAR takes, or more than 16 bits count. */
  predicate TooLong(c: Column, v: Value) {
    !v.Null?
    && match c.typeId
       case CHAR => |TextOf(v)| > c.length
       case VARCHAR => (c.length > 0 && |TextOf(v)| > c.length) || |TextOf(v)| > 65535
       case _ => false
  }

  lemma ErrorMeans(c: Column, v: Value)
    requires !c.typeId.Unknown? && v.Type() == ValueTypeOf(c.typeId)
    ensures CellError(c, v).Some? <==> TooLong(c, v)
    ensures CellError(c, v).Some? ==>
              CellError(c, v).value ==
                if c.typeId.CHAR? then CharTooLong
                else if c.length > 0 && |TextOf(v)| > c.length then VarcharTooLong else VarcharOverLimit
  {
  }

  /** A row is refused exactly when some text does not fit, for the reason of the first such column. */
  lemma {:induction false} RefusedExactly(columns: seq<Column>, values: seq<Value>)
    requires Matches(columns, values)
    ensures Encode(columns, values).Failed? <==> exists i :: 0 <= i < |columns| && TooLong(columns[i], values[i])
    ensures forall i :: 0 <= i < |columns| && TooLong(columns[i], values[i])
                        && (forall j :: 0 <= j < i ==> !TooLong(columns[j], values[j])) ==>
              Encode(columns, values) ==
                Failed(if columns[i].typeId.CHAR? then CharTooLong
                       else if columns[i].length > 0 && |TextOf(values[i])| > columns[i].length then VarcharTooLong
                       else VarcharOverLimit)
    decreases |columns|
  {
    hide TooLong;
    hide CellError;
    if columns != [] {
      ErrorMeans(columns[0], values[0]);
      RefusedExactly(columns[1..], values[1..]);
      forall i | 0 < i < |columns|
        ensures TooLong(columns[i], values[i]) == TooLong(columns[1..][i - 1], values[1..][i - 1])
      {
      }
      if i :| 0 <= i < |columns| && TooLong(columns[i], values[i]) {
        assert i > 0 ==> TooLong(columns[1..][i - 1], values[1..][i - 1]);
      }
    }
  }

  // ----- Schemas -----

  /** The stored numbers of the types, in the order they are declared. */
  function TypeNumber(t: TypeId): nat {
    match t
    case INT32 => 0
    case INT64 => 1
    case UINT32 => 2
    case UINT64 => 3
    case FLOAT => 4
    case DOUBLE => 5
    case BOOL => 6
    case CHAR => 7
    case VARCHAR => 8
    case VARBINARY => 9
    case Unknown(code) => code
  }

  predicate U16Is(raw: seq<byte>, p: nat, x: nat) {
    p + 2 <= |raw| && raw[p] as nat == x % 256 && raw[p + 1] as nat == x / 256 % 256
  }

  /** A column at position `p`: the length of its name, the name, the type's number and the declared length. */
  predicate ColumnAt(raw: seq<byte>, p: nat, c: Column) {
    var n := |c.name|;
    && p + 6 + n <= |raw| && U16Is(raw, p, n) && raw[p + 2..p + 2 + n] == c.name
    && U16Is(raw, p + 2 + n, TypeNumber(c.typeId)) && U16Is(raw, p + 4 + n, c.length)
  }

  function ColumnsWidth(columns: seq<Column>, n: nat): nat
    requires n <= |columns|
  {
    if n == 0 then 0 else ColumnsWidth(columns, n - 1) + 6 + |columns[n - 1].name|
  }

  /** The number of columns, cut to 16 bits, and so many columns one after the other. */
  predicate SchemaIs(columns: seq<Column>, raw: seq<byte>) {
    var n := |columns| % 0x1_0000;
    && |raw| == 2 + ColumnsWidth(columns, n) && U16Is(raw, 0, n)
    && forall i: nat :: i < n ==> ColumnAt(raw, 2 + ColumnsWidth(columns, i), columns[i])
  }

  lemma ColumnFormat(c: Column)
    ensures |ColumnBytes(c)| == 6 + |c.name| && ColumnAt(ColumnBytes(c), 0, c)
  {
    var n, b := |c.name|, ColumnBytes(c);
    assert b[2..2 + n] == c.name;
    assert b[2 + n] == U16Bytes(c.typeId.Code())[0] && b[3 + n] == U16Bytes(c.typeId.Code())[1];
    assert b[4 + n] == U16Bytes(c.length)[0] && b[5 + n] == U16Bytes(c.length)[1];
  }

  lemma ColumnMoved(raw: seq<byte>, p: nat, b: seq<byte>, c: Column)
    requires p + |b| <= |raw| && raw[p..p + |b|] == b && |b| == 6 + |c.name| && ColumnAt(b, 0, c)
    ensures ColumnAt(raw, p, c)
  {
    forall k | 0 <= k < |b|
      ensures raw[p + k] == b[k]
    {
      assert raw[p..p + |b|][k] == raw[p + k];
    }
  }

  lemma {:induction false} ColumnsFromFront(columns: seq<Column>, n: nat)
    requires 0 < n <= |columns|
    ensures ColumnsWidth(columns, n) == 6 + |columns[0].name| + ColumnsWidth(columns[1..], n - 1)
  {
    if n > 1 {
      ColumnsFromFront(columns, n - 1);
    }
  }

  lemma {:induction false} ColumnsPlaced(columns: seq<Column>, i: nat)
    requires i < |columns|
    ensures |ColumnsBytes(columns)| == ColumnsWidth(columns, |columns|)
    ensures var p, b := ColumnsWidth(columns, i), ColumnBytes(columns[i]);
            p + |b| <= |ColumnsBytes(columns)| && ColumnsBytes(columns)[p..p + |b|] == b
    decreases |columns|
  {
    hide ColumnBytes;
    hide ColumnAt;
    var first, rest := ColumnBytes(columns[0]), ColumnsBytes(columns[1..]);
    ColumnFormat(columns[0]);
    ColumnsFromFront(columns, |columns|);
    if i > 0 {
      ColumnsPlaced(columns[1..], i - 1);
      ColumnsFromFront(columns, i);
      ColumnFormat(columns[i]);
      SliceBehind(first, rest, ColumnsWidth(columns[1..], i - 1), |ColumnBytes(columns[i])|);
    } else if |columns| > 1 {
      ColumnsPlaced(columns[1..], 0);
    }
  }

  lemma {:induction false} SameWidths(columns: seq<Column>, n: nat, i: nat)
    requires i <= n <= |columns|
    ensures ColumnsWidth(columns[..n], i) == ColumnsWidth(columns, i)
  {
    if i > 0 {
      SameWidths(columns, n, i - 1);
    }
  }

  /** What is written for a schema, byte by byte. */
  lemma SchemaFormat(columns: seq<Column>)
    ensures SchemaIs(columns, SchemaBytes(columns))
  {
    hide ColumnsBytes;
    hide ColumnBytes;
    hide ColumnAt;
    var n := |columns| % 0x1_0000;
    var kept, raw, head := columns[..n], SchemaBytes(columns), U16Bytes(n);
    assert raw == head + ColumnsBytes(kept);
    SameWidths(columns, n, n);
    if n == 0 {
      NoColumns(kept);
    } else {
      ColumnsPlaced(kept, 0);
    }
    forall i: nat | i < n
      ensures ColumnAt(raw, 2 + ColumnsWidth(columns, i), columns[i])
    {
      ColumnsPlaced(kept, i);
      SameWidths(columns, n, i);
      var p, b := ColumnsWidth(columns, i), ColumnBytes(columns[i]);
      SliceBehind(head, ColumnsBytes(kept), p, |b|);
      ColumnFormat(columns[i]);
      ColumnMoved(raw, 2 + p, b, columns[i]);
    }
  }

  lemma NoColumns(columns: seq<Column>)
    requires columns == []
    ensures ColumnsBytes(columns) == []
  {
  }
}
