/** Reading a row back: the reader finds each column where the writer put it. */
module TupleCodec {
  import opened Bytes
  import opened Schemas
  import opened Tuples

  /** Where the writer starts each cell, the first at `o`. */
  function Positions(columns: seq<Column>, values: seq<Value>, o: nat): (r: seq<nat>)
    requires |columns| == |values|
    ensures |r| == |columns|
  {
    if columns == [] then [] else [o] + Positions(columns[1..], values[1..], o + |Cell(columns[0], values[0])|)
  }

  function Normal(c: Column, v: Value): Value {
    if c.typeId.CHAR? && v.Str? then Str(Trimmed(v.s)) else v
  }

  /** The values a row comes back as. */
  function Normalized(columns: seq<Column>, values: seq<Value>): (r: seq<Value>)
    requires |columns| == |values|
    ensures |r| == |values| && forall i :: 0 <= i < |values| ==> r[i] == Normal(columns[i], values[i])
  {
    seq(|values|, i requires 0 <= i < |values| => Normal(columns[i], values[i]))
  }

  /** No CHAR column is declared with length 0. */
  predicate CharsHaveLength(columns: seq<Column>) {
    forall i :: 0 <= i < |columns| && columns[i].typeId.CHAR? ==> columns[i].length > 0
  }

  /** What the writer accepts in one column, with a value that fits a length prefix. */
  predicate CellFits(c: Column, v: Value) {
    && c.Valid() && !c.typeId.Unknown? && v.Valid() && v.Type() == ValueTypeOf(c.typeId)
    && CellError(c, v).None? && |v.Payload()| < 0x1_0000
  }

  predicate CellOk(c: Column, v: Value) {
    CellFits(c, v) && (c.typeId.CHAR? ==> c.length > 0)
  }

  // ----- One cell -----

  /** The bytes of `b` lie in `raw` at `o`. */
  predicate Holds(raw: seq<byte>, o: nat, b: seq<byte>) {
    o + |b| <= |raw| && raw[o..o + |b|] == b
  }

  lemma HeldSize(raw: seq<byte>, o: nat, b: seq<byte>)
    requires Holds(raw, o, b)
    ensures o + |b| <= |raw|
  {
  }

  lemma HoldsParts(raw: seq<byte>, o: nat, b: seq<byte>, c: seq<byte>)
    requires Holds(raw, o, b + c)
    ensures Holds(raw, o, b) && Holds(raw, o + |b|, c)
  {
    var bc := b + c;
    assert raw[o..o + |b|] == raw[o..o + |bc|][..|b|] == bc[..|b|] == b;
    assert raw[o + |b|..o + |bc|] == raw[o..o + |bc|][|b|..] == bc[|b|..] == c;
  }

  lemma {:induction false} TrimPadded(s: seq<byte>, n: nat)
    ensures Trimmed(s + Zeros(n)) == Trimmed(s)
  {
    hide Trimmed;
    if n == 0 {
      assert s + Zeros(0) == s;
    } else {
      TrimPadded(s, n - 1);
      assert s + Zeros(n) == s + Zeros(n - 1) + [0];
      TrimOne(s + Zeros(n - 1));
    }
  }

  lemma TrimOne(s: seq<byte>)
    ensures Trimmed(s + [0]) == Trimmed(s)
  {
    assert (s + [0])[..|s|] == s;
  }

  lemma {:induction false} TrimmedSame(s: seq<byte>)
    ensures Trimmed(s) == s <==> s == [] || s[|s| - 1] != 0
    ensures |Trimmed(s)| <= |s|
  {
    if s != [] {
      TrimmedSame(s[..|s| - 1]);
    }
  }

  lemma SignedInverse(i: int, m: nat)
    requires m % 2 == 0 && -(m / 2) <= i < m / 2
    ensures Unsigned(i, m) < m && Signed(Unsigned(i, m), m) == i
  {
  }

  lemma NumberBack(t: TypeId, v: Value)
    requires v.Valid() && !v.Null? && !t.Unknown? && v.Type() == ValueTypeOf(t)
    requires !v.Str? && !v.Blob? && !v.Bool?
    ensures ValueOf(t, v.Payload()) == v
  {
    PowEight();
    hide LE;
    hide FromLE;
    hide Pow256;
    match v
    case Int64(i) =>
      SignedInverse(i, 0x1_0000_0000_0000_0000);
      LERoundTrip(Unsigned(i, 0x1_0000_0000_0000_0000), 8);
    case Int32(i) =>
      SignedInverse(i, 0x1_0000_0000);
      LERoundTrip(Unsigned(i, 0x1_0000_0000), 4);
    case UInt64(u) => LERoundTrip(u, 8);
    case Double(u) => LERoundTrip(u, 8);
    case UInt32(u) => LERoundTrip(u, 4);
    case Float(u) => LERoundTrip(u, 4);
    case _ =>
  }

  lemma FixedCell(c: Column, v: Value)
    requires CellOk(c, v) && c.IsFixedSize()
    ensures |Cell(c, v)| == c.FixedSize() > 0
    ensures !v.Null? ==> ValueOf(c.typeId, Cell(c, v)) == Normal(c, v)
  {
    if v.Str? {
      TrimPadded(v.s, c.length - |v.s|);
      if |v.s| == c.length {
        assert v.s + Zeros(0) == v.s;
      }
    } else if v.Bool? || v.Null? {
    } else {
      assert |v.Payload()| == c.FixedSize();
      NumberBack(c.typeId, v);
    }
  }

  lemma VariableCell(c: Column, v: Value, raw: seq<byte>, o: nat)
    requires CellOk(c, v) && !c.IsFixedSize() && Holds(raw, o, Cell(c, v))
    ensures o + |v.Payload()| + 2 <= |raw|
    ensures U16At(raw, o) == |v.Payload()| && raw[o + 2..o + 2 + |v.Payload()|] == v.Payload()
    ensures !v.Null? ==> ValueOf(c.typeId, v.Payload()) == v
  {
    var p := v.Payload();
    assert Cell(c, v) == U16Bytes(|p|) + p;
    PrefixRead(raw, o, p);
  }

  lemma PrefixRead(raw: seq<byte>, o: nat, p: seq<byte>)
    requires |p| < 0x1_0000 && Holds(raw, o, U16Bytes(|p|) + p)
    ensures o + 2 + |p| <= |raw| && U16At(raw, o) == |p| && raw[o + 2..o + 2 + |p|] == p
  {
    HoldsParts(raw, o, U16Bytes(|p|), p);
    assert raw[o] == raw[o..o + 2][0] && raw[o + 1] == raw[o..o + 2][1];
    Low16(|p|);
  }

  lemma VariableSize(c: Column, v: Value)
    requires CellOk(c, v) && !c.IsFixedSize()
    ensures c.FixedSize() == 0 && |Cell(c, v)| == |v.Payload()| + 2 && Normal(c, v) == v && !c.typeId.BOOL?
    ensures v.Null? ==> v == Null(ValueTypeOf(c.typeId))
  {
  }

  lemma NullCell(c: Column, v: Value)
    requires CellOk(c, v) && v.Null?
    ensures v == Null(ValueTypeOf(c.typeId)) == Normal(c, v) && !c.typeId.Unknown?
  {
  }

  lemma FixedRead(c: Column, v: Value, raw: seq<byte>, o: nat)
    requires CellOk(c, v) && c.IsFixedSize() && Holds(raw, o, Cell(c, v))
    ensures Width(c, raw, o) == Some(|Cell(c, v)|) && o + |Cell(c, v)| <= |raw| && !c.typeId.Unknown?
    ensures ValueAt(c, raw, o, v.Null?) == Normal(c, v)
  {
    hide *;
    if v.Null? {
      NullCell(c, v);
    }
    KnownType(c, v);
    FixedCell(c, v);
    FixedAt(c, raw, o, Cell(c, v));
  }

  lemma FixedAt(c: Column, raw: seq<byte>, o: nat, cell: seq<byte>)
    requires !c.typeId.Unknown? && c.IsFixedSize() && |cell| == c.FixedSize() > 0 && Holds(raw, o, cell)
    ensures Width(c, raw, o) == Some(|cell|) && o + |cell| <= |raw|
    ensures ValueAt(c, raw, o, true) == Null(ValueTypeOf(c.typeId))
    ensures ValueAt(c, raw, o, false) == ValueOf(c.typeId, cell)
  {
    hide ValueOf;
    hide ValueTypeOf;
    hide Column.FixedSize;
    hide Column.IsFixedSize;
  }

  lemma VariableAt(c: Column, raw: seq<byte>, o: nat, n: nat)
    requires !c.typeId.Unknown? && !c.IsFixedSize() && c.FixedSize() == 0 && o + 2 + n <= |raw| && U16At(raw, o) == n
    requires !c.typeId.BOOL?
    ensures Width(c, raw, o) == Some(n + 2)
    ensures ValueAt(c, raw, o, true) == Null(ValueTypeOf(c.typeId))
    ensures ValueAt(c, raw, o, false) == ValueOf(c.typeId, raw[o + 2..o + 2 + n])
  {
    hide ValueOf;
    hide ValueTypeOf;
    hide U16At;
    hide Column.FixedSize;
    hide Column.IsFixedSize;
  }

  lemma KnownType(c: Column, v: Value)
    requires CellOk(c, v)
    ensures !c.typeId.Unknown?
  {
  }

  lemma VariableRead(c: Column, v: Value, raw: seq<byte>, o: nat)
    requires CellOk(c, v) && !c.IsFixedSize() && Holds(raw, o, Cell(c, v))
    ensures Width(c, raw, o) == Some(|Cell(c, v)|) && o + |Cell(c, v)| <= |raw| && !c.typeId.Unknown?
    ensures ValueAt(c, raw, o, v.Null?) == Normal(c, v)
  {
    hide *;
    if v.Null? {
      NullCell(c, v);
    }
    KnownType(c, v);
    VariableSize(c, v);
    VariableCell(c, v, raw, o);
    VariableAt(c, raw, o, |v.Payload()|);
  }

  /** A cell found anywhere among other bytes is measured and read back right. */
  lemma CellRead(c: Column, v: Value, raw: seq<byte>, o: nat)
    requires CellOk(c, v) && Holds(raw, o, Cell(c, v))
    ensures Width(c, raw, o) == Some(|Cell(c, v)|) && o + |Cell(c, v)| <= |raw| && !c.typeId.Unknown?
    ensures ValueAt(c, raw, o, v.Null?) == Normal(c, v)
  {
    hide *;
    if c.IsFixedSize() {
      FixedRead(c, v, raw, o);
    } else {
      VariableRead(c, v, raw, o);
    }
  }

  // ----- The row -----

  predicate RowFits(columns: seq<Column>, values: seq<Value>) {
    |columns| == |values| && forall i :: 0 <= i < |columns| ==> CellFits(columns[i], values[i])
  }

  predicate RowOk(columns: seq<Column>, values: seq<Value>) {
    |columns| == |values| && forall i :: 0 <= i < |columns| ==> CellOk(columns[i], values[i])
  }

  /** The reader's walk visits exactly the positions the writer used. */
  lemma {:induction false} WalkFindsCells(columns: seq<Column>, values: seq<Value>, raw: seq<byte>, o: nat)
    requires RowOk(columns, values) && Holds(raw, o, Cells(columns, values))
    ensures Walk(columns, raw, o) == Some(Positions(columns, values, o))
    decreases |columns|
  {
    hide *;
    if columns == [] {
      NoCells(columns, values, raw, o);
    } else {
      FirstCell(columns, values, o);
      HeldSize(raw, o, Cell(columns[0], values[0]) + Cells(columns[1..], values[1..]));
      var c, v := columns[0], values[0];
      HoldsParts(raw, o, Cell(c, v), Cells(columns[1..], values[1..]));
      CellRead(c, v, raw, o);
      WalkFindsCells(columns[1..], values[1..], raw, o + |Cell(c, v)|);
      WalkOne(columns, raw, o, |Cell(c, v)|);
    }
  }

  lemma NoCells(columns: seq<Column>, values: seq<Value>, raw: seq<byte>, o: nat)
    requires RowOk(columns, values) && columns == []
    ensures Walk(columns, raw, o) == Some(Positions(columns, values, o))
  {
  }

  lemma FirstCell(columns: seq<Column>, values: seq<Value>, o: nat)
    requires RowOk(columns, values) && columns != []
    ensures |values| == |columns| && CellOk(columns[0], values[0]) && RowOk(columns[1..], values[1..])
    ensures Cells(columns, values) == Cell(columns[0], values[0]) + Cells(columns[1..], values[1..])
    ensures Positions(columns, values, o) ==
              [o] + Positions(columns[1..], values[1..], o + |Cell(columns[0], values[0])|)
  {
  }

  lemma WalkOne(columns: seq<Column>, raw: seq<byte>, o: nat, w: nat)
    requires columns != [] && Width(columns[0], raw, o) == Some(w) && o + w <= |raw|
    requires Walk(columns[1..], raw, o + w).Some?
    ensures Walk(columns, raw, o) == Some([o] + Walk(columns[1..], raw, o + w).value)
  {
  }

  lemma {:induction false} CellAtPosition(columns: seq<Column>, values: seq<Value>, raw: seq<byte>, o: nat, i: nat)
    requires RowOk(columns, values) && Holds(raw, o, Cells(columns, values)) && i < |columns|
    ensures Holds(raw, Positions(columns, values, o)[i], Cell(columns[i], values[i]))
    decreases |columns|
  {
    hide *;
    FirstCell(columns, values, o);
    var c, v := columns[0], values[0];
    HoldsParts(raw, o, Cell(c, v), Cells(columns[1..], values[1..]));
    if i > 0 {
      CellAtPosition(columns[1..], values[1..], raw, o + |Cell(c, v)|, i - 1);
    }
  }

  lemma {:induction false} NoErrorAt(columns: seq<Column>, values: seq<Value>, i: nat)
    requires |columns| == |values| && i < |columns| && FirstError(columns, values).None?
    ensures CellError(columns[i], values[i]).None?
  {
    if i > 0 {
      NoErrorAt(columns[1..], values[1..], i - 1);
    }
  }

  lemma {:induction false} CellInside(columns: seq<Column>, values: seq<Value>, i: nat)
    requires |columns| == |values| && i < |columns|
    ensures |Cell(columns[i], values[i])| <= |Cells(columns, values)|
  {
    hide Cell;
    if i > 0 {
      CellInside(columns[1..], values[1..], i - 1);
    }
  }

  lemma PayloadInside(c: Column, v: Value)
    ensures |v.Payload()| <= |Cell(c, v)|
  {
  }

  /** What a row needs beyond being encodable: 16 bits reach every cell and hold every value's length. */
  predicate RowReached(columns: seq<Column>, values: seq<Value>)
    requires |columns| == |values|
  {
    forall i :: 0 <= i < |columns| ==> CellReached(columns, values, i)
  }

  predicate CellReached(columns: seq<Column>, values: seq<Value>, i: nat)
    requires i < |columns| == |values|
  {
    && |values[i].Payload()| < 0x1_0000
    && Reached(columns[i], Positions(columns, values, BitmapSize(|columns|))[i], values[i].Null?)
  }

  lemma {:induction false} PositionInside(columns: seq<Column>, values: seq<Value>, o: nat, i: nat)
    requires i < |columns| == |values|
    ensures Positions(columns, values, o)[i] + |Cell(columns[i], values[i])| <= o + |Cells(columns, values)|
  {
    hide Cell;
    if i > 0 {
      PositionInside(columns[1..], values[1..], o + |Cell(columns[0], values[0])|, i - 1);
    }
  }

  /** Every row of at most 65535 bytes has it. */
  lemma ShortRow(columns: seq<Column>, values: seq<Value>)
    requires |columns| == |values| && BitmapSize(|columns|) + |Cells(columns, values)| < 0x1_0000
    ensures RowReached(columns, values)
  {
    hide Cells;
    hide Positions;
    forall i | 0 <= i < |columns|
      ensures CellReached(columns, values, i)
    {
      PositionInside(columns, values, BitmapSize(|columns|), i);
    }
  }

  lemma RowIsOk(columns: seq<Column>, values: seq<Value>)
    requires Matches(columns, values) && Encode(columns, values).Encoded? && RowReached(columns, values)
    ensures RowFits(columns, values)
    ensures CharsHaveLength(columns) ==> RowOk(columns, values)
  {
    hide Positions;
    forall i | 0 <= i < |columns|
      ensures CellFits(columns[i], values[i])
    {
      NoErrorAt(columns, values, i);
      assert CellReached(columns, values, i);
    }
  }

  lemma OneCell(columns: seq<Column>, values: seq<Value>, i: nat)
    requires RowOk(columns, values) && i < |columns|
    ensures |values| == |columns| && CellOk(columns[i], values[i])
  {
  }

  /** Column `i` of a written row comes back, a null as a null. */
  lemma ColumnBack(columns: seq<Column>, values: seq<Value>, i: nat)
    requires RowOk(columns, values) && i < |columns|
    requires Readable(columns, Bitmap(values, |values|) + Cells(columns, values))
    ensures DecodedAt(columns, Bitmap(values, |values|) + Cells(columns, values), i) == Normal(columns[i], values[i])
  {
    hide Cell;
    hide Cells;
    hide CellOk;
    hide RowOk;
    hide Width;
    hide Walk;
    hide ValueAt;
    hide Bit;
    hide Bitmap;
    hide Positions;
    OneCell(columns, values, i);
    var bitmap, cells := Bitmap(values, |values|), Cells(columns, values);
    var raw := bitmap + cells;
    assert Holds(raw, |bitmap|, cells);
    WalkFindsCells(columns, values, raw, |bitmap|);
    CellAtPosition(columns, values, raw, |bitmap|, i);
    BitmapBits(values, |values|, i);
    assert raw[i / 8] == bitmap[i / 8];
    CellRead(columns[i], values[i], raw, Positions(columns, values, |bitmap|)[i]);
  }

  lemma CellsReached(columns: seq<Column>, values: seq<Value>, raw: seq<byte>)
    requires |columns| == |values| && RowReached(columns, values)
    requires raw == Bitmap(values, |values|) + Cells(columns, values)
    ensures StartsReached(columns, raw, Positions(columns, values, BitmapSize(|columns|)))
  {
    hide Cells;
    hide Bitmap;
    hide Positions;
    hide Bit;
    var starts := Positions(columns, values, BitmapSize(|columns|));
    forall i | 0 <= i < |columns|
      ensures Reached(columns[i], starts[i], IsNull(raw, i))
    {
      BitmapBits(values, |values|, i);
      assert raw[i / 8] == Bitmap(values, |values|)[i / 8];
      assert CellReached(columns, values, i);
    }
  }

  /** Every encodable row that 16 bits reach is read back, up to the trailing NULs of CHAR values. */
  lemma TupleRoundTrip(columns: seq<Column>, values: seq<Value>)
    requires Matches(columns, values) && CharsHaveLength(columns)
    requires Encode(columns, values).Encoded? && RowReached(columns, values)
    ensures var raw := Encode(columns, values).bytes;
            && Readable(columns, raw)
            && Offsets(columns, raw) == Positions(columns, values, BitmapSize(|columns|))
            && Decode(columns, raw) == Normalized(columns, values)
  {
    hide Cell;
    hide Cells;
    hide CellOk;
    hide CellFits;
    hide Walk;
    hide DecodedAt;
    hide Positions;
    hide Reached;
    hide CellReached;
    var bitmap := Bitmap(values, |values|);
    var raw := bitmap + Cells(columns, values);
    RowIsOk(columns, values);
    assert Holds(raw, |bitmap|, Cells(columns, values));
    WalkFindsCells(columns, values, raw, |bitmap|);
    CellsReached(columns, values, raw);
    forall i | 0 <= i < |columns|
      ensures DecodedAt(columns, raw, i) == Normal(columns[i], values[i])
    {
      ColumnBack(columns, values, i);
    }
  }

  predicate NoTrailingNul(columns: seq<Column>, values: seq<Value>)
    requires |columns| == |values|
  {
    forall i :: 0 <= i < |columns| ==> !EndsInNul(columns[i], values[i])
  }

  predicate EndsInNul(c: Column, v: Value) {
    c.typeId.CHAR? && v.Str? && v.s != [] && v.s[|v.s| - 1] == 0
  }

  /** The row comes back unchanged exactly when no CHAR value ends in NUL. */
  lemma TupleUnchanged(columns: seq<Column>, values: seq<Value>)
    requires Matches(columns, values) && CharsHaveLength(columns)
    requires Encode(columns, values).Encoded? && RowReached(columns, values)
    ensures Readable(columns, Encode(columns, values).bytes)
    ensures Decode(columns, Encode(columns, values).bytes) == values <==> NoTrailingNul(columns, values)
  {
    TupleRoundTrip(columns, values);
    forall i | 0 <= i < |columns|
      ensures Normal(columns[i], values[i]) == values[i] <==> !EndsInNul(columns[i], values[i])
    {
      if values[i].Str? {
        TrimmedSame(values[i].s);
      }
    }
    hide *;
    SameRow(columns, values);
  }

  lemma SameRow(columns: seq<Column>, values: seq<Value>)
    requires |columns| == |values|
    requires forall i :: 0 <= i < |columns| ==> (Normal(columns[i], values[i]) == values[i] <==> !EndsInNul(columns[i], values[i]))
    ensures Normalized(columns, values) == values <==> NoTrailingNul(columns, values)
  {
    hide Normal;
    hide EndsInNul;
    var r := Normalized(columns, values);
    assert r == values <==> forall i :: 0 <= i < |values| ==> r[i] == values[i];
  }

  // ----- CHAR(0) -----

  lemma EmptyCell(c: Column, v: Value)
    requires CellFits(c, v) && c.typeId.CHAR? && c.length == 0
    ensures Cell(c, v) == []
    ensures c.FixedSize() == 0
  {
  }

  lemma WalkFirst(columns: seq<Column>, raw: seq<byte>, o: nat)
    requires columns != [] && Walk(columns, raw, o).Some?
    ensures var w := Width(columns[0], raw, o);
            && w.Some? && o + w.value <= |raw| && Walk(columns[1..], raw, o + w.value).Some?
            && Walk(columns, raw, o).value == [o] + Walk(columns[1..], raw, o + w.value).value
            && (|columns| > 1 ==> Walk(columns[1..], raw, o + w.value).value[0] == o + w.value)
  {
  }

  lemma RowParts(columns: seq<Column>, values: seq<Value>, o: nat)
    requires RowFits(columns, values) && columns != []
    ensures |values| == |columns| && CellFits(columns[0], values[0]) && RowFits(columns[1..], values[1..])
    ensures Cells(columns, values) == Cell(columns[0], values[0]) + Cells(columns[1..], values[1..])
    ensures Positions(columns, values, o) ==
              [o] + Positions(columns[1..], values[1..], o + |Cell(columns[0], values[0])|)
    ensures |columns| > 1 ==>
              Positions(columns[1..], values[1..], o + |Cell(columns[0], values[0])|)[0] == o + |Cell(columns[0], values[0])|
    ensures |columns| == 1 ==> Cells(columns[1..], values[1..]) == []
    ensures !CharsHaveLength(columns) ==>
              (columns[0].typeId.CHAR? && columns[0].length == 0) || !CharsHaveLength(columns[1..])
    ensures CellOk(columns[0], values[0]) || (columns[0].typeId.CHAR? && columns[0].length == 0)
  {
    assert CharsHaveLength(columns[1..]) ==> forall i :: 1 <= i < |columns| ==> columns[i] == columns[1..][i - 1];
  }

  lemma PrefixWidth(c: Column, raw: seq<byte>, o: nat)
    requires c.FixedSize() == 0
    ensures Width(c, raw, o).None? ==> o + 2 > |raw|
    ensures Width(c, raw, o).Some? ==> o + 2 <= |raw| && Width(c, raw, o).value >= 2
  {
    hide U16At;
  }

  /** Past a CHAR(0) column the reader is never where the writer was. */
  lemma {:induction false} WalkMisses(columns: seq<Column>, values: seq<Value>, raw: seq<byte>, o: nat)
    requires RowFits(columns, values) && !CharsHaveLength(columns)
    requires Holds(raw, o, Cells(columns, values)) && o + |Cells(columns, values)| == |raw|
    ensures Walk(columns, raw, o) != Some(Positions(columns, values, o))
    decreases |columns|
  {
    hide Walk;
    hide Positions;
    hide Cells;
    hide Cell;
    hide CellFits;
    hide CellOk;
    hide RowFits;
    hide Width;
    hide Holds;
    hide CharsHaveLength;
    hide Column.FixedSize;
    if Walk(columns, raw, o).Some? && columns != [] {
      RowParts(columns, values, o);
      var c, v := columns[0], values[0];
      WalkFirst(columns, raw, o);
      HoldsParts(raw, o, Cell(c, v), Cells(columns[1..], values[1..]));
      if c.typeId.CHAR? && c.length == 0 {
        EmptyCell(c, v);
        PrefixWidth(c, raw, o);
        if |columns| > 1 {
          assert Walk(columns, raw, o).value[1] != Positions(columns, values, o)[1];
        }
      } else {
        CellRead(c, v, raw, o);
        WalkMisses(columns[1..], values[1..], raw, o + |Cell(c, v)|);
        assert Walk(columns, raw, o).value[1..] != Positions(columns, values, o)[1..];
      }
    } else if columns == [] {
      NoChars(columns);
    }
  }

  lemma NoChars(columns: seq<Column>)
    requires columns == []
    ensures CharsHaveLength(columns)
  {
  }

  /**
   * A CHAR(0) column is written as nothing but read as a length prefix. So of every encodable row that 16 bits
   * reach, the reader finds the cells where the writer put them exactly when the schema has no such column.
   */
  lemma {:induction false} CellsFoundExactly(columns: seq<Column>, values: seq<Value>)
    requires Matches(columns, values) && Encode(columns, values).Encoded? && RowReached(columns, values)
    ensures var raw := Encode(columns, values).bytes;
            Readable(columns, raw) && Offsets(columns, raw) == Positions(columns, values, BitmapSize(|columns|)) <==>
            CharsHaveLength(columns)
  {
    if CharsHaveLength(columns) {
      TupleRoundTrip(columns, values);
    } else {
      hide *;
      RowIsOk(columns, values);
      WrittenRow(columns, values);
      WalkMisses(columns, values, Encode(columns, values).bytes, BitmapSize(|columns|));
      if Readable(columns, Encode(columns, values).bytes) {
        FoundByWalk(columns, Encode(columns, values).bytes);
      }
    }
  }

  lemma WrittenRow(columns: seq<Column>, values: seq<Value>)
    requires |columns| == |values| && Encode(columns, values).Encoded?
    ensures var raw, o := Encode(columns, values).bytes, BitmapSize(|columns|);
            Holds(raw, o, Cells(columns, values)) && o + |Cells(columns, values)| == |raw|
  {
    hide Cells;
  }

  lemma FoundByWalk(columns: seq<Column>, raw: seq<byte>)
    requires Readable(columns, raw)
    ensures Walk(columns, raw, BitmapSize(|columns|)) == Some(Offsets(columns, raw))
  {
  }

  /** An instance: of every row of (CHAR(0), UINT32) the reader leaves the bytes. */
  lemma ZeroLengthChar(a: Column, b: Column, u: nat)
    requires a.Valid() && a.typeId == CHAR && a.length == 0
    requires b.Valid() && b.typeId == UINT32 && u < 0x1_0000_0000
    ensures var columns, values := [a, b], [Str([]), UInt32(u)];
            Matches(columns, values) && Encode(columns, values).Encoded? && !Readable(columns, Encode(columns, values).bytes)
  {
    var columns, values := [a, b], [Str([]), UInt32(u)];
    assert columns[1..] == [b] && values[1..] == [UInt32(u)] && columns[1..][1..] == [] && values[1..][1..] == [];
    NoError(columns, values);
    hide LE;
    hide Bitmap;
    hide U16At;
    assert Cells([b], [UInt32(u)]) == LE(u, 4);
    assert Cells(columns, values) == LE(u, 4);
    var raw := Bitmap(values, 2) + Cells(columns, values);
    assert |raw| == 5;
    var w := Width(a, raw, 1);
    assert w.Some? && w.value >= 2;
    assert Walk([b], raw, 1 + w.value).None?;
  }

  lemma NoError(columns: seq<Column>, values: seq<Value>)
    requires |columns| == |values| == 2
    requires CellError(columns[0], values[0]).None? && CellError(columns[1], values[1]).None?
    ensures FirstError(columns, values).None?
  {
    hide CellError;
    assert columns[1..][0] == columns[1] && values[1..][0] == values[1] && columns[1..][1..] == [];
    assert FirstError(columns[1..], values[1..]) == FirstError(columns[1..][1..], values[1..][1..]);
  }
}
