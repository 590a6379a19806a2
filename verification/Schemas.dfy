/** Columns and schemas, and the bytes a schema is stored as. */
module Schemas {
  import opened Bytes

  /** The column types, by their stored 16-bit codes; a code read back need not be one of the ten. */
  datatype TypeId = INT32 | INT64 | UINT32 | UINT64 | FLOAT | DOUBLE | BOOL | CHAR | VARCHAR | VARBINARY | Unknown(code: nat) {
    predicate Valid() {
      Unknown? ==> 10 <= code < 0x1_0000
    }

    function Code(): nat {
      match this
      case INT32 => 0
      case INT64 => 1
      case UINT32 => 2
      case UINT64 => 3
      case FLOAT => 4
      case DOUBLE => 5
      case BOOL => 6
      case CHAR => 7
      case VARCHAR => 8
      case VARBINARY => 9
      case Unknown(c) => c
    }
  }

  function TypeOfCode(c: nat): TypeId {
    match c
    case 0 => INT32
    case 1 => INT64
    case 2 => UINT32
    case 3 => UINT64
    case 4 => FLOAT
    case 5 => DOUBLE
    case 6 => BOOL
    case 7 => CHAR
    case 8 => VARCHAR
    case 9 => VARBINARY
    case _ => Unknown(c)
  }

  lemma TypeCodes(t: TypeId)
    requires t.Valid()
    ensures t.Code() < 0x1_0000 && TypeOfCode(t.Code()) == t
  {
  }

  datatype Column = Column(name: seq<byte>, typeId: TypeId, length: nat) {
    /** Every field fits its stored width. */
    predicate Valid() {
      |name| < 0x1_0000 && typeId.Valid() && length < 0x1_0000
    }

    predicate IsFixedSize() {
      !typeId.VARCHAR? && !typeId.VARBINARY? && !typeId.Unknown?
    }

    /** The bytes a value takes in a row, 0 for the types that carry a length prefix. */
    function FixedSize(): nat {
      match typeId
      case INT64 => 8
      case UINT64 => 8
      case DOUBLE => 8
      case INT32 => 4
      case UINT32 => 4
      case FLOAT => 4
      case BOOL => 1
      case CHAR => length
      case _ => 0
    }
  }

  /** Conversion to a 16-bit unsigned integer. */
  function Wrap16(x: nat): (r: nat)
    ensures r < 0x1_0000 && (x < 0x1_0000 ==> r == x)
  {
    x % 0x1_0000
  }

  function U16Bytes(x: nat): (b: seq<byte>)
    ensures |b| == 2
  {
    [x % 256, x / 256 % 256]
  }

  lemma U16RoundTrip(x: nat, before: seq<byte>, after: seq<byte>)
    ensures U16At(before + U16Bytes(x) + after, |before|) == Wrap16(x)
  {
    var b := before + U16Bytes(x) + after;
    assert b[|before|] == U16Bytes(x)[0] && b[|before| + 1] == U16Bytes(x)[1];
    Low16(x);
  }

  lemma Low16(x: nat)
    ensures x % 256 + 256 * (x / 256 % 256) == x % 0x1_0000
  {
    var a, b := x % 256, x / 256;
    var c, d := b % 256, b / 256;
    assert x == 256 * b + a && b == 256 * d + c;
    Rest(x, d, 256 * c + a);
  }

  lemma Rest(x: nat, d: nat, r: nat)
    requires x == 0x1_0000 * d + r && r < 0x1_0000
    ensures x % 0x1_0000 == r
  {
  }

  function ColumnBytes(c: Column): seq<byte> {
    U16Bytes(|c.name|) + c.name + U16Bytes(c.typeId.Code()) + U16Bytes(c.length)
  }

  /** Reads a column and the number of bytes it took, in 16 bits; nothing when the bytes are too few. */
  function ColumnOf(raw: seq<byte>): Option<(Column, nat)> {
    if |raw| < 2 then None
    else
      var n := U16At(raw, 0);
      if |raw| < 2 + n + 4 then None
      else Some((Column(raw[2..2 + n], TypeOfCode(U16At(raw, 2 + n)), U16At(raw, 2 + n + 2)), Wrap16(n + 6)))
  }

  /** A column is read back whole, whatever follows it. */
  lemma ColumnRoundTrip(c: Column, rest: seq<byte>)
    requires c.Valid()
    ensures ColumnOf(ColumnBytes(c) + rest) == Some((c, Wrap16(|ColumnBytes(c)|)))
  {
    TypeCodes(c.typeId);
    hide U16At;
    hide U16Bytes;
    hide TypeOfCode;
    hide Wrap16;
    var raw, n := ColumnBytes(c) + rest, |c.name|;
    var h, t, l := U16Bytes(n), U16Bytes(c.typeId.Code()), U16Bytes(c.length);
    assert raw == [] + h + (c.name + t + l + rest) == (h + c.name) + t + (l + rest) == (h + c.name + t) + l + rest;
    U16RoundTrip(n, [], c.name + t + l + rest);
    U16RoundTrip(c.typeId.Code(), h + c.name, l + rest);
    U16RoundTrip(c.length, h + c.name + t, rest);
    assert raw[2..2 + n] == c.name;
  }

  predicate AllValid(columns: seq<Column>) {
    forall i :: 0 <= i < |columns| ==> columns[i].Valid()
  }

  function ColumnsBytes(columns: seq<Column>): seq<byte> {
    if columns == [] then [] else ColumnBytes(columns[0]) + ColumnsBytes(columns[1..])
  }

  /** A schema as stored; the count is cut to 16 bits, and only so many columns are written. */
  function SchemaBytes(columns: seq<Column>): seq<byte> {
    U16Bytes(Wrap16(|columns|)) + ColumnsBytes(columns[..Wrap16(|columns|)])
  }

  method SerializeSchema(columns: seq<Column>) returns (out: seq<byte>)
    ensures out == SchemaBytes(columns)
  {
    var n := Wrap16(|columns|);
    out := U16Bytes(n);
    var i := 0;
    while i < n
      invariant i <= n && out + ColumnsBytes(columns[i..n]) == SchemaBytes(columns)
    {
      ghost var left := columns[i..n];
      assert left[0] == columns[i] && left[1..] == columns[i + 1..n];
      assert out + ColumnBytes(left[0]) + ColumnsBytes(left[1..]) == out + ColumnsBytes(left);
      out := out + ColumnBytes(columns[i]);
      i := i + 1;
    }
  }

  /** Reads `count` columns starting at `offset`, which advances in 16 bits. */
  function ColumnsOf(raw: seq<byte>, offset: nat, count: nat): Option<seq<Column>>
    decreases count
  {
    if count == 0 then Some([])
    else if |raw| < offset then None
    else
      var c := ColumnOf(raw[offset..]);
      if c.None? then None
      else
        var rest := ColumnsOf(raw, Wrap16(offset + c.value.1), count - 1);
        if rest.None? then None else Some([c.value.0] + rest.value)
  }

  function SchemaOf(raw: seq<byte>): Option<seq<Column>> {
    if |raw| < 2 then None else ColumnsOf(raw, 2, U16At(raw, 0))
  }

  method DeserializeSchema(raw: seq<byte>) returns (r: Option<seq<Column>>)
    ensures r == SchemaOf(raw)
  {
    if |raw| < 2 {
      return None;
    }
    var count := U16At(raw, 0);
    AfterNothing(ColumnsOf(raw, 2, count));
    var columns: seq<Column> := [];
    var offset: nat := 2;
    var i := 0;
    while i < count
      invariant i <= count
      invariant SchemaOf(raw) == After(columns, ColumnsOf(raw, offset, count - i))
    {
      if |raw| < offset {
        return None;
      }
      var c := ColumnOf(raw[offset..]);
      if c.None? {
        return None;
      }
      AfterMore(columns, c.value.0, ColumnsOf(raw, Wrap16(offset + c.value.1), count - i - 1));
      columns := columns + [c.value.0];
      offset := Wrap16(offset + c.value.1);
      i := i + 1;
    }
    assert columns + [] == columns;
    return Some(columns);
  }

  function After(columns: seq<Column>, rest: Option<seq<Column>>): Option<seq<Column>> {
    if rest.None? then None else Some(columns + rest.value)
  }

  lemma AfterNothing(rest: Option<seq<Column>>)
    ensures After([], rest) == rest
  {
    if rest.Some? {
      assert [] + rest.value == rest.value;
    }
  }

  lemma AfterMore(columns: seq<Column>, c: Column, rest: Option<seq<Column>>)
    ensures After(columns + [c], rest) == After(columns, After([c], rest))
  {
    if rest.Some? {
      assert columns + [c] + rest.value == columns + ([c] + rest.value);
    }
  }

  lemma WrapSum(a: nat, b: nat)
    ensures Wrap16(a + Wrap16(b)) == Wrap16(a + b)
  {
  }

  /** Where column `i` of the list starts, the list starting at `from`. */
  function StartOf(columns: seq<Column>, from: nat, i: nat): (r: nat)
    requires i <= |columns|
    ensures r >= from
  {
    if i == 0 then from else StartOf(columns[1..], from + |ColumnBytes(columns[0])|, i - 1)
  }

  lemma {:induction false} StartsRise(columns: seq<Column>, from: nat, i: nat, j: nat)
    requires i <= j <= |columns|
    ensures StartOf(columns, from, i) <= StartOf(columns, from, j)
    ensures j == |columns| ==> StartOf(columns, from, j) == from + |ColumnsBytes(columns)|
    decreases |columns|
  {
    if i > 0 {
      StartsRise(columns[1..], from + |ColumnBytes(columns[0])|, i - 1, j - 1);
    } else if j > 0 {
      StartsRise(columns[1..], from + |ColumnBytes(columns[0])|, 0, j - 1);
    }
  }

  /**
   * Of a list whose first column starts at `o`, the first `j` columns are read right, and the reader goes on at
   * the next start cut to 16 bits.
   */
  predicate ReadsTo(columns: seq<Column>, j: nat, raw: seq<byte>, o: nat)
    requires j <= |columns|
  {
    ColumnsOf(raw, o, |columns|) ==
    After(columns[..j], ColumnsOf(raw, Wrap16(StartOf(columns, o, j)), |columns| - j))
  }

  /** So it is when the first `j` columns start within 16 bits. */
  lemma {:induction false} ColumnsRead(columns: seq<Column>, j: nat, before: seq<byte>, rest: seq<byte>)
    requires AllValid(columns) && j <= |columns| && |before| < 0x1_0000
    requires j > 0 ==> StartOf(columns, |before|, j - 1) < 0x1_0000
    ensures ReadsTo(columns, j, before + ColumnsBytes(columns) + rest, |before|)
    decreases j
  {
    hide *;
    if j == 0 {
      NoneRead(columns, before + ColumnsBytes(columns) + rest, |before|);
    } else {
      EarlierStarts(columns, |before|, j);
      ReadOne(columns, before, rest);
      if j > 1 {
        ColumnsRead(columns[1..], j - 1, before + ColumnBytes(columns[0]), rest);
      }
      ReadsStep(columns, j, before + ColumnsBytes(columns) + rest, |before|);
    }
  }

  lemma EarlierStarts(columns: seq<Column>, from: nat, j: nat)
    requires AllValid(columns) && 0 < j <= |columns| && StartOf(columns, from, j - 1) < 0x1_0000
    ensures AllValid(columns[1..])
    ensures j > 1 ==> var after := from + |ColumnBytes(columns[0])|;
                      after < 0x1_0000 && StartOf(columns[1..], after, j - 2) < 0x1_0000
  {
    if j > 1 {
      FirstStart(columns, from, j - 1);
      StartsRise(columns[1..], from + |ColumnBytes(columns[0])|, 0, j - 2);
    }
  }

  lemma NoneRead(columns: seq<Column>, raw: seq<byte>, o: nat)
    requires o < 0x1_0000
    ensures ReadsTo(columns, 0, raw, o)
  {
    hide Wrap16;
    hide ColumnsOf;
    AfterNothing(ColumnsOf(raw, o, |columns|));
    assert columns[..0] == [];
  }

  lemma ReadsStep(columns: seq<Column>, j: nat, raw: seq<byte>, o: nat)
    requires AllValid(columns) && 0 < j <= |columns|
    requires ColumnsOf(raw, o, |columns|) ==
             After([columns[0]], ColumnsOf(raw, Wrap16(o + |ColumnBytes(columns[0])|), |columns| - 1))
    requires j > 1 ==> o + |ColumnBytes(columns[0])| < 0x1_0000
    requires j > 1 ==> ReadsTo(columns[1..], j - 1, raw, o + |ColumnBytes(columns[0])|)
    ensures ReadsTo(columns, j, raw, o)
  {
    hide ColumnsOf;
    hide ColumnBytes;
    hide Wrap16;
    FirstStart(columns, o, j);
    hide StartOf;
    var c, tail := columns[0], columns[1..];
    if j == 1 {
      assert columns[..1] == [c];
    } else {
      assert columns[..j] == [c] + tail[..j - 1];
      AfterTwice(c, tail[..j - 1], ColumnsOf(raw, Wrap16(StartOf(columns, o, j)), |columns| - j));
    }
  }

  lemma FirstStart(columns: seq<Column>, from: nat, j: nat)
    requires AllValid(columns) && 0 < j <= |columns|
    ensures AllValid(columns[1..])
    ensures StartOf(columns, from, j) == StartOf(columns[1..], from + |ColumnBytes(columns[0])|, j - 1)
    ensures j == 1 ==> StartOf(columns, from, j) == from + |ColumnBytes(columns[0])|
    ensures StartOf(columns[1..], from + |ColumnBytes(columns[0])|, 0) == from + |ColumnBytes(columns[0])|
  {
  }

  lemma ReadOne(columns: seq<Column>, before: seq<byte>, rest: seq<byte>)
    requires AllValid(columns) && columns != []
    ensures var raw, c := before + ColumnsBytes(columns) + rest, columns[0];
            && raw == before + ColumnBytes(c) + ColumnsBytes(columns[1..]) + rest
            && ColumnsOf(raw, |before|, |columns|) ==
               After([c], ColumnsOf(raw, Wrap16(|before| + |ColumnBytes(c)|), |columns| - 1))
  {
    hide ColumnBytes;
    hide ColumnOf;
    hide ColumnsOf;
    hide Wrap16;
    var c, tail := columns[0], columns[1..];
    Regroup(before, ColumnBytes(c), ColumnsBytes(tail), rest);
    ColumnRoundTrip(c, ColumnsBytes(tail) + rest);
    WrapSum(|before|, |ColumnBytes(c)|);
    OneMore(before + ColumnsBytes(columns) + rest, |before|, c, |ColumnBytes(c)|, |tail|);
  }

  lemma AfterTwice(c: Column, columns: seq<Column>, rest: Option<seq<Column>>)
    ensures After([c], After(columns, rest)) == After([c] + columns, rest)
  {
    if rest.Some? {
      assert [c] + (columns + rest.value) == [c] + columns + rest.value;
    }
  }

  lemma OneMore(raw: seq<byte>, offset: nat, c: Column, size: nat, count: nat)
    requires offset <= |raw| && ColumnOf(raw[offset..]) == Some((c, Wrap16(size)))
    ensures ColumnsOf(raw, offset, count + 1) == After([c], ColumnsOf(raw, Wrap16(offset + Wrap16(size)), count))
  {
    hide ColumnOf;
    hide Wrap16;
  }

  lemma Regroup(a: seq<byte>, b: seq<byte>, c: seq<byte>, d: seq<byte>)
    ensures a + (b + c) + d == a + b + c + d
    ensures (a + (b + c) + d)[|a|..] == b + (c + d)
  {
  }

  lemma {:induction false} ColumnsSize(columns: seq<Column>)
    ensures |ColumnsBytes(columns)| >= 6 * |columns|
  {
    if columns != [] {
      ColumnsSize(columns[1..]);
    }
  }

  lemma {:induction false} StartSize(columns: seq<Column>, from: nat, i: nat)
    requires i <= |columns|
    ensures StartOf(columns, from, i) >= from + 6 * i
    decreases i
  {
    if i > 0 {
      StartSize(columns[1..], from + |ColumnBytes(columns[0])|, i - 1);
    }
  }

  /** Whether every column starts where a 16-bit offset reaches. */
  predicate StartsFit(columns: seq<Column>) {
    columns == [] || StartOf(columns, 2, |columns| - 1) < 0x1_0000
  }

  /** Every schema is read like this: right up to column `j`, from there on at the 16-bit rest of where that starts. */
  lemma {:induction false} SchemaRead(columns: seq<Column>, j: nat, rest: seq<byte>)
    requires AllValid(columns) && |columns| < 0x1_0000 && j <= |columns|
    requires j > 0 ==> StartOf(columns, 2, j - 1) < 0x1_0000
    ensures var raw := SchemaBytes(columns) + rest;
            SchemaOf(raw) == After(columns[..j], ColumnsOf(raw, Wrap16(StartOf(columns, 2, j)), |columns| - j))
  {
    hide *;
    CountRead(columns, rest);
    ColumnsRead(columns, j, U16Bytes(|columns|), rest);
    ReadsToMeans(columns, j, SchemaBytes(columns) + rest, 2);
  }

  lemma CountRead(columns: seq<Column>, rest: seq<byte>)
    requires |columns| < 0x1_0000
    ensures SchemaBytes(columns) + rest == U16Bytes(|columns|) + ColumnsBytes(columns) + rest
    ensures |U16Bytes(|columns|)| == 2
    ensures SchemaOf(SchemaBytes(columns) + rest) == ColumnsOf(SchemaBytes(columns) + rest, 2, |columns|)
  {
    assert columns[..Wrap16(|columns|)] == columns;
    hide ColumnsBytes;
    hide ColumnsOf;
    hide U16Bytes;
    hide U16At;
    var count := U16Bytes(|columns|);
    U16RoundTrip(|columns|, [], ColumnsBytes(columns) + rest);
    assert [] + count + (ColumnsBytes(columns) + rest) == count + ColumnsBytes(columns) + rest;
  }

  lemma ReadsToMeans(columns: seq<Column>, j: nat, raw: seq<byte>, o: nat)
    requires j <= |columns| && ReadsTo(columns, j, raw, o)
    ensures ColumnsOf(raw, o, |columns|) ==
            After(columns[..j], ColumnsOf(raw, Wrap16(StartOf(columns, o, j)), |columns| - j))
  {
  }

  /** A schema is read back whole, whatever follows its bytes, as long as every column starts within 16 bits. */
  lemma {:induction false} SchemaRoundTrip(columns: seq<Column>, rest: seq<byte>)
    requires AllValid(columns) && StartsFit(columns)
    ensures SchemaOf(SchemaBytes(columns) + rest) == Some(columns)
  {
    var n := |columns|;
    if n > 0 {
      StartSize(columns, 2, n - 1);
    }
    SchemaRead(columns, n, rest);
    assert columns[..n] == columns && columns + [] == columns;
  }

  /**
   * Any other schema comes back exactly when the columns from the first start `j` beyond 16 bits on happen to be
   * what stands at the wrapped offset.
   */
  lemma {:induction false} LongSchemaExactly(columns: seq<Column>, j: nat, rest: seq<byte>)
    requires AllValid(columns) && |columns| < 0x1_0000 && 0 < j < |columns|
    requires StartOf(columns, 2, j - 1) < 0x1_0000 <= StartOf(columns, 2, j)
    ensures var raw := SchemaBytes(columns) + rest;
            && Wrap16(StartOf(columns, 2, j)) < StartOf(columns, 2, j)
            && (SchemaOf(raw) == Some(columns) <==>
                ColumnsOf(raw, Wrap16(StartOf(columns, 2, j)), |columns| - j) == Some(columns[j..]))
  {
    SchemaRead(columns, j, rest);
    assert columns == columns[..j] + columns[j..];
    hide SchemaOf;
    hide ColumnsOf;
  }

  /** An instance: the second column starts at 65536, so it is read from the start of the bytes. */
  lemma LongSchemaMisread(a: Column, b: Column)
    requires a.Valid() && b.Valid() && |a.name| == 65528 && |b.name| != 2
    ensures SchemaOf(SchemaBytes([a, b])) != Some([a, b])
  {
    hide ColumnBytes;
    hide TypeOfCode;
    var raw, rest := SchemaBytes([a, b]), ColumnsBytes([b]);
    assert [a, b][..2] == [a, b] && [a, b][1..] == [b];
    assert raw == U16Bytes(2) + (ColumnBytes(a) + rest);
    assert raw[2..] == ColumnBytes(a) + rest && raw[0..] == raw;
    ColumnRoundTrip(a, rest);
    ColumnSize(a);
    Overflown();
    assert U16At(raw, 0) == 2;
    hide U16At;
    hide ColumnsBytes;
    var second := ColumnsOf(raw, 0, 1);
    assert second.Some? ==> |second.value[0].name| == 2;
  }

  lemma ColumnSize(c: Column)
    ensures |ColumnBytes(c)| == |c.name| + 6
  {
  }

  lemma Overflown()
    ensures Wrap16(65534) == 65534 && Wrap16(2 + 65534) == 0
  {
  }
}
