/** Rows: a NULL bitmap, then one cell per column, fixed-size or with a length prefix. */
module Tuples {
  import opened Bytes
  import opened Schemas

  // ----- Values -----

  datatype ValueType = VInt64 | VUInt64 | VInt32 | VUInt32 | VDouble | VFloat | VBool | VString | VBytes

  /** Floating-point values are their bit patterns; a null value has a type and nothing else. */
  datatype Value =
    | Null(valueType: ValueType)
    | Int64(i: int) | UInt64(u: nat) | Int32(i: int) | UInt32(u: nat)
    | Double(bits: nat) | Float(bits: nat) | Bool(b: bool) | Str(s: seq<byte>) | Blob(s: seq<byte>)
  {
    predicate Valid() {
      match this
      case Int64(i) => -0x8000_0000_0000_0000 <= i < 0x8000_0000_0000_0000
      case Int32(i) => -0x8000_0000 <= i < 0x8000_0000
      case UInt64(u) => u < 0x1_0000_0000_0000_0000
      case Double(u) => u < 0x1_0000_0000_0000_0000
      case UInt32(u) => u < 0x1_0000_0000
      case Float(u) => u < 0x1_0000_0000
      case _ => true
    }

    function Type(): ValueType {
      match this
      case Null(t) => t
      case Int64(_) => VInt64
      case UInt64(_) => VUInt64
      case Int32(_) => VInt32
      case UInt32(_) => VUInt32
      case Double(_) => VDouble
      case Float(_) => VFloat
      case Bool(_) => VBool
      case Str(_) => VString
      case Blob(_) => VBytes
    }

    /** The value's own bytes; a null has none. */
    function Payload(): seq<byte> {
      match this
      case Null(_) => []
      case Int64(i) => LE(Unsigned(i, 0x1_0000_0000_0000_0000), 8)
      case Int32(i) => LE(Unsigned(i, 0x1_0000_0000), 4)
      case UInt64(u) => LE(u, 8)
      case Double(u) => LE(u, 8)
      case UInt32(u) => LE(u, 4)
      case Float(u) => LE(u, 4)
      case Bool(b) => [if b then 1 else 0]
      case Str(s) => s
      case Blob(s) => s
    }
  }

  /** The two's complement of an integer in range, as an unsigned number below `m`. */
  function Unsigned(i: int, m: nat): nat {
    if 0 <= i then i else if 0 <= i + m then i + m else 0
  }

  function Signed(u: nat, m: nat): int {
    if u < m / 2 then u else u - m
  }

  function ValueTypeOf(t: TypeId): ValueType
    requires !t.Unknown?
  {
    match t
    case BOOL => VBool
    case DOUBLE => VDouble
    case FLOAT => VFloat
    case INT64 => VInt64
    case UINT64 => VUInt64
    case INT32 => VInt32
    case UINT32 => VUInt32
    case CHAR => VString
    case VARCHAR => VString
    case VARBINARY => VBytes
  }

  predicate Known(columns: seq<Column>) {
    forall i :: 0 <= i < |columns| ==> columns[i].Valid() && !columns[i].typeId.Unknown?
  }

  /** What the tuple constructor accepts: one value of the right type per column. */
  predicate Matches(columns: seq<Column>, values: seq<Value>) {
    && Known(columns) && |values| == |columns|
    && forall i :: 0 <= i < |columns| ==> values[i].Valid() && values[i].Type() == ValueTypeOf(columns[i].typeId)
  }

  // ----- NULL bitmap -----

  function BitmapSize(n: nat): nat { (n + 7) / 8 }

  predicate Bit(b: nat, i: nat) {
    if i == 0 then b % 2 == 1 else Bit(b / 2, i - 1)
  }

  /** `b` with bit `i` set. */
  function SetBit(b: nat, i: nat): nat {
    if i == 0 then (if b % 2 == 1 then b else b + 1) else 2 * SetBit(b / 2, i - 1) + b % 2
  }

  function Pow2(n: nat): (r: nat)
    ensures r > 0
  {
    if n == 0 then 1 else 2 * Pow2(n - 1)
  }

  lemma {:induction false} SetBitRange(b: nat, i: nat, n: nat)
    requires b < Pow2(n) && i < n
    ensures SetBit(b, i) < Pow2(n)
    decreases i
  {
    var half, h := Pow2(n - 1), b / 2;
    assert Pow2(n) == 2 * half && b == 2 * h + b % 2 && h < half;
    if i > 0 {
      SetBitRange(h, i - 1, n - 1);
    }
  }

  lemma {:induction false} SetBitBits(b: nat, i: nat, j: nat)
    ensures Bit(SetBit(b, i), j) <==> j == i || Bit(b, j)
    decreases i
  {
    if i > 0 && j > 0 {
      SetBitBits(b / 2, i - 1, j - 1);
      assert SetBit(b, i) / 2 == SetBit(b / 2, i - 1);
    } else if i > 0 {
      assert SetBit(b, i) % 2 == b % 2;
    } else if j > 0 {
      assert SetBit(b, 0) / 2 == b / 2;
    }
  }

  predicate IsNull(bitmap: seq<byte>, column: nat)
    requires column / 8 < |bitmap|
  {
    Bit(bitmap[column / 8], column % 8)
  }

  function SetByte(b: byte, i: nat): byte
    requires i < 8
  {
    assert Pow2(3) == 8;
    assert Pow2(6) == 2 * (2 * (2 * Pow2(3)));
    assert Pow2(8) == 2 * (2 * Pow2(6));
    SetBitRange(b, i, 8);
    SetBit(b, i)
  }

  function SetNull(bitmap: seq<byte>, column: nat): (r: seq<byte>)
    requires column / 8 < |bitmap|
    ensures |r| == |bitmap|
  {
    bitmap[column / 8 := SetByte(bitmap[column / 8], column % 8)]
  }

  lemma SetNullBits(bitmap: seq<byte>, i: nat, j: nat)
    requires i / 8 < |bitmap| && j / 8 < |bitmap|
    ensures IsNull(SetNull(bitmap, i), j) <==> j == i || IsNull(bitmap, j)
  {
    if j / 8 == i / 8 {
      SetBitBits(bitmap[i / 8], i % 8, j % 8);
    }
  }

  /** The bitmap after the first `n` of the values. */
  function Bitmap(values: seq<Value>, n: nat): (r: seq<byte>)
    requires n <= |values|
    ensures |r| == BitmapSize(|values|)
  {
    if n == 0 then Zeros(BitmapSize(|values|))
    else if values[n - 1].Null? then SetNull(Bitmap(values, n - 1), n - 1)
    else Bitmap(values, n - 1)
  }

  lemma {:induction false} ZeroBits(i: nat)
    ensures !Bit(0, i)
  {
    if i > 0 {
      ZeroBits(i - 1);
    }
  }

  /** The bitmap tells exactly the null columns. */
  lemma {:induction false} BitmapBits(values: seq<Value>, n: nat, j: nat)
    requires n <= |values| && j < |values|
    ensures IsNull(Bitmap(values, n), j) <==> j < n && values[j].Null?
  {
    if n == 0 {
      ZeroBits(j % 8);
    } else {
      BitmapBits(values, n - 1, j);
      if values[n - 1].Null? {
        SetNullBits(Bitmap(values, n - 1), n - 1, j);
      }
    }
  }

  // ----- Writing -----

  datatype EncodeError = CharTooLong | VarcharTooLong | VarcharOverLimit

  datatype EncodeResult = Encoded(bytes: seq<byte>) | Failed(error: EncodeError)

  /** The exception column `c` raises for `v`, if any; no check is ever made for VARBINARY. */
  function CellError(c: Column, v: Value): Option<EncodeError> {
    if v.Null? then None
    else if c.typeId.CHAR? && |v.Payload()| > c.length then Some(CharTooLong)
    else if c.typeId.VARCHAR? && c.length > 0 && |v.Payload()| > c.length then Some(VarcharTooLong)
    else if c.typeId.VARCHAR? && |v.Payload()| > 0xFFFF then Some(VarcharOverLimit)
    else None
  }

  /** A fixed-size value padded with zeros, or a length in 16 bits and the value. */
  function Cell(c: Column, v: Value): seq<byte> {
    if c.IsFixedSize() then
      if |v.Payload()| < c.FixedSize() then v.Payload() + Zeros(c.FixedSize() - |v.Payload()|) else v.Payload()
    else U16Bytes(|v.Payload()|) + v.Payload()
  }

  function Cells(columns: seq<Column>, values: seq<Value>): seq<byte>
    requires |columns| == |values|
  {
    if columns == [] then [] else Cell(columns[0], values[0]) + Cells(columns[1..], values[1..])
  }

  function FirstError(columns: seq<Column>, values: seq<Value>): Option<EncodeError>
    requires |columns| == |values|
  {
    if columns == [] then None
    else if CellError(columns[0], values[0]).Some? then CellError(columns[0], values[0])
    else FirstError(columns[1..], values[1..])
  }

  function Encode(columns: seq<Column>, values: seq<Value>): EncodeResult
    requires |columns| == |values|
  {
    var error := FirstError(columns, values);
    if error.Some? then Failed(error.value) else Encoded(Bitmap(values, |values|) + Cells(columns, values))
  }

  method SetNulls(values: seq<Value>) returns (bitmap: seq<byte>)
    ensures bitmap == Bitmap(values, |values|)
  {
    bitmap := Zeros(BitmapSize(|values|));
    var i := 0;
    while i < |values|
      invariant i <= |values| && bitmap == Bitmap(values, i)
    {
      if values[i].Null? {
        bitmap := SetNull(bitmap, i);
      }
      i := i + 1;
    }
  }

  method AppendCell(before: seq<byte>, c: Column, v: Value) returns (out: seq<byte>)
    ensures out == before + Cell(c, v)
  {
    out := before;
    if c.IsFixedSize() {
      out := out + v.Payload();
      var written := |v.Payload()|;
      if written < c.FixedSize() {
        out := out + Zeros(c.FixedSize() - written);
      }
    } else {
      out := out + U16Bytes(|v.Payload()|);
      out := out + v.Payload();
    }
  }

  method Serialize(columns: seq<Column>, values: seq<Value>) returns (r: EncodeResult)
    requires Matches(columns, values)
    ensures r == Encode(columns, values)
  {
    hide Cell;
    hide CellError;
    hide Bitmap;
    var out := SetNulls(values);
    var i := 0;
    while i < |columns|
      invariant i <= |columns|
      invariant FirstError(columns[i..], values[i..]) == FirstError(columns, values)
      invariant FirstError(columns, values).None? ==>
                  out + Cells(columns[i..], values[i..]) == Bitmap(values, |values|) + Cells(columns, values)
    {
      var c, v := columns[i], values[i];
      assert columns[i..][1..] == columns[i + 1..] && values[i..][1..] == values[i + 1..];
      var error := CellError(c, v);
      if error.Some? {
        return Failed(error.value);
      }
      ghost var rest := Cells(columns[i + 1..], values[i + 1..]);
      assert out + (Cell(c, v) + rest) == out + Cell(c, v) + rest;
      out := AppendCell(out, c, v);
      i := i + 1;
    }
    return Encoded(out);
  }

  // ----- Reading -----

  /** The bytes of the cell at `o` by the reader's rule: a column of fixed size 0 is taken to have a length prefix. */
  function Width(c: Column, raw: seq<byte>, o: nat): Option<nat> {
    if c.FixedSize() > 0 then Some(c.FixedSize())
    else if o + 2 <= |raw| then Some(U16At(raw, o) + 2)
    else None
  }

  /** The start of each cell from `o` on; nothing when a cell or its length lies outside the bytes. */
  function Walk(columns: seq<Column>, raw: seq<byte>, o: nat): (r: Option<seq<nat>>)
    ensures r.Some? ==> |r.value| == |columns|
  {
    if columns == [] then Some([])
    else
      var w := Width(columns[0], raw, o);
      if w.None? || o + w.value > |raw| then None
      else
        var rest := Walk(columns[1..], raw, o + w.value);
        if rest.None? then None else Some([o] + rest.value)
  }

  /** Whether 16 bits reach the cell at `p`, for a value after its length prefix also the byte after the prefix. */
  predicate Reached(c: Column, p: nat, isNull: bool) {
    p + (if c.IsFixedSize() || isNull then 0 else 2) < 0x1_0000
  }

  predicate StartsReached(columns: seq<Column>, raw: seq<byte>, starts: seq<nat>)
    requires |starts| == |columns| && BitmapSize(|columns|) <= |raw|
  {
    forall i :: 0 <= i < |columns| ==> Reached(columns[i], starts[i], IsNull(raw, i))
  }

  /** Bytes the reader may be given: every read lies inside them, and 16 bits reach every cell. */
  predicate Readable(columns: seq<Column>, raw: seq<byte>) {
    && Known(columns) && BitmapSize(|columns|) <= |raw|
    && var starts := Walk(columns, raw, BitmapSize(|columns|));
       starts.Some? && StartsReached(columns, raw, starts.value)
  }

  function Offsets(columns: seq<Column>, raw: seq<byte>): seq<nat>
    requires Readable(columns, raw)
  {
    Walk(columns, raw, BitmapSize(|columns|)).value
  }

  /** The walk found the first `i` of `starts` and is to find the rest from `o` on. */
  predicate WalkedTo(columns: seq<Column>, raw: seq<byte>, starts: seq<nat>, i: nat, o: nat) {
    && i <= |columns| == |starts| && o <= |raw|
    && Walk(columns[i..], raw, o) == Some(starts[i..])
  }

  lemma WalkOn(columns: seq<Column>, raw: seq<byte>, starts: seq<nat>, i: nat, o: nat)
    requires WalkedTo(columns, raw, starts, i, o) && i < |columns|
    ensures starts[i] == o
    ensures Width(columns[i], raw, o).Some? && WalkedTo(columns, raw, starts, i + 1, o + Width(columns[i], raw, o).value)
  {
    hide Width;
    assert columns[i..][1..] == columns[i + 1..] && starts[i..][1..] == starts[i + 1..];
    var w := Width(columns[i], raw, o).value;
    assert starts[i..] == [o] + Walk(columns[i + 1..], raw, o + w).value;
  }

  lemma WholeWalk(columns: seq<Column>, raw: seq<byte>)
    requires Readable(columns, raw)
    ensures |Offsets(columns, raw)| == |columns|
    ensures WalkedTo(columns, raw, Offsets(columns, raw), 0, BitmapSize(|columns|))
  {
    hide Walk;
    assert columns[0..] == columns && Offsets(columns, raw)[0..] == Offsets(columns, raw);
  }

  lemma StartFits(columns: seq<Column>, raw: seq<byte>, i: nat)
    requires Readable(columns, raw) && i < |columns|
    ensures Offsets(columns, raw)[i] < 0x1_0000
  {
    hide Walk;
    hide Bit;
    assert Reached(columns[i], Offsets(columns, raw)[i], IsNull(raw, i));
  }

  method ComputeOffsets(columns: seq<Column>, raw: seq<byte>) returns (offsets: seq<nat>)
    requires Readable(columns, raw)
    ensures offsets == Offsets(columns, raw)
  {
    hide Readable;
    hide Offsets;
    hide WalkedTo;
    ghost var starts := Offsets(columns, raw);
    WholeWalk(columns, raw);
    offsets := [];
    var offset: nat := BitmapSize(|columns|);
    var i := 0;
    while i < |columns|
      invariant i <= |columns| == |starts| && offsets == starts[..i]
      invariant WalkedTo(columns, raw, starts, i, offset)
    {
      WalkOn(columns, raw, starts, i, offset);
      StartFits(columns, raw, i);
      offsets := offsets + [Wrap16(offset)];
      var fixed := columns[i].FixedSize();
      if fixed > 0 {
        offset := offset + fixed;
      } else {
        offset := offset + U16At(raw, Wrap16(offset)) + 2;
      }
      i := i + 1;
    }
  }

  /** Strings in CHAR columns lose their trailing NULs. */
  function Trimmed(s: seq<byte>): seq<byte> {
    if s != [] && s[|s| - 1] == 0 then Trimmed(s[..|s| - 1]) else s
  }

  function ValueOf(t: TypeId, b: seq<byte>): Value
    requires !t.Unknown?
    requires (t.BOOL? ==> |b| >= 1)
  {
    match t
    case INT64 => Int64(Signed(FromLE(b), 0x1_0000_0000_0000_0000))
    case INT32 => Int32(Signed(FromLE(b), 0x1_0000_0000))
    case UINT64 => UInt64(FromLE(b))
    case UINT32 => UInt32(FromLE(b))
    case DOUBLE => Double(FromLE(b))
    case FLOAT => Float(FromLE(b))
    case BOOL => Bool(b[0] != 0)
    case CHAR => Str(Trimmed(b))
    case VARCHAR => Str(b)
    case VARBINARY => Blob(b)
  }

  /** The value in the cell at `o`. */
  function ValueAt(c: Column, raw: seq<byte>, o: nat, isNull: bool): Value
    requires !c.typeId.Unknown?
    requires Width(c, raw, o).Some? && o + Width(c, raw, o).value <= |raw|
  {
    if isNull then Null(ValueTypeOf(c.typeId))
    else if c.IsFixedSize() then ValueOf(c.typeId, raw[o..o + c.FixedSize()])
    else ValueOf(c.typeId, raw[o + 2..o + 2 + U16At(raw, o)])
  }

  lemma {:induction false} WalkInside(columns: seq<Column>, raw: seq<byte>, o: nat, i: nat)
    requires Walk(columns, raw, o).Some? && i < |columns|
    ensures var p := Walk(columns, raw, o).value[i];
            o <= p && Width(columns[i], raw, p).Some? && p + Width(columns[i], raw, p).value <= |raw|
  {
    if i > 0 {
      WalkInside(columns[1..], raw, o + Width(columns[0], raw, o).value, i - 1);
    }
  }

  function DecodedAt(columns: seq<Column>, raw: seq<byte>, i: nat): Value
    requires Readable(columns, raw) && i < |columns|
  {
    WalkInside(columns, raw, BitmapSize(|columns|), i);
    ValueAt(columns[i], raw, Offsets(columns, raw)[i], IsNull(raw, i))
  }

  function Decode(columns: seq<Column>, raw: seq<byte>): (r: seq<Value>)
    requires Readable(columns, raw)
    ensures |r| == |columns| && forall i :: 0 <= i < |columns| ==> r[i] == DecodedAt(columns, raw, i)
  {
    seq(|columns|, i requires 0 <= i < |columns| => DecodedAt(columns, raw, i))
  }

  method Deserialize(columns: seq<Column>, raw: seq<byte>) returns (values: seq<Value>)
    requires Readable(columns, raw)
    ensures values == Decode(columns, raw)
  {
    var offsets := ComputeOffsets(columns, raw);
    values := [];
    var i := 0;
    while i < |columns|
      invariant i <= |columns| && values == Decode(columns, raw)[..i]
    {
      WalkInside(columns, raw, BitmapSize(|columns|), i);
      values := values + [ValueAt(columns[i], raw, offsets[i], IsNull(raw, i))];
      i := i + 1;
    }
  }
}
