/** The raw block format: a columnar byte layout read cell by cell. */
module RawBlock {
  type Byte = b: int | 0 <= b < 256

  datatype Option<T> = None | Some(value: T)

  // ---------------------------------------------------------------- numbers in bytes

  /** The number that bytes hold, least significant first. */
  function Unsigned(s: seq<Byte>): nat {
    if s == [] then 0 else s[0] + 256 * Unsigned(s[1..])
  }

  function Pow256(n: nat): (p: nat)
    ensures p > 0
  {
    if n == 0 then 1 else 256 * Pow256(n - 1)
  }

  lemma {:induction false} UnsignedBound(s: seq<Byte>)
    ensures Unsigned(s) < Pow256(|s|)
  {
    if s != [] {
      UnsignedBound(s[1..]);
    }
  }

  /** Two's complement. */
  function Signed(s: seq<Byte>): int {
    var u := Unsigned(s);
    if 2 * u >= Pow256(|s|) then u - Pow256(|s|) else u
  }

  /** The n low bytes of x. */
  function LowBytes(x: nat, n: nat): (s: seq<Byte>)
    ensures |s| == n
  {
    if n == 0 then [] else [x % 256] + LowBytes(x / 256, n - 1)
  }

  lemma {:induction false} LowBytesInverse(x: nat, n: nat)
    requires x < Pow256(n)
    ensures Unsigned(LowBytes(x, n)) == x
  {
    if n > 0 {
      LowBytesInverse(x / 256, n - 1);
      assert LowBytes(x, n)[1..] == LowBytes(x / 256, n - 1);
    }
  }

  /** A signed number in n bytes. */
  function SignedBytes(x: int, n: nat): (s: seq<Byte>)
    requires 0 <= 2 * x + Pow256(n) && 2 * x < Pow256(n)
    ensures |s| == n
  {
    LowBytes(if x < 0 then x + Pow256(n) else x, n)
  }

  lemma SignedInverse(x: int, n: nat)
    requires 0 <= 2 * x + Pow256(n) && 2 * x < Pow256(n)
    ensures Signed(SignedBytes(x, n)) == x
  {
    LowBytesInverse(if x < 0 then x + Pow256(n) else x, n);
  }

  // ---------------------------------------------------------------- types and cells

  datatype FieldType =
    | Bool | TinyInt | SmallInt | Int | BigInt | Float | Double | Varchar | Timestamp | Nchar
    | UTinyInt | USmallInt | UInt | UBigInt | Json | Varbinary | Geometry

  /** The type codes of taos.h; only that they differ matters here. */
  function TypeOf(code: Byte): Option<FieldType> {
    match code
    case 1 => Some(Bool)
    case 2 => Some(TinyInt)
    case 3 => Some(SmallInt)
    case 4 => Some(Int)
    case 5 => Some(BigInt)
    case 6 => Some(Float)
    case 7 => Some(Double)
    case 8 => Some(Varchar)
    case 9 => Some(Timestamp)
    case 10 => Some(Nchar)
    case 11 => Some(UTinyInt)
    case 12 => Some(USmallInt)
    case 13 => Some(UInt)
    case 14 => Some(UBigInt)
    case 15 => Some(Json)
    case 16 => Some(Varbinary)
    case 20 => Some(Geometry)
    case _ => None
  }

  /** _helper_raw_field_is_fixed: the width of a fixed-size type, 0 for a variable-length one. */
  function Width(t: FieldType): nat {
    match t
    case Bool => 1
    case TinyInt => 1
    case UTinyInt => 1
    case SmallInt => 2
    case USmallInt => 2
    case Int => 4
    case UInt => 4
    case Float => 4
    case BigInt => 8
    case UBigInt => 8
    case Timestamp => 8
    case Double => 8
    case _ => 0
  }

  /** What a caller gets (tsdb_data_t).  Floating point numbers are kept as their bytes. */
  datatype Datum =
    | Null(t: FieldType)
    | Truth(b: bool)
    | Number(t: FieldType, i: int)
    | Bits(t: FieldType, raw: seq<Byte>)
    | Time(i: int, precision: int)
    | Text(t: FieldType, s: seq<Byte>, encoder: Option<string>)
    | Blob(t: FieldType, s: seq<Byte>)

  predicate SignedType(t: FieldType) {
    t == TinyInt || t == SmallInt || t == Int || t == BigInt
  }

  /** strnlen: the bytes before the first NUL. */
  function UpToNul(s: seq<Byte>): (r: seq<Byte>)
    ensures |r| <= |s| && r == s[..|r|]
  {
    if s == [] || s[0] == 0 then [] else [s[0]] + UpToNul(s[1..])
  }

  /** _helper_get_tsdb_col on the bytes of a cell that is not null. */
  function Decode(t: FieldType, s: seq<Byte>, precision: int): Datum
    requires Width(t) > 0 ==> |s| == Width(t)
  {
    match t
    case Bool => Truth(s[0] != 0)
    case Float => Bits(t, s)
    case Double => Bits(t, s)
    case Timestamp => Time(Signed(s), precision)
    case Nchar => Text(t, s, Some("UTF-32LE"))
    case Json => Text(t, s, None)
    case Varchar => Text(t, UpToNul(s), None)
    case Varbinary => Blob(t, s)
    case Geometry => Blob(t, s)
    case _ => Number(t, if SignedType(t) then Signed(s) else Unsigned(s))
  }

  predicate NulFree(s: seq<Byte>) {
    forall i :: 0 <= i < |s| ==> s[i] != 0
  }

  lemma {:induction false} UpToNulWhole(s: seq<Byte>)
    ensures UpToNul(s) == s <==> NulFree(s)
  {
    if s != [] {
      UpToNulWhole(s[1..]);
      assert NulFree(s) <==> s[0] != 0 && NulFree(s[1..]) by {
        assert forall i :: 1 <= i < |s| ==> s[i] == s[1..][i - 1];
        assert forall i :: 0 <= i < |s[1..]| ==> s[1..][i] == s[i + 1];
      }
      assert s == [s[0]] + s[1..];
      if s[0] != 0 {
        assert UpToNul(s)[1..] == UpToNul(s[1..]);
      }
    }
  }

  predicate InSigned(x: int, n: nat) {
    0 <= 2 * x + Pow256(n) && 2 * x < Pow256(n)
  }

  /** Bytes s are one way to store the value d, not null, in a column of type t. */
  predicate Stores(t: FieldType, s: seq<Byte>, d: Datum, precision: int) {
    match d
    case Null(_) => false
    case Truth(b) => t == Bool && |s| == 1 && (b <==> s[0] != 0)
    case Number(u, i) =>
      && u == t && t in {TinyInt, SmallInt, Int, BigInt, UTinyInt, USmallInt, UInt, UBigInt}
      && if SignedType(t) then InSigned(i, Width(t)) && s == SignedBytes(i, Width(t))
         else 0 <= i < Pow256(Width(t)) && s == LowBytes(i, Width(t))
    case Bits(u, raw) => u == t && (t == Float || t == Double) && s == raw && |s| == Width(t)
    case Time(i, p) => t == Timestamp && p == precision && InSigned(i, 8) && s == SignedBytes(i, 8)
    case Text(u, text, encoder) =>
      && u == t && s == text && (t == Varchar ==> NulFree(s))
      && ((t == Nchar && encoder == Some("UTF-32LE")) || ((t == Varchar || t == Json) && encoder == None))
    case Blob(u, bytes) => u == t && (t == Varbinary || t == Geometry) && s == bytes
  }

  /** Reading gives back the stored value. */
  lemma DecodeStored(t: FieldType, s: seq<Byte>, d: Datum, precision: int)
    requires Stores(t, s, d, precision)
    ensures (Width(t) > 0 ==> |s| == Width(t)) && Decode(t, s, precision) == d
  {
    hide SignedBytes, LowBytes, Signed, Unsigned, Pow256, UpToNul, NulFree, InSigned;
    match d
    case Number(_, i) => NumberDecodes(t, s, i, precision);
    case Time(i, _) => TimeDecodes(t, s, i, precision);
    case Text(_, _, _) => UpToNulWhole(s);
    case _ =>
  }

  lemma NumberDecodes(t: FieldType, s: seq<Byte>, i: int, precision: int)
    requires Stores(t, s, Number(t, i), precision)
    ensures |s| == Width(t) > 0 && Decode(t, s, precision) == Number(t, i)
  {
    hide SignedBytes, LowBytes, Signed, Unsigned, Pow256;
    if SignedType(t) {
      SignedInverse(i, Width(t));
    } else {
      LowBytesInverse(i, Width(t));
    }
  }

  lemma TimeDecodes(t: FieldType, s: seq<Byte>, i: int, precision: int)
    requires Stores(t, s, Time(i, precision), precision)
    ensures |s| == Width(t) > 0 && Decode(t, s, precision) == Time(i, precision)
  {
    hide SignedBytes, Signed, Pow256;
    SignedInverse(i, 8);
  }

  // ---------------------------------------------------------------- the layout of a table

  /** 1 << (7 - k): the most significant bit comes first. */
  function Weight(k: nat): (w: nat)
    requires k < 8
    ensures w > 0
  {
    if k == 0 then 128 else if k == 1 then 64 else if k == 2 then 32 else if k == 3 then 16
    else if k == 4 then 8 else if k == 5 then 4 else if k == 6 then 2 else 1
  }

  function Flag(flags: seq<bool>, k: nat): (f: nat)
    ensures f <= 1
  {
    if k < |flags| && flags[k] then 1 else 0
  }

  /** Up to eight flags in a byte; the unused low bits are zero. */
  function FlagByte(flags: seq<bool>): Byte {
    128 * Flag(flags, 0) + 64 * Flag(flags, 1) + 32 * Flag(flags, 2) + 16 * Flag(flags, 3)
    + 8 * Flag(flags, 4) + 4 * Flag(flags, 5) + 2 * Flag(flags, 6) + Flag(flags, 7)
  }

  lemma FlagByteBit(flags: seq<bool>, k: nat)
    requires k < 8
    ensures FlagByte(flags) / Weight(k) % 2 == Flag(flags, k)
  {
    BitOf(Flag(flags, 0), Flag(flags, 1), Flag(flags, 2), Flag(flags, 3), Flag(flags, 4), Flag(flags, 5),
      Flag(flags, 6), Flag(flags, 7), k);
  }

  lemma BitOf(f0: nat, f1: nat, f2: nat, f3: nat, f4: nat, f5: nat, f6: nat, f7: nat, k: nat)
    requires k < 8 && f0 <= 1 && f1 <= 1 && f2 <= 1 && f3 <= 1 && f4 <= 1 && f5 <= 1 && f6 <= 1 && f7 <= 1
    ensures (128 * f0 + 64 * f1 + 32 * f2 + 16 * f3 + 8 * f4 + 4 * f5 + 2 * f6 + f7) / Weight(k) % 2
      == [f0, f1, f2, f3, f4, f5, f6, f7][k]
  {
    var high, low := 8 * f0 + 4 * f1 + 2 * f2 + f3, 8 * f4 + 4 * f5 + 2 * f6 + f7;
    if k < 4 {
      NibbleBit(f0, f1, f2, f3, k);
      HighNibble(high, low, k);
    } else {
      NibbleBit(f4, f5, f6, f7, k - 4);
      LowNibble(high, low, k);
    }
  }

  lemma NibbleBit(f0: nat, f1: nat, f2: nat, f3: nat, k: nat)
    requires k < 4 && f0 <= 1 && f1 <= 1 && f2 <= 1 && f3 <= 1
    ensures (8 * f0 + 4 * f1 + 2 * f2 + f3) / Weight(k + 4) % 2 == [f0, f1, f2, f3][k]
  {
  }

  lemma HighNibble(high: nat, low: nat, k: nat)
    requires low < 16 && k < 4
    ensures (16 * high + low) / Weight(k) == high / Weight(k + 4)
  {
  }

  lemma LowNibble(high: nat, low: nat, k: nat)
    requires low < 16 && 4 <= k < 8
    ensures (16 * high + low) / Weight(k) % 2 == low / Weight(k) % 2
  {
    var q := if k == 4 then high else if k == 5 then 2 * high else if k == 6 then 4 * high else 8 * high;
    Shifted(2 * q, low, Weight(k));
    EvenMore(q, low / Weight(k));
  }

  lemma Shifted(q: nat, low: nat, w: nat)
    requires w == 1 || w == 2 || w == 4 || w == 8
    ensures (w * q + low) / w == q + low / w
  {
  }

  lemma EvenMore(q: nat, x: nat)
    ensures (2 * q + x) % 2 == x % 2
  {
  }

  /** The null bitmap of a fixed-size column, eight rows a byte. */
  function Bitmap(flags: seq<bool>): (bm: seq<Byte>)
    ensures |bm| == (|flags| + 7) / 8
    decreases |flags|
  {
    if flags == [] then []
    else if |flags| <= 8 then [FlagByte(flags)]
    else [FlagByte(flags[..8])] + Bitmap(flags[8..])
  }

  /** The macro _helper_raw_col_data_is_null. */
  predicate IsNull(bm: seq<Byte>, r: nat)
    requires r / 8 < |bm|
  {
    bm[r / 8] / Weight(r % 8) % 2 == 1
  }

  lemma {:induction false} BitmapReads(flags: seq<bool>, r: nat)
    requires r < |flags|
    ensures IsNull(Bitmap(flags), r) <==> flags[r]
    decreases |flags|
  {
    if |flags| <= 8 {
      FlagByteBit(flags, r);
    } else if r < 8 {
      FlagByteBit(flags[..8], r);
    } else {
      BitmapReads(flags[8..], r - 8);
      assert r / 8 == (r - 8) / 8 + 1 && r % 8 == (r - 8) % 8;
    }
  }

  function Flat(ss: seq<seq<Byte>>): seq<Byte> {
    if ss == [] then [] else Flat(ss[..|ss| - 1]) + ss[|ss| - 1]
  }

  lemma {:induction false} FlatAt(ss: seq<seq<Byte>>, i: nat)
    requires i < |ss|
    ensures |Flat(ss[..i])| + |ss[i]| == |Flat(ss[..i + 1])| <= |Flat(ss)|
    ensures Flat(ss)[|Flat(ss[..i])|..|Flat(ss[..i + 1])|] == ss[i]
  {
    var front := ss[..|ss| - 1];
    if i == |ss| - 1 {
      assert ss[..i + 1] == ss;
    } else {
      FlatAt(front, i);
      assert front[..i] == ss[..i] && front[..i + 1] == ss[..i + 1];
    }
    assert ss[..i + 1][..i] == ss[..i];
  }

  lemma {:induction false} FlatEven(ss: seq<seq<Byte>>, k: nat)
    requires forall i :: 0 <= i < |ss| ==> |ss[i]| == k
    ensures |Flat(ss)| == k * |ss|
  {
    if ss != [] {
      FlatEven(ss[..|ss| - 1], k);
      assert k * |ss| == k * (|ss| - 1) + k;
    }
  }

  /** The i-th of equally long pieces. */
  lemma FlatEvenAt(ss: seq<seq<Byte>>, k: nat, i: nat)
    requires (forall j :: 0 <= j < |ss| ==> |ss[j]| == k) && i < |ss|
    ensures k * i + k <= |Flat(ss)| && Flat(ss)[k * i..k * i + k] == ss[i]
  {
    FlatAt(ss, i);
    FlatEven(ss[..i], k);
  }

  /** One column as laid out: the cells, and what the writer chose: the type code, the declared
      width, the offset of each cell (variable-length types), the payload bytes. */
  datatype Column = Column(code: Byte, declared: seq<Byte>, cells: seq<Datum>, offsets: seq<nat>, payload: seq<Byte>)

  function NullFlags(cells: seq<Datum>): seq<bool> {
    seq(|cells|, i requires 0 <= i < |cells| => cells[i].Null?)
  }

  function OffsetBytes(offsets: seq<nat>): seq<seq<Byte>> {
    seq(|offsets|, i requires 0 <= i < |offsets| => LowBytes(offsets[i], 4))
  }

  /** Head and payload of a column. */
  function ColumnBytes(c: Column): seq<Byte>
    requires TypeOf(c.code).Some?
  {
    (if Width(TypeOf(c.code).value) > 0 then Bitmap(NullFlags(c.cells)) else Flat(OffsetBytes(c.offsets))) + c.payload
  }

  const NO_OFFSET := 0xFFFF_FFFF

  /** Row r of the payload of a fixed-size column. */
  predicate FixedCell(t: FieldType, payload: seq<Byte>, r: nat, d: Datum, precision: int)
    requires Width(t) > 0
  {
    if d.Null? then d.t == t
    else Width(t) * r + Width(t) <= |payload| && Stores(t, payload[Width(t) * r..Width(t) * r + Width(t)], d, precision)
  }

  /** A cell of a variable-length column: a 16-bit length and the bytes, anywhere in the payload. */
  predicate VarCell(t: FieldType, payload: seq<Byte>, offset: nat, d: Datum, precision: int) {
    if offset == NO_OFFSET then d == Null(t)
    else
      && offset < NO_OFFSET && offset + 2 <= |payload|
      && var n := Unsigned(payload[offset..offset + 2]);
      offset + 2 + n <= |payload| && Stores(t, payload[offset + 2..offset + 2 + n], d, precision)
  }

  predicate Placed(c: Column, rows: nat, precision: int) {
    && TypeOf(c.code).Some? && |c.declared| == 4 && |c.cells| == rows && |c.payload| < 0x8000_0000
    && var t := TypeOf(c.code).value;
    if Width(t) > 0 then forall r: nat :: r < rows ==> FixedCell(t, c.payload, r, c.cells[r], precision)
    else |c.offsets| == rows && forall r: nat :: r < rows ==> VarCell(t, c.payload, c.offsets[r], c.cells[r], precision)
  }

  /** The bitmap's length is computed as an int, which holds rows + 7. */
  predicate AllPlaced(cols: seq<Column>, rows: nat, precision: int) {
    0 < |cols| < 0x8000_0000 && rows <= 0x7FFF_FFF8 && forall i :: 0 <= i < |cols| ==> Placed(cols[i], rows, precision)
  }

  function Descriptors(cols: seq<Column>): seq<seq<Byte>> {
    seq(|cols|, i requires 0 <= i < |cols| => [cols[i].code] + cols[i].declared)
  }

  function Sizes(cols: seq<Column>): seq<seq<Byte>> {
    seq(|cols|, i requires 0 <= i < |cols| => LowBytes(|cols[i].payload|, 4))
  }

  function Data(cols: seq<Column>): seq<seq<Byte>>
    requires forall i :: 0 <= i < |cols| ==> TypeOf(cols[i].code).Some?
  {
    seq(|cols|, i requires 0 <= i < |cols| => ColumnBytes(cols[i]))
  }

  /** The header: version, block size, rows, columns, and three fields nobody reads. */
  function HeaderBytes(version: nat, size: seq<Byte>, rows: nat, cols: nat, unknowns: seq<Byte>): (h: seq<Byte>)
    requires |size| == 4 && |unknowns| == 12
    ensures |h| == 28
  {
    LowBytes(version, 4) + size + LowBytes(rows, 4) + LowBytes(cols, 4) + unknowns
  }

  /** The whole block. */
  function BlockBytes(header: seq<Byte>, cols: seq<Column>): seq<Byte>
    requires forall i :: 0 <= i < |cols| ==> TypeOf(cols[i].code).Some?
  {
    header + Flat(Descriptors(cols)) + Flat(Sizes(cols)) + Flat(Data(cols))
  }

  // ---------------------------------------------------------------- reading

  datatype Refusal =
    | NoFields | RowOutOfRange | NoBlock | BadVersion | BadCols | BadRows | RowsMismatch | ColOutOfRange
    | Unsupported(col: int)

  /** Refused: an error message and -1.  Stray: a read outside the block, undefined in C. */
  datatype Outcome<T> = Got(value: T) | Refused(why: Refusal) | Stray {
    predicate IsFailure() {
      !Got?
    }

    function PropagateFailure<U>(): Outcome<U>
      requires IsFailure()
    {
      if Stray? then Stray else Refused(why)
    }

    function Extract(): T
      requires !IsFailure()
    {
      value
    }
  }

  function Load(b: seq<Byte>, p: int, n: nat): (r: Outcome<seq<Byte>>)
    ensures r.Got? ==> |r.value| == n
  {
    if 0 <= p && p + n <= |b| then Got(b[p..p + n]) else Stray
  }

  function Int32(b: seq<Byte>, p: int): Outcome<int> {
    var s :- Load(b, p, 4);
    Got(Signed(s))
  }

  /** _helper_raw_block_init: the number of columns. */
  function Init(block: Option<seq<Byte>>, nrRows: int): Outcome<int> {
    if block.None? then Refused(NoBlock)
    else
      var b := block.value;
      var magic :- Int32(b, 0);
      if magic != 1 && magic != 2 then Refused(BadVersion)
      else
        var cols :- Int32(b, 12);
        if cols <= 0 then Refused(BadCols)
        else
          var rows :- Int32(b, 8);
          if rows < 0 then Refused(BadRows)
          else if rows != nrRows then Refused(RowsMismatch)
          else Got(cols)
  }

  /** The type of column i, from its five-byte descriptor. */
  function ColType(b: seq<Byte>, i: int): Outcome<FieldType> {
    var s :- Load(b, 28 + 5 * i, 1);
    match TypeOf(s[0])
    case Some(t) => Got(t)
    case None => Refused(Unsupported(i))
  }

  /** Bytes of the null bitmap or of the offset table. */
  function Head(t: FieldType, rows: nat): nat {
    if Width(t) > 0 then (rows + 7) / 8 else 4 * rows
  }

  /** Where column i starts: after the heads and payloads of the columns before it. */
  function ColStart(b: seq<Byte>, cols: nat, rows: nat, i: nat): Outcome<int> {
    if i == 0 then Got(28 + 9 * cols)
    else
      var p :- ColStart(b, cols, rows, i - 1);
      var t :- ColType(b, i - 1);
      var size :- Int32(b, 28 + 5 * cols + 4 * (i - 1));
      Got(p + Head(t, rows) + size)
  }

  /** The cell of row r in a column of type t that starts at p. */
  function CellAt(b: seq<Byte>, p: int, t: FieldType, rows: nat, r: nat, precision: int): Outcome<Datum>
    requires r < rows
  {
    var w := Width(t);
    if w > 0 then
      var bm :- Load(b, p + r / 8, 1);
      if bm[0] / Weight(r % 8) % 2 == 1 then Got(Null(t))
      else
        var s :- Load(b, p + Head(t, rows) + w * r, w);
        Got(Decode(t, s, precision))
    else
      var o :- Load(b, p + 4 * r, 4);
      if Unsigned(o) == NO_OFFSET then Got(Null(t))
      else
        var at := p + Head(t, rows) + Unsigned(o);
        var n :- Load(b, at, 2);
        var s :- Load(b, at + 2, Unsigned(n));
        Got(Decode(t, s, precision))
  }

  /** helper_get_tsdb_from_raw_block. */
  function Read(
    block: Option<seq<Byte>>, nrRows: int, fields: bool, precision: int, row: int, col: int): Outcome<Datum>
  {
    if !fields then Refused(NoFields)
    else if row < 0 || row >= nrRows then Refused(RowOutOfRange)
    else
      var cols :- Init(block, nrRows);
      if col < 0 || col >= cols then Refused(ColOutOfRange)
      else
        var p :- ColStart(block.value, cols, nrRows, col);
        var t :- ColType(block.value, col);
        CellAt(block.value, p, t, nrRows, row, precision)
  }

  lemma NoStep(b: seq<Byte>, cols: nat, rows: nat)
    ensures ColStart(b, cols, rows, 0) == Got(28 + 9 * cols)
  {
  }

  lemma StartStep(b: seq<Byte>, cols: nat, rows: nat, i: nat, p: int, t: FieldType, size: int)
    requires i > 0 && ColStart(b, cols, rows, i - 1) == Got(p) && ColType(b, i - 1) == Got(t)
    requires Int32(b, 28 + 5 * cols + 4 * (i - 1)) == Got(size)
    ensures ColStart(b, cols, rows, i) == Got(p + Head(t, rows) + size)
  {
  }

  lemma StepFails(b: seq<Byte>, cols: nat, rows: nat, i: nat)
    requires i > 0 && ColStart(b, cols, rows, i - 1).Got?
    requires !ColType(b, i - 1).Got? || !Int32(b, 28 + 5 * cols + 4 * (i - 1)).Got?
    ensures ColStart(b, cols, rows, i) == if ColType(b, i - 1).Got? then Stray else ColType(b, i - 1).PropagateFailure()
  {
  }

  /** _helper_raw_block_get_col_ptr: walks over the columns before col. */
  method GetColPtr(b: seq<Byte>, cols: int, nrRows: nat, col: int) returns (r: Outcome<(int, FieldType)>)
    ensures col < 0 || col >= cols ==> r == Refused(ColOutOfRange)
    ensures 0 <= col < cols ==>
      match ColStart(b, cols, nrRows, col)
      case Got(p) =>
        r == (match ColType(b, col) case Got(t) => Got((p, t)) case Refused(w) => Refused(w) case Stray => Stray)
      case Refused(w) => r == Refused(w)
      case Stray => r == Stray
  {
    hide ColStart, ColType, Int32, Head;
    if col < 0 || col >= cols { return Refused(ColOutOfRange); }
    var p := 28 + 9 * cols;
    var i := 0;
    NoStep(b, cols, nrRows);
    while i < col
      invariant 0 <= i <= col && ColStart(b, cols, nrRows, i) == Got(p)
    {
      var t := ColType(b, i);
      var size := Int32(b, 28 + 5 * cols + 4 * i);
      if !t.Got? || !size.Got? {
        StepFails(b, cols, nrRows, i + 1);
        StartFails(b, cols, nrRows, i + 1, col);
        return if t.Got? then Stray else t.PropagateFailure();
      }
      StartStep(b, cols, nrRows, i + 1, p, t.value, size.value);
      p, i := p + Head(t.value, nrRows) + size.value, i + 1;
    }
    var t := ColType(b, col);
    return if t.Got? then Got((p, t.value)) else t.PropagateFailure();
  }

  lemma {:induction false} StartFails(b: seq<Byte>, cols: nat, rows: nat, i: nat, j: nat)
    requires i <= j && !ColStart(b, cols, rows, i).Got?
    ensures ColStart(b, cols, rows, j) == ColStart(b, cols, rows, i)
    decreases j - i
  {
    if i < j {
      StartFails(b, cols, rows, i, j - 1);
    }
  }

  method GetTsdb(block: Option<seq<Byte>>, nrRows: int, fields: bool, precision: int, row: int, col: int)
    returns (r: Outcome<Datum>)
    ensures r == Read(block, nrRows, fields, precision, row, col)
  {
    if !fields { return Refused(NoFields); }
    if row < 0 || row >= nrRows { return Refused(RowOutOfRange); }
    var cols := Init(block, nrRows);
    if !cols.Got? { return cols.PropagateFailure(); }
    var place := GetColPtr(block.value, cols.value, nrRows, col);
    if !place.Got? { return place.PropagateFailure(); }
    return CellAt(block.value, place.value.0, place.value.1, nrRows, row, precision);
  }

  // ---------------------------------------------------------------- a laid-out block reads back

  lemma MiddleSlice(a: seq<Byte>, x: seq<Byte>, c: seq<Byte>, k: nat, n: nat)
    requires k + n <= |x|
    ensures (a + x + c)[|a| + k..|a| + k + n] == x[k..k + n]
  {
  }

  predicate Supported(cols: seq<Column>) {
    forall i :: 0 <= i < |cols| ==> TypeOf(cols[i].code).Some? && |cols[i].declared| == 4
  }

  /** Where column i of a laid-out block starts. */
  function StartOf(cols: seq<Column>, i: nat): nat
    requires i <= |cols| && Supported(cols)
  {
    28 + 9 * |cols| + |Flat(Data(cols)[..i])|
  }

  lemma TableSizes(cols: seq<Column>)
    requires Supported(cols)
    ensures |Flat(Descriptors(cols))| == 5 * |cols| && |Flat(Sizes(cols))| == 4 * |cols|
  {
    FlatEven(Descriptors(cols), 5);
    FlatEven(Sizes(cols), 4);
  }

  lemma DescriptorAt(header: seq<Byte>, cols: seq<Column>, i: nat)
    requires |header| == 28 && Supported(cols) && i < |cols|
    ensures ColType(BlockBytes(header, cols), i) == Got(TypeOf(cols[i].code).value)
  {
    hide Flat, Data, Sizes;
    var d := Flat(Descriptors(cols));
    var rest := Flat(Sizes(cols)) + Flat(Data(cols));
    FlatEvenAt(Descriptors(cols), 5, i);
    assert d[5 * i..5 * i + 5] == [cols[i].code] + cols[i].declared;
    assert d[5 * i..5 * i + 1] == d[5 * i..5 * i + 5][..1];
    assert BlockBytes(header, cols) == header + d + rest;
    MiddleSlice(header, d, rest, 5 * i, 1);
  }

  lemma SizeAt(header: seq<Byte>, cols: seq<Column>, i: nat)
    requires |header| == 28 && Supported(cols) && i < |cols| && |cols[i].payload| < 0x8000_0000
    ensures Int32(BlockBytes(header, cols), 28 + 5 * |cols| + 4 * i) == Got(|cols[i].payload|)
  {
    hide Flat, Data, Descriptors, Signed;
    TableSizes(cols);
    var front, s, rest := header + Flat(Descriptors(cols)), Flat(Sizes(cols)), Flat(Data(cols));
    FlatEvenAt(Sizes(cols), 4, i);
    assert BlockBytes(header, cols) == front + s + rest;
    MiddleSlice(front, s, rest, 4 * i, 4);
    SizeReads(|cols[i].payload|);
  }

  lemma SizeReads(n: nat)
    requires n < 0x8000_0000
    ensures Signed(LowBytes(n, 4)) == n
  {
    assert Pow256(4) == 0x1_0000_0000;
    SignedInverse(n, 4);
  }

  lemma ColumnAt(header: seq<Byte>, cols: seq<Column>, i: nat)
    requires |header| == 28 && Supported(cols) && i < |cols|
    ensures StartOf(cols, i) + |ColumnBytes(cols[i])| == StartOf(cols, i + 1) <= |BlockBytes(header, cols)|
    ensures BlockBytes(header, cols)[StartOf(cols, i)..StartOf(cols, i + 1)] == ColumnBytes(cols[i])
  {
    hide Flat, Descriptors, Sizes, ColumnBytes;
    TableSizes(cols);
    var front, d := header + Flat(Descriptors(cols)) + Flat(Sizes(cols)), Flat(Data(cols));
    FlatAt(Data(cols), i);
    assert BlockBytes(header, cols) == front + d + [];
    MiddleSlice(front, d, [], |Flat(Data(cols)[..i])|, |Data(cols)[i]|);
  }

  lemma HeadLength(c: Column, rows: nat, precision: int)
    requires Placed(c, rows, precision)
    ensures |ColumnBytes(c)| == Head(TypeOf(c.code).value, rows) + |c.payload|
  {
    if Width(TypeOf(c.code).value) == 0 {
      FlatEven(OffsetBytes(c.offsets), 4);
    }
  }

  /** The walk finds every column of a laid-out block where it starts. */
  lemma {:induction false} WalkFinds(header: seq<Byte>, cols: seq<Column>, rows: nat, precision: int, i: nat)
    requires |header| == 28 && AllPlaced(cols, rows, precision) && i < |cols|
    ensures Supported(cols) && ColStart(BlockBytes(header, cols), |cols|, rows, i) == Got(StartOf(cols, i))
  {
    hide BlockBytes, Data, Flat, ColumnBytes, TypeOf, Head, ColStart, ColType, Int32, Placed, StartOf;
    AllSupported(cols, rows, precision);
    if i == 0 {
      NothingBefore(cols);
      NoStep(BlockBytes(header, cols), |cols|, rows);
    } else {
      WalkFinds(header, cols, rows, precision, i - 1);
      assert Placed(cols[i - 1], rows, precision);
      DescriptorAt(header, cols, i - 1);
      SizeAt(header, cols, i - 1);
      HeadLength(cols[i - 1], rows, precision);
      ColumnAt(header, cols, i - 1);
      StartStep(BlockBytes(header, cols), |cols|, rows, i, StartOf(cols, i - 1), TypeOf(cols[i - 1].code).value,
        |cols[i - 1].payload|);
    }
  }

  lemma AllSupported(cols: seq<Column>, rows: nat, precision: int)
    requires AllPlaced(cols, rows, precision)
    ensures Supported(cols)
    ensures forall i :: 0 <= i < |cols| ==> |cols[i].payload| < 0x8000_0000
  {
  }

  lemma NothingBefore(cols: seq<Column>)
    requires Supported(cols)
    ensures StartOf(cols, 0) == 28 + 9 * |cols|
  {
  }

  /** The byte ranges of two columns never overlap; together they fill the block's data. */
  lemma {:induction false} ExtentsDisjoint(header: seq<Byte>, cols: seq<Column>, rows: nat, precision: int,
    i: nat, j: nat)
    requires |header| == 28 && AllPlaced(cols, rows, precision) && i < j < |cols|
    ensures var b := BlockBytes(header, cols);
      var pi, pj := ColStart(b, |cols|, rows, i), ColStart(b, |cols|, rows, j);
      && pi.Got? && pj.Got?
      && 28 + 9 * |cols| <= pi.value
      && pi.value + Head(TypeOf(cols[i].code).value, rows) + |cols[i].payload| <= pj.value
      && pj.value + Head(TypeOf(cols[j].code).value, rows) + |cols[j].payload| <= |b|
      && (j == i + 1 ==> pi.value + Head(TypeOf(cols[i].code).value, rows) + |cols[i].payload| == pj.value)
      && (j == |cols| - 1 ==> pj.value + Head(TypeOf(cols[j].code).value, rows) + |cols[j].payload| == |b|)
    decreases j
  {
    hide BlockBytes, Data, Flat, ColumnBytes, TypeOf, Head, ColStart;
    WalkFinds(header, cols, rows, precision, i);
    WalkFinds(header, cols, rows, precision, j);
    HeadLength(cols[i], rows, precision);
    HeadLength(cols[j], rows, precision);
    ColumnAt(header, cols, i);
    ColumnAt(header, cols, j);
    if j > i + 1 {
      ExtentsDisjoint(header, cols, rows, precision, i, j - 1);
      WalkFinds(header, cols, rows, precision, j - 1);
      HeadLength(cols[j - 1], rows, precision);
      ColumnAt(header, cols, j - 1);
    }
    if j == |cols| - 1 {
      LastEnds(header, cols);
    }
  }

  lemma LastEnds(header: seq<Byte>, cols: seq<Column>)
    requires |header| == 28 && Supported(cols)
    ensures StartOf(cols, |cols|) == |BlockBytes(header, cols)|
  {
    TableSizes(cols);
    assert Data(cols)[..|cols|] == Data(cols);
  }

  lemma LoadIn(b: seq<Byte>, p: nat, x: seq<Byte>, k: nat, n: nat)
    requires p + |x| <= |b| && b[p..p + |x|] == x && k + n <= |x|
    ensures Load(b, p + k, n) == Got(x[k..k + n])
  {
    var piece, part := b[p + k..p + k + n], x[k..k + n];
    forall j | 0 <= j < n ensures piece[j] == part[j] {
      assert b[p..p + |x|][k + j] == x[k + j];
    }
    assert piece == part;
  }

  lemma FlagReads(b: seq<Byte>, p: nat, flags: seq<bool>, payload: seq<Byte>, r: nat)
    requires r < |flags| && p + |Bitmap(flags)| + |payload| <= |b|
    requires b[p..p + |Bitmap(flags)| + |payload|] == Bitmap(flags) + payload
    ensures var bm := Load(b, p + r / 8, 1); bm.Got? && (bm.value[0] / Weight(r % 8) % 2 == 1 <==> flags[r])
  {
    hide Weight;
    BitmapReads(flags, r);
    hide Bitmap;
    LoadIn(b, p, Bitmap(flags) + payload, r / 8, 1);
    assert (Bitmap(flags) + payload)[r / 8] == Bitmap(flags)[r / 8];
  }

  lemma PayloadReads(b: seq<Byte>, p: nat, head: seq<Byte>, payload: seq<Byte>, k: nat, n: nat)
    requires p + |head| + |payload| <= |b| && b[p..p + |head| + |payload|] == head + payload && k + n <= |payload|
    ensures Load(b, p + |head| + k, n) == Got(payload[k..k + n])
  {
    LoadIn(b, p, head + payload, |head| + k, n);
    assert (head + payload)[|head| + k..|head| + k + n] == payload[k..k + n];
  }

  lemma FixedReads(b: seq<Byte>, p: nat, c: Column, rows: nat, r: nat, precision: int)
    requires Placed(c, rows, precision) && r < rows && Width(TypeOf(c.code).value) > 0
    requires p + |ColumnBytes(c)| <= |b| && b[p..p + |ColumnBytes(c)|] == ColumnBytes(c)
    ensures CellAt(b, p, TypeOf(c.code).value, rows, r, precision) == Got(c.cells[r])
  {
    hide TypeOf, Width, Stores, Decode, Weight, Bitmap, Load;
    var t, d := TypeOf(c.code).value, c.cells[r];
    var w := Width(t);
    assert FixedCell(t, c.payload, r, d, precision);
    FlagReads(b, p, NullFlags(c.cells), c.payload, r);
    if !d.Null? {
      PayloadReads(b, p, Bitmap(NullFlags(c.cells)), c.payload, w * r, w);
      DecodeStored(t, c.payload[w * r..w * r + w], d, precision);
    }
  }

  lemma VarReads(b: seq<Byte>, p: nat, c: Column, rows: nat, r: nat, precision: int)
    requires Placed(c, rows, precision) && r < rows && Width(TypeOf(c.code).value) == 0
    requires p + |ColumnBytes(c)| <= |b| && b[p..p + |ColumnBytes(c)|] == ColumnBytes(c)
    ensures CellAt(b, p, TypeOf(c.code).value, rows, r, precision) == Got(c.cells[r])
  {
    hide TypeOf, Width, Stores, Decode, Flat, Unsigned, LowBytes;
    var t, x, table, d := TypeOf(c.code).value, ColumnBytes(c), Flat(OffsetBytes(c.offsets)), c.cells[r];
    var o := c.offsets[r];
    assert VarCell(t, c.payload, o, d, precision);
    FlatEven(OffsetBytes(c.offsets), 4);
    FlatEvenAt(OffsetBytes(c.offsets), 4, r);
    LoadIn(b, p, x, 4 * r, 4);
    assert x[4 * r..4 * r + 4] == table[4 * r..4 * r + 4];
    OffsetReads(o);
    if o != NO_OFFSET {
      var k := |table| + o;
      LoadIn(b, p, x, k, 2);
      assert x[k..k + 2] == c.payload[o..o + 2];
      var n := Unsigned(c.payload[o..o + 2]);
      LoadIn(b, p, x, k + 2, n);
      assert x[k + 2..k + 2 + n] == c.payload[o + 2..o + 2 + n];
      DecodeStored(t, c.payload[o + 2..o + 2 + n], d, precision);
    }
  }

  lemma OffsetReads(o: nat)
    requires o <= NO_OFFSET
    ensures Unsigned(LowBytes(o, 4)) == o
  {
    assert Pow256(4) == 0x1_0000_0000;
    LowBytesInverse(o, 4);
  }

  lemma HeaderReads(version: nat, size: seq<Byte>, rows: nat, n: nat, unknowns: seq<Byte>, rest: seq<Byte>)
    requires |size| == 4 && |unknowns| == 12 && version < 0x8000_0000 && rows < 0x8000_0000 && n < 0x8000_0000
    ensures var b := HeaderBytes(version, size, rows, n, unknowns) + rest;
      Int32(b, 0) == Got(version) && Int32(b, 8) == Got(rows) && Int32(b, 12) == Got(n)
  {
    hide Signed, LowBytes;
    var v, r, c := LowBytes(version, 4), LowBytes(rows, 4), LowBytes(n, 4);
    var b := HeaderBytes(version, size, rows, n, unknowns) + rest;
    SizeReads(version);
    SizeReads(rows);
    SizeReads(n);
    assert b == v + (size + r + c + unknowns + rest);
    assert b[..4] == v;
    assert b == (v + size) + r + (c + unknowns + rest);
    MiddleSlice(v + size, r, c + unknowns + rest, 0, 4);
    assert b == (v + size + r) + c + (unknowns + rest);
    MiddleSlice(v + size + r, c, unknowns + rest, 0, 4);
    assert b[8..12] == r && b[12..16] == c;
  }

  lemma InitReads(version: nat, size: seq<Byte>, rows: nat, unknowns: seq<Byte>, cols: seq<Column>, nrRows: int)
    requires |size| == 4 && |unknowns| == 12 && version < 0x8000_0000 && rows < 0x8000_0000 && 0 < |cols| < 0x8000_0000
      && Supported(cols)
    ensures Init(Some(BlockBytes(HeaderBytes(version, size, rows, |cols|, unknowns), cols)), nrRows)
         == if version != 1 && version != 2 then Refused(BadVersion) else if nrRows != rows then Refused(RowsMismatch)
           else Got(|cols|)
  {
    hide HeaderBytes, Int32, Flat, Data, Descriptors, Sizes;
    var header := HeaderBytes(version, size, rows, |cols|, unknowns);
    var rest := Flat(Descriptors(cols)) + Flat(Sizes(cols)) + Flat(Data(cols));
    assert BlockBytes(header, cols) == header + rest;
    HeaderReads(version, size, rows, |cols|, unknowns, rest);
  }

  lemma CellReads(header: seq<Byte>, cols: seq<Column>, rows: nat, precision: int, row: nat, col: nat)
    requires |header| == 28 && AllPlaced(cols, rows, precision) && row < rows && col < |cols|
    ensures Supported(cols)
    ensures var b := BlockBytes(header, cols);
      var t := TypeOf(cols[col].code).value;
      && ColStart(b, |cols|, rows, col) == Got(StartOf(cols, col))
      && ColType(b, col) == Got(t)
      && CellAt(b, StartOf(cols, col), t, rows, row, precision) == Got(cols[col].cells[row])
  {
    hide BlockBytes, ColStart, ColType, CellAt, ColumnBytes, Data, Flat;
    WalkFinds(header, cols, rows, precision, col);
    DescriptorAt(header, cols, col);
    ColumnAt(header, cols, col);
    var b, p := BlockBytes(header, cols), StartOf(cols, col);
    if Width(TypeOf(cols[col].code).value) > 0 {
      FixedReads(b, p, cols[col], rows, row, precision);
    } else {
      VarReads(b, p, cols[col], rows, row, precision);
    }
  }

  /** Reading any cell of any laid-out table gives that cell; outside the table, or for another
      version or row count, reading is refused; it never strays outside the block. */
  lemma ReadsBack(version: nat, size: seq<Byte>, rows: nat, unknowns: seq<Byte>, cols: seq<Column>, nrRows: int,
    precision: int, row: int, col: int)
    requires |size| == 4 && |unknowns| == 12 && version < 0x8000_0000 && AllPlaced(cols, rows, precision)
    ensures Supported(cols)
    ensures Read(Some(BlockBytes(HeaderBytes(version, size, rows, |cols|, unknowns), cols)), nrRows, true, precision,
      row, col)
         == if row < 0 || row >= nrRows then Refused(RowOutOfRange)
            else if version != 1 && version != 2 then Refused(BadVersion)
            else if nrRows != rows then Refused(RowsMismatch)
            else if col < 0 || col >= |cols| then Refused(ColOutOfRange)
            else Got(cols[col].cells[row])
  {
    hide BlockBytes, HeaderBytes, Init, ColStart, ColType, CellAt;
    InitReads(version, size, rows, unknowns, cols, nrRows);
    if 0 <= row < rows && 0 <= col < |cols| {
      CellReads(HeaderBytes(version, size, rows, |cols|, unknowns), cols, rows, precision, row, col);
    }
  }

  /** A VARCHAR cell is cut at its first NUL, so it reads back exactly when it has none. */
  lemma VarcharReadsBack(s: seq<Byte>, precision: int)
    ensures Decode(Varchar, s, precision) == Text(Varchar, s, None) <==> NulFree(s)
  {
    UpToNulWhole(s);
  }

  // ---------------------------------------------------------------- the format in bytes

  /** The number in one, two, four or eight bytes, least significant first. */
  lemma NumbersInBytes(s: seq<Byte>)
    ensures |s| == 1 ==> Unsigned(s) == s[0] as int
    ensures |s| == 2 ==> Unsigned(s) == s[0] as int + 0x100 * s[1] as int
    ensures |s| == 4 ==>
      Unsigned(s) == s[0] as int + 0x100 * s[1] as int + 0x1_0000 * s[2] as int + 0x100_0000 * s[3] as int
    ensures |s| == 8 ==> Unsigned(s) == Unsigned(s[..4]) + 0x1_0000_0000 * Unsigned(s[4..])
    ensures Signed(s) ==
      if |s| == 1 && Unsigned(s) >= 0x80 then Unsigned(s) - 0x100
      else if |s| == 2 && Unsigned(s) >= 0x8000 then Unsigned(s) - 0x1_0000
      else if |s| == 4 && Unsigned(s) >= 0x8000_0000 then Unsigned(s) - 0x1_0000_0000
      else if |s| == 8 && Unsigned(s) >= 0x8000_0000_0000_0000 then Unsigned(s) - 0x1_0000_0000_0000_0000
      else if |s| in {1, 2, 4, 8} then Unsigned(s)
      else Signed(s)
  {
    PowersOf256();
    if |s| == 8 {
      UnsignedSplit(s, 4);
    }
    if |s| in {1, 2, 4} {
      UnsignedFew(s);
    }
  }

  lemma PowersOf256()
    ensures Pow256(1) == 0x100 && Pow256(2) == 0x1_0000 && Pow256(4) == 0x1_0000_0000
    ensures Pow256(8) == 0x1_0000_0000_0000_0000
  {
    assert Pow256(3) == 0x100_0000;
    assert Pow256(5) == 0x100_0000_0000;
    assert Pow256(6) == 0x1_0000_0000_0000;
    assert Pow256(7) == 0x100_0000_0000_0000;
  }

  lemma UnsignedFew(s: seq<Byte>)
    ensures |s| == 1 ==> Unsigned(s) == s[0] as int
    ensures |s| == 2 ==> Unsigned(s) == s[0] as int + 0x100 * s[1] as int
    ensures |s| == 4 ==>
      Unsigned(s) == s[0] as int + 0x100 * s[1] as int + 0x1_0000 * s[2] as int + 0x100_0000 * s[3] as int
  {
    if |s| == 4 {
      var t := s[1..][1..];
      assert Unsigned(t) == t[0] as int + 0x100 * Unsigned(t[1..]);
      assert Unsigned(t[1..]) == s[3] as int + 0x100 * Unsigned([]);
    } else if |s| == 2 {
      assert Unsigned(s[1..]) == s[1] as int + 0x100 * Unsigned([]);
    }
  }

  lemma {:induction false} UnsignedSplit(s: seq<Byte>, k: nat)
    requires k <= |s|
    ensures Unsigned(s) == Unsigned(s[..k]) + Pow256(k) * Unsigned(s[k..])
    decreases k
  {
    hide Unsigned, Pow256;
    if k == 0 {
      NoneUnsigned();
      assert s[..0] == [] && s[0..] == s;
    } else {
      UnsignedSplit(s[1..], k - 1);
      assert s[..k][1..] == s[1..][..k - 1] && s[1..][k - 1..] == s[k..];
      UnsignedFirst(s);
      UnsignedFirst(s[..k]);
      PowerStep(k, Unsigned(s[k..]));
    }
  }

  lemma NoneUnsigned()
    ensures Unsigned([]) == 0 && Pow256(0) == 1
  {
  }

  lemma UnsignedFirst(s: seq<Byte>)
    requires s != []
    ensures Unsigned(s) == s[0] as int + 256 * Unsigned(s[1..])
  {
  }

  lemma PowerStep(k: nat, x: nat)
    requires k > 0
    ensures 256 * (Pow256(k - 1) * x) == Pow256(k) * x
  {
  }

  /** How many bytes a stored value of each fixed-size type takes. */
  lemma StoredWidths(t: FieldType, s: seq<Byte>, d: Datum, precision: int)
    requires Stores(t, s, d, precision)
    ensures t in {Bool, TinyInt, UTinyInt} ==> |s| == 1
    ensures t in {SmallInt, USmallInt} ==> |s| == 2
    ensures t in {FieldType.Int, UInt, Float} ==> |s| == 4
    ensures t in {BigInt, UBigInt, Double, Timestamp} ==> |s| == 8
  {
    hide SignedBytes, LowBytes, Pow256, InSigned, NulFree;
  }

  /** Which numbers each type can hold. */
  lemma StorableNumbers(i: int)
    ensures Storable(TinyInt, i) <==> -0x80 <= i < 0x80
    ensures Storable(SmallInt, i) <==> -0x8000 <= i < 0x8000
    ensures Storable(FieldType.Int, i) <==> -0x8000_0000 <= i < 0x8000_0000
    ensures Storable(BigInt, i) <==> -0x8000_0000_0000_0000 <= i < 0x8000_0000_0000_0000
    ensures Storable(UTinyInt, i) <==> 0 <= i < 0x100
    ensures Storable(USmallInt, i) <==> 0 <= i < 0x1_0000
    ensures Storable(UInt, i) <==> 0 <= i < 0x1_0000_0000
    ensures Storable(UBigInt, i) <==> 0 <= i < 0x1_0000_0000_0000_0000
  {
    hide Storable, Pow256;
    PowersOf256();
    forall t | t in {TinyInt, SmallInt, FieldType.Int, BigInt, UTinyInt, USmallInt, UInt, UBigInt}
      ensures Storable(t, i) <==> if SignedType(t) then InSigned(i, Width(t)) else 0 <= i < Pow256(Width(t))
    {
      StorableWhen(t, i);
    }
  }

  /** Some bytes hold i in a column of type t. */
  ghost predicate Storable(t: FieldType, i: int) {
    exists s: seq<Byte>, p: int :: Stores(t, s, Number(t, i), p)
  }

  lemma StorableWhen(t: FieldType, i: int)
    requires t in {TinyInt, SmallInt, FieldType.Int, BigInt, UTinyInt, USmallInt, UInt, UBigInt}
    ensures Storable(t, i) <==> if SignedType(t) then InSigned(i, Width(t)) else 0 <= i < Pow256(Width(t))
  {
    hide Pow256, SignedBytes, LowBytes;
    if SignedType(t) && InSigned(i, Width(t)) {
      assert Stores(t, SignedBytes(i, Width(t)), Number(t, i), 0);
    }
    if !SignedType(t) && 0 <= i < Pow256(Width(t)) {
      assert Stores(t, LowBytes(i, Width(t)), Number(t, i), 0);
    }
  }

  /** The type codes, and that no other byte is one. */
  lemma TypeCodes(code: Byte)
    ensures TypeOf(1) == Some(Bool) && TypeOf(2) == Some(TinyInt) && TypeOf(3) == Some(SmallInt)
    ensures TypeOf(4) == Some(FieldType.Int) && TypeOf(5) == Some(BigInt) && TypeOf(6) == Some(Float)
    ensures TypeOf(7) == Some(Double) && TypeOf(8) == Some(Varchar) && TypeOf(9) == Some(Timestamp)
    ensures TypeOf(10) == Some(Nchar) && TypeOf(11) == Some(UTinyInt) && TypeOf(12) == Some(USmallInt)
    ensures TypeOf(13) == Some(UInt) && TypeOf(14) == Some(UBigInt) && TypeOf(15) == Some(Json)
    ensures TypeOf(16) == Some(Varbinary) && TypeOf(20) == Some(Geometry)
    ensures code == 0 || 17 <= code <= 19 || code > 20 ==> TypeOf(code) == None
  {
  }

  /** What a reader makes of the bytes of a cell, type by type. */
  lemma DecodedNumbers(s: seq<Byte>, precision: int)
    ensures |s| == 1 ==> Decode(Bool, s, precision) == Truth(s[0] != 0)
    ensures |s| == 1 ==> Decode(TinyInt, s, precision) == Number(TinyInt, Signed(s))
    ensures |s| == 1 ==> Decode(UTinyInt, s, precision) == Number(UTinyInt, Unsigned(s))
    ensures |s| == 2 ==> Decode(SmallInt, s, precision) == Number(SmallInt, Signed(s))
    ensures |s| == 2 ==> Decode(USmallInt, s, precision) == Number(USmallInt, Unsigned(s))
    ensures |s| == 4 ==> Decode(FieldType.Int, s, precision) == Number(FieldType.Int, Signed(s))
    ensures |s| == 4 ==> Decode(UInt, s, precision) == Number(UInt, Unsigned(s))
    ensures |s| == 8 ==> Decode(BigInt, s, precision) == Number(BigInt, Signed(s))
    ensures |s| == 8 ==> Decode(UBigInt, s, precision) == Number(UBigInt, Unsigned(s))
  {
    hide Signed, Unsigned;
  }

  lemma DecodedBytes(s: seq<Byte>, precision: int)
    ensures |s| == 4 ==> Decode(Float, s, precision) == Bits(Float, s)
    ensures |s| == 8 ==> Decode(Double, s, precision) == Bits(Double, s)
    ensures |s| == 8 ==> Decode(Timestamp, s, precision) == Time(Signed(s), precision)
  {
    hide Signed, Unsigned;
  }

  lemma DecodedTexts(s: seq<Byte>, precision: int)
    ensures Decode(Nchar, s, precision) == Text(Nchar, s, Some("UTF-32LE"))
    ensures Decode(Json, s, precision) == Text(Json, s, None)
    ensures Decode(Varbinary, s, precision) == Blob(Varbinary, s) && Decode(Geometry, s, precision) == Blob(Geometry, s)
  {
    hide Signed, Unsigned;
  }

  /** A VARCHAR ends before its first NUL. */
  lemma {:induction false} VarcharEnds(s: seq<Byte>, precision: int)
    ensures var n := |UpToNul(s)|;
      && Decode(Varchar, s, precision) == Text(Varchar, s[..n], None)
      && n <= |s| && (n < |s| ==> s[n] == 0) && forall i :: 0 <= i < n ==> s[i] != 0
  {
    if s != [] && s[0] != 0 {
      VarcharEnds(s[1..], precision);
      assert forall i :: 1 <= i < |UpToNul(s)| ==> s[i] == s[1..][i - 1];
    }
  }

  /** A cell of a fixed-size column: bit 7 - r % 8 of byte r / 8 of the bitmap says null; otherwise the
      value is in the w bytes that follow the bitmap and the r values before it. */
  lemma FixedCellInBytes(b: seq<Byte>, p: nat, t: FieldType, w: nat, rows: nat, r: nat, precision: int)
    requires r < rows && p + (rows + 7) / 8 + w * rows <= |b|
    requires
      || (w == 1 && t in {Bool, TinyInt, UTinyInt}) || (w == 2 && t in {SmallInt, USmallInt})
      || (w == 4 && t in {FieldType.Int, UInt, Float}) || (w == 8 && t in {BigInt, UBigInt, Double, Timestamp})
    ensures var q := p + (rows + 7) / 8 + w * r;
      && q + w <= |b|
      && CellAt(b, p, t, rows, r, precision) ==
         if b[p + r / 8] / [128, 64, 32, 16, 8, 4, 2, 1][r % 8] % 2 == 1 then Got(Null(t))
         else Got(Decode(t, b[q..q + w], precision))
  {
    hide Decode, Width, Weight, CellAt;
    FixedWidth(t, w);
    RowEnds(w, rows, r);
    WeightIs(r % 8);
    FixedCellAt(b, p, t, rows, r, precision);
  }

  lemma FixedWidth(t: FieldType, w: nat)
    requires
      || (w == 1 && t in {Bool, TinyInt, UTinyInt}) || (w == 2 && t in {SmallInt, USmallInt})
      || (w == 4 && t in {FieldType.Int, UInt, Float}) || (w == 8 && t in {BigInt, UBigInt, Double, Timestamp})
    ensures Width(t) == w
  {
  }

  lemma FixedCellAt(b: seq<Byte>, p: nat, t: FieldType, rows: nat, r: nat, precision: int)
    requires r < rows && Width(t) > 0
    requires p + r / 8 < |b| && p + (rows + 7) / 8 + Width(t) * r + Width(t) <= |b|
    ensures var q := p + (rows + 7) / 8 + Width(t) * r;
      CellAt(b, p, t, rows, r, precision) ==
      if b[p + r / 8] / Weight(r % 8) % 2 == 1 then Got(Null(t)) else Got(Decode(t, b[q..q + Width(t)], precision))
  {
    hide Decode, Width, Weight;
  }

  lemma RowEnds(w: nat, rows: nat, r: nat)
    requires r < rows
    ensures w * r + w <= w * rows
  {
    assert w * (r + 1) <= w * rows;
  }

  lemma WeightIs(k: nat)
    requires k < 8
    ensures Weight(k) == [128, 64, 32, 16, 8, 4, 2, 1][k]
  {
  }

  /** A cell of a variable-length column: its offset, four bytes in the table, says null when all its
      bits are set; otherwise a two-byte length and the bytes follow the table at that offset. */
  lemma VarCellInBytes(b: seq<Byte>, p: nat, t: FieldType, rows: nat, r: nat, o: nat, n: nat, precision: int)
    requires t in {Varchar, Nchar, Json, Varbinary, Geometry} && r < rows && p + 4 * rows <= |b|
    requires o == b[p + 4 * r] as int + 0x100 * b[p + 4 * r + 1] as int + 0x1_0000 * b[p + 4 * r + 2] as int
                  + 0x100_0000 * b[p + 4 * r + 3] as int
    requires o < 0xFFFF_FFFF ==>
      var at := p + 4 * rows + o; at + 2 + n <= |b| && n == b[at] as int + 0x100 * b[at + 1] as int
    ensures CellAt(b, p, t, rows, r, precision) ==
      if o == 0xFFFF_FFFF then Got(Null(t))
      else var at := p + 4 * rows + o; Got(Decode(t, b[at + 2..at + 2 + n], precision))
  {
    hide Decode, Unsigned, CellAt, Width;
    VarCellAt(b, p, t, rows, r, precision);
    UnsignedFew(b[p + 4 * r..p + 4 * r + 4]);
    if o < 0xFFFF_FFFF {
      var at := p + 4 * rows + o;
      UnsignedFew(b[at..at + 2]);
    }
  }

  lemma VarCellAt(b: seq<Byte>, p: nat, t: FieldType, rows: nat, r: nat, precision: int)
    requires t in {Varchar, Nchar, Json, Varbinary, Geometry} && r < rows && p + 4 * rows <= |b|
    ensures Width(t) == 0
    ensures var o := Unsigned(b[p + 4 * r..p + 4 * r + 4]);
      var at := p + 4 * rows + o;
      && (o == 0xFFFF_FFFF ==> CellAt(b, p, t, rows, r, precision) == Got(Null(t)))
      && (o != 0xFFFF_FFFF && at + 2 <= |b| ==>
            var n := Unsigned(b[at..at + 2]);
            at + 2 + n <= |b| ==>
              CellAt(b, p, t, rows, r, precision) == Got(Decode(t, b[at + 2..at + 2 + n], precision)))
  {
    hide Decode, Unsigned;
  }

  /** Four bytes as a signed number. */
  function Four(b: seq<Byte>, k: nat): int
    requires k + 4 <= |b|
  {
    var u := b[k] as int + 0x100 * b[k + 1] as int + 0x1_0000 * b[k + 2] as int + 0x100_0000 * b[k + 3] as int;
    if u < 0x8000_0000 then u else u - 0x1_0000_0000
  }

  lemma FourReads(b: seq<Byte>, k: nat)
    requires k + 4 <= |b|
    ensures Int32(b, k) == Got(Four(b, k))
  {
    NumbersInBytes(b[k..k + 4]);
    hide Signed, Unsigned;
  }

  /** The header: version in bytes 0 to 3, rows in 8 to 11, columns in 12 to 15. */
  lemma HeaderInBytes(b: seq<Byte>, nrRows: int)
    requires |b| >= 16
    ensures Init(Some(b), nrRows) ==
      if Four(b, 0) != 1 && Four(b, 0) != 2 then Refused(BadVersion)
      else if Four(b, 12) <= 0 then Refused(BadCols)
      else if Four(b, 8) < 0 then Refused(BadRows)
      else if Four(b, 8) != nrRows then Refused(RowsMismatch)
      else Got(Four(b, 12))
    ensures Init(None, nrRows) == Refused(NoBlock)
  {
    hide Int32, Four;
    FourReads(b, 0);
    FourReads(b, 8);
    FourReads(b, 12);
  }

  /** The type of column i is in byte 28 + 5i, and an unknown one is refused. */
  lemma TypeInBytes(b: seq<Byte>, i: nat)
    requires 28 + 5 * i < |b|
    ensures ColType(b, i) ==
      match TypeOf(b[28 + 5 * i]) case Some(t) => Got(t) case None => Refused(Unsupported(i))
  {
    hide TypeOf;
  }

  /** A column starts where the one before it ends: after a bitmap of one bit a row, or a table of four
      bytes a row, and as many bytes as its size says; the first starts after the sizes. */
  lemma StartsInBytes(b: seq<Byte>, cols: nat, rows: nat, i: nat, p: int, t: FieldType)
    requires ColStart(b, cols, rows, i) == Got(p) && 28 + 9 * cols <= |b| && i < cols
    requires TypeOf(b[28 + 5 * i]) == Some(t)
    ensures ColStart(b, cols, rows, 0) == Got(28 + 9 * cols)
    ensures ColStart(b, cols, rows, i + 1) ==
      var head := if t in {Varchar, Nchar, Json, Varbinary, Geometry} then 4 * rows else (rows + 7) / 8;
      Got(p + head + Four(b, 28 + 5 * cols + 4 * i))
  {
    hide ColStart, ColType, Int32, TypeOf;
    NoStep(b, cols, rows);
    TypeInBytes(b, i);
    FourReads(b, 28 + 5 * cols + 4 * i);
    StartStep(b, cols, rows, i + 1, p, t, Four(b, 28 + 5 * cols + 4 * i));
  }

  /** A column of unknown type stops the reading of itself and of every column after it. */
  lemma UnknownTypeRefused(b: seq<Byte>, nrRows: int, precision: int, row: int, col: int, i: nat, p: int)
    requires Init(Some(b), nrRows).Got? && 0 <= row < nrRows && i <= col < Init(Some(b), nrRows).value
    requires 28 + 5 * i < |b| && TypeOf(b[28 + 5 * i]) == None
    requires ColStart(b, Init(Some(b), nrRows).value, nrRows, i) == Got(p)
    ensures Read(Some(b), nrRows, true, precision, row, col) == Refused(Unsupported(i))
  {
    hide Init, ColStart, ColType, Int32, TypeOf, CellAt;
    var cols := Init(Some(b), nrRows).value;
    TypeInBytes(b, i);
    if i < col {
      StepFails(b, cols, nrRows, i + 1);
      StartFails(b, cols, nrRows, i + 1, col);
    }
  }
}
