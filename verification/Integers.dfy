/**
  Binding integers: mariadb_get_parameter_info chooses one width and one sign flag for a
  parameter, or for a whole column of executemany(), and mariadb_param_to_bind stores values.
 */
module Integers {
  import opened Arith
  import opened Bytes
  import opened Korr

  function Magnitude(v: int): nat {
    if v < 0 then -v else v
  }

  /** _PyLong_NumBits of a magnitude. */
  function BitLength(n: nat): nat {
    if n == 0 then 0 else 1 + BitLength(n / 2)
  }

  function Pow2(k: nat): (p: nat)
    ensures p > 0
  {
    if k == 0 then 1 else 2 * Pow2(k - 1)
  }

  /** A number fits `k` bits exactly when its bit length is at most `k`. */
  lemma {:induction false} BitLengthFits(n: nat, k: nat)
    ensures n < Pow2(k) <==> BitLength(n) <= k
  {
    if n == 0 {
    } else if k == 0 {
    } else {
      BitLengthFits(n / 2, k - 1);
    }
  }

  lemma {:induction false} PowersOfTwo()
    ensures Pow2(7) == 0x80 && Pow2(15) == 0x8000 && Pow2(31) == 0x8000_0000 && Pow2(63) == TWO63
  {
    PowAdd(3, 3);
    PowAdd(7, 7);
    assert Pow2(15) == 2 * Pow2(14);
    PowAdd(15, 15);
    assert Pow2(31) == 2 * Pow2(30);
    PowAdd(31, 31);
    assert Pow2(63) == 2 * Pow2(62);
    assert Pow2(3) == 8 && Pow2(7) == 2 * Pow2(6);
  }

  lemma {:induction false} PowAdd(a: nat, b: nat)
    ensures Pow2(a + b) == Pow2(a) * Pow2(b)
    decreases b
  {
    if b > 0 {
      PowAdd(a, b - 1);
      assert Pow2(a) * Pow2(b) == 2 * (Pow2(a) * Pow2(b - 1));
    }
  }

  // --- width and stored bytes -----------------------------------------------------------------------------

  /** The bytes of TINY, SHORT, LONG and LONGLONG. */
  function SelectWidth(bits: nat, unsigned: bool): (w: nat)
    ensures w == 1 || w == 2 || w == 4 || w == 8
  {
    if (bits <= 8 && unsigned) || bits < 8 then 1
    else if (bits <= 16 && unsigned) || bits < 16 then 2
    else if (bits <= 32 && unsigned) || bits < 32 then 4
    else 8
  }

  /** PyLong_AsUnsignedLongLong and PyLong_AsLongLong: -1 when the value does not fit. */
  function Converted(v: int): int {
    if v >= 0 then if v < TWO64 then v else TWO64 - 1
    else if v >= -TWO63 then v else -1
  }

  /** The flag after storing: a non-negative value with its top bit set needs it. */
  function FlagAfter(flag: bool, v: int, w: nat): bool {
    flag || (v >= 0 && 2 * Unsigned(Stored(Converted(v), w)) >= Pow256(w))
  }

  /** What stored bytes and a sign flag denote. */
  function Decode(b: seq<byte>, unsigned: bool): int {
    if unsigned then Unsigned(b) else Signed(Unsigned(b), Pow256(|b|))
  }

  lemma {:induction false} DecodeStored(v: int, w: nat, unsigned: bool)
    requires w == 1 || w == 2 || w == 4 || w == 8
    ensures Decode(Stored(v, w), unsigned)
         == if unsigned then v % Pow256(w) else Signed(v % Pow256(w), Pow256(w))
  {
    StoredUnsigned(v, w);
  }

  lemma {:induction false} SignedFits(v: int, w: nat)
    requires w == 1 || w == 2 || w == 4 || w == 8
    requires -(Pow256(w) as int) <= 2 * v < Pow256(w)
    ensures Decode(Stored(v, w), false) == v
  {
    DecodeStored(v, w, false);
    var m := Pow256(w);
    if v < 0 {
      DivModUnique(v, m, -1, v + m);
    } else {
      DivModUnique(v, m, 0, v);
    }
  }

  lemma {:induction false} UnsignedFits(v: int, w: nat)
    requires w == 1 || w == 2 || w == 4 || w == 8
    requires 0 <= v < Pow256(w)
    ensures Decode(Stored(v, w), true) == v && Unsigned(Stored(v, w)) == v
  {
    DecodeStored(v, w, true);
    DivModUnique(v, Pow256(w), 0, v);
  }

  /** The num buffer of a parameter and the is_unsigned flag of its bind. */
  class BindBuffer {
    const num: array<byte>
    var isUnsigned: bool

    constructor ()
      ensures fresh(num) && num.Length == 8 && !isUnsigned
    {
      num := new byte[8];
      isUnsigned := false;
    }

    /** mariadb_param_to_bind for the integer types, `w` bytes wide. */
    method StoreInteger(v: int, w: nat)
      requires num.Length == 8 && (w == 1 || w == 2 || w == 4 || w == 8)
      modifies this`isUnsigned, num
      ensures num[..w] == Stored(Converted(v), w) && num[w..] == old(num[w..])
      ensures isUnsigned == FlagAfter(old(isUnsigned), v, w)
      ensures -TWO63 <= v < TWO64 ==> Decode(num[..w], true) == v % Pow256(w)
    {
      var bytes := Stored(Converted(v), w);
      StoredUnsigned(Converted(v), w);
      forall i | 0 <= i < w {
        num[i] := bytes[i];
      }
      if v >= 0 {
        if 2 * Unsigned(bytes) >= Pow256(w) {
          isUnsigned := true;
        }
      }
    }
  }

  /** A value with fewer bits than a signed number of the selected width has. */
  lemma {:induction false} WidthFits(v: int, bits: nat)
    requires BitLength(Magnitude(v)) <= bits && -TWO63 <= v < TWO63
    ensures -(Pow256(SelectWidth(bits, false)) as int) <= 2 * v < Pow256(SelectWidth(bits, false))
  {
    var w := SelectWidth(bits, false);
    Powers();
    PowersOfTwo();
    if w < 8 {
      BitLengthFits(Magnitude(v), 8 * w - 1);
    }
  }

  // --- one value ------------------------------------------------------------------------------------------------

  function BoundWidth(v: int): nat {
    SelectWidth(BitLength(Magnitude(v)), false)
  }

  function BoundBytes(v: int): seq<byte> {
    Stored(Converted(v), BoundWidth(v))
  }

  function BoundFlag(v: int): bool {
    FlagAfter(false, v, BoundWidth(v))
  }

  lemma {:induction false} WideValue(v: int)
    requires Magnitude(v) >= TWO63
    ensures BoundWidth(v) == 8
  {
    PowersOfTwo();
    BitLengthFits(Magnitude(v), 63);
  }

  /** A bound integer is recovered from its width, bytes and flag exactly when it fits 64 bits. */
  lemma {:induction false} ExecuteRoundTrip(v: int)
    ensures Decode(BoundBytes(v), BoundFlag(v)) == v <==> -TWO63 <= v < TWO64
  {
    var w := BoundWidth(v);
    Powers();
    if -TWO63 <= v < TWO63 {
      WidthFits(v, BitLength(Magnitude(v)));
      SignedFits(v, w);
      if v >= 0 {
        UnsignedFits(v, w);
      }
    } else {
      WideValue(v);
      if v < 0 {
        SignedFits(-1, 8);
      } else {
        UnsignedFits(Converted(v), 8);
      }
    }
  }

  /** The matching reader of the binary fetch returns the value. */
  lemma {:induction false} ReaderRoundTrip(v: int)
    requires -TWO63 <= v < TWO64
    ensures BoundWidth(v) == 2 ==> v == if BoundFlag(v) then Uint2(BoundBytes(v), 0) else Sint2(BoundBytes(v), 0)
    ensures BoundWidth(v) == 4 ==> v == if BoundFlag(v) then Uint4(BoundBytes(v), 0) else Sint4(BoundBytes(v), 0)
    ensures BoundWidth(v) == 8 ==> v == if BoundFlag(v) then Uint8(BoundBytes(v), 0) else Sint8(BoundBytes(v), 0)
  {
    ExecuteRoundTrip(v);
    ReadersAgree(BoundBytes(v));
    Powers();
  }

  /** The width is the smallest of 1, 2, 4 and 8 bytes with a sign bit to spare. */
  lemma {:induction false} WidthIsSmallest(v: int)
    ensures BoundWidth(v) == 1 <==> -0x80 < v < 0x80
    ensures BoundWidth(v) <= 2 <==> -0x8000 < v < 0x8000
    ensures BoundWidth(v) <= 4 <==> -0x8000_0000 < v < 0x8000_0000
    ensures BoundWidth(v) in {1, 2, 4, 8}
  {
    PowersOfTwo();
    BitLengthFits(Magnitude(v), 7);
    BitLengthFits(Magnitude(v), 15);
    BitLengthFits(Magnitude(v), 31);
  }

  // --- a column of executemany() --------------------------------------------------------------------------------

  datatype FieldType = Unset | Null | LongLong | Double | NewDecimal | VarString | LongBlob | Date | Time | DateTime

  datatype Cell =
    | IntCell(v: int)          // also bool, which is a subclass of int
    | NullCell                 // None, or an indicator: no value
    | OtherCell(kind: FieldType)
    | UnsupportedCell

  datatype Column = Column(kind: FieldType, unsigned: bool, bits: nat)

  const EMPTY := Column(Unset, false, 0)

  datatype Inferred = Refused | Chosen(column: Column)

  predicate IsDecimal(t: FieldType) {
    t == NewDecimal || t == Double
  }

  /** What PyLong_AsLongLong reports as -1: the value -1 itself and everything that overflows. */
  predicate LooksOverflown(v: int) {
    v == -1 || !(-TWO63 <= v < TWO63)
  }

  datatype Merged = Fail | Stop(column: Column) | Next(column: Column)

  function CellKind(c: Cell): FieldType
    requires !c.UnsupportedCell?
  {
    match c
    case IntCell(_) => LongLong
    case NullCell => Null
    case OtherCell(k) => k
  }

  /** One row: the flag and the bits of an integer, and the type the column has so far. */
  function Merge(col: Column, c: Cell): Merged {
    if c.UnsupportedCell? then Fail
    else
      var t := CellKind(c);
      var col' :=
        if c.IntCell? then
          var b := BitLength(Magnitude(c.v));
          col.(unsigned := col.unsigned || LooksOverflown(c.v), bits := if b > col.bits then b else col.bits)
        else col;
      if col.kind == Unset || col.kind == Null then Next(col'.(kind := t))
      else if col.kind != t && t != Null then
        if IsDecimal(t) && IsDecimal(col.kind) then Stop(col'.(kind := NewDecimal)) else Fail
      else Next(col')
  }

  function Infer(cells: seq<Cell>, col: Column): Inferred
    decreases |cells|
  {
    if cells == [] then Chosen(col)
    else
      match Merge(col, cells[0])
      case Fail => Refused
      case Stop(c) => Chosen(c)
      case Next(c) => Infer(cells[1..], c)
  }

  /** The loop over the rows of a column. */
  method InferColumn(cells: seq<Cell>) returns (r: Inferred)
    ensures r == Infer(cells, EMPTY)
  {
    var kind, unsigned, bits := Unset, false, 0;
    var i := 0;
    while i < |cells|
      invariant 0 <= i <= |cells|
      invariant Infer(cells, EMPTY) == Infer(cells[i..], Column(kind, unsigned, bits))
    {
      var c := cells[i];
      assert cells[i..][0] == c && cells[i..][1..] == cells[i + 1..];
      if c.UnsupportedCell? {
        return Refused;
      }
      if c.IntCell? {
        if LooksOverflown(c.v) {
          unsigned := true;
        }
        var b := BitLength(Magnitude(c.v));
        if b > bits {
          bits := b;
        }
      }
      var t := CellKind(c);
      if kind == Unset || kind == Null {
        kind := t;
      } else if kind != t && t != Null {
        if IsDecimal(t) && IsDecimal(kind) {
          return Chosen(Column(NewDecimal, unsigned, bits));
        }
        return Refused;
      }
      i := i + 1;
    }
    r := Chosen(Column(kind, unsigned, bits));
  }

  /** A row with a value of type `t`. */
  predicate HasKind(c: Cell, t: FieldType) {
    (c.IntCell? && t == LongLong) || (c.OtherCell? && c.kind == t)
  }

  /** Rows of one type and rows without a value, up to row `i`. */
  ghost predicate SoFar(cells: seq<Cell>, t: FieldType, i: nat) {
    i <= |cells| && forall j :: 0 <= j < i ==> cells[j].NullCell? || HasKind(cells[j], t)
  }

  lemma {:induction false} KindSoFar(cells: seq<Cell>, t: FieldType, i: nat, col: Column) returns (col': Column)
    requires SoFar(cells, t, i) && t != Null && t != Unset && (col.kind == t || col.kind == Null || col.kind == Unset)
    ensures Infer(cells, col) == Infer(cells[i..], col')
    ensures col'.kind == t || ((col'.kind == Null || col'.kind == Unset) && col.kind != t
                               && forall j :: 0 <= j < i ==> cells[j].NullCell?)
    decreases i
  {
    if i == 0 {
      col' := col;
      assert cells[0..] == cells;
    } else {
      var more := cells[1..];
      assert forall j :: 0 <= j < i - 1 ==> more[j] == cells[j + 1];
      col' := KindSoFar(more, t, i - 1, Merge(col, cells[0]).column);
      assert more[i - 1..] == cells[i..];
    }
  }

  /** A column of one type has that type. */
  lemma {:induction false} OneType(cells: seq<Cell>, t: FieldType, k: nat)
    requires SoFar(cells, t, |cells|) && t != Null && t != Unset && k < |cells| && HasKind(cells[k], t)
    ensures Infer(cells, EMPTY).Chosen? && Infer(cells, EMPTY).column.kind == t
  {
    var col' := KindSoFar(cells, t, |cells|, EMPTY);
  }

  /**
    The first row of another type decides: with Double and NewDecimal, in any order, the column
    is NewDecimal and the rows after that are not looked at; any other mixture is refused.
   */
  lemma {:induction false} FirstOtherType(cells: seq<Cell>, t: FieldType, k: nat, i: nat, u: FieldType)
    requires SoFar(cells, t, i) && t != Null && t != Unset && k < i < |cells| && HasKind(cells[k], t)
    requires HasKind(cells[i], u) && u != t && u != Null && u != Unset
    ensures if (t == Double && u == NewDecimal) || (t == NewDecimal && u == Double)
            then Infer(cells, EMPTY).Chosen? && Infer(cells, EMPTY).column.kind == NewDecimal
            else Infer(cells, EMPTY) == Refused
  {
    var col' := KindSoFar(cells, t, i, EMPTY);
    assert cells[i..][0] == cells[i];
  }

  /** A value of no supported type is refused, unless Double and NewDecimal were mixed before. */
  lemma {:induction false} UnsupportedRow(cells: seq<Cell>, t: FieldType, i: nat)
    requires SoFar(cells, t, i) && t != Null && t != Unset && i < |cells| && cells[i].UnsupportedCell?
    ensures Infer(cells, EMPTY) == Refused
  {
    var col' := KindSoFar(cells, t, i, EMPTY);
    assert cells[i..][0] == cells[i];
  }

  function WithoutNulls(cells: seq<Cell>): seq<Cell> {
    if cells == [] then []
    else (if cells[0].NullCell? then [] else [cells[0]]) + WithoutNulls(cells[1..])
  }

  /** Rows without a value do not influence what is inferred, once there is a row with one. */
  lemma {:induction false} NullsDoNotMatter(cells: seq<Cell>, col: Column, col': Column)
    requires col' == col || (col == col'.(kind := Null) && col'.kind == Unset)
    requires WithoutNulls(cells) != [] || (col' == col && col.kind != Unset)
    requires forall i :: 0 <= i < |cells| ==> cells[i].OtherCell? ==> cells[i].kind != Null && cells[i].kind != Unset
    ensures Infer(cells, col) == Infer(WithoutNulls(cells), col')
    decreases |cells|
  {
    if cells != [] {
      var c, more := cells[0], cells[1..];
      if c.NullCell? {
        assert WithoutNulls(cells) == WithoutNulls(more);
        if col.kind == Unset {
          NullsDoNotMatter(more, col.(kind := Null), col');
        } else {
          NullsDoNotMatter(more, col, col');
        }
      } else {
        var rest := WithoutNulls(cells);
        assert rest[0] == c && rest[1..] == WithoutNulls(more);
        assert Merge(col, c) == Merge(col', c);
        if Merge(col, c).Next? {
          NullsDoNotMatter(more, Merge(col, c).column, Merge(col, c).column);
        }
      }
    }
  }

  /** The integers of a column, and the flag and bits of a run of them. */
  ghost predicate IntColumn(cells: seq<Cell>) {
    forall i :: 0 <= i < |cells| ==> cells[i].IntCell? || cells[i].NullCell?
  }

  ghost predicate Has(cells: seq<Cell>, v: int) {
    IntCell(v) in cells
  }

  lemma {:induction false} InferInts(cells: seq<Cell>, col: Column)
    requires IntColumn(cells) && (col.kind == LongLong || col.kind == Unset || col.kind == Null)
    ensures Infer(cells, col).Chosen?
    ensures var r := Infer(cells, col).column;
      && (r.unsigned <==> col.unsigned || exists v :: Has(cells, v) && LooksOverflown(v))
      && col.bits <= r.bits
      && (forall v :: Has(cells, v) ==> BitLength(Magnitude(v)) <= r.bits)
      && ((exists v :: Has(cells, v)) || col.kind == LongLong ==> r.kind == LongLong)
    decreases |cells|
  {
    if cells != [] {
      var c, more := cells[0], cells[1..];
      assert cells == [c] + more;
      assert forall v :: Has(cells, v) <==> c == IntCell(v) || Has(more, v);
      InferInts(more, Merge(col, c).column);
    }
  }

  /** The bits of a column are those of one of its rows. */
  lemma {:induction false} BitsOfSomeRow(cells: seq<Cell>, col: Column)
    requires IntColumn(cells) && (col.kind == LongLong || col.kind == Unset || col.kind == Null)
    ensures Infer(cells, col).Chosen?
    ensures var bits := Infer(cells, col).column.bits;
      bits == col.bits || exists v :: Has(cells, v) && BitLength(Magnitude(v)) == bits
    decreases |cells|
  {
    if cells != [] {
      var c, more := cells[0], cells[1..];
      assert cells == [c] + more;
      assert forall v :: Has(cells, v) <==> c == IntCell(v) || Has(more, v);
      BitsOfSomeRow(more, Merge(col, c).column);
    }
  }

  /** A wider column than one byte, two or four has a row that needs it. */
  lemma {:induction false} ColumnWidthIsNeeded(cells: seq<Cell>, w: nat)
    requires IntColumn(cells) && (w == 1 || w == 2 || w == 4)
    ensures Infer(cells, EMPTY).Chosen?
    ensures var col := Infer(cells, EMPTY).column;
      SelectWidth(col.bits, col.unsigned) > w ==>
        exists v :: Has(cells, v) && Magnitude(v) >= Pow2(if col.unsigned then 8 * w else 8 * w - 1)
  {
    BitsOfSomeRow(cells, EMPTY);
    var col := Infer(cells, EMPTY).column;
    if SelectWidth(col.bits, col.unsigned) > w {
      var v :| Has(cells, v) && BitLength(Magnitude(v)) == col.bits;
      BitLengthFits(Magnitude(v), if col.unsigned then 8 * w else 8 * w - 1);
    }
  }

  /** The values for which one width and flag work: no -1 and all signed, or all unsigned. */
  ghost predicate OneSign(cells: seq<Cell>) {
    || (forall v :: Has(cells, v) ==> v != -1 && -TWO63 <= v < TWO63)
    || (forall v :: Has(cells, v) ==> 0 <= v < TWO64)
  }

  /** Storing the rows of an integer column leaves the flag that was inferred for it. */
  lemma {:induction false} FlagStays(cells: seq<Cell>)
    requires IntColumn(cells)
    ensures Infer(cells, EMPTY).Chosen?
    ensures var col := Infer(cells, EMPTY).column;
      forall v :: Has(cells, v) ==>
        FlagAfter(col.unsigned, v, SelectWidth(col.bits, col.unsigned)) == col.unsigned
  {
    InferInts(cells, EMPTY);
    var col := Infer(cells, EMPTY).column;
    var w := SelectWidth(col.bits, col.unsigned);
    forall v | Has(cells, v) ensures FlagAfter(col.unsigned, v, w) == col.unsigned {
      if !col.unsigned && v >= 0 {
        assert !LooksOverflown(v);
        WidthFits(v, col.bits);
        UnsignedFits(v, w);
      }
    }
  }

  /**
    The one width and flag inferred for an integer column decode every row back to its value
    exactly when the column is of one sign in this sense; storing a row does not change the flag.
   */
  lemma {:induction false} BulkRoundTrip(cells: seq<Cell>)
    requires IntColumn(cells)
    ensures Infer(cells, EMPTY).Chosen?
    ensures var col := Infer(cells, EMPTY).column;
      var w := SelectWidth(col.bits, col.unsigned);
      && (forall v :: Has(cells, v) ==> FlagAfter(col.unsigned, v, w) == col.unsigned)
      && ((forall v :: Has(cells, v) ==> Decode(Stored(Converted(v), w), col.unsigned) == v) <==> OneSign(cells))
  {
    InferInts(cells, EMPTY);
    FlagStays(cells);
    var col := Infer(cells, EMPTY).column;
    var w := SelectWidth(col.bits, col.unsigned);
    if col.unsigned {
      var over :| Has(cells, over) && LooksOverflown(over);
      forall v | Has(cells, v) && 0 <= v < TWO64 && (exists u :: Has(cells, u) && u >= TWO63)
        ensures Decode(Stored(Converted(v), w), true) == v
      {
        var u :| Has(cells, u) && u >= TWO63;
        WideColumn(u, col);
        UnsignedFits(v, 8);
      }
      forall v | Has(cells, v) && !(0 <= v < TWO64) ensures Decode(Stored(Converted(v), w), true) != v {
        DecodeInRange(Converted(v), w);
      }
    } else {
      forall v | Has(cells, v) ensures Decode(Stored(Converted(v), w), false) == v {
        assert !LooksOverflown(v);
        WidthFits(v, col.bits);
        SignedFits(v, w);
      }
    }
  }

  lemma {:induction false} WideColumn(u: int, col: Column)
    requires u >= TWO63 && BitLength(Magnitude(u)) <= col.bits
    ensures SelectWidth(col.bits, col.unsigned) == 8 && Pow256(8) == TWO64
  {
    PowersOfTwo();
    BitLengthFits(u, 63);
    Powers();
  }

  lemma {:induction false} DecodeInRange(v: int, w: nat)
    requires w == 1 || w == 2 || w == 4 || w == 8
    ensures 0 <= Decode(Stored(v, w), true) < TWO64
  {
    DecodeStored(v, w, true);
    Powers();
  }
}
