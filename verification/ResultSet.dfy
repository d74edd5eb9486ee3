/**
  Fetching from a buffered result: mariadb_cursor.c and the fetch methods and scroll of
  cursors.py.  The stored result has its own position; the cursor counts rows beside it.
 */
module ResultSet {
  import opened Arith
  import opened Seqs

  /** A Python integer that fits a long long. */
  type Size = n: int | -TWO63 <= n < TWO63

  datatype Op =
    | FetchOne
    | FetchMany(size: Size)
    | FetchAll
    | Scroll(value: int, absolute: bool)

  /** The conversion of a row limit to uint64_t: -1 becomes the largest limit there is. */
  function Limit(n: Size): nat {
    if n < 0 then n + TWO64 else n
  }

  function Min(a: nat, b: nat): nat {
    if a < b then a else b
  }

  datatype Cursor<!T> = Cursor(rows: seq<T>, position: nat, rowNumber: nat, arraySize: Size, buffered: bool) {
    predicate InSync() {
      position == rowNumber <= |rows| < TWO64
    }

    /** The rows a fetch of at most `n` rows gives, and the cursor after it. */
    function Taken(n: nat): seq<T>
      requires position <= |rows|
    {
      rows[position..Min(position + n, |rows|)]
    }

    function Advance(n: nat): Cursor<T>
      requires position <= |rows|
    {
      var k := Min(position + n, |rows|);
      this.(position := k, rowNumber := rowNumber + (k - position))
    }

    /** A scroll to a position that exists; any other scroll is refused. */
    function ScrollTo(value: int, absolute: bool): Cursor<T> {
      if !buffered then this
      else if absolute then
        if 0 <= value < |rows| then this.(position := value, rowNumber := value) else this
      else if value != 0 && 0 <= rowNumber + value <= |rows| then
        this.(position := rowNumber + value, rowNumber := rowNumber + value)
      else this
    }

    function LimitOf(op: Op): nat {
      match op
      case FetchOne => 1
      case FetchMany(n) => Limit(if n == 0 then arraySize else n)
      case FetchAll => Limit(-1)
      case Scroll(_, _) => 0
    }

    function Step(op: Op): Cursor<T>
      requires position <= |rows|
    {
      match op
      case Scroll(value, absolute) => ScrollTo(value, absolute)
      case _ => Advance(LimitOf(op))
    }
  }

  function Run<T>(c: Cursor<T>, ops: seq<Op>): Cursor<T>
    requires c.InSync()
    decreases |ops|
  {
    if ops == [] then c else Run(c.Step(ops[0]), ops[1..])
  }

  function Fetched<T>(c: Cursor<T>, ops: seq<Op>): seq<T>
    requires c.InSync()
    decreases |ops|
  {
    if ops == [] then [] else c.Taken(c.LimitOf(ops[0])) + Fetched(c.Step(ops[0]), ops[1..])
  }

  /** Any interleaving of fetches and scrolls keeps the row number equal to the stored position. */
  lemma {:induction false} RunStaysInSync<T>(c: Cursor<T>, ops: seq<Op>)
    requires c.InSync()
    ensures Run(c, ops).InSync() && Run(c, ops).rows == c.rows
    ensures Run(c, ops).buffered == c.buffered && Run(c, ops).arraySize == c.arraySize
    decreases |ops|
  {
    if ops != [] {
      RunStaysInSync(c.Step(ops[0]), ops[1..]);
    }
  }

  ghost predicate NoScroll(ops: seq<Op>) {
    forall i :: 0 <= i < |ops| ==> !ops[i].Scroll?
  }

  /**
    Without scrolls the fetched rows are the result from the start to where the cursor is,
    however the fetches are chunked: no row is lost, repeated or reordered at a boundary.
   */
  lemma {:induction false} NoRowLost<T>(c: Cursor<T>, ops: seq<Op>)
    requires c.InSync() && NoScroll(ops)
    ensures c.position <= Run(c, ops).position <= |c.rows|
    ensures Fetched(c, ops) == c.rows[c.position..Run(c, ops).position]
    decreases |ops|
  {
    if ops != [] {
      FetchTakes(c, ops[0]);
      var d, rest := c.Step(ops[0]), ops[1..];
      assert NoScroll(rest);
      NoRowLost(d, rest);
      Join(c.rows, c.position, d.position, Run(d, rest).position);
    }
  }

  /** A fetch gives the rows between the old and the new position. */
  lemma {:induction false} FetchTakes<T>(c: Cursor<T>, op: Op)
    requires c.InSync() && !op.Scroll?
    ensures var d := c.Step(op);
      && d.InSync() && d.rows == c.rows && c.position <= d.position
      && c.Taken(c.LimitOf(op)) == c.rows[c.position..d.position]
  {
  }

  /** The limit -1 means all rows, whatever the result: fetchall leaves nothing behind. */
  lemma {:induction false} AllMeansAll<T>(c: Cursor<T>, ops: seq<Op>)
    requires c.InSync() && NoScroll(ops) && ops != [] && ops[|ops| - 1] == FetchAll
    ensures Fetched(c, ops) == c.rows[c.position..] && Run(c, ops).position == |c.rows|
    decreases |ops|
  {
    NoRowLost(c, ops);
    LastIsAll(c, ops);
  }

  lemma {:induction false} LastIsAll<T>(c: Cursor<T>, ops: seq<Op>)
    requires c.InSync() && ops != [] && ops[|ops| - 1] == FetchAll
    ensures Run(c, ops).position == |c.rows|
    decreases |ops|
  {
    if |ops| == 1 {
      assert ops[1..] == [];
    } else {
      LastIsAll(c.Step(ops[0]), ops[1..]);
    }
  }

  /** Scrolling back by as many rows as a run of fetches gave undoes the run. */
  lemma {:induction false} ScrollBackUndoes<T>(c: Cursor<T>, ops: seq<Op>)
    requires c.InSync() && c.buffered && NoScroll(ops) && Fetched(c, ops) != []
    ensures Run(c, ops).ScrollTo(-|Fetched(c, ops)|, false) == c
    ensures Run(c, ops).ScrollTo(c.rowNumber, true) == c
  {
    NoRowLost(c, ops);
    RunStaysInSync(c, ops);
  }

  // --- the methods -----------------------------------------------------------------------------------------

  class ResultCursor<T> {
    const fieldCount: nat
    const buffered: bool
    const rows: seq<T>           // the rows of the result
    var position: nat            // where the result is read next
    var rowNumber: nat           // row_number
    var arraySize: Size

    ghost function Abs(): Cursor<T>
      reads this
    {
      Cursor(rows, position, rowNumber, arraySize, buffered)
    }

    ghost predicate Valid()
      reads this
    {
      Abs().InSync() && (fieldCount == 0 ==> rows == [])
    }

    /** The cursor after execute(): row_number starts at 0. */
    constructor (fieldCount: nat, rows: seq<T>, arraySize: Size, buffered: bool)
      requires |rows| < TWO64 && (fieldCount == 0 ==> rows == [])
      ensures Valid() && Abs() == Cursor(rows, 0, 0, arraySize, buffered) && this.fieldCount == fieldCount
    {
      this.fieldCount, this.rows, this.arraySize, this.buffered := fieldCount, rows, arraySize, buffered;
      position, rowNumber := 0, 0;
    }

    /** MrdbCursor_fetchinternal: the next row, if there is one. */
    method FetchInternal() returns (end: bool)
      requires position <= |rows|
      modifies this`position
      ensures end == (old(position) == |rows|)
      ensures position == old(position) + if end then 0 else 1
    {
      end := position == |rows|;
      if !end {
        position := position + 1;
      }
    }

    /** MrdbCursor_fetchone: the row is empty when no more data is available. */
    method DoFetchOne() returns (ok: bool, row: seq<T>)
      requires Valid()
      modifies this`position, this`rowNumber
      ensures Valid() && Abs() == old(Abs()).Step(FetchOne)
      ensures if old(position) < |rows| then row == [rows[old(position)]] && position == old(position) + 1
              else row == [] && position == old(position)
      ensures ok <==> fieldCount > 0
    {
      if fieldCount == 0 {
        return false, [];
      }
      var end := FetchInternal();
      if end {
        return true, [];
      }
      rowNumber := rowNumber + 1;
      return true, [rows[position - 1]];
    }

    /** MrdbCursor_fetchrows. */
    method FetchRows(n: Size) returns (ok: bool, list: seq<T>)
      requires Valid()
      modifies this`position, this`rowNumber
      ensures Valid() && Abs() == old(Abs()).Advance(Limit(n)) && list == old(Abs()).Taken(Limit(n))
      ensures ok <==> fieldCount > 0
    {
      ok, list := fieldCount > 0, [];
      if !ok {
        return;
      }
      var rowCount := Limit(n);
      var i := 0;
      while i < rowCount
        invariant 0 <= i <= rowCount
        invariant position == old(position) + i <= |rows| && rowNumber == old(rowNumber) + i
        invariant list == rows[old(position)..position]
      {
        var end := FetchInternal();
        if end {
          break;
        }
        rowNumber := rowNumber + 1;
        Extend(rows, old(position), position - 1);
        list := list + [rows[position - 1]];
        i := i + 1;
      }
    }

    method DoFetchMany(size: Size) returns (ok: bool, list: seq<T>)
      requires Valid()
      modifies this`position, this`rowNumber
      ensures Valid() && Abs() == old(Abs()).Step(FetchMany(size))
      ensures list == old(Abs()).Taken(old(Abs()).LimitOf(FetchMany(size)))
      ensures var n := if size == 0 then arraySize else size;
        && position == old(position) + |list| && list == rows[old(position)..position]
        && |list| == Min(if n < 0 then TWO64 + n else n, |rows| - old(position))
      ensures ok <==> fieldCount > 0
    {
      ok, list := FetchRows(if size == 0 then arraySize else size);
    }

    method DoFetchAll() returns (ok: bool, list: seq<T>)
      requires Valid()
      modifies this`position, this`rowNumber
      ensures Valid() && Abs() == old(Abs()).Step(FetchAll) && list == rows[old(position)..]
      ensures ok <==> fieldCount > 0
    {
      ok, list := FetchRows(-1);
    }

    method DoScroll(value: int, mode: string) returns (ok: bool)
      requires Valid()
      modifies this`position, this`rowNumber
      ensures Valid()
      ensures mode == "absolute" || mode == "relative" ==> Abs() == old(Abs()).Step(Scroll(value, mode == "absolute"))
      ensures ok ==> buffered && rowNumber == if mode == "absolute" then value else old(rowNumber) + value
      ensures !ok ==> Abs() == old(Abs())
      ensures mode == "absolute" ==> (ok <==> buffered && 0 <= value < |rows|)
      ensures mode == "relative" && fieldCount > 0 ==>
          (ok <==> buffered && value != 0 && 0 <= old(rowNumber) + value <= |rows|)
    {
      if fieldCount == 0 || !buffered || (mode != "absolute" && mode != "relative") {
        return false;
      }
      if value == 0 && mode != "absolute" {
        return false;
      }
      var newPos: int;
      if mode == "relative" {
        if rowNumber + value < 0 || rowNumber + value > |rows| {
          return false;
        }
        newPos := rowNumber + value;
      } else {
        if value < 0 || value >= |rows| {
          return false;
        }
        newPos := value;
      }
      position := newPos;
      rowNumber := newPos;
      ok := true;
    }
  }
}
