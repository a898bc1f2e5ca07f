/** Areas of effect as matrices (src/combat.cpp, src/combat.h): rotated, mirrored and flipped copies,
    the cone builder, and the tiles that an area covers.

    Quarter turns are exact here; the source rounds products with sines and cosines of an approximated
    right angle. */
module CombatAreas {
  import opened Common

  const UINT16 := 0x1_0000

  type UInt16 = x: int | 0 <= x < UINT16

  datatype Direction = North | East | South | West | SouthWest | SouthEast | NorthWest | NorthEast

  datatype MatrixOperation = Copy | Mirror | Flip | Rotate90 | Rotate180 | Rotate270

  datatype Offset = Offset(x: int, y: int)

  /** Where an offset from the centre goes. */
  function Moved(op: MatrixOperation, o: Offset): Offset {
    match op
    case Copy => o
    case Mirror => Offset(-o.x, o.y)
    case Flip => Offset(o.x, -o.y)
    case Rotate90 => Offset(-o.y, o.x)
    case Rotate180 => Offset(-o.x, -o.y)
    case Rotate270 => Offset(o.y, -o.x)
  }

  function Max(a: nat, b: nat): nat { if a < b then b else a }

  function At(p: Position, o: Offset): Position {
    Position((p.x + o.x) % UINT16, (p.y + o.y) % UINT16, p.z)
  }

  class MatrixArea {
    var centerX: UInt16
    var centerY: UInt16
    const data: array2<bool>

    constructor (rows: nat, cols: nat)
      ensures centerX == centerY == 0 && fresh(data) && data.Length0 == rows && data.Length1 == cols
      ensures forall y, x | 0 <= y < rows && 0 <= x < cols :: !data[y, x]
    {
      centerX, centerY := 0, 0;
      data := new bool[rows, cols]((y, x) => false);
    }

    method SetValue(row: nat, col: nat, value: bool)
      requires row < data.Length0 && col < data.Length1
      modifies data
      ensures forall y, x | 0 <= y < data.Length0 && 0 <= x < data.Length1 ::
        data[y, x] == if y == row && x == col then value else old(data[y, x])
    {
      data[row, col] := value;
    }

    method SetCenter(y: int, x: int)
      modifies this`centerX, this`centerY
      ensures centerY == y % UINT16 && centerX == x % UINT16
    {
      centerX, centerY := x % UINT16, y % UINT16;
    }

    /** The area covers the cell at this offset from its centre. */
    ghost predicate Covers(o: Offset)
      reads this, data
    {
      var x, y := o.x + centerX, o.y + centerY;
      0 <= y < data.Length0 && 0 <= x < data.Length1 && data[y, x]
    }

    /** The position lies at an offset that the area covers, with coordinates of 16 bits. */
    ghost predicate Reaches(p: Position, targetPos: Position)
      reads this, data
    {
      exists o :: Covers(o) && p == At(targetPos, o)
    }

    ghost predicate Blank()
      reads data
    {
      forall y, x | 0 <= y < data.Length0 && 0 <= x < data.Length1 :: !data[y, x]
    }

    ghost predicate CenterInside()
      reads this
    {
      && data.Length0 <= UINT16 && data.Length1 <= UINT16
      && (data.Length0 > 0 && data.Length1 > 0 ==> centerX < data.Length1 && centerY < data.Length0)
    }
  }

  predicate Rotation(op: MatrixOperation) {
    op == Rotate90 || op == Rotate180 || op == Rotate270
  }

  function Undo(op: MatrixOperation): MatrixOperation {
    match op
    case Rotate90 => Rotate270
    case Rotate270 => Rotate90
    case _ => op
  }

  lemma UndoMoved(op: MatrixOperation, o: Offset)
    ensures Moved(Undo(op), Moved(op, o)) == o && Moved(op, Moved(Undo(op), o)) == o
  {
  }

  /** Four quarter turns are none; half a turn is two; a half turn is a mirror and a flip. */
  lemma Turns(o: Offset)
    ensures Moved(Rotate90, Moved(Rotate90, o)) == Moved(Rotate180, o)
    ensures Moved(Rotate90, Moved(Rotate180, o)) == Moved(Rotate270, o)
    ensures Moved(Rotate90, Moved(Rotate270, o)) == o
    ensures Moved(Mirror, Moved(Flip, o)) == Moved(Rotate180, o)
  {
  }

  /** Every cell of the input lands inside a square of twice its longer side. */
  lemma TurnedInside(op: MatrixOperation, x: nat, y: nat, centerX: nat, centerY: nat, cols: nat, rows: nat)
    requires Rotation(op) && x < cols && y < rows && centerX < cols && centerY < rows
    ensures var side, o := 2 * Max(cols, rows), Moved(op, Offset(x - centerX, y - centerY));
      0 <= o.x + side / 2 - 1 < side && 0 <= o.y + side / 2 - 1 < side
  {
  }

  /** The cell (u, v) of the output comes from a cell in the first `x` columns of the input, or the
      first `y` cells of the next, that is set. */
  ghost predicate From(input: MatrixArea, op: MatrixOperation, rotateCenter: int, u: int, v: int, x: int, y: int)
    reads input, input.data
  {
    var o := Moved(Undo(op), Offset(u - rotateCenter, v - rotateCenter));
    var i, j := o.x + input.centerX, o.y + input.centerY;
    0 <= i < input.data.Length1 && 0 <= j < input.data.Length0 && (i < x || (i == x && j < y)) && input.data[j, i]
  }

  ghost predicate Turned(input: MatrixArea, output: MatrixArea, op: MatrixOperation, rotateCenter: int, x: int, y: int)
    reads input, input.data, output.data
  {
    forall v, u {:trigger output.data[v, u]} | 0 <= v < output.data.Length0 && 0 <= u < output.data.Length1 ::
      output.data[v, u] <==> From(input, op, rotateCenter, u, v, x, y)
  }

  ghost predicate Shaped(input: MatrixArea, output: MatrixArea)
    reads input
  {
    && input.CenterInside() && input.data.Length0 > 0 && input.data != output.data && input != output
    && output.data.Length0 == output.data.Length1 == 2 * Max(input.data.Length1, input.data.Length0) <= UINT16
  }

  /** One cell of the input is written to its place. */
  method RotateCell(input: MatrixArea, output: MatrixArea, op: MatrixOperation, rotateCenter: int, x: nat, y: nat)
    requires Rotation(op) && Shaped(input, output) && rotateCenter == output.data.Length1 / 2 - 1
    requires x < input.data.Length1 && y < input.data.Length0 && Turned(input, output, op, rotateCenter, x, y)
    modifies output.data
    ensures Turned(input, output, op, rotateCenter, x, y + 1)
  {
    var i := Offset(x - input.centerX, y - input.centerY);
    var o := Moved(op, i);
    TurnedInside(op, x, y, input.centerX, input.centerY, input.data.Length1, input.data.Length0);
    output.SetValue(o.y + rotateCenter, o.x + rotateCenter, input.data[y, x]);
    forall v, u | 0 <= v < output.data.Length0 && 0 <= u < output.data.Length1
      ensures output.data[v, u] <==> From(input, op, rotateCenter, u, v, x, y + 1)
    {
      FromNext(input, op, rotateCenter, u, v, x, y);
      assert old(output.data[v, u]) <==> From(input, op, rotateCenter, u, v, x, y);
    }
  }

  /** One more cell of the input concerns one cell of the output. */
  lemma FromNext(input: MatrixArea, op: MatrixOperation, rotateCenter: int, u: int, v: int, x: nat, y: nat)
    requires Rotation(op) && x < input.data.Length1 && y < input.data.Length0
    ensures var o := Moved(op, Offset(x - input.centerX, y - input.centerY));
      From(input, op, rotateCenter, u, v, x, y + 1) <==>
        if u == o.x + rotateCenter && v == o.y + rotateCenter then input.data[y, x]
        else From(input, op, rotateCenter, u, v, x, y)
  {
    UndoMoved(op, Offset(x - input.centerX, y - input.centerY));
    UndoMoved(op, Offset(u - rotateCenter, v - rotateCenter));
  }

  /** The rotating part of copyArea. */
  method Rotate(input: MatrixArea, output: MatrixArea, op: MatrixOperation)
    requires Rotation(op) && Shaped(input, output) && output.Blank()
    modifies output, output.data
    ensures forall o :: output.Covers(o) <==> input.Covers(Moved(Undo(op), o))
    ensures output.Blank() || output.CenterInside()
  {
    var rotateCenter := output.data.Length1 / 2 - 1;
    NoneTurned(input, output, op, rotateCenter);
    for x := 0 to input.data.Length1
      invariant Turned(input, output, op, rotateCenter, x, 0)
    {
      RotateColumn(input, output, op, rotateCenter, x);
    }
    output.SetCenter(rotateCenter, rotateCenter);
    AllTurned(input, output, op);
  }

  lemma NoneTurned(input: MatrixArea, output: MatrixArea, op: MatrixOperation, rotateCenter: int)
    requires output.Blank()
    ensures Turned(input, output, op, rotateCenter, 0, 0)
  {
  }

  /** The inner loop. */
  method RotateColumn(input: MatrixArea, output: MatrixArea, op: MatrixOperation, rotateCenter: int, x: nat)
    requires Rotation(op) && Shaped(input, output) && rotateCenter == output.data.Length1 / 2 - 1 &&
      x < input.data.Length1
    requires Turned(input, output, op, rotateCenter, x, 0)
    modifies output.data
    ensures Turned(input, output, op, rotateCenter, x + 1, 0)
  {
    for y := 0 to input.data.Length0
      invariant Turned(input, output, op, rotateCenter, x, y)
    {
      RotateCell(input, output, op, rotateCenter, x, y);
    }
    NextColumn(input, output, op, rotateCenter, x);
  }

  lemma NextColumn(input: MatrixArea, output: MatrixArea, op: MatrixOperation, rotateCenter: int, x: nat)
    requires Turned(input, output, op, rotateCenter, x, input.data.Length0)
    ensures Turned(input, output, op, rotateCenter, x + 1, 0)
  {
    forall v, u | 0 <= v < output.data.Length0 && 0 <= u < output.data.Length1
      ensures output.data[v, u] <==> From(input, op, rotateCenter, u, v, x + 1, 0)
    {
      assert output.data[v, u] <==> From(input, op, rotateCenter, u, v, x, input.data.Length0);
    }
  }

  lemma AllTurned(input: MatrixArea, output: MatrixArea, op: MatrixOperation)
    requires Rotation(op) && Shaped(input, output)
    requires output.centerX == output.centerY == output.data.Length1 / 2 - 1
    requires Turned(input, output, op, output.centerX, input.data.Length1, 0)
    ensures forall o :: output.Covers(o) <==> input.Covers(Moved(Undo(op), o))
  {
    forall o ensures output.Covers(o) <==> input.Covers(Moved(Undo(op), o)) {
      OneTurned(input, output, op, o);
    }
  }

  lemma OneTurned(input: MatrixArea, output: MatrixArea, op: MatrixOperation, o: Offset)
    requires Rotation(op) && Shaped(input, output)
    requires output.centerX == output.centerY == output.data.Length1 / 2 - 1
    requires Turned(input, output, op, output.centerX, input.data.Length1, 0)
    ensures output.Covers(o) <==> input.Covers(Moved(Undo(op), o))
  {
    var u, v := o.x + output.centerX, o.y + output.centerY;
    CoveredInside(input, output, op, o);
    if 0 <= v < output.data.Length0 && 0 <= u < output.data.Length1 {
      assert Offset(u - output.centerX, v - output.centerY) == o;
      assert output.data[v, u] <==> From(input, op, output.centerX, u, v, input.data.Length1, 0);
    }
  }

  lemma CoveredInside(input: MatrixArea, output: MatrixArea, op: MatrixOperation, o: Offset)
    requires Rotation(op) && Shaped(input, output)
    requires output.centerX == output.centerY == output.data.Length1 / 2 - 1
    ensures input.Covers(Moved(Undo(op), o)) ==>
      0 <= o.y + output.centerY < output.data.Length0 && 0 <= o.x + output.centerX < output.data.Length1
  {
    var i := Moved(Undo(op), o);
    UndoMoved(op, o);
    if input.Covers(i) {
      TurnedInside(op, i.x + input.centerX, i.y + input.centerY, input.centerX, input.centerY, input.data.Length1,
        input.data.Length0);
    }
  }

  // mirrored and flipped copies: the data sits in the upper left corner of the output

  ghost predicate Fits(input: MatrixArea, output: MatrixArea)
    reads input
  {
    && input.data != output.data && input != output
    && input.data.Length0 <= output.data.Length0 && input.data.Length1 <= output.data.Length1
  }

  /** The output is the input read from right to left, in its rows up to `y` and `x` cells of the next. */
  ghost predicate Mirrored(input: MatrixArea, output: MatrixArea, y: int, x: int)
    reads input.data, output.data
  {
    forall v, u {:trigger output.data[v, u]} | 0 <= v < output.data.Length0 && 0 <= u < output.data.Length1 ::
      output.data[v, u] <==>
        (u < input.data.Length1 && v < input.data.Length0 && (v < y || (v == y && u < x)) &&
          input.data[v, input.data.Length1 - 1 - u])
  }

  ghost predicate Flipped(input: MatrixArea, output: MatrixArea, x: int, y: int)
    reads input.data, output.data
  {
    forall v, u {:trigger output.data[v, u]} | 0 <= v < output.data.Length0 && 0 <= u < output.data.Length1 ::
      output.data[v, u] <==>
        (u < input.data.Length1 && v < input.data.Length0 && (u < x || (u == x && v < y)) &&
          input.data[input.data.Length0 - 1 - v, u])
  }

  function LeftRight(shift: int, o: Offset): Offset {
    Offset(shift - o.x, o.y)
  }

  function UpDown(shift: int, o: Offset): Offset {
    Offset(o.x, shift - o.y)
  }

  method MirrorCell(input: MatrixArea, output: MatrixArea, y: nat, rx: nat, x: nat)
    requires Fits(input, output) && Mirrored(input, output, y, rx) && y < input.data.Length0 &&
      rx + x == input.data.Length1 - 1
    modifies output.data
    ensures Mirrored(input, output, y, rx + 1)
  {
    output.SetValue(y, rx, input.data[y, x]);
  }

  method FlipCell(input: MatrixArea, output: MatrixArea, x: nat, ry: nat, y: nat)
    requires Fits(input, output) && Flipped(input, output, x, ry) && x < input.data.Length1 &&
      ry + y == input.data.Length0 - 1
    modifies output.data
    ensures Flipped(input, output, x, ry + 1)
  {
    output.SetValue(ry, x, input.data[y, x]);
  }

  method MirrorArea(input: MatrixArea, output: MatrixArea)
    requires Fits(input, output) && output.Blank()
    modifies output, output.data
    ensures forall o: Offset ::
      output.Covers(LeftRight(input.data.Length1 - 1 - input.centerX - output.centerX, o)) <==> input.Covers(o)
    ensures output.centerY == input.centerY && output.centerX == (input.data.Length0 - 1 - input.centerX) % UINT16
  {
    for y := 0 to input.data.Length0
      invariant Mirrored(input, output, y, 0)
    {
      var rx := 0;
      var x := input.data.Length1 - 1;
      while x >= 0
        invariant rx + x == input.data.Length1 - 1 && x >= -1 && Mirrored(input, output, y, rx)
      {
        MirrorCell(input, output, y, rx, x);
        rx := rx + 1;
        x := x - 1;
      }
    }
    output.SetCenter(input.centerY, (input.data.Length0 - 1) - input.centerX);
    MirrorCovers(input, output);
  }

  lemma MirrorCovers(input: MatrixArea, output: MatrixArea)
    requires Fits(input, output) && Mirrored(input, output, input.data.Length0, 0) && output.centerY == input.centerY
    ensures forall o: Offset ::
      output.Covers(LeftRight(input.data.Length1 - 1 - input.centerX - output.centerX, o)) <==> input.Covers(o)
  {
    forall o: Offset
      ensures output.Covers(LeftRight(input.data.Length1 - 1 - input.centerX - output.centerX, o)) <==> input.Covers(o)
    {
      OneMirrored(input, output, o, LeftRight(input.data.Length1 - 1 - input.centerX - output.centerX, o));
    }
  }

  lemma OneMirrored(input: MatrixArea, output: MatrixArea, i: Offset, o: Offset)
    requires Fits(input, output) && Mirrored(input, output, input.data.Length0, 0)
    requires o.x + output.centerX == input.data.Length1 - 1 - (i.x + input.centerX) &&
      o.y + output.centerY == i.y + input.centerY
    ensures output.Covers(o) <==> input.Covers(i)
  {
    var u, v := o.x + output.centerX, o.y + output.centerY;
    if 0 <= v < output.data.Length0 && 0 <= u < output.data.Length1 {
      assert output.data[v, u] <==>
        (u < input.data.Length1 && v < input.data.Length0 && input.data[v, input.data.Length1 - 1 - u]);
    }
  }

  method FlipArea(input: MatrixArea, output: MatrixArea)
    requires Fits(input, output) && output.Blank()
    modifies output, output.data
    ensures forall o: Offset ::
      output.Covers(UpDown(input.data.Length0 - 1 - input.centerY - output.centerY, o)) <==> input.Covers(o)
    ensures output.centerX == input.centerX && output.centerY == (input.data.Length1 - 1 - input.centerY) % UINT16
  {
    for x := 0 to input.data.Length1
      invariant Flipped(input, output, x, 0)
    {
      var ry := 0;
      var y := input.data.Length0 - 1;
      while y >= 0
        invariant ry + y == input.data.Length0 - 1 && y >= -1 && Flipped(input, output, x, ry)
      {
        FlipCell(input, output, x, ry, y);
        ry := ry + 1;
        y := y - 1;
      }
    }
    output.SetCenter((input.data.Length1 - 1) - input.centerY, input.centerX);
    FlipCovers(input, output);
  }

  lemma FlipCovers(input: MatrixArea, output: MatrixArea)
    requires Fits(input, output) && Flipped(input, output, input.data.Length1, 0) && output.centerX == input.centerX
    ensures forall o: Offset ::
      output.Covers(UpDown(input.data.Length0 - 1 - input.centerY - output.centerY, o)) <==> input.Covers(o)
  {
    forall o: Offset
      ensures output.Covers(UpDown(input.data.Length0 - 1 - input.centerY - output.centerY, o)) <==> input.Covers(o)
    {
      OneFlipped(input, output, o, UpDown(input.data.Length0 - 1 - input.centerY - output.centerY, o));
    }
  }

  lemma OneFlipped(input: MatrixArea, output: MatrixArea, i: Offset, o: Offset)
    requires Fits(input, output) && Flipped(input, output, input.data.Length1, 0)
    requires o.y + output.centerY == input.data.Length0 - 1 - (i.y + input.centerY) &&
      o.x + output.centerX == i.x + input.centerX
    ensures output.Covers(o) <==> input.Covers(i)
  {
    var u, v := o.x + output.centerX, o.y + output.centerY;
    if 0 <= v < output.data.Length0 && 0 <= u < output.data.Length1 {
      assert output.data[v, u] <==>
        (u < input.data.Length1 && v < input.data.Length0 && input.data[input.data.Length0 - 1 - v, u]);
    }
  }

  /** How far the mirrored (flipped) copy lies off, since its centre is computed with the length of the
      wrong side, in 16 bits. */
  function Shift(center: int, side: int, other: int): int {
    side - 1 - center - (other - 1 - center) % UINT16
  }

  lemma ShiftExact(center: int, side: int, other: int)
    requires 0 <= center < side <= UINT16 && 0 < other <= UINT16
    ensures Shift(center, side, other) == 0 <==> side == other
    ensures Shift(center, side, other) == side - other - if center < other then 0 else UINT16
  {
  }

  /** No area that covers anything looks the same when shifted. */
  lemma {:induction false} NoShift(a: MatrixArea, shift: int, o: Offset)
    requires shift != 0 && a.Covers(o) && forall p: Offset ::
      a.Covers(p) <==> a.Covers(LeftRight(shift, LeftRight(0, p)))
    ensures false
    decreases if shift > 0 then a.data.Length1 - (o.x + a.centerX) else o.x + a.centerX
  {
    NoShift(a, shift, LeftRight(shift, LeftRight(0, o)));
  }

  /** The mirrored copy of an area that covers something is its mirror image exactly when the area is
      square. */
  lemma MirrorExact(input: MatrixArea, output: MatrixArea, some: Offset)
    requires input.CenterInside() && input.Covers(some)
    requires output.centerX == (input.data.Length0 - 1 - input.centerX) % UINT16
    requires forall o: Offset ::
      output.Covers(LeftRight(input.data.Length1 - 1 - input.centerX - output.centerX, o)) <==> input.Covers(o)
    ensures (forall o: Offset :: output.Covers(LeftRight(0, o)) <==> input.Covers(o)) <==>
      input.data.Length0 == input.data.Length1
  {
    var shift := Shift(input.centerX, input.data.Length1, input.data.Length0);
    ShiftExact(input.centerX, input.data.Length1, input.data.Length0);
    if shift != 0 && forall o: Offset :: output.Covers(LeftRight(0, o)) <==> input.Covers(o) {
      forall p: Offset ensures input.Covers(p) <==> input.Covers(LeftRight(-shift, LeftRight(0, p))) {
        assert LeftRight(shift, p) == LeftRight(0, LeftRight(-shift, LeftRight(0, p)));
      }
      NoShift(input, -shift, some);
    }
  }

  lemma {:induction false} NoShiftUp(a: MatrixArea, shift: int, o: Offset)
    requires shift != 0 && a.Covers(o) && forall p: Offset :: a.Covers(p) <==> a.Covers(UpDown(shift, UpDown(0, p)))
    ensures false
    decreases if shift > 0 then a.data.Length0 - (o.y + a.centerY) else o.y + a.centerY
  {
    NoShiftUp(a, shift, UpDown(shift, UpDown(0, o)));
  }

  /** So does the flipped copy. */
  lemma FlipExact(input: MatrixArea, output: MatrixArea, some: Offset)
    requires input.CenterInside() && input.Covers(some)
    requires output.centerY == (input.data.Length1 - 1 - input.centerY) % UINT16
    requires forall o: Offset ::
      output.Covers(UpDown(input.data.Length0 - 1 - input.centerY - output.centerY, o)) <==> input.Covers(o)
    ensures (forall o: Offset :: output.Covers(UpDown(0, o)) <==> input.Covers(o)) <==>
            input.data.Length0 == input.data.Length1
  {
    var shift := Shift(input.centerY, input.data.Length0, input.data.Length1);
    ShiftExact(input.centerY, input.data.Length0, input.data.Length1);
    if shift != 0 && forall o: Offset :: output.Covers(UpDown(0, o)) <==> input.Covers(o) {
      forall p: Offset ensures input.Covers(p) <==> input.Covers(UpDown(-shift, UpDown(0, p))) {
        assert UpDown(shift, p) == UpDown(0, UpDown(-shift, UpDown(0, p)));
      }
      NoShiftUp(input, -shift, some);
    }
  }

  // areas from lists of numbers: 1 and 3 set the cell, 2 and 3 mark the centre

  predicate Sets(n: nat) { n == 1 || n == 3 }

  predicate Marks(n: nat) { n == 2 || n == 3 }

  /** Where the last mark is, or -1. */
  function LastMark(list: seq<nat>): (k: int)
    ensures -1 <= k < |list|
    ensures k >= 0 ==> 2 <= list[k] <= 3
    ensures forall j | k < j < |list| :: list[j] < 2 || 3 < list[j]
  {
    if list == [] then -1 else if Marks(list[|list| - 1]) then |list| - 1 else LastMark(list[..|list| - 1])
  }

  // the list holds the matrix row by row

  /** Where row `y` begins. */
  function Row(y: nat, cols: nat): nat {
    if y == 0 then 0 else Row(y - 1, cols) + cols
  }

  lemma {:induction false} RowIsProduct(y: nat, cols: nat)
    ensures Row(y, cols) == y * cols
  {
    if y > 0 {
      RowIsProduct(y - 1, cols);
      assert y * cols == (y - 1) * cols + cols;
    }
  }

  lemma {:induction false} RowOrder(y: nat, v: nat, cols: nat)
    requires y < v
    ensures Row(y, cols) + cols <= Row(v, cols)
  {
    if y < v - 1 {
      RowOrder(y, v - 1, cols);
    }
  }

  lemma IndexUnique(y: nat, x: nat, v: nat, u: nat, cols: nat)
    requires x < cols && u < cols
    ensures Row(y, cols) + x == Row(v, cols) + u ==> y == v && x == u
  {
    if y < v {
      RowOrder(y, v, cols);
    } else if v < y {
      RowOrder(v, y, cols);
    }
  }

  lemma IndexInside(y: nat, x: nat, cols: nat, rows: nat)
    requires x < cols
    ensures y < rows <==> Row(y, cols) + x < Row(rows, cols)
  {
    if y < rows {
      RowOrder(y, rows, cols);
    } else if rows < y {
      RowOrder(rows, y, cols);
    }
  }

  /** The first `k` numbers of the list are in the matrix. */
  ghost predicate Entered(area: MatrixArea, list: seq<nat>, k: nat)
    requires |list| == Row(area.data.Length0, area.data.Length1)
    reads area, area.data
  {
    forall v, u {:trigger area.data[v, u]} | 0 <= v < area.data.Length0 && 0 <= u < area.data.Length1 ::
      area.data[v, u] <==> Row(v, area.data.Length1) + u < k && EntrySets(list, Row(v, area.data.Length1) + u)
  }

  predicate EntrySets(list: seq<nat>, k: int) {
    0 <= k < |list| && Sets(list[k])
  }

  ghost predicate Centred(area: MatrixArea, mark: int)
    reads area
  {
    if mark == -1 then area.centerX == area.centerY == 0
    else
      && area.centerX < area.data.Length1 && area.centerY < area.data.Length0
      && Row(area.centerY, area.data.Length1) + area.centerX == mark
  }

  /** What that comes to: a cell is set if its number is 1 or 3. */
  lemma CellExact(area: MatrixArea, list: seq<nat>, y: nat, x: nat)
    requires |list| == Row(area.data.Length0, area.data.Length1) && Entered(area, list, |list|)
    requires y < area.data.Length0 && x < area.data.Length1
    ensures var k := Row(y, area.data.Length1) + x;
      k < |list| && (area.data[y, x] <==> list[k] == 1 || list[k] == 3)
  {
    IndexInside(y, x, area.data.Length1, area.data.Length0);
  }

  method CreateArea(list: seq<nat>, rows: nat) returns (area: MatrixArea)
    requires 0 < rows <= UINT16 && |list| % rows == 0 && |list| / rows <= UINT16
    ensures fresh(area) && fresh(area.data) && area.data.Length0 == rows && area.data.Length1 == |list| / rows
    ensures |list| == Row(area.data.Length0, area.data.Length1) && Entered(area, list, |list|) &&
      Centred(area, LastMark(list))
    ensures area.CenterInside()
  {
    var cols := |list| / rows;
    area := new MatrixArea(rows, cols);
    RowIsProduct(rows, cols);
    EnterNumbers(area, list);
  }

  /** The loop of createArea. */
  method EnterNumbers(area: MatrixArea, list: seq<nat>)
    requires area.data.Length0 <= UINT16 && area.data.Length1 <= UINT16 &&
      |list| == Row(area.data.Length0, area.data.Length1)
    requires area.Blank() && area.centerX == area.centerY == 0
    modifies area, area.data
    ensures Entered(area, list, |list|) && Centred(area, LastMark(list))
  {
    var x: nat, y: nat := 0, 0;
    RowIsProduct(area.data.Length0, area.data.Length1);
    for k := 0 to |list|
      invariant k == Row(y, area.data.Length1) + x && 0 <= x && 0 <= y
      invariant k < |list| ==> x < area.data.Length1 && y < area.data.Length0
      invariant Entered(area, list, k) && Centred(area, LastMark(list[..k]))
    {
      EnterNumber(area, list, k, y, x);
      x, y := NextCell(y, x, area.data.Length1, area.data.Length0);
    }
    assert list[..|list|] == list;
  }

  method NextCell(y: nat, x: nat, cols: nat, rows: nat) returns (x': nat, y': nat)
    requires x < cols && y < rows
    ensures Row(y', cols) + x' == Row(y, cols) + x + 1
    ensures Row(y', cols) + x' < Row(rows, cols) ==> x' < cols && y' < rows
  {
    x', y' := x + 1, y;
    if cols == x' {
      x', y' := 0, y + 1;
    }
    IndexInside(y', x', cols, rows);
  }

  method EnterNumber(area: MatrixArea, list: seq<nat>, k: nat, y: nat, x: nat)
    requires |list| == Row(area.data.Length0, area.data.Length1) && x < area.data.Length1 <= UINT16 &&
      y < area.data.Length0 <= UINT16
    requires k == Row(y, area.data.Length1) + x < |list| && Entered(area, list, k) && Centred(area, LastMark(list[..k]))
    modifies area, area.data
    ensures Entered(area, list, k + 1) && Centred(area, LastMark(list[..k + 1]))
  {
    assert list[..k + 1][..k] == list[..k];
    EnterCell(area, list, k, y, x);
    if Marks(list[k]) {
      area.SetCenter(y, x);
    }
  }

  method EnterCell(area: MatrixArea, list: seq<nat>, k: nat, y: nat, x: nat)
    requires |list| == Row(area.data.Length0, area.data.Length1) && x < area.data.Length1 <= UINT16 &&
      y < area.data.Length0 <= UINT16
    requires k == Row(y, area.data.Length1) + x < |list| && Entered(area, list, k)
    modifies area.data
    ensures Entered(area, list, k + 1)
  {
    if Sets(list[k]) {
      area.SetValue(y, x, true);
    }
    forall v, u | 0 <= v < area.data.Length0 && 0 <= u < area.data.Length1
      ensures area.data[v, u] <==>
        Row(v, area.data.Length1) + u < k + 1 && EntrySets(list, Row(v, area.data.Length1) + u)
    {
      IndexUnique(y, x, v, u, area.data.Length1);
    }
  }

  // the four (or eight) areas

  /** The cell of the input that a direction's area takes from the area for the north. */
  function Toward(dir: Direction, o: Offset): Offset {
    match dir
    case North => o
    case South => Moved(Rotate180, o)
    case East => Moved(Rotate270, o)
    case West => Moved(Rotate90, o)
    case NorthWest => o
    case NorthEast => Moved(Mirror, o)
    case SouthWest => Moved(Flip, o)
    case SouthEast => Moved(Mirror, Moved(Flip, o))
  }

  datatype Position = Position(x: UInt16, y: UInt16, z: nat)

  const MAP_MAX_LAYERS := 16

  /** The direction of an offset: first by east and west, the diagonals only with their own areas. */
  function DirectionTo(o: Offset, hasExtArea: bool): Direction {
    if hasExtArea && o.x != 0 && o.y != 0 then
      if o.x < 0 then (if o.y < 0 then NorthWest else SouthWest) else (if o.y < 0 then NorthEast else SouthEast)
    else if o.x < 0 then West
    else if o.x > 0 then East
    else if o.y < 0 then North
    else South
  }

  function TurnRight(dir: Direction): Direction {
    match dir
    case North => East
    case East => South
    case South => West
    case West => North
    case NorthEast => SouthEast
    case SouthEast => SouthWest
    case SouthWest => NorthWest
    case NorthWest => NorthEast
  }

  /** With areas for the diagonals the choice of direction turns with the target; without them it does
      for targets straight ahead, but not for diagonal ones. */
  lemma DirectionTurns(o: Offset)
    requires o != Offset(0, 0)
    ensures DirectionTo(Moved(Rotate90, o), true) == TurnRight(DirectionTo(o, true))
    ensures (DirectionTo(Moved(Rotate90, o), false) == TurnRight(DirectionTo(o, false))) <==> o.x == 0 || o.y == 0
  {
  }

  /** One step in a direction. */
  function Ahead(dir: Direction): Offset {
    match dir
    case North => Offset(0, -1)
    case East => Offset(1, 0)
    case South => Offset(0, 1)
    case West => Offset(-1, 0)
    case NorthWest => Offset(-1, -1)
    case NorthEast => Offset(1, -1)
    case SouthWest => Offset(-1, 1)
    case SouthEast => Offset(1, 1)
  }

  function Sign(n: int): int {
    if n < 0 then -1 else if n > 0 then 1 else 0
  }

  /** With areas for the diagonals the step leads toward the target along both axes; without them along
      one, and that is the horizontal one whenever the target lies to one side. A target in the same
      place counts as south. */
  lemma DirectionExact(o: Offset)
    ensures Ahead(DirectionTo(o, true)) == if o == Offset(0, 0) then Offset(0, 1) else Offset(Sign(o.x), Sign(o.y))
    ensures Ahead(DirectionTo(o, false)) ==
      if o.x != 0 then Offset(Sign(o.x), 0) else Offset(0, if o.y < 0 then -1 else 1)
    ensures forall dir :: Ahead(TurnRight(dir)) == Moved(Rotate90, Ahead(dir))
  {
  }

  predicate Visible(p: Position, targetPos: Position, sightClear: Position -> bool) {
    targetPos.z < MAP_MAX_LAYERS && sightClear(p)
  }

  /** Where cell (v, u) of an area comes to lie. */
  function Cell(area: MatrixArea, targetPos: Position, v: int, u: int): Position
    reads area
  {
    Position((targetPos.x - area.centerX + u) % UINT16, (targetPos.y - area.centerY + v) % UINT16, targetPos.z)
  }

  ghost predicate Before(v: int, u: int, y: int, x: int) {
    v < y || (v == y && u < x)
  }

  /** The visible cells before (y, x) are on the list, once each. */
  ghost predicate Listed(list: seq<Position>, area: MatrixArea, targetPos: Position, sightClear: Position -> bool,
                         y: int, x: int)
    reads area, area.data
  {
    && NoDup(list)
    && (forall p | p in list :: Visible(p, targetPos, sightClear) && ReachedBefore(p, area, targetPos, y, x))
    && (forall v, u | 0 <= v < area.data.Length0 && 0 <= u < area.data.Length1 && Before(v, u, y, x) ::
          area.data[v, u] && Visible(Cell(area, targetPos, v, u), targetPos, sightClear) ==>
            Cell(area, targetPos, v, u) in list)
  }

  ghost predicate ReachedBefore(p: Position, area: MatrixArea, targetPos: Position, y: int, x: int)
    reads area, area.data
  {
    exists v, u | 0 <= v < area.data.Length0 && 0 <= u < area.data.Length1 ::
      Before(v, u, y, x) && area.data[v, u] && p == Cell(area, targetPos, v, u)
  }

  lemma CellUnique(area: MatrixArea, targetPos: Position, v: int, u: int, y: int, x: int)
    requires 0 <= v < UINT16 && 0 <= u < UINT16 && 0 <= y < UINT16 && 0 <= x < UINT16
    ensures Cell(area, targetPos, v, u) == Cell(area, targetPos, y, x) ==> v == y && u == x
  {
  }

  method ListCell(list: seq<Position>, area: MatrixArea, targetPos: Position, sightClear: Position -> bool, y: nat,
                  x: nat, p: Position)
    returns (list': seq<Position>)
    requires area.data.Length0 <= UINT16 && area.data.Length1 <= UINT16 && y < area.data.Length0 &&
      x < area.data.Length1
    requires Listed(list, area, targetPos, sightClear, y, x) && p == Cell(area, targetPos, y, x)
    ensures Listed(list', area, targetPos, sightClear, y, x + 1)
  {
    list' := list;
    NewCell(list, area, targetPos, sightClear, y, x);
    if area.data[y, x] {
      if targetPos.z < MAP_MAX_LAYERS && sightClear(p) {
        list' := list + [p];
      }
    }
    assert Before(y, x, y, x + 1);
    assert area.data[y, x] ==> ReachedBefore(p, area, targetPos, y, x + 1);
    forall v, u | 0 <= v < area.data.Length0 && 0 <= u < area.data.Length1 && Before(v, u, y, x + 1)
      ensures area.data[v, u] && Visible(Cell(area, targetPos, v, u), targetPos, sightClear) ==>
        Cell(area, targetPos, v, u) in list'
    {
      assert (v == y && u == x) || Before(v, u, y, x);
    }
  }

  lemma NewCell(list: seq<Position>, area: MatrixArea, targetPos: Position, sightClear: Position -> bool, y: nat,
                x: nat)
    requires area.data.Length0 <= UINT16 && area.data.Length1 <= UINT16 && y < area.data.Length0 &&
      x < area.data.Length1
    requires Listed(list, area, targetPos, sightClear, y, x)
    ensures Cell(area, targetPos, y, x) !in list
    ensures forall q | q in list :: ReachedBefore(q, area, targetPos, y, x + 1)
  {
    forall q | q in list ensures q != Cell(area, targetPos, y, x) && ReachedBefore(q, area, targetPos, y, x + 1) {
      var v, u :| 0 <= v < area.data.Length0 && 0 <= u < area.data.Length1 && Before(v, u, y, x) &&
        area.data[v, u] && q == Cell(area, targetPos, v, u);
      CellUnique(area, targetPos, v, u, y, x);
      assert Before(v, u, y, x + 1);
    }
  }

  /** The inner loop of getList; `tmpX` has gone past the row when it ends. */
  method ListRow(list0: seq<Position>, area: MatrixArea, targetPos: Position, sightClear: Position -> bool, y: nat,
                 tmpX0: UInt16, tmpY: UInt16)
    returns (list: seq<Position>, tmpX: UInt16)
    requires area.data.Length0 <= UINT16 && area.data.Length1 <= UINT16 && y < area.data.Length0
    requires tmpX0 == (targetPos.x - area.centerX) % UINT16 && tmpY == (targetPos.y - area.centerY + y) % UINT16
    requires Listed(list0, area, targetPos, sightClear, y, 0)
    ensures Listed(list, area, targetPos, sightClear, y + 1, 0)
    ensures tmpX == (targetPos.x - area.centerX + area.data.Length1) % UINT16
  {
    list, tmpX := list0, tmpX0;
    for x := 0 to area.data.Length1
      invariant tmpX == (targetPos.x - area.centerX + x) % UINT16
      invariant Listed(list, area, targetPos, sightClear, y, x)
    {
      list := ListCell(list, area, targetPos, sightClear, y, x, Position(tmpX, tmpY, targetPos.z));
      tmpX := (tmpX + 1) % UINT16;
    }
    NextRow(list, area, targetPos, sightClear, y);
  }

  lemma Wraps(a: int, d: int)
    ensures (a % UINT16 + d) % UINT16 == (a + d) % UINT16
  {
  }

  method ListArea(area: MatrixArea, targetPos: Position, sightClear: Position -> bool) returns (list: seq<Position>)
    requires area.data.Length0 <= UINT16 && area.data.Length1 <= UINT16
    ensures NoDup(list)
    ensures forall p: Position :: p in list <==> Visible(p, targetPos, sightClear) && area.Reaches(p, targetPos)
  {
    list := [];
    var tmpX, tmpY := (targetPos.x - area.centerX) % UINT16, (targetPos.y - area.centerY) % UINT16;
    for y := 0 to area.data.Length0
      invariant tmpX == (targetPos.x - area.centerX) % UINT16 && tmpY == (targetPos.y - area.centerY + y) % UINT16
      invariant Listed(list, area, targetPos, sightClear, y, 0)
    {
      list, tmpX := ListRow(list, area, targetPos, sightClear, y, tmpX, tmpY);
      Wraps(targetPos.x - area.centerX + area.data.Length1, -area.data.Length1);
      Wraps(targetPos.y - area.centerY + y, 1);
      tmpX := (tmpX - area.data.Length1) % UINT16;
      tmpY := (tmpY + 1) % UINT16;
    }
    AllListed(list, area, targetPos, sightClear);
  }

  lemma NextRow(list: seq<Position>, area: MatrixArea, targetPos: Position, sightClear: Position -> bool, y: int)
    requires Listed(list, area, targetPos, sightClear, y, area.data.Length1)
    ensures Listed(list, area, targetPos, sightClear, y + 1, 0)
  {
    forall p | p in list ensures ReachedBefore(p, area, targetPos, y + 1, 0) {
      var v, u :| 0 <= v < area.data.Length0 && 0 <= u < area.data.Length1 && Before(v, u, y, area.data.Length1) &&
        area.data[v, u] && p == Cell(area, targetPos, v, u);
      assert Before(v, u, y + 1, 0);
    }
    forall v, u | 0 <= v < area.data.Length0 && 0 <= u < area.data.Length1 && Before(v, u, y + 1, 0)
      ensures Before(v, u, y, area.data.Length1)
    {
    }
  }

  lemma AllListed(list: seq<Position>, area: MatrixArea, targetPos: Position, sightClear: Position -> bool)
    requires Listed(list, area, targetPos, sightClear, area.data.Length0, 0)
    ensures forall p: Position :: p in list <==> Visible(p, targetPos, sightClear) && area.Reaches(p, targetPos)
  {
    forall p: Position ensures p in list <==> Visible(p, targetPos, sightClear) && area.Reaches(p, targetPos) {
      if p in list {
        var v, u :| 0 <= v < area.data.Length0 && 0 <= u < area.data.Length1 && area.data[v, u] &&
          p == Cell(area, targetPos, v, u);
        assert area.Covers(Offset(u - area.centerX, v - area.centerY));
      }
      if Visible(p, targetPos, sightClear) && area.Reaches(p, targetPos) {
        var o :| area.Covers(o) && p == At(targetPos, o);
        assert Before(o.y + area.centerY, o.x + area.centerX, area.data.Length0, 0);
        assert p == Cell(area, targetPos, o.y + area.centerY, o.x + area.centerX);
      }
    }
  }

  class CombatArea {
    var areas: map<Direction, MatrixArea>
    var hasExtArea: bool

    constructor ()
      ensures areas == map[] && !hasExtArea
    {
      areas, hasExtArea := map[], false;
    }

    /** setupArea from a list: the area for the north, and its turned copies. */
    method SetupArea(list: seq<nat>, rows: nat) returns (ghost north: MatrixArea)
      requires 0 < rows <= UINT16 / 2 && |list| % rows == 0 && |list| / rows <= UINT16 / 2
      modifies this`areas
      ensures fresh(north) && fresh(north.data) && north.CenterInside()
      ensures north.data.Length0 == rows && north.data.Length1 == |list| / rows &&
        |list| == Row(rows, north.data.Length1)
      ensures Entered(north, list, |list|) && Centred(north, LastMark(list))
      ensures {North, South, East, West} <= areas.Keys && old(areas).Keys <= areas.Keys && areas[North] == north
      ensures Turn(South, areas[South], north) && Turn(East, areas[East], north) && Turn(West, areas[West], north)
    {
      var area := CreateArea(list, rows);
      var maxOutput := 2 * Max(area.data.Length1, area.data.Length0);
      var southArea := TurnedCopy(area, maxOutput, Rotate180, South);
      var eastArea := TurnedCopy(area, maxOutput, Rotate90, East);
      var westArea := TurnedCopy(area, maxOutput, Rotate270, West);
      areas := areas[North := area][South := southArea][East := eastArea][West := westArea];
      north := area;
    }

    /** getArea: the area for the direction from the centre to the target. */
    method GetArea(centerPos: Position, targetPos: Position) returns (area: MatrixArea?)
      ensures var dir := DirectionTo(Offset(targetPos.x - centerPos.x, targetPos.y - centerPos.y), hasExtArea);
        area == if dir in areas then areas[dir] else null
    {
      var dx, dy := targetPos.x - centerPos.x, targetPos.y - centerPos.y;
      var dir := North;
      if dx < 0 {
        dir := West;
      } else if dx > 0 {
        dir := East;
      } else if dy < 0 {
        dir := North;
      } else {
        dir := South;
      }
      if hasExtArea {
        if dx < 0 && dy < 0 {
          dir := NorthWest;
        } else if dx > 0 && dy < 0 {
          dir := NorthEast;
        } else if dx < 0 && dy > 0 {
          dir := SouthWest;
        } else if dx > 0 && dy > 0 {
          dir := SouthEast;
        }
      }
      return if dir in areas then areas[dir] else null;
    }

    /** getList: the positions that the area for this direction covers around the target and that can be
        seen from it, each once. */
    method GetList(centerPos: Position, targetPos: Position, sightClear: Position -> bool)
      returns (found: bool, list: seq<Position>)
      requires forall area | area in areas.Values :: area.data.Length0 <= UINT16 && area.data.Length1 <= UINT16
      ensures var dir := DirectionTo(Offset(targetPos.x - centerPos.x, targetPos.y - centerPos.y), hasExtArea);
        && (found <==> dir in areas)
        && NoDup(list)
        && forall p: Position ::
          p in list <==>
            found && targetPos.z < MAP_MAX_LAYERS && sightClear(p) && areas[dir].Reaches(p, targetPos)
    {
      list := [];
      var area := GetArea(centerPos, targetPos);
      if area == null {
        return false, list;
      }
      assert area in areas.Values;
      found := true;
      list := ListArea(area, targetPos, sightClear);
    }

    /** setupArea for a cone. */
    method SetupCone(length: nat, spread: nat) returns (ghost north: MatrixArea)
      requires 0 < length <= UINT16 / 4 - 1
      modifies this`areas
      ensures {North, South, East, West} <= areas.Keys && areas[North] == north
      ensures Turn(South, areas[South], north) && Turn(East, areas[East], north) && Turn(West, areas[West], north)
      ensures forall o :: north.Covers(o) <==> InCone(o, length, spread)
    {
      var list := ConeList(length, spread);
      ConeFits(length, spread);
      north := SetupArea(list, length);
      ConeCovers(north, list, length, spread);
    }

    /** setupExtArea: the diagonals. */
    method SetupExtArea(list: seq<nat>, rows: nat) returns (ghost northWest: MatrixArea?)
      requires list != [] ==> 0 < rows <= UINT16 / 2 && |list| % rows == 0 && |list| / rows <= UINT16 / 2
      modifies this
      ensures list == [] ==> areas == old(areas) && hasExtArea == old(hasExtArea) && northWest == null
      ensures list != [] ==>
        && northWest != null && hasExtArea && {NorthWest, NorthEast, SouthWest, SouthEast} <= areas.Keys &&
          old(areas).Keys <= areas.Keys
        && areas[NorthWest] == northWest && northWest.data.Length0 == rows && northWest.data.Length1 == |list| / rows
        && |list| == Row(rows, |list| / rows) && Entered(northWest, list, |list|) && Centred(northWest, LastMark(list))
      ensures list != [] ==> var cols := |list| / rows;
        && MirrorOf(areas[NorthEast], northWest, Shift(northWest.centerX, cols, rows))
        && FlipOf(areas[SouthWest], northWest, Shift(northWest.centerY, rows, cols))
        && MirrorOf(areas[SouthEast], areas[SouthWest], 0)
      ensures list != [] && rows == |list| / rows ==>
        && Turn(NorthEast, areas[NorthEast], northWest) && Turn(SouthWest, areas[SouthWest], northWest) &&
          Turn(SouthEast, areas[SouthEast], northWest)
    {
      if list == [] {
        return null;
      }
      var area := CreateArea(list, rows);
      var maxOutput := 2 * Max(area.data.Length1, area.data.Length0);
      var neArea, swArea, seArea := DiagonalCopies(area, maxOutput);
      areas := areas[NorthWest := area][NorthEast := neArea][SouthWest := swArea][SouthEast := seArea];
      hasExtArea := true;
      northWest := area;
    }
  }

  /** The copy is the area mirrored, or flipped, and shifted by so much. */
  ghost predicate MirrorOf(copy: MatrixArea, area: MatrixArea, shift: int)
    reads copy, copy.data, area, area.data
  {
    forall o: Offset :: copy.Covers(o) <==> area.Covers(LeftRight(shift, o))
  }

  ghost predicate FlipOf(copy: MatrixArea, area: MatrixArea, shift: int)
    reads copy, copy.data, area, area.data
  {
    forall o: Offset :: copy.Covers(o) <==> area.Covers(UpDown(shift, o))
  }

  method MirroredCopy(area: MatrixArea, side: nat) returns (copy: MatrixArea)
    requires area.data.Length0 <= side && area.data.Length1 <= side <= UINT16
    ensures fresh(copy) && fresh(copy.data) && copy.data.Length0 == copy.data.Length1 == side
    ensures MirrorOf(copy, area, Shift(area.centerX, area.data.Length1, area.data.Length0))
  {
    copy := new MatrixArea(side, side);
    MirrorArea(area, copy);
    ghost var shift := Shift(area.centerX, area.data.Length1, area.data.Length0);
    forall o: Offset ensures copy.Covers(o) <==> area.Covers(LeftRight(shift, o)) {
      assert LeftRight(shift, LeftRight(shift, o)) == o;
    }
  }

  method FlippedCopy(area: MatrixArea, side: nat) returns (copy: MatrixArea)
    requires area.data.Length0 <= side && area.data.Length1 <= side <= UINT16
    ensures fresh(copy) && fresh(copy.data) && copy.data.Length0 == copy.data.Length1 == side
    ensures FlipOf(copy, area, Shift(area.centerY, area.data.Length0, area.data.Length1)) &&
      copy.centerX == area.centerX
  {
    copy := new MatrixArea(side, side);
    FlipArea(area, copy);
    ghost var shift := Shift(area.centerY, area.data.Length0, area.data.Length1);
    forall o: Offset ensures copy.Covers(o) <==> area.Covers(UpDown(shift, o)) {
      assert UpDown(shift, UpDown(shift, o)) == o;
    }
  }

  /** Without a shift the copies are the ones that their directions ask for. */
  lemma UnshiftedTurns(area: MatrixArea, neArea: MatrixArea, swArea: MatrixArea, seArea: MatrixArea)
    requires MirrorOf(neArea, area, 0) && FlipOf(swArea, area, 0) && MirrorOf(seArea, swArea, 0)
    ensures Turn(NorthEast, neArea, area) && Turn(SouthWest, swArea, area) && Turn(SouthEast, seArea, area)
  {
    MirrorTurns(area, neArea);
    FlipTurns(area, swArea);
    BothTurn(area, swArea, seArea);
  }

  lemma MirrorTurns(area: MatrixArea, neArea: MatrixArea)
    requires MirrorOf(neArea, area, 0)
    ensures Turn(NorthEast, neArea, area)
  {
    forall o ensures neArea.Covers(o) <==> area.Covers(Toward(NorthEast, o)) {
      assert LeftRight(0, o) == Toward(NorthEast, o);
    }
  }

  lemma FlipTurns(area: MatrixArea, swArea: MatrixArea)
    requires FlipOf(swArea, area, 0)
    ensures Turn(SouthWest, swArea, area)
  {
    forall o ensures swArea.Covers(o) <==> area.Covers(Toward(SouthWest, o)) {
      assert UpDown(0, o) == Toward(SouthWest, o);
    }
  }

  lemma BothTurn(area: MatrixArea, swArea: MatrixArea, seArea: MatrixArea)
    requires FlipOf(swArea, area, 0) && MirrorOf(seArea, swArea, 0)
    ensures Turn(SouthEast, seArea, area)
  {
    forall o ensures seArea.Covers(o) <==> area.Covers(Toward(SouthEast, o)) {
      assert UpDown(0, LeftRight(0, o)) == Toward(SouthEast, o);
    }
  }

  method DiagonalCopies(area: MatrixArea, side: nat)
    returns (neArea: MatrixArea, swArea: MatrixArea, seArea: MatrixArea)
    requires area.CenterInside() && 0 < area.data.Length0 <= side && 0 < area.data.Length1 <= side <= UINT16
    ensures MirrorOf(neArea, area, Shift(area.centerX, area.data.Length1, area.data.Length0))
    ensures FlipOf(swArea, area, Shift(area.centerY, area.data.Length0, area.data.Length1))
    ensures MirrorOf(seArea, swArea, 0)
    ensures area.data.Length0 == area.data.Length1 ==>
      Turn(NorthEast, neArea, area) && Turn(SouthWest, swArea, area) && Turn(SouthEast, seArea, area)
  {
    neArea := MirroredCopy(area, side);
    swArea := FlippedCopy(area, side);
    seArea := MirroredCopy(swArea, side);
    ShiftExact(area.centerX, side, side);
    if area.data.Length0 == area.data.Length1 {
      ShiftExact(area.centerX, area.data.Length0, area.data.Length0);
      ShiftExact(area.centerY, area.data.Length0, area.data.Length0);
      UnshiftedTurns(area, neArea, swArea, seArea);
    }
  }

  /** The areas built for the four directions fit together: when a target straight ahead turns by a
      quarter, so does what the area chosen for it covers. */
  lemma AimTurns(areas: map<Direction, MatrixArea>, north: MatrixArea, target: Offset, o: Offset)
    requires {North, South, East, West} <= areas.Keys && areas[North] == north
    requires Turn(South, areas[South], north) && Turn(East, areas[East], north) && Turn(West, areas[West], north)
    requires target != Offset(0, 0) && (target.x == 0 || target.y == 0)
    ensures areas[DirectionTo(Moved(Rotate90, target), false)].Covers(Moved(Rotate90, o)) <==>
            areas[DirectionTo(target, false)].Covers(o)
  {
    var dir := DirectionTo(target, false);
    var next := TurnRight(dir);
    DirectionTurns(target);
    assert Toward(next, Moved(Rotate90, o)) == Toward(dir, o);
    assert areas[dir].Covers(o) <==> north.Covers(Toward(dir, o));
    assert areas[next].Covers(Moved(Rotate90, o)) <==> north.Covers(Toward(next, Moved(Rotate90, o)));
  }

  // the cone

  lemma Multiply(a: nat, b: nat, c: nat)
    requires a <= b
    ensures a * c <= b * c
  {
  }

  lemma Divided(n: nat, d: nat)
    requires d > 0
    ensures n == n / d * d + n % d && 0 <= n % d < d && n / d >= 0
  {
  }

  lemma MultiplyLess(a: nat, b: nat, c: nat)
    requires a < b
    ensures a * c + c <= b * c
  {
    assert a * c + c == (a + 1) * c;
  }

  lemma Quotient(n: nat, d: nat, q: nat)
    requires d > 0 && q * d <= n < q * d + d
    ensures n / d == q
  {
    Divided(n, d);
    if n / d < q {
      MultiplyLess(n / d, q, d);
    } else if q < n / d {
      MultiplyLess(q, n / d, d);
    }
  }

  /** How often `spread` fits; a cone that does not spread never narrows. */
  function Steps(n: nat, spread: nat): nat {
    if spread == 0 then 0 else (Divided(n, spread); n / spread)
  }

  lemma StepsNext(n: nat, spread: nat)
    requires n > 0
    ensures Steps(n, spread) == Steps(n - 1, spread) + if spread > 0 && n % spread == 0 then 1 else 0
  {
    if spread > 0 {
      Divided(n, spread);
      if n % spread == 0 {
        assert (n / spread - 1) * spread == n / spread * spread - spread;
        Quotient(n - 1, spread, n / spread - 1);
      } else {
        Quotient(n - 1, spread, n / spread);
      }
    }
  }

  lemma {:induction false} StepsGrow(n: nat, m: nat, spread: nat)
    requires n <= m
    ensures Steps(n, spread) <= Steps(m, spread)
  {
    if n < m {
      StepsNext(m, spread);
      StepsGrow(n, m - 1, spread);
    }
  }

  lemma StepsBound(n: nat, spread: nat)
    ensures Steps(n, spread) <= n
  {
    if spread > 0 {
      Divided(n, spread);
      Multiply(1, spread, n / spread);
    }
  }

  lemma WholeSteps(n: nat, spread: nat)
    requires spread > 0
    ensures (n - n % spread) / spread == Steps(n, spread)
  {
    Divided(n, spread);
    Quotient(n - n % spread, spread, n / spread);
  }

  /** Half the width of row `y`, counted from 1 at the far end. */
  function HalfWidth(length: nat, spread: nat, y: int): int
    requires y >= 1
  {
    Steps(length, spread) - Steps(y - 1, spread)
  }

  /** The cone opens from its tip, at the centre, to the far row `length - 1` cells away. */
  predicate InCone(o: Offset, length: nat, spread: nat) {
    0 < length + o.y && o.y <= 0 && var w := HalfWidth(length, spread, length + o.y); -w <= o.x <= w
  }

  function ConeCols(length: nat, spread: nat): nat
  {
    2 * Steps(length, spread) + 1
  }

  function ConeCell(length: nat, spread: nat, y: nat, x: nat): nat {
    var cols, out := ConeCols(length, spread), Steps(y, spread);
    if y + 1 == length && x == cols / 2 then 3 else if out <= x < cols - out then 1 else 0
  }

  /** The numbers of the cone, row by row from its far end. */
  ghost predicate ConeNumbers(list: seq<nat>, length: nat, spread: nat, cols: nat, y: nat, x: nat) {
    && |list| == Row(y, cols) + x
    && forall v: nat, u: nat {:trigger ConeCell(length, spread, v, u)} | u < cols && (v < y || (v == y && u < x)) ::
      Row(v, cols) + u < |list| && list[Row(v, cols) + u] == ConeCell(length, spread, v, u)
  }

  lemma NextNumber(list: seq<nat>, n: nat, length: nat, spread: nat, cols: nat, y: nat, x: nat)
    requires ConeNumbers(list, length, spread, cols, y, x) && x < cols && n == ConeCell(length, spread, y, x)
    ensures ConeNumbers(list + [n], length, spread, cols, y, x + 1)
  {
  }

  method ConeList(length: nat, spread: nat) returns (list: seq<nat>)
    requires 0 < length
    ensures ConeNumbers(list, length, spread, ConeCols(length, spread), length, 0)
  {
    list := [];
    var rows := length;
    var cols := 1;
    if spread != 0 {
      WholeSteps(length, spread);
      cols := ((length - length % spread) / spread) * 2 + 1;
    }
    var colSpread: int := cols;
    var y := 1;
    while y <= rows
      invariant 1 <= y <= rows + 1 && colSpread == cols - Steps(y - 1, spread)
      invariant ConeNumbers(list, length, spread, cols, y - 1, 0)
    {
      list := ConeRow(list, length, spread, cols, colSpread, y);
      StepsNext(y, spread);
      if spread > 0 && y % spread == 0 {
        colSpread := colSpread - 1;
      }
      y := y + 1;
    }
  }

  /** The inner loop of the cone builder. */
  method ConeRow(list0: seq<nat>, rows: nat, spread: nat, cols: nat, colSpread: int, y: nat) returns (list: seq<nat>)
    requires 1 <= y <= rows && cols == ConeCols(rows, spread) && colSpread == cols - Steps(y - 1, spread)
    requires ConeNumbers(list0, rows, spread, cols, y - 1, 0)
    ensures ConeNumbers(list, rows, spread, cols, y, 0)
  {
    list := list0;
    var mincol, maxcol := cols - colSpread + 1, cols - (cols - colSpread);
    var x := 1;
    while x <= cols
      invariant 1 <= x <= cols + 1
      invariant ConeNumbers(list, rows, spread, cols, y - 1, x - 1)
    {
      var n := if y == rows && x == ((cols - cols % 2) / 2) + 1 then 3 else if mincol <= x <= maxcol then 1 else 0;
      NextNumber(list, n, rows, spread, cols, y - 1, x - 1);
      list := list + [n];
      x := x + 1;
    }
  }

  lemma ConeFits(length: nat, spread: nat)
    requires 0 < length <= UINT16 / 4 - 1
    ensures var n := Row(length, ConeCols(length, spread));
      n % length == 0 && n / length == ConeCols(length, spread) <= UINT16 / 2
  {
    RowIsProduct(length, ConeCols(length, spread));
    StepsBound(length, spread);
    Product(length, ConeCols(length, spread));
  }

  lemma Product(a: nat, b: nat)
    requires a > 0
    ensures (a * b) % a == 0 && (a * b) / a == b
  {
    Quotient(b * a, a, b);
    Divided(b * a, a);
  }

  /** The tip is the only mark. */
  lemma TipIsLast(list: seq<nat>, length: nat, spread: nat, cols: nat)
    requires 0 < length && cols == ConeCols(length, spread) && ConeNumbers(list, length, spread, cols, length, 0)
    ensures LastMark(list) == Row(length - 1, cols) + cols / 2
  {
    var tip := Row(length - 1, cols) + cols / 2;
    assert list[tip] == ConeCell(length, spread, length - 1, cols / 2) == 3;
    forall k | tip < k < |list| ensures !Marks(list[k]) {
      var u := k - Row(length - 1, cols);
      assert list[Row(length - 1, cols) + u] == ConeCell(length, spread, length - 1, u);
    }
  }

  lemma ConeCovers(north: MatrixArea, list: seq<nat>, length: nat, spread: nat)
    requires 0 < length && north.data.Length0 == length && north.data.Length1 == ConeCols(length, spread)
    requires ConeNumbers(list, length, spread, ConeCols(length, spread), length, 0) &&
      |list| == Row(length, north.data.Length1)
    requires Entered(north, list, |list|) && Centred(north, LastMark(list))
    ensures forall o :: north.Covers(o) <==> InCone(o, length, spread)
  {
    var cols := north.data.Length1;
    TipIsLast(list, length, spread, cols);
    IndexUnique(north.centerY, north.centerX, length - 1, cols / 2, cols);
    forall o ensures north.Covers(o) <==> InCone(o, length, spread) {
      ConeCoversOne(north, list, length, spread, o);
    }
  }

  lemma ConeCoversOne(north: MatrixArea, list: seq<nat>, length: nat, spread: nat, o: Offset)
    requires 0 < length && north.data.Length0 == length && north.data.Length1 == ConeCols(length, spread)
    requires ConeNumbers(list, length, spread, ConeCols(length, spread), length, 0) &&
      |list| == Row(length, north.data.Length1)
    requires Entered(north, list, |list|) && north.centerY == length - 1 && north.centerX == north.data.Length1 / 2
    ensures north.Covers(o) <==> InCone(o, length, spread)
  {
    var cols := north.data.Length1;
    var v, u := o.y + north.centerY, o.x + north.centerX;
    if 0 <= v < length {
      StepsGrow(v, length, spread);
      if 0 <= u < cols {
        IndexInside(v, u, cols, length);
        assert list[Row(v, cols) + u] == ConeCell(length, spread, v, u);
        assert north.data[v, u] <==> EntrySets(list, Row(v, cols) + u);
      }
    }
  }

  method TurnedCopy(area: MatrixArea, side: nat, op: MatrixOperation, ghost dir: Direction) returns (copy: MatrixArea)
    requires (op == Rotate180 && dir == South) || (op == Rotate90 && dir == East) || (op == Rotate270 && dir == West)
    requires area.CenterInside() && area.data.Length0 > 0
    requires side == 2 * Max(area.data.Length1, area.data.Length0) <= UINT16
    ensures fresh(copy) && fresh(copy.data) && Turn(dir, copy, area)
  {
    copy := new MatrixArea(side, side);
    Rotate(area, copy, op);
  }

  /** The area for a direction is the one for the north, turned. */
  ghost predicate Turn(dir: Direction, area: MatrixArea, north: MatrixArea)
    reads area, area.data, north, north.data
  {
    forall o :: area.Covers(o) <==> north.Covers(Toward(dir, o))
  }
}
