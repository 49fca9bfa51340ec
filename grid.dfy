/**
  The grid storage of the field-of-view library: a `width` x `height` map whose
  cells carry a transparency flag (filled in by the client) and a field-of-view
  flag (written by the algorithms). Both are kept in flat, row-major arrays where
  cell (x, y) lives at offset `x + y * width`.
 */
module Grid {

  /** Flat, row-major offset of cell (x, y) in a grid `width` cells wide. */
  function Offset(x: nat, y: nat, width: nat): (off: nat)
  {
    x + y * width
  }

  /** The cell (column, row) stored at flat offset `off`: the inverse of Offset. */
  function CellOf(off: nat, width: nat): (cell: (nat, nat))
    requires width > 0
    ensures cell.0 < width
    ensures Offset(cell.0, cell.1, width) == off
  {
    (off % width, off / width)
  }

  lemma MulMonotone(a: nat, b: nat, w: nat)
    requires a <= b
    ensures a * w <= b * w
  {
  }

  /** Every cell inside the grid has its offset inside the flat arrays. */
  lemma OffsetInBounds(x: nat, y: nat, width: nat, height: nat)
    requires x < width && y < height
    ensures Offset(x, y, width) < width * height
  {
    MulMonotone(y, height - 1, width);
    assert (height - 1) * width + width == height * width;
  }

  /** Two cells of one row width share an offset exactly when they are the same cell. */
  lemma OffsetInjective(x1: nat, y1: nat, x2: nat, y2: nat, width: nat)
    requires x1 < width && x2 < width
    ensures Offset(x1, y1, width) == Offset(x2, y2, width) <==> x1 == x2 && y1 == y2
  {
    if y1 < y2 {
      MulMonotone(y1 + 1, y2, width);
      assert (y1 + 1) * width == y1 * width + width;
    } else if y2 < y1 {
      MulMonotone(y2 + 1, y1, width);
      assert (y2 + 1) * width == y2 * width + width;
    }
  }

  /** Decoding the offset of a cell gives the cell back. */
  lemma CellOfOffset(x: nat, y: nat, width: nat)
    requires x < width
    ensures CellOf(Offset(x, y, width), width) == (x, y)
  {
    var cell := CellOf(Offset(x, y, width), width);
    OffsetInjective(cell.0, cell.1, x, y, width);
  }

  /** Every offset of the flat arrays decodes to a cell inside the grid. */
  lemma CellOfInBounds(off: nat, width: nat, height: nat)
    requires off < width * height
    ensures width > 0
    ensures CellOf(off, width).0 < width && CellOf(off, width).1 < height
  {
  }

  /** A column index past the end of a row is not caught: it addresses a cell
      of a later row. Column `width` of row y is column 0 of row y + 1. */
  lemma ColumnOverflowWraps(y: nat, width: nat)
    requires width > 0
    ensures CellOf(Offset(width, y, width), width) == (0, y + 1)
  {
    assert Offset(width, y, width) == Offset(0, y + 1, width);
    CellOfOffset(0, y + 1, width);
  }

  /** Value of cell (x, y) in a flat row-major array of cells. */
  function Cell(cells: seq<bool>, width: nat, height: nat, x: nat, y: nat): (b: bool)
    requires |cells| == width * height
    requires x < width && y < height
  {
    OffsetInBounds(x, y, width, height);
    cells[Offset(x, y, width)]
  }

  /** Reading a cell after a write at flat offset `off`: the cell stored at
      `off` holds the new value, every other cell of the grid keeps its old one. */
  lemma CellAfterWrite(cells: seq<bool>, width: nat, height: nat, off: nat, b: bool, x: nat, y: nat)
    requires |cells| == width * height && off < |cells|
    requires x < width && y < height
    ensures Cell(cells[off := b], width, height, x, y)
            == if (x, y) == CellOf(off, width) then b else Cell(cells, width, height, x, y)
  {
    OffsetInBounds(x, y, width, height);
    var cell := CellOf(off, width);
    OffsetInjective(cell.0, cell.1, x, y, width);
    assert Cell(cells[off := b], width, height, x, y) == cells[off := b][Offset(x, y, width)];
  }

  /** Two flat arrays of a grid are equal exactly when they agree on every cell. */
  lemma CellsEqual(a: seq<bool>, b: seq<bool>, width: nat, height: nat)
    requires |a| == width * height && |b| == width * height
    ensures a == b <==>
      forall x: nat, y: nat :: x < width && y < height ==> Cell(a, width, height, x, y) == Cell(b, width, height, x, y)
  {
    if forall x: nat, y: nat :: x < width && y < height ==> Cell(a, width, height, x, y) == Cell(b, width, height, x, y) {
      forall i | 0 <= i < |a|
        ensures a[i] == b[i]
      {
        CellOfInBounds(i, width, height);
        var cell := CellOf(i, width);
        assert Cell(a, width, height, cell.0, cell.1) == Cell(b, width, height, cell.0, cell.1);
      }
    }
  }

  /** The map of a field-of-view computation (`MapData`). */
  class MapData {
    var width: nat
    var height: nat
    /** width x height transparency flags, row-major */
    var transparent: array<bool>
    /** width x height field-of-view flags, row-major */
    var fov: array<bool>

    /** Both flat arrays cover the whole grid and are two distinct arrays. */
    ghost predicate Valid()
      reads this
    {
      && transparent.Length == width * height
      && fov.Length == width * height
      && transparent != fov
    }

    /** A new empty map: no walls and an empty field of view. Zero sizes are accepted. */
    constructor (width: nat, height: nat)
      ensures Valid()
      ensures this.width == width && this.height == height
      ensures fresh(transparent) && fresh(fov)
      ensures forall i :: 0 <= i < width * height ==> transparent[i] && !fov[i]
    {
      this.width := width;
      this.height := height;
      transparent := new bool[width * height](_ => true);
      fov := new bool[width * height](_ => false);
    }

    /** Resets every field-of-view flag to false. */
    method ClearFov()
      requires Valid()
      modifies fov
      ensures Valid()
      ensures forall i :: 0 <= i < fov.Length ==> !fov[i]
      ensures transparent[..] == old(transparent[..])
    {
      for off := 0 to width * height
        invariant forall i :: 0 <= i < off ==> !fov[i]
        invariant forall i :: off <= i < fov.Length ==> fov[i] == old(fov[i])
      {
        fov[off] := false;
      }
    }

    /** Clearing twice leaves the state of clearing once. */
    method ClearFovTwice()
      requires Valid()
      modifies fov
      ensures Valid()
      ensures forall i :: 0 <= i < fov.Length ==> !fov[i]
      ensures transparent[..] == old(transparent[..])
    {
      ClearFov();
      var once := fov[..];
      ClearFov();
      assert fov[..] == once;
    }

    /** Whether cell (x, y) is in the field of view. Only the flat offset is
        bounds-checked (an access past the arrays is a panic): a column past the
        end of a row reads a cell of a later row. */
    method IsInFov(x: nat, y: nat) returns (inFov: bool)
      requires Valid()
      requires Offset(x, y, width) < width * height
      ensures inFov == fov[Offset(x, y, width)]
      ensures x < width ==> y < height && inFov == Cell(fov[..], width, height, x, y)
    {
      if x < width {
        CellOfOffset(x, y, width);
        CellOfInBounds(Offset(x, y, width), width, height);
      }
      inFov := fov[x + y * width];
    }

    /** Whether cell (x, y) lets sight through; bounds are checked as in IsInFov. */
    method IsTransparent(x: nat, y: nat) returns (isTransparent: bool)
      requires Valid()
      requires Offset(x, y, width) < width * height
      ensures isTransparent == transparent[Offset(x, y, width)]
      ensures x < width ==> y < height && isTransparent == Cell(transparent[..], width, height, x, y)
    {
      if x < width {
        CellOfOffset(x, y, width);
        CellOfInBounds(Offset(x, y, width), width, height);
      }
      isTransparent := transparent[x + y * width];
    }

    /** Sets the field-of-view flag stored at the offset of (x, y), which is cell
        (x, y) itself when x < width. No other cell and no transparency flag
        changes. */
    method SetFov(x: nat, y: nat, inFov: bool)
      requires Valid()
      requires Offset(x, y, width) < width * height
      modifies fov
      ensures Valid()
      ensures fov[..] == old(fov[..])[Offset(x, y, width) := inFov]
      ensures x < width ==> y < height && Cell(fov[..], width, height, x, y) == inFov
      ensures forall x': nat, y': nat :: x' < width && y' < height ==>
                Cell(fov[..], width, height, x', y') ==
                  if (x', y') == CellOf(Offset(x, y, width), width) then inFov
                  else Cell(old(fov[..]), width, height, x', y')
      ensures transparent[..] == old(transparent[..])
    {
      var off := x + y * width;
      fov[off] := inFov;
      forall x': nat, y': nat | x' < width && y' < height
        ensures Cell(fov[..], width, height, x', y') ==
                  if (x', y') == CellOf(off, width) then inFov else Cell(old(fov[..]), width, height, x', y')
      {
        CellAfterWrite(old(fov[..]), width, height, off, inFov, x', y');
      }
      if x < width {
        CellOfOffset(x, y, width);
        CellOfInBounds(off, width, height);
        CellAfterWrite(old(fov[..]), width, height, off, inFov, x, y);
      }
    }

    /** Sets the transparency flag stored at the offset of (x, y), which is cell
        (x, y) itself when x < width. No other cell and no field-of-view flag
        changes. */
    method SetTransparent(x: nat, y: nat, isTransparent: bool)
      requires Valid()
      requires Offset(x, y, width) < width * height
      modifies transparent
      ensures Valid()
      ensures transparent[..] == old(transparent[..])[Offset(x, y, width) := isTransparent]
      ensures x < width ==> y < height && Cell(transparent[..], width, height, x, y) == isTransparent
      ensures forall x': nat, y': nat :: x' < width && y' < height ==>
                Cell(transparent[..], width, height, x', y') ==
                  if (x', y') == CellOf(Offset(x, y, width), width) then isTransparent
                  else Cell(old(transparent[..]), width, height, x', y')
      ensures fov[..] == old(fov[..])
    {
      var off := x + y * width;
      transparent[off] := isTransparent;
      forall x': nat, y': nat | x' < width && y' < height
        ensures Cell(transparent[..], width, height, x', y') ==
                  if (x', y') == CellOf(off, width) then isTransparent else Cell(old(transparent[..]), width, height, x', y')
      {
        CellAfterWrite(old(transparent[..]), width, height, off, isTransparent, x', y');
      }
      if x < width {
        CellOfOffset(x, y, width);
        CellOfInBounds(off, width, height);
        CellAfterWrite(old(transparent[..]), width, height, off, isTransparent, x, y);
      }
    }
  }
}
