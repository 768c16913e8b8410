/** The fixed-size two-dimensional container of `src/minefield/grid.rs`: a flat
    row-major sequence of `height * width` values, row/column indexing in both
    directions, bounds-checked access and the 8-neighbourhood of a cell. */
module Grid {
  import opened Wrappers
  import Text

  /** A (row, column) position. */
  type Pos = (nat, nat)

  /** Row-major offset of an in-range position. */
  function Offset(height: nat, width: nat, row: nat, col: nat): (k: nat)
    requires row < height && col < width
    ensures k < height * width
  {
    assert row * width + col < (row + 1) * width <= height * width by {
      MulMonotone(row + 1, height, width);
    }
    row * width + col
  }

  /** The position stored at an in-range offset. */
  function PosOf(height: nat, width: nat, k: nat): (p: Pos)
    requires k < height * width
    ensures p.0 < height && p.1 < width
    ensures Offset(height, width, p.0, p.1) == k
  {
    assert width > 0;
    var p := (k / width, k % width);
    assert p.0 < height by {
      if p.0 >= height {
        MulMonotone(height, p.0, width);
      }
    }
    p
  }

  lemma MulMonotone(a: nat, b: nat, c: nat)
    requires a <= b
    ensures a * c <= b * c
  {
  }

  /** Any cell of an earlier row comes before any cell of a later one. */
  lemma RowsApart(width: nat, a: nat, b: nat, x: nat, y: nat)
    requires a < b && x < width
    ensures a * width + x < b * width + y
  {
    MulMonotone(a + 1, b, width);
    assert (a + 1) * width == a * width + width;
  }

  lemma {:induction false} OffsetPosOf(height: nat, width: nat, row: nat, col: nat)
    requires row < height && col < width
    ensures PosOf(height, width, Offset(height, width, row, col)) == (row, col)
  {
    var k := Offset(height, width, row, col);
    var p := PosOf(height, width, k);
    OffsetInjective(height, width, p, (row, col));
  }

  /** Distinct in-range positions have distinct offsets. */
  lemma OffsetInjective(height: nat, width: nat, p: Pos, q: Pos)
    requires p.0 < height && p.1 < width && q.0 < height && q.1 < width
    ensures Offset(height, width, p.0, p.1) == Offset(height, width, q.0, q.1) <==> p == q
  {
    assert Offset(height, width, p.0, p.1) == p.0 * width + p.1;
    assert Offset(height, width, q.0, q.1) == q.0 * width + q.1;
    if p.0 < q.0 {
      RowsApart(width, p.0, q.0, p.1, q.1);
    } else if q.0 < p.0 {
      RowsApart(width, q.0, p.0, q.1, p.1);
    }
  }

  /** `p` is one of the (up to) eight cells around `q`, and not `q` itself. */
  predicate Adjacent(p: Pos, q: Pos)
  {
    p != q && -1 <= p.0 - q.0 <= 1 && -1 <= p.1 - q.1 <= 1
  }

  /** Strict row-major order on positions. */
  predicate RowMajorLess(p: Pos, q: Pos)
  {
    p.0 < q.0 || (p.0 == q.0 && p.1 < q.1)
  }

  /** Listed in strictly increasing row-major order, hence without repetitions. */
  predicate RowMajorSorted(s: seq<Pos>)
  {
    forall a, b :: 0 <= a < b < |s| ==> RowMajorLess(s[a], s[b])
  }

  /** `p` lies in the window columns [colLeft, colRight] and in a row of [rowLeft, i), or in row i
      before column j: the part of the window a row-major sweep has passed. */
  predicate Visited(p: Pos, rowLeft: nat, i: nat, j: nat, colLeft: nat, colRight: nat)
  {
    (rowLeft <= p.0 < i || (p.0 == i && p.1 < j)) && colLeft <= p.1 <= colRight
  }

  /** How many coordinates of [0, n) lie within distance 1 of an in-range coordinate x. */
  function AxisSpan(x: nat, n: nat): nat
  {
    (if x > 0 then 1 else 0) + 1 + (if x + 1 < n then 1 else 0)
  }

  /** Offsets follow row-major order. */
  lemma OffsetOrder(height: nat, width: nat, p: Pos, q: Pos)
    requires p.0 < height && p.1 < width && q.0 < height && q.1 < width
    ensures RowMajorLess(p, q) <==> Offset(height, width, p.0, p.1) < Offset(height, width, q.0, q.1)
  {
    assert Offset(height, width, p.0, p.1) == p.0 * width + p.1;
    assert Offset(height, width, q.0, q.1) == q.0 * width + q.1;
    if p.0 < q.0 {
      RowsApart(width, p.0, q.0, p.1, q.1);
    } else if q.0 < p.0 {
      RowsApart(width, q.0, p.0, q.1, p.1);
    }
  }

  /** The first `n` parts joined with `sep`, followed by `sep` when more parts remain:
      the text a left-to-right writer has produced after `n` parts. */
  function JoinedPrefix(sep: string, parts: seq<string>, n: nat): string
    requires n <= |parts|
  {
    Text.Join(sep, parts[..n]) + (if 0 < n < |parts| then sep else "")
  }

  lemma JoinedPrefixStep(sep: string, parts: seq<string>, n: nat)
    requires n < |parts|
    ensures JoinedPrefix(sep, parts, n + 1) ==
      JoinedPrefix(sep, parts, n) + parts[n] + (if n < |parts| - 1 then sep else "")
  {
    if n > 0 {
      Text.JoinSnoc(sep, parts[..n], parts[n]);
      assert parts[..n + 1] == parts[..n] + [parts[n]];
    }
  }

  /** The values of row `row`, each rendered by `show`. */
  function RowTexts<T>(height: nat, width: nat, data: seq<T>, show: T -> string, row: nat): (texts: seq<string>)
    requires |data| == height * width && row < height
    ensures |texts| == width
  {
    seq(width, col requires 0 <= col < width => show(data[Offset(height, width, row, col)]))
  }

  /** What `Display` for a grid prints: each row's values separated by single spaces,
      rows separated by newlines, with no separator after the last value or row. */
  function Rendered<T>(height: nat, width: nat, data: seq<T>, show: T -> string): string
    requires |data| == height * width
  {
    Text.Join("\n", seq(height, row requires 0 <= row < height => Text.Join(" ", RowTexts(height, width, data, show, row))))
  }

  /** The rendering of the 2 x 2 grid [1, 2, 3, 4]. */
  lemma RenderedExample()
    ensures Rendered<nat>(2, 2, [1, 2, 3, 4], Text.NatToString) == "1 2\n3 4"
  {
    var rows := seq(2, row requires 0 <= row < 2 => Text.Join(" ", RowTexts<nat>(2, 2, [1, 2, 3, 4], Text.NatToString, row)));
    ExampleRow(0);
    ExampleRow(1);
    assert rows == ["1 2", "3 4"];
    assert ["1 2", "3 4"][1..] == ["3 4"];
  }

  lemma ExampleRow(row: nat)
    requires row < 2
    ensures Text.Join(" ", RowTexts<nat>(2, 2, [1, 2, 3, 4], Text.NatToString, row)) == if row == 0 then "1 2" else "3 4"
  {
    var texts := RowTexts<nat>(2, 2, [1, 2, 3, 4], Text.NatToString, row);
    var a, b := Offset(2, 2, row, 0), Offset(2, 2, row, 1);
    assert a == 2 * row && b == 2 * row + 1;
    assert texts == [Text.NatToString(a + 1), Text.NatToString(b + 1)];
    assert texts[1..] == [texts[1]];
  }

  class Grid<T> {
    const height: nat
    const width: nat
    var data: seq<T>

    /** Both dimensions positive (the Rust code computes `height - 1` and `width - 1`)
        and one value per cell. */
    ghost predicate Valid()
      reads this
    {
      height >= 1 && width >= 1 && |data| == height * width
    }

    predicate Contains(p: Pos)
    {
      p.0 < height && p.1 < width
    }

    /** The struct literal of `Grid::new`, reached once the length check has passed. */
    constructor (height: nat, width: nat, data: seq<T>)
      requires height >= 1 && width >= 1 && |data| == height * width
      ensures Valid()
      ensures this.height == height && this.width == width && this.data == data
    {
      this.height := height;
      this.width := width;
      this.data := data;
    }

    /** `Grid::new`: fails exactly when the data does not hold one value per cell. */
    static method New(height: nat, width: nat, data: seq<T>) returns (r: Result<Grid<T>, string>)
      requires height >= 1 && width >= 1
      ensures r.Ok? <==> |data| == height * width
      ensures r.Ok? ==> fresh(r.value) && r.value.Valid() && r.value.data == data
      ensures r.Ok? ==> r.value.Shape() == (height, width) && r.value.Len() == height * width
    {
      if height * width == |data| {
        var g := new Grid(height, width, data);
        r := Ok(g);
      } else {
        r := Err("Data length is incompatible with given height and width");
      }
    }

    /** `len`: the number of cells, which is the number of stored values. */
    function Len(): (n: nat)
      reads this
      requires Valid()
      ensures n == |data| && n >= 1
    {
      height * width
    }

    /** `shape`: (height, width); both positive and their product is the number of values. */
    function Shape(): (s: (nat, nat))
      reads this
      requires Valid()
      ensures s == (height, width)
      ensures s.0 >= 1 && s.1 >= 1 && s.0 * s.1 == |data|
    {
      (height, width)
    }

    /** `index`: the row-major offset of (row, col), absent exactly when out of range. */
    function Index(row: nat, col: nat): (r: Option<nat>)
      requires height >= 1 && width >= 1
      ensures r.Some? <==> Contains((row, col))
      ensures r.Some? ==> r.value < height * width && r.value == Offset(height, width, row, col)
    {
      if row <= height - 1 && col <= width - 1 then Some(Offset(height, width, row, col)) else None
    }

    /** `index_rev`: the position of an offset, absent exactly when the offset is past the end. */
    function IndexRev(index: nat): (r: Option<Pos>)
      requires height >= 1 && width >= 1
      ensures r.Some? <==> index < height * width
      ensures r.Some? ==> Contains(r.value) && Offset(height, width, r.value.0, r.value.1) == index
    {
      if index < height * width then Some(PosOf(height, width, index)) else None
    }

    /** `get`: the value at (row, col), absent out of range. */
    function Get(row: nat, col: nat): (r: Option<T>)
      reads this
      requires Valid()
      ensures r.Some? <==> Contains((row, col))
      ensures r.Some? ==> r.value == data[Offset(height, width, row, col)]
    {
      match Index(row, col)
      case Some(i) => Some(data[i])
      case None => None
    }

    /** The value at an in-range position. */
    function At(p: Pos): T
      reads this
      requires Valid() && Contains(p)
    {
      data[Offset(height, width, p.0, p.1)]
    }

    /** `set`: overwrites exactly the cell at (row, col); out of range it fails and changes nothing. */
    method Set(row: nat, col: nat, value: T) returns (r: Result<(), string>)
      requires Valid()
      modifies this
      ensures Valid()
      ensures r.Ok? <==> Contains((row, col))
      ensures r.Ok? ==> data == old(data)[Offset(height, width, row, col) := value]
      ensures r.Err? ==> data == old(data)
    {
      var index := Index(row, col);
      match index {
        case Some(i) =>
          data := data[i := value];
          r := Ok(());
        case None =>
          r := Err("Non-existent index requested");
      }
    }

    /** `neighbours8`: the cells around (row, col), found by clamping each axis to the grid
        and dropping the centre, in row-major order. */
    method Neighbours8(row: nat, col: nat) returns (nbrs: seq<Pos>)
      requires height >= 1 && width >= 1
      ensures RowMajorSorted(nbrs)
      ensures forall k :: 0 <= k < |nbrs| ==> Adjacent(nbrs[k], (row, col))
      ensures Contains((row, col)) ==> forall p :: p in nbrs <==> Contains(p) && Adjacent(p, (row, col))
      ensures Contains((row, col)) ==> |nbrs| == AxisSpan(row, height) * AxisSpan(col, width) - 1
      ensures Contains((row, col)) && height >= 2 && width >= 2 ==>
        var rowEdge, colEdge := row == 0 || row == height - 1, col == 0 || col == width - 1;
        |nbrs| == if rowEdge && colEdge then 3 else if rowEdge || colEdge then 5 else 8
    {
      var rowLeft := if row > 0 then row - 1 else row;
      var rowRight := if row < height - 1 then row + 1 else row;
      var colLeft := if col > 0 then col - 1 else col;
      var colRight := if col < width - 1 then col + 1 else col;
      var span := colRight - colLeft + 1;
      nbrs := [];
      ghost var swept := 0;
      var i := rowLeft;
      while i <= rowRight
        invariant rowLeft <= i <= rowRight + 1
        invariant RowMajorSorted(nbrs)
        invariant forall k :: 0 <= k < |nbrs| ==> Visited(nbrs[k], rowLeft, i, 0, colLeft, colRight) && nbrs[k] != (row, col)
        invariant forall p :: Visited(p, rowLeft, i, 0, colLeft, colRight) && p != (row, col) ==> p in nbrs
        invariant swept == if i == rowLeft then 0 else if i == rowLeft + 1 then span else if i == rowLeft + 2 then 2 * span else 3 * span
        invariant |nbrs| == swept - (if rowLeft <= row < i then 1 else 0)
      {
        nbrs := SweepWindowRow(row, col, rowLeft, i, colLeft, colRight, nbrs);
        swept := swept + span;
        i := i + 1;
      }
      WindowIsNeighbourhood(row, col, rowLeft, rowRight, colLeft, colRight, nbrs);
    }

    /** The inner loop of `neighbours8`: append row `i` of the window, columns `colLeft` to
        `colRight`, skipping the centre. */
    static method SweepWindowRow(row: nat, col: nat, rowLeft: nat, i: nat, colLeft: nat, colRight: nat, nbrs: seq<Pos>)
      returns (r: seq<Pos>)
      requires rowLeft <= i && colLeft <= col <= colRight
      requires RowMajorSorted(nbrs)
      requires forall k :: 0 <= k < |nbrs| ==> Visited(nbrs[k], rowLeft, i, 0, colLeft, colRight) && nbrs[k] != (row, col)
      requires forall p :: Visited(p, rowLeft, i, 0, colLeft, colRight) && p != (row, col) ==> p in nbrs
      ensures RowMajorSorted(r)
      ensures forall k :: 0 <= k < |r| ==> Visited(r[k], rowLeft, i + 1, 0, colLeft, colRight) && r[k] != (row, col)
      ensures forall p :: Visited(p, rowLeft, i + 1, 0, colLeft, colRight) && p != (row, col) ==> p in r
      ensures |r| == |nbrs| + (colRight + 1 - colLeft) - (if i == row then 1 else 0)
    {
      r := nbrs;
      var j := colLeft;
      while j <= colRight
        invariant colLeft <= j <= colRight + 1
        invariant RowMajorSorted(r)
        invariant forall k :: 0 <= k < |r| ==> Visited(r[k], rowLeft, i, j, colLeft, colRight) && r[k] != (row, col)
        invariant forall p :: Visited(p, rowLeft, i, j, colLeft, colRight) && p != (row, col) ==> p in r
        invariant |r| == |nbrs| + (j - colLeft) - (if i == row && col < j then 1 else 0)
      {
        if i != row || j != col {
          r := r + [(i, j)];
        }
        j := j + 1;
      }
    }

    /** After the loops of `Neighbours8`: the visited window, less its centre, is the neighbourhood. */
    lemma WindowIsNeighbourhood(row: nat, col: nat, rowLeft: nat, rowRight: nat, colLeft: nat, colRight: nat, nbrs: seq<Pos>)
      requires height >= 1 && width >= 1
      requires rowLeft == (if row > 0 then row - 1 else row) && rowRight == (if row < height - 1 then row + 1 else row)
      requires colLeft == (if col > 0 then col - 1 else col) && colRight == (if col < width - 1 then col + 1 else col)
      requires forall k :: 0 <= k < |nbrs| ==> Visited(nbrs[k], rowLeft, rowRight + 1, 0, colLeft, colRight) && nbrs[k] != (row, col)
      requires forall p :: Visited(p, rowLeft, rowRight + 1, 0, colLeft, colRight) && p != (row, col) ==> p in nbrs
      requires |nbrs| == (var span := colRight - colLeft + 1;
        if rowRight == rowLeft then span else if rowRight == rowLeft + 1 then 2 * span else 3 * span) - 1
      ensures forall k :: 0 <= k < |nbrs| ==> Adjacent(nbrs[k], (row, col))
      ensures Contains((row, col)) ==> forall p :: p in nbrs <==> Contains(p) && Adjacent(p, (row, col))
      ensures Contains((row, col)) ==> |nbrs| == AxisSpan(row, height) * AxisSpan(col, width) - 1
    {
      if Contains((row, col)) {
        assert rowRight + 1 - rowLeft == AxisSpan(row, height);
        assert colRight - colLeft + 1 == AxisSpan(col, width);
        forall p | Contains(p) && Adjacent(p, (row, col))
          ensures p in nbrs
        {
          assert Visited(p, rowLeft, rowRight + 1, 0, colLeft, colRight);
        }
      }
    }

    /** The `(row, col, value)` triples of the grid in row-major order: what an `IterGrid`
        yields, one per call of `next`. */
    function Cells(): (cells: seq<(nat, nat, T)>)
      reads this
      requires Valid()
      ensures |cells| == |data|
    {
      var d := data;
      seq(|d|, k requires 0 <= k < |d| =>
        var p := PosOf(height, width, k); (p.0, p.1, d[k]))
    }

    /** `index` and `index_rev` undo each other on their domains. */
    lemma IndexRoundTrip(row: nat, col: nat, index: nat)
      requires height >= 1 && width >= 1
      ensures Contains((row, col)) ==> IndexRev(Index(row, col).value) == Some((row, col))
      ensures index < height * width ==> Index(IndexRev(index).value.0, IndexRev(index).value.1) == Some(index)
    {
      if Contains((row, col)) {
        OffsetPosOf(height, width, row, col);
      }
    }

    /** The traversal visits every position exactly once, in row-major order, with its value. */
    lemma CellsRowMajor()
      requires Valid()
      ensures forall row: nat, col: nat :: Contains((row, col)) ==>
        Cells()[Offset(height, width, row, col)] == (row, col, data[Offset(height, width, row, col)])
      ensures forall a, b :: 0 <= a < b < |data| ==>
        RowMajorLess((Cells()[a].0, Cells()[a].1), (Cells()[b].0, Cells()[b].1))
    {
      forall row: nat, col: nat | Contains((row, col))
        ensures Cells()[Offset(height, width, row, col)] == (row, col, data[Offset(height, width, row, col)])
      {
        OffsetPosOf(height, width, row, col);
      }
      forall a, b | 0 <= a < b < |data|
        ensures RowMajorLess((Cells()[a].0, Cells()[a].1), (Cells()[b].0, Cells()[b].1))
      {
        OffsetOrder(height, width, PosOf(height, width, a), PosOf(height, width, b));
      }
    }

    /** `Display`: the values rendered by `show`, row by row, as `Rendered` describes. */
    method Fmt(show: T -> string) returns (s: string)
      requires Valid()
      ensures s == Rendered(height, width, data, show)
    {
      ghost var cells := data;
      ghost var rows := seq(height, row requires 0 <= row < height => Text.Join(" ", RowTexts(height, width, cells, show, row)));
      s := "";
      for row := 0 to height
        invariant s == JoinedPrefix("\n", rows, row)
      {
        ghost var texts := RowTexts(height, width, data, show, row);
        ghost var base := s;
        for col := 0 to width
          invariant s == base + JoinedPrefix(" ", texts, col)
        {
          var sep := if col < width - 1 then " " else "";
          JoinedPrefixStep(" ", texts, col);
          s := s + show(Get(row, col).value) + sep;
        }
        JoinedPrefixStep("\n", rows, row);
        assert texts[..width] == texts;
        if row < height - 1 {
          s := s + "\n";
        }
      }
      assert rows[..height] == rows;
    }

    /** `iter`: a fresh traversal starting at the first cell. */
    method Iter() returns (it: IterGrid<T>)
      ensures fresh(it) && it.grid == this && it.currIx == 0
    {
      it := new IterGrid(this);
    }
  }

  /** `IterGrid`: a cursor over a grid that the iterator does not change. */
  class IterGrid<T> {
    const grid: Grid<T>
    var currIx: nat

    constructor (grid: Grid<T>)
      ensures this.grid == grid && currIx == 0
    {
      this.grid := grid;
      currIx := 0;
    }

    /** `next`: the cell at the cursor, advancing it; `None` once every cell was produced. */
    method Next() returns (r: Option<(nat, nat, T)>)
      requires grid.Valid()
      modifies this
      ensures old(currIx) < |grid.data| ==> r == Some(grid.Cells()[old(currIx)]) && currIx == old(currIx) + 1
      ensures old(currIx) >= |grid.data| ==> r == None && currIx == old(currIx)
    {
      match grid.IndexRev(currIx) {
        case Some(p) =>
          var value := grid.data[currIx];
          currIx := currIx + 1;
          r := Some((p.0, p.1, value));
        case None =>
          r := None;
      }
    }
  }
}
