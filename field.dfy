/** The bomb layout of `src/minefield/field.rs`: a grid of cells, each a bomb or a clean
    cell holding the number of bombs around it, fixed once built. */
module Field {
  import opened Wrappers
  import opened Grid
  import Text

  /** A bomb, or a clean cell with the number of bombs among its neighbours. */
  datatype Cell = Bomb | Clean(n: nat)

  /** `Display` for a cell: "X" for a bomb, the decimal count otherwise; distinct cells
      render differently. */
  function CellText(c: Cell): (s: string)
    ensures c.Bomb? <==> s == "X"
    ensures c.Clean? ==> |s| >= 1 && (forall i :: 0 <= i < |s| ==> Text.IsDigit(s[i])) && Text.ParseNat(s) == c.n
  {
    match c
    case Bomb => "X"
    case Clean(i) => Text.ParseNatToString(i); Text.NatToString(i)
  }

  // ---------------------------------------------------------------------------
  // Specification of bomb burying

  predicate AllIn(height: nat, width: nat, locs: seq<Pos>)
  {
    forall k :: 0 <= k < |locs| ==> locs[k].0 < height && locs[k].1 < width
  }

  predicate Distinct<T(==)>(s: seq<T>)
  {
    forall a, b :: 0 <= a < b < |s| ==> s[a] != s[b]
  }

  /** One bomb placed at `loc`: that cell becomes a bomb, each clean cell around it counts
      one more, every other cell keeps its value. */
  function BuryOne(height: nat, width: nat, cells: seq<Cell>, loc: Pos): (r: seq<Cell>)
    requires |cells| == height * width && loc.0 < height && loc.1 < width
    ensures |r| == |cells|
  {
    seq(|cells|, k requires 0 <= k < |cells| =>
      if k == Offset(height, width, loc.0, loc.1) then Bomb
      else if Adjacent(PosOf(height, width, k), loc) && cells[k].Clean? then Clean(cells[k].n + 1)
      else cells[k])
  }

  /** The bombs of `locs` placed one after the other, stopping at the first location
      outside the grid. */
  function Buried(height: nat, width: nat, cells: seq<Cell>, locs: seq<Pos>): (r: seq<Cell>)
    requires |cells| == height * width
    ensures |r| == |cells|
    decreases |locs|
  {
    if |locs| == 0 || !(locs[0].0 < height && locs[0].1 < width) then cells
    else Buried(height, width, BuryOne(height, width, cells, locs[0]), locs[1..])
  }

  /** Burying a list in two calls, first a prefix and then the rest, is burying it in one,
      as long as the prefix lies inside the grid. */
  lemma {:induction false} BuryConcat(height: nat, width: nat, cells: seq<Cell>, a: seq<Pos>, b: seq<Pos>)
    requires |cells| == height * width
    ensures AllIn(height, width, a) ==> Buried(height, width, cells, a + b) == Buried(height, width, Buried(height, width, cells, a), b)
    ensures !AllIn(height, width, a) ==> Buried(height, width, cells, a + b) == Buried(height, width, cells, a)
    decreases |a|
  {
    if |a| > 0 {
      assert (a + b)[0] == a[0];
      if a[0].0 < height && a[0].1 < width {
        assert (a + b)[1..] == a[1..] + b;
        BuryConcat(height, width, BuryOne(height, width, cells, a[0]), a[1..], b);
        assert AllIn(height, width, a) <==> AllIn(height, width, a[1..]);
      }
    } else {
      assert a + b == b;
    }
  }

  /** A bomb cell stays a bomb whatever is buried afterwards. */
  lemma {:induction false} BuriedKeepsBombs(height: nat, width: nat, cells: seq<Cell>, locs: seq<Pos>, k: nat)
    requires |cells| == height * width && k < |cells| && cells[k] == Bomb
    ensures Buried(height, width, cells, locs)[k] == Bomb
    decreases |locs|
  {
    if |locs| > 0 && locs[0].0 < height && locs[0].1 < width {
      BuriedKeepsBombs(height, width, BuryOne(height, width, cells, locs[0]), locs[1..], k);
    }
  }

  /** The bombs among the neighbours of `p`. */
  function NeighbouringBombs(p: Pos, bombs: set<Pos>): set<Pos>
  {
    set q | q in bombs && Adjacent(q, p)
  }

  /** `cells` holds a bomb exactly at the positions of `bombs` and, in every other cell,
      the number of bombs around it. */
  ghost predicate Consistent(height: nat, width: nat, cells: seq<Cell>, bombs: set<Pos>)
  {
    |cells| == height * width &&
    forall p: Pos {:trigger CellMatches(height, width, cells, bombs, p)} ::
      p.0 < height && p.1 < width ==> CellMatches(height, width, cells, bombs, p)
  }

  /** The cell at `p` is a bomb if `p` is one of `bombs`, else the number of bombs around it. */
  ghost predicate CellMatches(height: nat, width: nat, cells: seq<Cell>, bombs: set<Pos>, p: Pos)
    requires |cells| == height * width && p.0 < height && p.1 < width
  {
    cells[Offset(height, width, p.0, p.1)] == if p in bombs then Bomb else Clean(|NeighbouringBombs(p, bombs)|)
  }

  /** In a consistent grid no neighbour of a `Clean(0)` cell is a bomb. */
  lemma ZeroHasNoBombNeighbour(height: nat, width: nat, cells: seq<Cell>, bombs: set<Pos>, p: Pos, q: Pos)
    requires Consistent(height, width, cells, bombs)
    requires p.0 < height && p.1 < width && q.0 < height && q.1 < width && Adjacent(q, p)
    requires cells[Offset(height, width, p.0, p.1)] == Clean(0)
    ensures q !in bombs && cells[Offset(height, width, q.0, q.1)] != Bomb
  {
    var near := NeighbouringBombs(p, bombs);
    assert CellMatches(height, width, cells, bombs, p) && CellMatches(height, width, cells, bombs, q);
    assert |near| == 0;
    assert q in bombs ==> q in near;
  }

  /** A cell has at most eight neighbours, so a count never exceeds 8. */
  lemma NeighbouringBombsAtMost8(p: Pos, bombs: set<Pos>)
    ensures |NeighbouringBombs(p, bombs)| <= 8
  {
    var (r, c) := p;
    var r0 := if r > 0 then r - 1 else r;
    var c0 := if c > 0 then c - 1 else c;
    var ring: set<Pos> := {(r0, c0), (r0, c), (r0, c + 1), (r, c0), (r, c + 1), (r + 1, c0), (r + 1, c), (r + 1, c + 1)};
    var near := NeighbouringBombs(p, bombs);
    forall q | q in near
      ensures q in ring
    {
    }
    SubsetCard(near, ring);
  }

  lemma SubsetCard<T>(a: set<T>, b: set<T>)
    requires a <= b
    ensures |a| <= |b|
  {
    assert b == a + (b - a);
  }

  /** Placing one more bomb keeps the counts right. */
  lemma BuryOneConsistent(height: nat, width: nat, cells: seq<Cell>, bombs: set<Pos>, loc: Pos)
    requires Consistent(height, width, cells, bombs)
    requires loc.0 < height && loc.1 < width && loc !in bombs
    ensures Consistent(height, width, BuryOne(height, width, cells, loc), bombs + {loc})
  {
    var next := BuryOne(height, width, cells, loc);
    var more := bombs + {loc};
    forall p: Pos | p.0 < height && p.1 < width
      ensures CellMatches(height, width, next, more, p)
    {
      assert CellMatches(height, width, cells, bombs, p);
      var k := Offset(height, width, p.0, p.1);
      OffsetPosOf(height, width, p.0, p.1);
      if k == Offset(height, width, loc.0, loc.1) {
        OffsetInjective(height, width, p, loc);
      } else if p !in bombs {
        if Adjacent(p, loc) {
          assert NeighbouringBombs(p, more) == NeighbouringBombs(p, bombs) + {loc};
        } else {
          assert NeighbouringBombs(p, more) == NeighbouringBombs(p, bombs);
        }
      }
    }
  }

  /** Burying distinct new locations keeps the counts right. */
  lemma {:induction false} BuriedConsistent(height: nat, width: nat, cells: seq<Cell>, bombs: set<Pos>, locs: seq<Pos>)
    requires Consistent(height, width, cells, bombs)
    requires AllIn(height, width, locs) && Distinct(locs)
    requires forall k :: 0 <= k < |locs| ==> locs[k] !in bombs
    ensures Consistent(height, width, Buried(height, width, cells, locs), bombs + set q | q in locs)
    decreases |locs|
  {
    if |locs| > 0 {
      BuryOneConsistent(height, width, cells, bombs, locs[0]);
      forall k | 0 <= k < |locs[1..]|
        ensures locs[1..][k] !in bombs + {locs[0]}
      {
        assert locs[1..][k] == locs[k + 1];
      }
      BuriedConsistent(height, width, BuryOne(height, width, cells, locs[0]), bombs + {locs[0]}, locs[1..]);
      assert locs == [locs[0]] + locs[1..];
      assert bombs + {locs[0]} + (set q | q in locs[1..]) == bombs + set q | q in locs;
    } else {
      assert (set q | q in locs) == {};
      assert bombs + (set q | q in locs) == bombs;
    }
  }

  /** From a grid of `Clean(0)`, burying distinct in-range locations puts a bomb exactly on
      each of them and in every other cell the number of its neighbours that are bombs. */
  lemma BuriedFromClean(height: nat, width: nat, locs: seq<Pos>)
    requires AllIn(height, width, locs) && Distinct(locs)
    ensures Consistent(height, width, Buried(height, width, seq(height * width, _ => Clean(0)), locs), set q | q in locs)
  {
    var clean := seq(height * width, _ => Clean(0));
    forall p: Pos | p.0 < height && p.1 < width
      ensures CellMatches(height, width, clean, {}, p)
    {
      assert NeighbouringBombs(p, {}) == {};
    }
    BuriedConsistent(height, width, clean, {}, locs);
    assert {} + (set q | q in locs) == set q | q in locs;
  }

  /** The pinned example: one bomb in the middle of a clean 3x3 grid gives every other cell
      a count of one. */
  lemma BuryCentre()
    ensures Buried(3, 3, seq(9, _ => Clean(0)), [(1, 1)]) ==
            [Clean(1), Clean(1), Clean(1), Clean(1), Bomb, Clean(1), Clean(1), Clean(1), Clean(1)]
  {
    var clean := seq(9, _ => Clean(0));
    var one := [Clean(1), Clean(1), Clean(1), Clean(1), Bomb, Clean(1), Clean(1), Clean(1), Clean(1)];
    var next := BuryOne(3, 3, clean, (1, 1));
    forall k | 0 <= k < 9
      ensures next[k] == one[k]
    {
      assert PosOf(3, 3, k) == (k / 3, k % 3);
    }
    assert [(1, 1)][1..] == [];
  }

  // ---------------------------------------------------------------------------
  // Burying bombs in a grid, in place

  /** The grid part-way through placing the bomb at `loc`: the bomb is set and the clean
      cells at the positions of `done` count one more. */
  function PartlyBuried(height: nat, width: nat, cells: seq<Cell>, loc: Pos, done: seq<Pos>): (r: seq<Cell>)
    requires |cells| == height * width && loc.0 < height && loc.1 < width
    ensures |r| == |cells|
  {
    seq(|cells|, k requires 0 <= k < |cells| =>
      if k == Offset(height, width, loc.0, loc.1) then Bomb
      else if PosOf(height, width, k) in done && cells[k].Clean? then Clean(cells[k].n + 1)
      else cells[k])
  }

  /** One more neighbour visited: its cell counts one more if it is clean. */
  lemma PartlyBuriedStep(height: nat, width: nat, cells: seq<Cell>, loc: Pos, done: seq<Pos>, q: Pos)
    requires |cells| == height * width && loc.0 < height && loc.1 < width
    requires q.0 < height && q.1 < width && q != loc && q !in done
    ensures var before := PartlyBuried(height, width, cells, loc, done);
            var k := Offset(height, width, q.0, q.1);
            PartlyBuried(height, width, cells, loc, done + [q]) ==
              if before[k].Clean? then before[k := Clean(before[k].n + 1)] else before
  {
    var k := Offset(height, width, q.0, q.1);
    OffsetPosOf(height, width, q.0, q.1);
    if k == Offset(height, width, loc.0, loc.1) {
      OffsetInjective(height, width, q, loc);
    }
    forall j | 0 <= j < |cells| && j != k
      ensures PosOf(height, width, j) != q
    {
    }
  }

  /** Once every neighbour of `loc` inside the grid is visited, the bomb is fully placed. */
  lemma PartlyBuriedDone(height: nat, width: nat, cells: seq<Cell>, loc: Pos, done: seq<Pos>)
    requires |cells| == height * width && loc.0 < height && loc.1 < width
    requires forall p :: p in done <==> p.0 < height && p.1 < width && Adjacent(p, loc)
    ensures PartlyBuried(height, width, cells, loc, done) == BuryOne(height, width, cells, loc)
  {
  }

  lemma PartlyBuriedStart(height: nat, width: nat, cells: seq<Cell>, loc: Pos)
    requires |cells| == height * width && loc.0 < height && loc.1 < width
    ensures PartlyBuried(height, width, cells, loc, []) == cells[Offset(height, width, loc.0, loc.1) := Bomb]
  {
  }

  /** The next entry of a row-major sorted list is not among the earlier ones. */
  lemma SortedNext(nbrs: seq<Pos>, u: nat)
    requires RowMajorSorted(nbrs) && u < |nbrs|
    ensures nbrs[u] !in nbrs[..u] && nbrs[..u + 1] == nbrs[..u] + [nbrs[u]]
  {
    forall a | 0 <= a < u
      ensures nbrs[a] != nbrs[u]
    {
      assert RowMajorLess(nbrs[a], nbrs[u]);
    }
  }

  /** Burying one more in-range location extends the burying of the prefix. */
  lemma BuriedSnoc(height: nat, width: nat, cells: seq<Cell>, locs: seq<Pos>, t: nat)
    requires |cells| == height * width && t < |locs| && AllIn(height, width, locs[..t])
    requires locs[t].0 < height && locs[t].1 < width
    ensures AllIn(height, width, locs[..t + 1])
    ensures Buried(height, width, cells, locs[..t + 1]) == BuryOne(height, width, Buried(height, width, cells, locs[..t]), locs[t])
  {
    BuryConcat(height, width, cells, locs[..t], [locs[t]]);
    assert locs[..t + 1] == locs[..t] + [locs[t]];
  }

  /** An out-of-range location ends the burying: what follows it is ignored. */
  lemma BuriedStops(height: nat, width: nat, cells: seq<Cell>, locs: seq<Pos>, t: nat)
    requires |cells| == height * width && t < |locs| && AllIn(height, width, locs[..t])
    requires !(locs[t].0 < height && locs[t].1 < width)
    ensures !AllIn(height, width, locs)
    ensures Buried(height, width, cells, locs) == Buried(height, width, cells, locs[..t])
  {
    BuryConcat(height, width, cells, locs[..t], locs[t..]);
    assert locs[..t] + locs[t..] == locs;
  }

  /** The inner loop of `bury_bombs`: add one to each clean neighbour of the bomb just placed
      at `loc`. */
  method BumpNeighbours(fieldGrid: Grid<Cell>, loc: Pos, neighbours: seq<Pos>, ghost cells: seq<Cell>)
    requires fieldGrid.Valid() && loc.0 < fieldGrid.height && loc.1 < fieldGrid.width
    requires |cells| == fieldGrid.height * fieldGrid.width
    requires fieldGrid.data == cells[Offset(fieldGrid.height, fieldGrid.width, loc.0, loc.1) := Bomb]
    requires RowMajorSorted(neighbours)
    requires forall p :: p in neighbours <==> p.0 < fieldGrid.height && p.1 < fieldGrid.width && Adjacent(p, loc)
    modifies fieldGrid
    ensures fieldGrid.Valid()
    ensures fieldGrid.data == BuryOne(fieldGrid.height, fieldGrid.width, cells, loc)
  {
    var height, width := fieldGrid.height, fieldGrid.width;
    PartlyBuriedStart(height, width, cells, loc);
    var u := 0;
    while u < |neighbours|
      invariant 0 <= u <= |neighbours|
      invariant fieldGrid.Valid()
      invariant fieldGrid.data == PartlyBuried(height, width, cells, loc, neighbours[..u])
    {
      var (iN, jN) := neighbours[u];
      SortedNext(neighbours, u);
      PartlyBuriedStep(height, width, cells, loc, neighbours[..u], neighbours[u]);
      match fieldGrid.Get(iN, jN) {
        case Some(Clean(i)) =>
          var bumped := fieldGrid.Set(iN, jN, Clean(i + 1));
          assert bumped.Ok?;
        case _ =>
      }
      u := u + 1;
    }
    assert neighbours[..u] == neighbours;
    PartlyBuriedDone(height, width, cells, loc, neighbours);
  }

  /** `bury_bombs`: for each location in turn, set a bomb there and raise the count of every
      clean cell around it; the first location outside the grid stops the burying with an
      error, leaving the bombs placed so far. */
  method BuryBombs(fieldGrid: Grid<Cell>, bombLocations: seq<Pos>) returns (r: Result<(), string>)
    requires fieldGrid.Valid()
    modifies fieldGrid
    ensures fieldGrid.Valid()
    ensures r.Ok? <==> AllIn(fieldGrid.height, fieldGrid.width, bombLocations)
    ensures fieldGrid.data == Buried(fieldGrid.height, fieldGrid.width, old(fieldGrid.data), bombLocations)
  {
    var height, width := fieldGrid.height, fieldGrid.width;
    var t := 0;
    while t < |bombLocations|
      invariant 0 <= t <= |bombLocations|
      invariant fieldGrid.Valid()
      invariant AllIn(height, width, bombLocations[..t])
      invariant fieldGrid.data == Buried(height, width, old(fieldGrid.data), bombLocations[..t])
    {
      var (iBomb, jBomb) := bombLocations[t];
      ghost var cells := fieldGrid.data;
      var placed := fieldGrid.Set(iBomb, jBomb, Bomb);
      if placed.Err? {
        BuriedStops(height, width, old(fieldGrid.data), bombLocations, t);
        return placed;
      }
      var neighbours := fieldGrid.Neighbours8(iBomb, jBomb);
      BumpNeighbours(fieldGrid, (iBomb, jBomb), neighbours, cells);
      BuriedSnoc(height, width, old(fieldGrid.data), bombLocations, t);
      t := t + 1;
    }
    assert bombLocations[..t] == bombLocations;
    r := Ok(());
  }

  // ---------------------------------------------------------------------------
  // The minefield

  /** The positions of the bomb cells of a grid. */
  function BombPositions(height: nat, width: nat, cells: seq<Cell>): set<Pos>
    requires |cells| == height * width
  {
    set i: nat, j: nat | i < height && j < width && cells[Offset(height, width, i, j)] == Bomb :: (i, j)
  }

  lemma BombPositionsMember(height: nat, width: nat, cells: seq<Cell>, p: Pos)
    requires |cells| == height * width
    ensures p in BombPositions(height, width, cells) <==>
              p.0 < height && p.1 < width && cells[Offset(height, width, p.0, p.1)] == Bomb
  {
    if p.0 < height && p.1 < width && cells[Offset(height, width, p.0, p.1)] == Bomb {
      var (i, j) := p;
      assert (i, j) in BombPositions(height, width, cells);
    }
  }

  /** A consistent grid has its bombs exactly where the bomb set says. */
  lemma ConsistentBombs(height: nat, width: nat, cells: seq<Cell>, bombs: set<Pos>)
    requires Consistent(height, width, cells, bombs)
    requires forall p :: p in bombs ==> p.0 < height && p.1 < width
    ensures BombPositions(height, width, cells) == bombs
  {
    forall p | p in BombPositions(height, width, cells)
      ensures p in bombs
    {
      BombPositionsMember(height, width, cells, p);
      assert CellMatches(height, width, cells, bombs, p);
    }
    forall p | p in bombs
      ensures p in BombPositions(height, width, cells)
    {
      BombPositionsMember(height, width, cells, p);
      assert CellMatches(height, width, cells, bombs, p);
    }
  }

  /** A list without repetitions has as many distinct members as entries. */
  lemma {:induction false} DistinctCard<T>(s: seq<T>)
    requires Distinct(s)
    ensures |set x | x in s| == |s|
  {
    if |s| > 0 {
      DistinctCard(s[1..]);
      assert (set x | x in s) == {s[0]} + set x | x in s[1..];
      assert s[0] !in set x | x in s[1..];
    } else {
      assert (set x | x in s) == {};
    }
  }

  /** The acceptance rule of `submit`: as many distinct locations as there are bombs, each of
      them inside the grid and holding a bomb. */
  predicate Accepts(height: nat, width: nat, cells: seq<Cell>, numBombs: nat, locs: seq<Pos>)
    requires |cells| == height * width
  {
    |set p | p in locs| == numBombs &&
    forall p :: p in locs ==> p.0 < height && p.1 < width && cells[Offset(height, width, p.0, p.1)] == Bomb
  }

  lemma SubsetSameCard<T>(a: set<T>, b: set<T>)
    requires a <= b && |a| == |b|
    ensures a == b
  {
    assert b == a + (b - a);
  }

  /** With the bomb count right, a submission is accepted exactly when its locations, taken
      as a set, are the bomb positions: order and repetitions do not matter, a missing bomb
      or an extra location fails it. */
  lemma AcceptsExactly(height: nat, width: nat, cells: seq<Cell>, numBombs: nat, locs: seq<Pos>)
    requires |cells| == height * width && numBombs == |BombPositions(height, width, cells)|
    ensures Accepts(height, width, cells, numBombs, locs) <==> (set p | p in locs) == BombPositions(height, width, cells)
  {
    var submitted := set p | p in locs;
    var bombs := BombPositions(height, width, cells);
    if Accepts(height, width, cells, numBombs, locs) {
      forall p | p in submitted
        ensures p in bombs
      {
        BombPositionsMember(height, width, cells, p);
      }
      SubsetSameCard(submitted, bombs);
    } else if submitted == bombs {
      forall p | p in locs
        ensures p.0 < height && p.1 < width && cells[Offset(height, width, p.0, p.1)] == Bomb
      {
        BombPositionsMember(height, width, cells, p);
      }
    }
  }

  /** The 2x2 field of the preset example, with its two bombs on the top row, accepts a
      submission exactly when it names the top-row positions, in any order, each at least
      once and nothing else. */
  lemma PresetAccepts(cells: seq<Cell>, locs: seq<Pos>)
    requires cells == [Bomb, Bomb, Clean(2), Clean(2)]
    ensures Accepts(2, 2, cells, 2, locs) <==> (set p | p in locs) == {(0, 0), (0, 1)}
  {
    var bombs := BombPositions(2, 2, cells);
    BombPositionsMember(2, 2, cells, (0, 0));
    BombPositionsMember(2, 2, cells, (0, 1));
    forall p | p in bombs
      ensures p == (0, 0) || p == (0, 1)
    {
      BombPositionsMember(2, 2, cells, p);
    }
    assert bombs == {(0, 0), (0, 1)};
    AcceptsExactly(2, 2, cells, 2, locs);
  }

  /** The positions of row-major indices. */
  function IndexPositions(height: nat, width: nat, bombIndices: seq<nat>): seq<Pos>
    requires forall a :: 0 <= a < |bombIndices| ==> bombIndices[a] < height * width
  {
    seq(|bombIndices|, a requires 0 <= a < |bombIndices| => PosOf(height, width, bombIndices[a]))
  }

  /** Burying the bombs at distinct sampled indices into a `Clean(0)` grid gives a consistent
      field with exactly those cells as bombs, as many as there are indices. */
  lemma SampledLayout(height: nat, width: nat, numBombs: nat, bombIndices: seq<nat>)
    requires |bombIndices| == numBombs && Distinct(bombIndices)
    requires forall a :: 0 <= a < |bombIndices| ==> bombIndices[a] < height * width
    ensures var cells := Buried(height, width, seq(height * width, _ => Clean(0)), IndexPositions(height, width, bombIndices));
            AllIn(height, width, IndexPositions(height, width, bombIndices)) &&
            Consistent(height, width, cells, BombPositions(height, width, cells)) &&
            numBombs == |BombPositions(height, width, cells)| &&
            forall k :: 0 <= k < height * width ==> (PosOf(height, width, k) in BombPositions(height, width, cells) <==> k in bombIndices)
  {
    var positions := IndexPositions(height, width, bombIndices);
    var cells := Buried(height, width, seq(height * width, _ => Clean(0)), positions);
    forall a, b | 0 <= a < b < |positions|
      ensures positions[a] != positions[b]
    {
    }
    BuriedFromClean(height, width, positions);
    ConsistentBombs(height, width, cells, set q | q in positions);
    DistinctCard(positions);
    forall k | 0 <= k < height * width
      ensures PosOf(height, width, k) in positions <==> k in bombIndices
    {
      if k in bombIndices {
        var a :| 0 <= a < |bombIndices| && bombIndices[a] == k;
        assert positions[a] == PosOf(height, width, k);
      }
    }
  }

  /** A field of bombs and counts; it never changes once built. */
  class Minefield {
    const field: Grid<Cell>
    const numBombs: nat

    /** The grid is well formed, every clean cell holds the number of bombs around it, and
        `numBombs` is the number of bombs. */
    ghost predicate Valid()
      reads this, field
    {
      field.Valid() &&
      Consistent(field.height, field.width, field.data, BombPositions(field.height, field.width, field.data)) &&
      numBombs == |BombPositions(field.height, field.width, field.data)|
    }

    /** The struct literal. */
    constructor (field: Grid<Cell>, numBombs: nat)
      requires field.Valid()
      requires Consistent(field.height, field.width, field.data, BombPositions(field.height, field.width, field.data))
      requires numBombs == |BombPositions(field.height, field.width, field.data)|
      ensures this.field == field && this.numBombs == numBombs && Valid()
    {
      this.field := field;
      this.numBombs := numBombs;
    }

    /** `Minefield::new`: a `Clean(0)` grid of the given shape with bombs buried at the
        cells of `bombIndices`, the row-major indices the source samples at random. */
    static method New(height: nat, width: nat, numBombs: nat, bombIndices: seq<nat>) returns (r: Result<Minefield, string>)
      requires height >= 1 && width >= 1
      requires |bombIndices| == numBombs && Distinct(bombIndices)
      requires forall a :: 0 <= a < |bombIndices| ==> bombIndices[a] < height * width
      ensures r.Ok? && fresh(r.value) && fresh(r.value.field) && r.value.Valid()
      ensures r.value.field.height == height && r.value.field.width == width && r.value.numBombs == numBombs
      ensures r.value.field.data == Buried(height, width, seq(height * width, _ => Clean(0)), IndexPositions(height, width, bombIndices))
      ensures forall k :: 0 <= k < height * width ==>
                (PosOf(height, width, k) in BombPositions(height, width, r.value.field.data) <==> k in bombIndices)
    {
      var emptyField := seq(height * width, _ => Clean(0));
      var made := Grid<Cell>.New(height, width, emptyField);
      var fieldGrid := made.value;
      var bombIndices2d := seq(|bombIndices|, a requires 0 <= a < |bombIndices| => fieldGrid.IndexRev(bombIndices[a]).value);
      assert bombIndices2d == IndexPositions(height, width, bombIndices);
      SampledLayout(height, width, numBombs, bombIndices);
      var buried := BuryBombs(fieldGrid, bombIndices2d);
      assert buried.Ok?;
      var m := new Minefield(fieldGrid, numBombs);
      r := Ok(m);
    }

    /** `dig`: the cell at a position, or `None` outside the field. */
    function Dig(row: nat, col: nat): (r: Option<Cell>)
      reads this, field
      requires Valid()
      ensures r.Some? <==> row < field.height && col < field.width
      ensures r.Some? ==> r.value == field.data[Offset(field.height, field.width, row, col)]
      ensures r == Some(Bomb) <==> (row, col) in BombPositions(field.height, field.width, field.data)
    {
      BombPositionsMember(field.height, field.width, field.data, (row, col));
      field.Get(row, col)
    }

    /** A clean cell dug up holds the number of bombs among its neighbours, at most 8. */
    lemma DigCount(row: nat, col: nat)
      requires Valid()
      ensures Dig(row, col).Some? && Dig(row, col).value.Clean? ==>
                Dig(row, col).value.n == |NeighbouringBombs((row, col), BombPositions(field.height, field.width, field.data))| <= 8
    {
      var bombs := BombPositions(field.height, field.width, field.data);
      NeighbouringBombsAtMost8((row, col), bombs);
      if row < field.height && col < field.width {
        assert CellMatches(field.height, field.width, field.data, bombs, (row, col));
      }
    }

    /** `submit`: collect the locations into a set, reject when its size is not the bomb
        count, then reject at the first location that does not dig up a bomb. */
    method Submit(bombLocations: seq<Pos>) returns (ok: bool)
      requires Valid()
      ensures ok == Accepts(field.height, field.width, field.data, numBombs, bombLocations)
      ensures ok <==> (set p | p in bombLocations) == BombPositions(field.height, field.width, field.data)
    {
      AcceptsExactly(field.height, field.width, field.data, numBombs, bombLocations);
      var bombSubmission: set<Pos> := {};
      for t := 0 to |bombLocations|
        invariant bombSubmission == set p | p in bombLocations[..t]
      {
        assert bombLocations[..t + 1] == bombLocations[..t] + [bombLocations[t]];
        bombSubmission := bombSubmission + {bombLocations[t]};
      }
      assert bombLocations[..|bombLocations|] == bombLocations;
      if |bombSubmission| != numBombs {
        return false;
      }
      var unchecked := bombSubmission;
      while unchecked != {}
        invariant unchecked <= bombSubmission
        invariant forall p :: p in bombSubmission - unchecked ==> Dig(p.0, p.1) == Some(Bomb)
        decreases unchecked
      {
        var p :| p in unchecked;
        if Dig(p.0, p.1) != Some(Bomb) {
          return false;
        }
        unchecked := unchecked - {p};
      }
      return true;
    }

    /** The shape of the field (called by the client, not defined in field.rs). */
    function Shape(): (s: (nat, nat))
      reads this, field
      requires Valid()
      ensures s == (field.height, field.width)
      ensures s.0 >= 1 && s.1 >= 1 && s.0 * s.1 == |field.data|
    {
      field.Shape()
    }

    /** The number of bombs (called by the client, not defined in field.rs). */
    function NumBombs(): (n: nat)
      reads this, field
      requires Valid()
      ensures n == |BombPositions(field.height, field.width, field.data)|
    {
      numBombs
    }

    /** `Display`: the grid with each cell shown by `CellText`. */
    method Fmt() returns (s: string)
      requires Valid()
      ensures s == Rendered(field.height, field.width, field.data, CellText)
    {
      s := field.Fmt(CellText);
    }
  }
}
