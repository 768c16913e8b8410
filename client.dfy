/** The game session of `src/minefield/client.rs`: what the player sees of a minefield, and
    whether the game is running, lost or won. */
module Client {
  import opened Wrappers
  import opened Grid
  import opened Field

  /** What the player sees of one cell. */
  datatype CellState = Revealed(cell: Cell) | Hidden | Flagged | Marked

  datatype GameState = Running | Lost | Won

  /** The `Debug` name of a game state. */
  function GameStateName(g: GameState): (s: string)
    ensures s == "Running" <==> g == Running
    ensures s == "Lost" <==> g == Lost
    ensures s == "Won" <==> g == Won
  {
    match g
    case Running => "Running"
    case Lost => "Lost"
    case Won => "Won"
  }

  // ---------------------------------------------------------------------------
  // Flagging

  /** The state after `flag`: `Hidden` and `Flagged` swap, revealed and marked cells stay. */
  function Toggled(s: CellState): (r: CellState)
    ensures s == Hidden <==> r == Flagged
    ensures s == Flagged <==> r == Hidden
    ensures s.Revealed? || s == Marked ==> r == s
  {
    match s
    case Hidden => Flagged
    case Flagged => Hidden
    case other => other
  }

  /** Flagging twice restores the cell. */
  lemma ToggledTwice(s: CellState)
    ensures Toggled(Toggled(s)) == s
  {
  }

  /** The positions flagged in a state grid. */
  function FlaggedPositions(height: nat, width: nat, states: seq<CellState>): set<Pos>
    requires |states| == height * width
  {
    set i: nat, j: nat | i < height && j < width && states[Offset(height, width, i, j)] == Flagged :: (i, j)
  }

  lemma FlaggedPositionsMember(height: nat, width: nat, states: seq<CellState>, p: Pos)
    requires |states| == height * width
    ensures p in FlaggedPositions(height, width, states) <==>
              p.0 < height && p.1 < width && states[Offset(height, width, p.0, p.1)] == Flagged
  {
    if p.0 < height && p.1 < width && states[Offset(height, width, p.0, p.1)] == Flagged {
      var (i, j) := p;
      assert (i, j) in FlaggedPositions(height, width, states);
    }
  }

  // ---------------------------------------------------------------------------
  // Revealing the whole board

  /** Whether `reveal(all)` uncovers a cell in state `s`. */
  predicate ShouldReveal(s: CellState, all: bool)
  {
    s == Hidden || ((s == Flagged || s == Marked) && all)
  }

  /** The board after `reveal(all)`. */
  function RevealedAll(states: seq<CellState>, cells: seq<Cell>, all: bool): (r: seq<CellState>)
    requires |states| == |cells|
    ensures |r| == |states|
    ensures forall k :: 0 <= k < |r| ==> r[k] != Hidden
    ensures forall k :: 0 <= k < |r| && states[k] == Hidden ==> r[k] == Revealed(cells[k])
    ensures forall k :: 0 <= k < |r| && (states[k] == Flagged || states[k] == Marked) ==>
              r[k] == if all then Revealed(cells[k]) else states[k]
    ensures forall k :: 0 <= k < |r| && states[k].Revealed? ==> r[k] == states[k]
    ensures all ==> forall k :: 0 <= k < |r| ==> r[k].Revealed?
  {
    seq(|states|, k requires 0 <= k < |states| => if ShouldReveal(states[k], all) then Revealed(cells[k]) else states[k])
  }

  /** Some cell `reveal(all)` uncovers holds a bomb. */
  predicate RevealsBomb(states: seq<CellState>, cells: seq<Cell>, all: bool)
    requires |states| == |cells|
  {
    exists k :: 0 <= k < |states| && ShouldReveal(states[k], all) && cells[k] == Bomb
  }

  /** The game state after `reveal(all)`: a won game stays won, otherwise uncovering a bomb
      loses it; a lost game stays lost. */
  function RevealOutcome(g: GameState, states: seq<CellState>, cells: seq<Cell>, all: bool): (r: GameState)
    requires |states| == |cells|
    ensures g == Won ==> r == Won
    ensures g == Lost ==> r == Lost
    ensures g == Running ==> (r == Lost <==> RevealsBomb(states, cells, all)) && r != Won
  {
    if g == Won then Won else if RevealsBomb(states, cells, all) then Lost else g
  }

  /** The board part-way through the row-major sweep of `reveal`, before position (i, j). */
  function Swept(height: nat, width: nat, states: seq<CellState>, cells: seq<Cell>, all: bool, i: nat, j: nat): (r: seq<CellState>)
    requires |states| == height * width && |cells| == |states|
    ensures |r| == |states|
  {
    seq(|states|, k requires 0 <= k < |states| =>
      if RowMajorLess(PosOf(height, width, k), (i, j)) && ShouldReveal(states[k], all) then Revealed(cells[k]) else states[k])
  }

  /** A bomb is uncovered before position (i, j) of the sweep. */
  predicate SweptBomb(height: nat, width: nat, states: seq<CellState>, cells: seq<Cell>, all: bool, i: nat, j: nat)
    requires |states| == height * width && |cells| == |states|
  {
    exists k :: 0 <= k < |states| && RowMajorLess(PosOf(height, width, k), (i, j)) && ShouldReveal(states[k], all) && cells[k] == Bomb
  }

  lemma SweptStart(height: nat, width: nat, states: seq<CellState>, cells: seq<Cell>, all: bool)
    requires |states| == height * width && |cells| == |states|
    ensures Swept(height, width, states, cells, all, 0, 0) == states
    ensures !SweptBomb(height, width, states, cells, all, 0, 0)
  {
  }

  /** Sweeping one more position uncovers that position if it should be. */
  lemma SweptStep(height: nat, width: nat, states: seq<CellState>, cells: seq<Cell>, all: bool, i: nat, j: nat)
    requires |states| == height * width && |cells| == |states| && i < height && j < width
    ensures var k := Offset(height, width, i, j);
            Swept(height, width, states, cells, all, i, j)[k] == states[k] &&
            Swept(height, width, states, cells, all, i, j + 1) ==
              if ShouldReveal(states[k], all) then Swept(height, width, states, cells, all, i, j)[k := Revealed(cells[k])]
              else Swept(height, width, states, cells, all, i, j)
    ensures var k := Offset(height, width, i, j);
            SweptBomb(height, width, states, cells, all, i, j + 1) <==>
              SweptBomb(height, width, states, cells, all, i, j) || (ShouldReveal(states[k], all) && cells[k] == Bomb)
  {
    var k := Offset(height, width, i, j);
    OffsetPosOf(height, width, i, j);
    forall m | 0 <= m < |states| && m != k
      ensures RowMajorLess(PosOf(height, width, m), (i, j + 1)) <==> RowMajorLess(PosOf(height, width, m), (i, j))
    {
    }
  }

  /** The end of a row is the start of the next. */
  lemma SweptRowEnd(height: nat, width: nat, states: seq<CellState>, cells: seq<Cell>, all: bool, i: nat)
    requires |states| == height * width && |cells| == |states|
    ensures Swept(height, width, states, cells, all, i, width) == Swept(height, width, states, cells, all, i + 1, 0)
    ensures SweptBomb(height, width, states, cells, all, i, width) == SweptBomb(height, width, states, cells, all, i + 1, 0)
  {
  }

  /** Past the last row the sweep has covered the whole board. */
  lemma SweptEnd(height: nat, width: nat, states: seq<CellState>, cells: seq<Cell>, all: bool)
    requires |states| == height * width && |cells| == |states|
    ensures Swept(height, width, states, cells, all, height, 0) == RevealedAll(states, cells, all)
    ensures SweptBomb(height, width, states, cells, all, height, 0) == RevealsBomb(states, cells, all)
  {
  }

  // ---------------------------------------------------------------------------
  // Flood reveal

  /** The number of hidden cells. */
  function HiddenCount(states: seq<CellState>): nat
  {
    if |states| == 0 then 0 else (if states[0] == Hidden then 1 else 0) + HiddenCount(states[1..])
  }

  /** Overwriting a cell with a visible state hides one cell less if it was hidden. */
  lemma {:induction false} HiddenCountUpdate(states: seq<CellState>, k: nat, v: CellState)
    requires k < |states| && v != Hidden
    ensures HiddenCount(states[k := v]) == HiddenCount(states) - (if states[k] == Hidden then 1 else 0)
  {
    if k > 0 {
      HiddenCountUpdate(states[1..], k - 1, v);
      assert states[k := v][1..] == states[1..][k - 1 := v];
    } else {
      assert states[k := v][1..] == states[1..];
    }
  }

  /** Going from `before` to `after`, a cell is either unchanged or now shows its true content,
      and was hidden unless it is the cell at `seed`. */
  ghost predicate RevealedFrom(before: seq<CellState>, after: seq<CellState>, cells: seq<Cell>, seed: nat)
  {
    |before| == |after| == |cells| &&
    forall k :: 0 <= k < |after| ==>
      after[k] == before[k] || (after[k] == Revealed(cells[k]) && (before[k] == Hidden || k == seed))
  }

  /** No in-range neighbour of `p` is hidden. */
  ghost predicate Flooded(height: nat, width: nat, states: seq<CellState>, p: Pos)
    requires |states| == height * width
  {
    forall q: Pos :: q.0 < height && q.1 < width && Adjacent(q, p) ==> states[Offset(height, width, q.0, q.1)] != Hidden
  }

  /** Every `Clean(0)` cell uncovered between `before` and `after`, and the start cell if it
      is `Clean(0)`, has no hidden neighbour left. */
  ghost predicate FloodClosed(height: nat, width: nat, before: seq<CellState>, after: seq<CellState>, cells: seq<Cell>, seed: Pos)
    requires |before| == |after| == |cells| == height * width
  {
    forall p: Pos ::
      p.0 < height && p.1 < width && cells[Offset(height, width, p.0, p.1)] == Clean(0) && Uncovered(height, width, before, after, seed, p)
      ==> Flooded(height, width, after, p)
  }

  /** The cell at `p` changed between `before` and `after`, or is the start cell. */
  ghost predicate Uncovered(height: nat, width: nat, before: seq<CellState>, after: seq<CellState>, seed: Pos, p: Pos)
    requires |before| == |after| == height * width && p.0 < height && p.1 < width
  {
    after[Offset(height, width, p.0, p.1)] != before[Offset(height, width, p.0, p.1)] || p == seed
  }

  /** Chebyshev distance between two positions. */
  function Distance(p: Pos, q: Pos): nat
  {
    var dr := if p.0 >= q.0 then p.0 - q.0 else q.0 - p.0;
    var dc := if p.1 >= q.1 then p.1 - q.1 else q.1 - p.1;
    if dr >= dc then dr else dc
  }

  /** One step from `x` towards `y`. */
  function StepToward(x: nat, y: nat): nat
  {
    if x < y then x + 1 else if x > y then x - 1 else x
  }

  /** On a field without bombs, a flood from `seed` over an otherwise hidden board, that
      satisfies the three guarantees of `query_smart`, leaves every cell at distance `d` or
      less from the seed uncovered. */
  lemma {:induction false} FloodReaches(height: nat, width: nat, before: seq<CellState>, after: seq<CellState>, cells: seq<Cell>, seed: Pos, p: Pos, d: nat)
    requires |before| == |after| == |cells| == height * width
    requires seed.0 < height && seed.1 < width && p.0 < height && p.1 < width && Distance(p, seed) == d
    requires forall k :: 0 <= k < |cells| ==> cells[k] == Clean(0)
    requires forall k :: 0 <= k < |before| && k != Offset(height, width, seed.0, seed.1) ==> before[k] == Hidden
    requires RevealedFrom(before, after, cells, Offset(height, width, seed.0, seed.1))
    requires after[Offset(height, width, seed.0, seed.1)] == Revealed(cells[Offset(height, width, seed.0, seed.1)])
    requires FloodClosed(height, width, before, after, cells, seed)
    ensures after[Offset(height, width, p.0, p.1)] == Revealed(Clean(0))
    decreases d
  {
    if d > 0 {
      var q := (StepToward(p.0, seed.0), StepToward(p.1, seed.1));
      FloodReaches(height, width, before, after, cells, seed, q, d - 1);
      OffsetInjective(height, width, p, seed);
      OffsetInjective(height, width, q, seed);
      assert Adjacent(p, q);
      assert Flooded(height, width, after, q);
    }
  }

  /** On a field without bombs, the flood from any start over an otherwise hidden board
      uncovers every cell as `Clean(0)`. */
  lemma FloodRevealsAll(height: nat, width: nat, before: seq<CellState>, after: seq<CellState>, cells: seq<Cell>, seed: Pos)
    requires |before| == |after| == |cells| == height * width
    requires seed.0 < height && seed.1 < width
    requires forall k :: 0 <= k < |cells| ==> cells[k] == Clean(0)
    requires forall k :: 0 <= k < |before| && k != Offset(height, width, seed.0, seed.1) ==> before[k] == Hidden
    requires RevealedFrom(before, after, cells, Offset(height, width, seed.0, seed.1))
    requires after[Offset(height, width, seed.0, seed.1)] == Revealed(cells[Offset(height, width, seed.0, seed.1)])
    requires FloodClosed(height, width, before, after, cells, seed)
    ensures forall k :: 0 <= k < |after| ==> after[k] == Revealed(Clean(0))
  {
    forall k | 0 <= k < |after|
      ensures after[k] == Revealed(Clean(0))
    {
      var p := PosOf(height, width, k);
      FloodReaches(height, width, before, after, cells, seed, p, Distance(p, seed));
    }
  }

  /** Every in-range neighbour of `p` is visible or waiting in the worklist. */
  ghost predicate Pending(height: nat, width: nat, states: seq<CellState>, p: Pos, worklist: set<Pos>)
    requires |states| == height * width
  {
    forall q: Pos :: q.0 < height && q.1 < width && Adjacent(q, p) ==> states[Offset(height, width, q.0, q.1)] != Hidden || q in worklist
  }

  /** The loop invariant of the flood: every `Clean(0)` cell uncovered so far has each hidden
      neighbour in the worklist. Before the first step the start cell is not yet uncovered. */
  ghost predicate FloodFront(height: nat, width: nat, before: seq<CellState>, states: seq<CellState>, cells: seq<Cell>,
                             seed: Pos, first: bool, worklist: set<Pos>)
    requires |before| == |states| == |cells| == height * width
  {
    forall p: Pos ::
      p.0 < height && p.1 < width && cells[Offset(height, width, p.0, p.1)] == Clean(0) &&
      (states[Offset(height, width, p.0, p.1)] != before[Offset(height, width, p.0, p.1)] || (p == seed && !first))
      ==> Pending(height, width, states, p, worklist)
  }

  /** One step of the flood keeps its invariant: the popped cell `p` is uncovered, and if it
      is `Clean(0)` its hidden neighbours have joined the worklist. */
  lemma FloodStep(height: nat, width: nat, before: seq<CellState>, states: seq<CellState>, cells: seq<Cell>,
                  seed: Pos, first: bool, worklist: set<Pos>, p: Pos, next: seq<CellState>, nextWorklist: set<Pos>)
    requires |before| == |states| == |cells| == |next| == height * width
    requires FloodFront(height, width, before, states, cells, seed, first, worklist)
    requires p in worklist && p.0 < height && p.1 < width && (first ==> p == seed)
    requires next == states[Offset(height, width, p.0, p.1) := Revealed(cells[Offset(height, width, p.0, p.1)])]
    requires worklist - {p} <= nextWorklist
    requires cells[Offset(height, width, p.0, p.1)] == Clean(0) ==> Pending(height, width, next, p, nextWorklist)
    ensures FloodFront(height, width, before, next, cells, seed, false, nextWorklist)
  {
    var kp := Offset(height, width, p.0, p.1);
    forall p': Pos |
      p'.0 < height && p'.1 < width && cells[Offset(height, width, p'.0, p'.1)] == Clean(0) &&
      (next[Offset(height, width, p'.0, p'.1)] != before[Offset(height, width, p'.0, p'.1)] || p' == seed)
      ensures Pending(height, width, next, p', nextWorklist)
    {
      OffsetInjective(height, width, p, p');
      if p' != p {
        assert Pending(height, width, states, p', worklist);
        forall q: Pos | q.0 < height && q.1 < width && Adjacent(q, p')
          ensures next[Offset(height, width, q.0, q.1)] != Hidden || q in nextWorklist
        {
          OffsetInjective(height, width, p, q);
        }
      }
    }
  }

  /** With the worklist empty the invariant is the closure promised by `query_smart`. */
  lemma FloodFrontDone(height: nat, width: nat, before: seq<CellState>, states: seq<CellState>, cells: seq<Cell>, seed: Pos)
    requires |before| == |states| == |cells| == height * width
    requires FloodFront(height, width, before, states, cells, seed, false, {})
    ensures FloodClosed(height, width, before, states, cells, seed)
  {
    forall p: Pos |
      p.0 < height && p.1 < width && cells[Offset(height, width, p.0, p.1)] == Clean(0) && Uncovered(height, width, before, states, seed, p)
      ensures Flooded(height, width, states, p)
    {
      assert Pending(height, width, states, p, {});
    }
  }

  /** The hidden positions among `positions`. */
  ghost function HiddenAmong(height: nat, width: nat, states: seq<CellState>, positions: seq<Pos>): set<Pos>
    requires |states| == height * width
  {
    set q | q in positions && q.0 < height && q.1 < width && states[Offset(height, width, q.0, q.1)] == Hidden
  }

  /** The invariant of the `query_smart` loop, over the board before the call (`before`), the
      board now (`states`), the field (`cells`), the worklist and the game state before the
      call (`g0`) and now (`g`). */
  ghost predicate FloodInv(height: nat, width: nat, before: seq<CellState>, states: seq<CellState>, cells: seq<Cell>,
                           seed: Pos, first: bool, worklist: set<Pos>, g0: GameState, g: GameState)
    requires |before| == |states| == |cells| == height * width && seed.0 < height && seed.1 < width
  {
    var s := Offset(height, width, seed.0, seed.1);
    RevealedFrom(before, states, cells, s) &&
    (first ==> worklist == {seed} && states == before && g == g0) &&
    (!first ==> states[s] == Revealed(cells[s]) && g == if cells[s] == Bomb then Lost else g0) &&
    (forall q :: q in worklist ==> Queued(height, width, states, cells, first, q)) &&
    FloodFront(height, width, before, states, cells, seed, first, worklist)
  }

  /** A worklist entry is inside the board and, after the first step, hidden and no bomb. */
  ghost predicate Queued(height: nat, width: nat, states: seq<CellState>, cells: seq<Cell>, first: bool, q: Pos)
    requires |states| == |cells| == height * width
  {
    q.0 < height && q.1 < width &&
    (!first ==> states[Offset(height, width, q.0, q.1)] == Hidden && cells[Offset(height, width, q.0, q.1)] != Bomb)
  }

  /** One iteration of the `query_smart` loop keeps its invariant: pop `p`, uncover it, and if
      it is `Clean(0)` add its hidden neighbours `nbrs`. */
  lemma FloodInvStep(height: nat, width: nat, before: seq<CellState>, states: seq<CellState>, cells: seq<Cell>,
                     seed: Pos, first: bool, worklist: set<Pos>, g0: GameState, g: GameState, p: Pos,
                     next: seq<CellState>, g': GameState, nextWorklist: set<Pos>)
    requires |before| == |states| == |cells| == height * width && seed.0 < height && seed.1 < width
    requires FloodInv(height, width, before, states, cells, seed, first, worklist, g0, g)
    requires Consistent(height, width, cells, BombPositions(height, width, cells))
    requires p in worklist
    requires next == states[Offset(height, width, p.0, p.1) := Revealed(cells[Offset(height, width, p.0, p.1)])]
    requires g' == if cells[Offset(height, width, p.0, p.1)] == Bomb then Lost else g
    requires nextWorklist == (worklist - {p}) + (if cells[Offset(height, width, p.0, p.1)] == Clean(0) then HiddenAround(height, width, next, p) else {})
    ensures FloodInv(height, width, before, next, cells, seed, false, nextWorklist, g0, g')
  {
    var kp := Offset(height, width, p.0, p.1);
    forall q | q in worklist - {p}
      ensures next[Offset(height, width, q.0, q.1)] == Hidden && cells[Offset(height, width, q.0, q.1)] != Bomb
    {
      OffsetInjective(height, width, p, q);
    }
    if cells[kp] == Clean(0) {
      forall q | q in HiddenAround(height, width, next, p)
        ensures cells[Offset(height, width, q.0, q.1)] != Bomb
      {
        HiddenAroundMember(height, width, next, p, q);
        ZeroHasNoBombNeighbour(height, width, cells, BombPositions(height, width, cells), p, q);
      }
      forall q: Pos | q.0 < height && q.1 < width && Adjacent(q, p)
        ensures next[Offset(height, width, q.0, q.1)] != Hidden || q in nextWorklist
      {
        HiddenAroundMember(height, width, next, p, q);
      }
    }
    OffsetInjective(height, width, p, seed);
    FloodStep(height, width, before, states, cells, seed, first, worklist, p, next, nextWorklist);
  }

  /** The hidden in-range neighbours of `p`. */
  ghost function HiddenAround(height: nat, width: nat, states: seq<CellState>, p: Pos): set<Pos>
    requires |states| == height * width
  {
    set i: nat, j: nat | i < height && j < width && Adjacent((i, j), p) && states[Offset(height, width, i, j)] == Hidden :: (i, j)
  }

  lemma HiddenAroundMember(height: nat, width: nat, states: seq<CellState>, p: Pos, q: Pos)
    requires |states| == height * width
    ensures q in HiddenAround(height, width, states, p) <==>
              q.0 < height && q.1 < width && Adjacent(q, p) && states[Offset(height, width, q.0, q.1)] == Hidden
  {
    if q.0 < height && q.1 < width && Adjacent(q, p) && states[Offset(height, width, q.0, q.1)] == Hidden {
      var (i, j) := q;
      assert (i, j) in HiddenAround(height, width, states, p);
    }
  }

  /** `q` is a `Clean(0)` cell the flood has opened: it shows its content, and it changed
      since the call or is the start cell. */
  ghost predicate Opened(height: nat, width: nat, before: seq<CellState>, states: seq<CellState>, cells: seq<Cell>, seed: Pos, q: Pos)
    requires |before| == |states| == |cells| == height * width
  {
    q.0 < height && q.1 < width &&
    var k := Offset(height, width, q.0, q.1);
    cells[k] == Clean(0) && states[k] == Revealed(cells[k]) && (states[k] != before[k] || q == seed)
  }

  /** `p` has a rank, and unless it is the start cell, `parent` names an opened neighbour of
      lower rank through which the flood reached it. */
  ghost predicate Linked(height: nat, width: nat, before: seq<CellState>, states: seq<CellState>, cells: seq<Cell>, seed: Pos,
                         parent: map<Pos, Pos>, rank: map<Pos, nat>, p: Pos)
    requires |before| == |states| == |cells| == height * width
  {
    p in rank &&
    (p != seed ==>
       p in parent && Adjacent(parent[p], p) && Opened(height, width, before, states, cells, seed, parent[p]) &&
       parent[p] in rank && rank[parent[p]] < rank[p])
  }

  /** Every worklist entry, every cell changed so far, and the start cell once dug, is linked:
      following `parent` down the ranks leads back to the start cell. */
  ghost predicate FloodTree(height: nat, width: nat, before: seq<CellState>, states: seq<CellState>, cells: seq<Cell>,
                            seed: Pos, first: bool, worklist: set<Pos>, parent: map<Pos, Pos>, rank: map<Pos, nat>)
    requires |before| == |states| == |cells| == height * width
  {
    (forall p :: p in worklist ==> Linked(height, width, before, states, cells, seed, parent, rank, p)) &&
    (forall p: Pos ::
       p.0 < height && p.1 < width &&
       (states[Offset(height, width, p.0, p.1)] != before[Offset(height, width, p.0, p.1)] || (p == seed && !first))
       ==> Linked(height, width, before, states, cells, seed, parent, rank, p))
  }

  /** One iteration of the `query_smart` loop keeps the tree: the popped cell `p` is the start
      cell on the first iteration and hidden afterwards, and the hidden neighbours it queues
      when it is `Clean(0)` get `p` as their parent, one rank above it. */
  lemma FloodTreeStep(height: nat, width: nat, before: seq<CellState>, states: seq<CellState>, cells: seq<Cell>,
                      seed: Pos, first: bool, worklist: set<Pos>, parent: map<Pos, Pos>, rank: map<Pos, nat>, p: Pos, added: set<Pos>,
                      next: seq<CellState>, nextWorklist: set<Pos>, nextParent: map<Pos, Pos>, nextRank: map<Pos, nat>)
    requires |before| == |states| == |cells| == height * width && seed.0 < height && seed.1 < width
    requires FloodTree(height, width, before, states, cells, seed, first, worklist, parent, rank)
    requires p in worklist && p in rank && p.0 < height && p.1 < width
    requires first ==> worklist == {seed} && states == before
    requires !first ==> states[Offset(height, width, p.0, p.1)] == Hidden && before[Offset(height, width, p.0, p.1)] == Hidden
    requires next == states[Offset(height, width, p.0, p.1) := Revealed(cells[Offset(height, width, p.0, p.1)])]
    requires added == if cells[Offset(height, width, p.0, p.1)] == Clean(0) then HiddenAround(height, width, next, p) else {}
    requires nextWorklist == (worklist - {p}) + added
    requires nextParent == parent + map q | q in added :: p
    requires nextRank == rank + map q | q in added :: rank[p] + 1
    ensures FloodTree(height, width, before, next, cells, seed, false, nextWorklist, nextParent, nextRank)
  {
    var kp := Offset(height, width, p.0, p.1);
    if cells[kp] == Clean(0) {
      assert Opened(height, width, before, next, cells, seed, p) by {
        OffsetInjective(height, width, p, seed);
      }
      HiddenAroundMember(height, width, next, p, p);
    }
    forall x | Opened(height, width, before, states, cells, seed, x)
      ensures Opened(height, width, before, next, cells, seed, x) && x !in added
    {
      OffsetInjective(height, width, p, x);
      if cells[kp] == Clean(0) {
        HiddenAroundMember(height, width, next, p, x);
      }
    }
    forall x | Linked(height, width, before, states, cells, seed, parent, rank, x) || x in added
      ensures Linked(height, width, before, next, cells, seed, nextParent, nextRank, x)
    {
      if x in added {
        HiddenAroundMember(height, width, next, p, x);
      }
    }
    forall x: Pos |
      x.0 < height && x.1 < width &&
      (next[Offset(height, width, x.0, x.1)] != before[Offset(height, width, x.0, x.1)] || x == seed)
      ensures Linked(height, width, before, states, cells, seed, parent, rank, x)
    {
      OffsetInjective(height, width, p, x);
    }
  }

  /** One iteration of the `query_smart` loop keeps both invariants, with the parent links
      extended to the newly queued cells. */
  lemma FloodTurn(height: nat, width: nat, before: seq<CellState>, states: seq<CellState>, cells: seq<Cell>,
                  seed: Pos, first: bool, worklist: set<Pos>, g0: GameState, g: GameState,
                  parent: map<Pos, Pos>, rank: map<Pos, nat>, p: Pos,
                  next: seq<CellState>, g': GameState, nextWorklist: set<Pos>)
    returns (nextParent: map<Pos, Pos>, nextRank: map<Pos, nat>)
    requires |before| == |states| == |cells| == height * width && seed.0 < height && seed.1 < width
    requires FloodInv(height, width, before, states, cells, seed, first, worklist, g0, g)
    requires FloodTree(height, width, before, states, cells, seed, first, worklist, parent, rank)
    requires Consistent(height, width, cells, BombPositions(height, width, cells))
    requires p in worklist
    requires next == states[Offset(height, width, p.0, p.1) := Revealed(cells[Offset(height, width, p.0, p.1)])]
    requires g' == if cells[Offset(height, width, p.0, p.1)] == Bomb then Lost else g
    requires nextWorklist == (worklist - {p}) + (if cells[Offset(height, width, p.0, p.1)] == Clean(0) then HiddenAround(height, width, next, p) else {})
    ensures FloodInv(height, width, before, next, cells, seed, false, nextWorklist, g0, g')
    ensures FloodTree(height, width, before, next, cells, seed, false, nextWorklist, nextParent, nextRank)
  {
    assert Linked(height, width, before, states, cells, seed, parent, rank, p);
    var added := if cells[Offset(height, width, p.0, p.1)] == Clean(0) then HiddenAround(height, width, next, p) else {};
    nextParent := parent + map q | q in added :: p;
    nextRank := rank + map q | q in added :: rank[p] + 1;
    FloodInvStep(height, width, before, states, cells, seed, first, worklist, g0, g, p, next, g', nextWorklist);
    var kp := Offset(height, width, p.0, p.1);
    assert !first ==> states[kp] == Hidden && before[kp] == Hidden by {
      if !first {
        assert Queued(height, width, states, cells, first, p);
      }
    }
    FloodTreeStep(height, width, before, states, cells, seed, first, worklist, parent, rank, p, added,
                  next, nextWorklist, nextParent, nextRank);
  }

  /** A chain of cells from the start cell, each next to the one before, and every cell but
      the last an opened `Clean(0)` cell. */
  ghost predicate ZeroPath(height: nat, width: nat, before: seq<CellState>, after: seq<CellState>, cells: seq<Cell>,
                           seed: Pos, path: seq<Pos>)
    requires |before| == |after| == |cells| == height * width
  {
    |path| >= 1 && path[0] == seed &&
    forall i :: 0 <= i < |path| - 1 ==> Opened(height, width, before, after, cells, seed, path[i]) && Adjacent(path[i], path[i + 1])
  }

  /** Every cell uncovered by a flood from `seed` hangs in a tree of parent links rooted at the
      start cell. */
  ghost predicate FloodSourced(height: nat, width: nat, before: seq<CellState>, after: seq<CellState>, cells: seq<Cell>, seed: Pos)
    requires |before| == |after| == |cells| == height * width
  {
    exists parent: map<Pos, Pos>, rank: map<Pos, nat> :: FloodTree(height, width, before, after, cells, seed, false, {}, parent, rank)
  }

  /** Following the parent links from a linked cell gives a chain of opened zeros from the
      start cell to it. */
  lemma {:induction false} TreePath(height: nat, width: nat, before: seq<CellState>, after: seq<CellState>, cells: seq<Cell>,
                                    seed: Pos, parent: map<Pos, Pos>, rank: map<Pos, nat>, p: Pos) returns (path: seq<Pos>)
    requires |before| == |after| == |cells| == height * width
    requires FloodTree(height, width, before, after, cells, seed, false, {}, parent, rank)
    requires Linked(height, width, before, after, cells, seed, parent, rank, p)
    ensures ZeroPath(height, width, before, after, cells, seed, path) && path[|path| - 1] == p
    decreases rank[p]
  {
    if p == seed {
      path := [seed];
    } else {
      var q := parent[p];
      assert Linked(height, width, before, after, cells, seed, parent, rank, q);
      var prefix := TreePath(height, width, before, after, cells, seed, parent, rank, q);
      path := prefix + [p];
      assert forall i :: 0 <= i < |prefix| ==> path[i] == prefix[i];
    }
  }

  /** Every cell the flood uncovered is reached from the start cell through opened `Clean(0)`
      cells, each next to the one before. */
  lemma FloodPath(height: nat, width: nat, before: seq<CellState>, after: seq<CellState>, cells: seq<Cell>, seed: Pos, p: Pos)
    returns (path: seq<Pos>)
    requires |before| == |after| == |cells| == height * width
    requires FloodSourced(height, width, before, after, cells, seed)
    requires p.0 < height && p.1 < width && Uncovered(height, width, before, after, seed, p)
    ensures ZeroPath(height, width, before, after, cells, seed, path) && path[|path| - 1] == p
  {
    var parent: map<Pos, Pos>, rank: map<Pos, nat> :| FloodTree(height, width, before, after, cells, seed, false, {}, parent, rank);
    path := TreePath(height, width, before, after, cells, seed, parent, rank, p);
  }

  /** A one-row field `0 1 X 1 0`: digging the left corner uncovers it and the `1` beside it,
      and nothing else; the `0` beyond the bomb is not reached. */
  lemma FloodStopsAtCounts(after: seq<CellState>)
    requires |after| == 5
    requires RevealedFrom(seq(5, _ => Hidden), after, [Clean(0), Clean(1), Bomb, Clean(1), Clean(0)], 0)
    requires after[0] == Revealed(Clean(0))
    requires FloodClosed(1, 5, seq(5, _ => Hidden), after, [Clean(0), Clean(1), Bomb, Clean(1), Clean(0)], (0, 0))
    requires FloodSourced(1, 5, seq(5, _ => Hidden), after, [Clean(0), Clean(1), Bomb, Clean(1), Clean(0)], (0, 0))
    ensures after == [Revealed(Clean(0)), Revealed(Clean(1)), Hidden, Hidden, Hidden]
  {
    FloodReachesCount(after);
    FloodStopsBeyondCount(after);
  }

  /** In that field, closure makes the flood uncover the `1` next to the dug corner. */
  lemma FloodReachesCount(after: seq<CellState>)
    requires |after| == 5
    requires RevealedFrom(seq(5, _ => Hidden), after, [Clean(0), Clean(1), Bomb, Clean(1), Clean(0)], 0)
    requires after[0] == Revealed(Clean(0))
    requires FloodClosed(1, 5, seq(5, _ => Hidden), after, [Clean(0), Clean(1), Bomb, Clean(1), Clean(0)], (0, 0))
    ensures after[1] == Revealed(Clean(1))
  {
    var before: seq<CellState> := seq(5, _ => Hidden);
    assert Flooded(1, 5, after, (0, 0)) by {
      assert Uncovered(1, 5, before, after, (0, 0), (0, 0));
    }
    assert after[1] != Hidden by {
      assert Adjacent((0, 1), (0, 0));
    }
  }

  /** In that field, the tree of the flood cannot pass the `1` or the bomb: the last three
      cells stay hidden. */
  lemma FloodStopsBeyondCount(after: seq<CellState>)
    requires |after| == 5
    requires FloodSourced(1, 5, seq(5, _ => Hidden), after, [Clean(0), Clean(1), Bomb, Clean(1), Clean(0)], (0, 0))
    ensures after[2] == Hidden && after[3] == Hidden && after[4] == Hidden
  {
    var before: seq<CellState> := seq(5, _ => Hidden);
    var cells := [Clean(0), Clean(1), Bomb, Clean(1), Clean(0)];
    var parent: map<Pos, Pos>, rank: map<Pos, nat> :| FloodTree(1, 5, before, after, cells, (0, 0), false, {}, parent, rank);
    NotLinkedInRow(5, before, after, cells, parent, rank, 4);
    UnlinkedUnchanged(1, 5, before, after, cells, (0, 0), parent, rank, (0, 4));
    NotLinkedInRow(5, before, after, cells, parent, rank, 3);
    UnlinkedUnchanged(1, 5, before, after, cells, (0, 0), parent, rank, (0, 3));
    NotLinkedInRow(5, before, after, cells, parent, rank, 2);
    UnlinkedUnchanged(1, 5, before, after, cells, (0, 0), parent, rank, (0, 2));
  }

  /** On a board of one row, a cell whose left and right neighbours are not opened zeros is
      not linked into the flood from the left corner. */
  lemma NotLinkedInRow(width: nat, before: seq<CellState>, after: seq<CellState>, cells: seq<Cell>,
                       parent: map<Pos, Pos>, rank: map<Pos, nat>, c: nat)
    requires |before| == |after| == |cells| == width && 1 <= c < width
    requires !Opened(1, width, before, after, cells, (0, 0), (0, c - 1))
    requires c + 1 < width ==> !Opened(1, width, before, after, cells, (0, 0), (0, c + 1))
    ensures !Linked(1, width, before, after, cells, (0, 0), parent, rank, (0, c))
  {
    if (0, c) in parent {
      OneRowNeighbour(parent[(0, c)], c);
    }
  }

  /** On a board of one row, the neighbours of a cell are the cells just left and right of it. */
  lemma OneRowNeighbour(q: Pos, c: nat)
    ensures q.0 < 1 && Adjacent(q, (0, c)) ==> q.0 == 0 && (q.1 + 1 == c || q.1 == c + 1)
  {
  }

  /** A cell that is not linked into the flood's tree keeps its state. */
  lemma UnlinkedUnchanged(height: nat, width: nat, before: seq<CellState>, after: seq<CellState>, cells: seq<Cell>,
                          seed: Pos, parent: map<Pos, Pos>, rank: map<Pos, nat>, p: Pos)
    requires |before| == |after| == |cells| == height * width
    requires FloodTree(height, width, before, after, cells, seed, false, {}, parent, rank)
    requires p.0 < height && p.1 < width && !Linked(height, width, before, after, cells, seed, parent, rank, p)
    ensures after[Offset(height, width, p.0, p.1)] == before[Offset(height, width, p.0, p.1)]
  {
  }

  /** `p` is a flagged in-range position before `q` in row-major order. */
  ghost predicate FlaggedBefore(height: nat, width: nat, states: seq<CellState>, p: Pos, q: Pos)
    requires |states| == height * width
  {
    p.0 < height && p.1 < width && states[Offset(height, width, p.0, p.1)] == Flagged && RowMajorLess(p, q)
  }

  /** One step of the row-major scan for flags keeps the list sorted and exact. */
  lemma FlagScanStep(height: nat, width: nat, states: seq<CellState>, flags: seq<Pos>, i: nat, j: nat)
    requires |states| == height * width && i < height && j < width
    requires RowMajorSorted(flags)
    requires forall p :: p in flags <==> FlaggedBefore(height, width, states, p, (i, j))
    ensures var next := if states[Offset(height, width, i, j)] == Flagged then flags + [(i, j)] else flags;
            RowMajorSorted(next) &&
            forall p :: p in next <==> FlaggedBefore(height, width, states, p, (i, j + 1))
  {
    var next := if states[Offset(height, width, i, j)] == Flagged then flags + [(i, j)] else flags;
    forall a, b | 0 <= a < b < |next|
      ensures RowMajorLess(next[a], next[b])
    {
      if b == |flags| {
        assert next[a] == flags[a] && FlaggedBefore(height, width, states, flags[a], (i, j));
      }
    }
  }

  /** The end of a row of the scan is the start of the next. */
  lemma FlagScanRowEnd(height: nat, width: nat, states: seq<CellState>, flags: seq<Pos>, i: nat)
    requires |states| == height * width
    requires forall p :: p in flags <==> FlaggedBefore(height, width, states, p, (i, width))
    ensures forall p :: p in flags <==> FlaggedBefore(height, width, states, p, (i + 1, 0))
  {
  }

  /** `pop_from_set`: split an arbitrary element off a non-empty set. */
  method PopFromSet<T>(s: set<T>) returns (elt: T, rest: set<T>)
    requires s != {}
    ensures elt in s && rest == s - {elt} && |rest| == |s| - 1
  {
    elt :| elt in s;
    rest := s - {elt};
  }

  // ---------------------------------------------------------------------------
  // The session

  /** A minefield, the player's view of it, and the state of the game. */
  class Client {
    const minefield: Minefield
    const state: Grid<CellState>
    var gameState: GameState

    /** The view has the field's shape and is a separate grid, every uncovered cell shows
        its true content, and no bomb is uncovered while the game is running. */
    ghost predicate Valid()
      reads this, minefield, minefield.field, state
    {
      minefield.Valid() && state.Valid() &&
      state.height == minefield.field.height && state.width == minefield.field.width &&
      (state as object) != (minefield.field as object) &&
      (forall k :: 0 <= k < |state.data| && state.data[k].Revealed? ==> state.data[k].cell == minefield.field.data[k]) &&
      (gameState == Running ==> forall k :: 0 <= k < |state.data| ==> state.data[k] != Revealed(Bomb))
    }

    /** `from_minefield`: everything hidden, game running. */
    constructor FromMinefield(field: Minefield)
      requires field.Valid()
      ensures Valid() && minefield == field && fresh(state) && gameState == Running
      ensures forall k :: 0 <= k < |state.data| ==> state.data[k] == Hidden
    {
      var (height, width) := field.Shape();
      var stateInitData := seq(height * width, _ => Hidden);
      var made := Grid<CellState>.New(height, width, stateInitData);
      minefield := field;
      state := made.value;
      gameState := Running;
    }

    /** `new_random`, with the bomb cells given as row-major indices in place of the random
        sample. */
    static method NewRandom(height: nat, width: nat, numBombs: nat, bombIndices: seq<nat>) returns (c: Client)
      requires height >= 1 && width >= 1
      requires |bombIndices| == numBombs && Distinct(bombIndices)
      requires forall a :: 0 <= a < |bombIndices| ==> bombIndices[a] < height * width
      ensures fresh(c) && fresh(c.state) && c.Valid() && c.gameState == Running
      ensures c.state.height == height && c.state.width == width && c.minefield.numBombs == numBombs
      ensures forall k :: 0 <= k < |c.state.data| ==> c.state.data[k] == Hidden
    {
      var field := Minefield.New(height, width, numBombs, bombIndices);
      c := new Client.FromMinefield(field.value);
    }

    /** `query_update`: uncover one cell; a bomb loses the game. */
    method QueryUpdate(row: nat, col: nat) returns (cell: Cell)
      requires Valid() && row < state.height && col < state.width
      modifies this, state
      ensures Valid()
      ensures cell == minefield.field.data[Offset(state.height, state.width, row, col)]
      ensures state.data == old(state.data)[Offset(state.height, state.width, row, col) := Revealed(cell)]
      ensures gameState == if cell == Bomb then Lost else old(gameState)
    {
      var dug := minefield.Dig(row, col);
      cell := dug.value;
      var stored := state.Set(row, col, Revealed(cell));
      assert stored.Ok?;
      if cell == Bomb {
        gameState := Lost;
      }
    }

    /** The number of bombs of the field. */
    function NumBombs(): (n: nat)
      reads this, minefield, minefield.field
      requires minefield.Valid()
      ensures n == |BombPositions(minefield.field.height, minefield.field.width, minefield.field.data)|
    {
      minefield.NumBombs()
    }

    /** The inner loop of `query_smart`: add to the worklist each neighbour of (row, col)
        that is hidden. */
    method EnqueueHiddenNeighbours(row: nat, col: nat, worklist: set<Pos>) returns (r: set<Pos>)
      requires state.Valid() && row < state.height && col < state.width
      ensures r == worklist + HiddenAround(state.height, state.width, state.data, (row, col))
    {
      var neighbours := state.Neighbours8(row, col);
      r := worklist;
      for u := 0 to |neighbours|
        invariant r == worklist + HiddenAmong(state.height, state.width, state.data, neighbours[..u])
      {
        var (iN, jN) := neighbours[u];
        assert neighbours[..u + 1] == neighbours[..u] + [neighbours[u]];
        if state.Get(iN, jN).value == Hidden {
          r := r + {(iN, jN)};
        }
      }
      assert neighbours[..|neighbours|] == neighbours;
      forall q
        ensures q in HiddenAmong(state.height, state.width, state.data, neighbours) <==> q in HiddenAround(state.height, state.width, state.data, (row, col))
      {
        HiddenAroundMember(state.height, state.width, state.data, (row, col), q);
      }
    }

    /** One turn of the loop of `query_smart`: uncover a cell taken from the worklist and,
        when it is `Clean(0)`, queue its hidden neighbours, with it as their parent. */
    method FloodVisit(worklist: set<Pos>, ghost before: seq<CellState>, ghost seed: Pos, ghost first: bool, ghost g0: GameState,
                      ghost parent: map<Pos, Pos>, ghost rank: map<Pos, nat>)
      returns (nextWorklist: set<Pos>, ghost nextParent: map<Pos, Pos>, ghost nextRank: map<Pos, nat>)
      requires Valid() && worklist != {} && |before| == |state.data| && seed.0 < state.height && seed.1 < state.width
      requires FloodInv(state.height, state.width, before, state.data, minefield.field.data, seed, first, worklist, g0, gameState)
      requires FloodTree(state.height, state.width, before, state.data, minefield.field.data, seed, first, worklist, parent, rank)
      modifies this, state
      ensures Valid()
      ensures FloodInv(state.height, state.width, before, state.data, minefield.field.data, seed, false, nextWorklist, g0, gameState)
      ensures FloodTree(state.height, state.width, before, state.data, minefield.field.data, seed, false, nextWorklist, nextParent, nextRank)
      ensures HiddenCount(state.data) < old(HiddenCount(state.data)) + (if first then 1 else 0)
    {
      ghost var states, g := state.data, gameState;
      var p;
      p, nextWorklist := VisitCell(worklist);
      HiddenCountUpdate(states, Offset(state.height, state.width, p.0, p.1), state.data[Offset(state.height, state.width, p.0, p.1)]);
      nextParent, nextRank := FloodTurn(state.height, state.width, before, states, minefield.field.data, seed, first, worklist,
                                        g0, g, parent, rank, p, state.data, gameState, nextWorklist);
    }

    /** The body of the `query_smart` loop: take a cell `p` from the worklist, uncover it, and
        when it is `Clean(0)` queue its hidden neighbours. */
    method VisitCell(worklist: set<Pos>) returns (p: Pos, nextWorklist: set<Pos>)
      requires Valid() && worklist != {}
      requires forall q :: q in worklist ==> q.0 < state.height && q.1 < state.width
      modifies this, state
      ensures Valid() && p in worklist
      ensures state.data == old(state.data)[Offset(state.height, state.width, p.0, p.1) := Revealed(minefield.field.data[Offset(state.height, state.width, p.0, p.1)])]
      ensures gameState == if minefield.field.data[Offset(state.height, state.width, p.0, p.1)] == Bomb then Lost else old(gameState)
      ensures nextWorklist == (worklist - {p}) +
                (if minefield.field.data[Offset(state.height, state.width, p.0, p.1)] == Clean(0)
                 then HiddenAround(state.height, state.width, state.data, p) else {})
    {
      var rest;
      p, rest := PopFromSet(worklist);
      nextWorklist := rest;
      var (i, j) := p;
      var c := QueryUpdate(i, j);
      if c == Clean(0) {
        nextWorklist := EnqueueHiddenNeighbours(i, j, nextWorklist);
      }
    }

    /** `query_smart`: flood-uncover from (row, col). Each step uncovers one cell of the
        worklist; a `Clean(0)` cell adds its hidden neighbours. Only hidden cells and the
        start cell change, the start cell is uncovered, every `Clean(0)` cell uncovered has no
        hidden neighbour left, every uncovered cell is reached from the start cell through
        uncovered `Clean(0)` cells, and only the start cell can be a bomb. */
    method QuerySmart(row: nat, col: nat) returns (g: GameState)
      requires Valid() && row < state.height && col < state.width
      modifies this, state
      ensures Valid() && g == Running
      ensures RevealedFrom(old(state.data), state.data, minefield.field.data, Offset(state.height, state.width, row, col))
      ensures state.data[Offset(state.height, state.width, row, col)] == Revealed(minefield.field.data[Offset(state.height, state.width, row, col)])
      ensures FloodClosed(state.height, state.width, old(state.data), state.data, minefield.field.data, (row, col))
      ensures FloodSourced(state.height, state.width, old(state.data), state.data, minefield.field.data, (row, col))
      ensures gameState == if minefield.field.data[Offset(state.height, state.width, row, col)] == Bomb then Lost else old(gameState)
    {
      var height, width := state.height, state.width;
      ghost var before := state.data;
      ghost var cells := minefield.field.data;
      ghost var first := true;
      ghost var parent: map<Pos, Pos> := map[];
      ghost var rank: map<Pos, nat> := map[(row, col) := 0];
      var worklist: set<Pos> := {(row, col)};
      while worklist != {}
        invariant Valid() && cells == minefield.field.data && |before| == |state.data| == height * width
        invariant FloodInv(height, width, before, state.data, cells, (row, col), first, worklist, old(gameState), gameState)
        invariant FloodTree(height, width, before, state.data, cells, (row, col), first, worklist, parent, rank)
        decreases HiddenCount(state.data) + (if first then 1 else 0)
      {
        worklist, parent, rank := FloodVisit(worklist, before, (row, col), first, old(gameState), parent, rank);
        first := false;
      }
      FloodFrontDone(height, width, before, state.data, cells, (row, col));
      assert FloodTree(height, width, before, state.data, cells, (row, col), false, {}, parent, rank);
      g := Running;
    }

    /** `reveal(all)`: uncover every hidden cell, and with `all` also every flagged or marked
        one, in row-major order; uncovering a bomb loses the game unless it was already won. */
    method Reveal(all: bool)
      requires Valid()
      modifies this, state
      ensures Valid()
      ensures state.data == RevealedAll(old(state.data), minefield.field.data, all)
      ensures gameState == RevealOutcome(old(gameState), old(state.data), minefield.field.data, all)
    {
      var originalGameState := gameState;
      var (height, width) := state.Shape();
      ghost var states := state.data;
      ghost var cells := minefield.field.data;
      SweptStart(height, width, states, cells, all);
      for i := 0 to height
        invariant Valid() && cells == minefield.field.data
        invariant state.data == Swept(height, width, states, cells, all, i, 0)
        invariant gameState == if SweptBomb(height, width, states, cells, all, i, 0) then Lost else originalGameState
      {
        RevealRow(i, all, states, originalGameState);
      }
      SweptEnd(height, width, states, cells, all);
      if originalGameState == Won {
        gameState := Won;
      }
    }

    /** The inner loop of `reveal`: sweep row `i`, uncovering each cell that should be. */
    method RevealRow(i: nat, all: bool, ghost states: seq<CellState>, ghost originalGameState: GameState)
      requires Valid() && i < state.height && |states| == |state.data|
      requires state.data == Swept(state.height, state.width, states, minefield.field.data, all, i, 0)
      requires gameState == if SweptBomb(state.height, state.width, states, minefield.field.data, all, i, 0) then Lost else originalGameState
      modifies this, state
      ensures Valid()
      ensures state.data == Swept(state.height, state.width, states, minefield.field.data, all, i + 1, 0)
      ensures gameState == if SweptBomb(state.height, state.width, states, minefield.field.data, all, i + 1, 0) then Lost else originalGameState
    {
      var width := state.width;
      ghost var height, cells := state.height, minefield.field.data;
      for j := 0 to width
        invariant Valid() && cells == minefield.field.data
        invariant state.data == Swept(height, width, states, cells, all, i, j)
        invariant gameState == if SweptBomb(height, width, states, cells, all, i, j) then Lost else originalGameState
      {
        SweptStep(height, width, states, cells, all, i, j);
        var cellState := state.Get(i, j).value;
        if ShouldReveal(cellState, all) {
          var _ := QueryUpdate(i, j);
        }
      }
      SweptRowEnd(height, width, states, cells, all, i);
    }

    /** `get_flag_locations`: the flagged positions, in row-major order. */
    method GetFlagLocations() returns (flags: seq<Pos>)
      requires Valid()
      ensures RowMajorSorted(flags)
      ensures forall p :: p in flags <==> p in FlaggedPositions(state.height, state.width, state.data)
    {
      var (height, width) := state.Shape();
      flags := [];
      for i := 0 to height
        invariant RowMajorSorted(flags)
        invariant forall p :: p in flags <==> FlaggedBefore(height, width, state.data, p, (i, 0))
      {
        for j := 0 to width
          invariant RowMajorSorted(flags)
          invariant forall p :: p in flags <==> FlaggedBefore(height, width, state.data, p, (i, j))
        {
          var flagged := state.Get(i, j).value == Flagged;
          FlagScanStep(height, width, state.data, flags, i, j);
          if flagged {
            flags := flags + [(i, j)];
          }
        }
        FlagScanRowEnd(height, width, state.data, flags, i);
      }
      forall p
        ensures p in flags <==> p in FlaggedPositions(height, width, state.data)
      {
        FlaggedPositionsMember(height, width, state.data, p);
      }
    }

    /** `submit`: only a running game can be submitted; it is won exactly when the flagged
        cells are the bombs, and lost otherwise. */
    method Submit() returns (r: Result<GameState, string>)
      requires Valid()
      modifies this
      ensures Valid()
      ensures old(gameState) != Running ==>
                r == Err("Game state must be 'Running' to submit, current state is: " + GameStateName(old(gameState))) &&
                gameState == old(gameState)
      ensures old(gameState) == Running ==> r == Ok(gameState) && gameState != Running
      ensures old(gameState) == Running ==>
                (gameState == Won <==>
                  FlaggedPositions(state.height, state.width, state.data) ==
                  BombPositions(minefield.field.height, minefield.field.width, minefield.field.data))
    {
      if gameState != Running {
        return Err("Game state must be 'Running' to submit, current state is: " + GameStateName(gameState));
      }
      var flagLocations := GetFlagLocations();
      assert (set p | p in flagLocations) == FlaggedPositions(state.height, state.width, state.data);
      var ok := minefield.Submit(flagLocations);
      if ok {
        gameState := Won;
      } else {
        gameState := Lost;
      }
      r := Ok(gameState);
    }

    /** `flag`: toggle a cell between hidden and flagged; other cells stay as they are. */
    method Flag(row: nat, col: nat) returns (s: CellState)
      requires Valid() && row < state.height && col < state.width
      modifies state
      ensures Valid()
      ensures s == Toggled(old(state.data)[Offset(state.height, state.width, row, col)])
      ensures state.data == old(state.data)[Offset(state.height, state.width, row, col) := s]
    {
      s := Toggled(state.Get(row, col).value);
      var stored := state.Set(row, col, s);
      assert stored.Ok?;
    }

    /** `get_state`: the player's view, shaped like the field, every uncovered cell true. */
    function GetState(): (view: Grid<CellState>)
      reads this, minefield, minefield.field, state
      requires Valid()
      ensures view == state
      ensures view.Valid() && view.height == minefield.field.height && view.width == minefield.field.width
      ensures forall k :: 0 <= k < |view.data| && view.data[k].Revealed? ==> view.data[k].cell == minefield.field.data[k]
    {
      state
    }

    /** `get_game_state`; a running game has no uncovered bomb. */
    function GetGameState(): (g: GameState)
      reads this, minefield, minefield.field, state
      requires Valid()
      ensures g == Running ==> forall k :: 0 <= k < |state.data| ==> state.data[k] != Revealed(Bomb)
    {
      gameState
    }
  }
}
