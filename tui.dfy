/** The pure part of the full-screen front end of `src/tui_client.rs`: the map from terminal
    cursor to board cell, and the handling of one input event, which keeps the cursor on the
    board. Terminal positions are `u16`, as in the terminal library. */
module Tui {
  import Wrappers
  import Grid
  import Client

  newtype u16 = x: int | 0 <= x < 0x1_0000

  /** Where the board's top-left corner sits on the terminal: (row, column). */
  const GridOffset: (u16, u16) := (5, 3)

  /** What an input event asks the game to do. */
  datatype TuiAction = Exit | Flag | Query | Submit | None

  /** The keys the front end tells apart; every other key is `OtherKey`. */
  datatype Key = Char(c: char) | Left | Right | Up | Down | OtherKey

  /** Mouse events, at a terminal (column, row). */
  datatype MouseEvent = Press(x: u16, y: u16) | Release(x: u16, y: u16) | Hold(x: u16, y: u16)

  datatype Event = KeyPress(key: Key) | Mouse(mouse: MouseEvent) | Unsupported

  /** The board's rows and columns, shifted past the offset, are terminal positions. */
  predicate Fits(height: nat, width: nat)
  {
    GridOffset.0 as int + 1 + height < 0x1_0000 && GridOffset.1 as int + 1 + width < 0x1_0000
  }

  /** The action of an event: `q` exits, space digs, `f` flags, `s` submits; any other event,
      cursor moves included, asks for nothing. */
  function ActionOf(c: Event): (a: TuiAction)
    ensures a == Exit <==> c == KeyPress(Char('q'))
    ensures a == Query <==> c == KeyPress(Char(' '))
    ensures a == Flag <==> c == KeyPress(Char('f'))
    ensures a == Submit <==> c == KeyPress(Char('s'))
  {
    match c
    case KeyPress(Char('q')) => Exit
    case KeyPress(Char(' ')) => Query
    case KeyPress(Char('f')) => Flag
    case KeyPress(Char('s')) => Submit
    case _ => None
  }

  /** The cursor an event aims at, from a (column, row) cursor away from the terminal's edges:
      the arrows move one column or row, a mouse release jumps to its position, and anything
      else stays put. */
  function Moved(cursor: (u16, u16), c: Event): (t: (u16, u16))
    requires 1 <= cursor.0 < 0xFFFF && 1 <= cursor.1 < 0xFFFF
    ensures c == KeyPress(Left) ==> t == (cursor.0 - 1, cursor.1)
    ensures c == KeyPress(Right) ==> t == (cursor.0 + 1, cursor.1)
    ensures c == KeyPress(Up) ==> t == (cursor.0, cursor.1 - 1)
    ensures c == KeyPress(Down) ==> t == (cursor.0, cursor.1 + 1)
    ensures c.Mouse? && c.mouse.Release? ==> t == (c.mouse.x, c.mouse.y)
    ensures !(c.KeyPress? && c.key in {Left, Right, Up, Down}) && !(c.Mouse? && c.mouse.Release?) ==> t == cursor
  {
    match c
    case KeyPress(Left) => (cursor.0 - 1, cursor.1)
    case KeyPress(Right) => (cursor.0 + 1, cursor.1)
    case KeyPress(Up) => (cursor.0, cursor.1 - 1)
    case KeyPress(Down) => (cursor.0, cursor.1 + 1)
    case Mouse(Release(i, j)) => (i, j)
    case _ => cursor
  }

  /** The full-screen client: a game session and a cursor, as a terminal (column, row). */
  class TuiClient {
    var currentCursor: (u16, u16)
    const client: Client.Client

    /** The board fits on the terminal, is not empty, and the cursor is on one of its cells. */
    ghost predicate Valid()
      reads this
    {
      Fits(client.state.height, client.state.width) &&
      client.state.height >= 1 && client.state.width >= 1 &&
      ToGridCoordinates(currentCursor.1, currentCursor.0).Some?
    }

    /** `to_grid_coordinates`: the board cell under a terminal (row, column), if any. */
    function ToGridCoordinates(cursorRow: u16, cursorCol: u16): (r: Wrappers.Option<Grid.Pos>)
      requires Fits(client.state.height, client.state.width)
      ensures r.Some? <==>
                GridOffset.0 + 1 <= cursorRow && cursorRow as int <= GridOffset.0 as int + client.state.height &&
                GridOffset.1 + 1 <= cursorCol && cursorCol as int <= GridOffset.1 as int + client.state.width
      ensures r.Some? ==> r.value.0 < client.state.height && r.value.1 < client.state.width &&
                          r.value.0 as int == cursorRow as int - GridOffset.0 as int - 1 &&
                          r.value.1 as int == cursorCol as int - GridOffset.1 as int - 1
    {
      var gridH := client.state.height as u16;
      var gridW := client.state.width as u16;
      var rowStart, rowEnd := GridOffset.0 + 1, GridOffset.0 + 1 + gridH;
      var colStart, colEnd := GridOffset.1 + 1, GridOffset.1 + 1 + gridW;
      if rowStart <= cursorRow < rowEnd && colStart <= cursorCol < colEnd then
        Wrappers.Some(((cursorRow - rowStart) as nat, (cursorCol - colStart) as nat))
      else
        Wrappers.None
    }

    /** `new`: the cursor starts on the board's top-left cell. */
    constructor New(client: Client.Client)
      requires Fits(client.state.height, client.state.width)
      requires client.state.height >= 1 && client.state.width >= 1
      ensures Valid() && this.client == client
      ensures currentCursor == (GridOffset.1 + 1, GridOffset.0 + 1)
      ensures ToGridCoordinates(currentCursor.1, currentCursor.0) == Wrappers.Some((0, 0))
    {
      this.client := client;
      currentCursor := (GridOffset.1 + 1, GridOffset.0 + 1);
    }

    /** `parse_event`: the event's action; the cursor moves to the event's target when that
        is on the board and stays otherwise, so it never leaves the board, and the arrow
        steps neither underflow nor overflow a `u16`. */
    method ParseEvent(c: Event) returns (action: TuiAction)
      requires Valid()
      modifies this
      ensures Valid()
      ensures action == ActionOf(c)
      ensures var target := Moved(old(currentCursor), c);
              currentCursor == if ToGridCoordinates(target.1, target.0).Some? then target else old(currentCursor)
    {
      var targetCursor := currentCursor;
      match c {
        case KeyPress(Char('q')) => action := Exit;
        case KeyPress(Char(' ')) => action := Query;
        case KeyPress(Char('f')) => action := Flag;
        case KeyPress(Char('s')) => action := Submit;
        case KeyPress(Left) =>
          targetCursor := (targetCursor.0 - 1, targetCursor.1);
          action := None;
        case KeyPress(Right) =>
          targetCursor := (targetCursor.0 + 1, targetCursor.1);
          action := None;
        case KeyPress(Up) =>
          targetCursor := (targetCursor.0, targetCursor.1 - 1);
          action := None;
        case KeyPress(Down) =>
          targetCursor := (targetCursor.0, targetCursor.1 + 1);
          action := None;
        case Mouse(Release(i, j)) =>
          targetCursor := (i, j);
          action := None;
        case _ => action := None;
      }
      if ToGridCoordinates(targetCursor.1, targetCursor.0) != Wrappers.None {
        currentCursor := targetCursor;
      }
    }
  }

  /** The pinned corner readings: the first and last cell, and the positions just past them. */
  lemma GridCoordinatesExamples(t: TuiClient)
    requires Fits(t.client.state.height, t.client.state.width)
    requires t.client.state.height >= 1 && t.client.state.width >= 1
    ensures var (h, w) := (t.client.state.height, t.client.state.width);
            t.ToGridCoordinates(GridOffset.0 + 1, GridOffset.1 + 1) == Wrappers.Some((0, 0)) &&
            t.ToGridCoordinates(GridOffset.0 + h as u16, GridOffset.1 + w as u16) == Wrappers.Some((h - 1, w - 1)) &&
            t.ToGridCoordinates(GridOffset.0 + 1 + h as u16, GridOffset.1 + w as u16) == Wrappers.None &&
            t.ToGridCoordinates(GridOffset.0 + h as u16, GridOffset.1 + 1 + w as u16) == Wrappers.None &&
            t.ToGridCoordinates(GridOffset.0, GridOffset.1) == Wrappers.None
  {
  }

  /** From the top-left cell the cursor cannot go left or up, and can go down when there is
      a second row. */
  lemma TopLeftMoves(t: TuiClient)
    requires Fits(t.client.state.height, t.client.state.width)
    requires t.client.state.height >= 1 && t.client.state.width >= 1
    ensures var start := (GridOffset.1 + 1, GridOffset.0 + 1);
            var left, up, down := Moved(start, KeyPress(Left)), Moved(start, KeyPress(Up)), Moved(start, KeyPress(Down));
            t.ToGridCoordinates(left.1, left.0).None? &&
            t.ToGridCoordinates(up.1, up.0).None? &&
            (t.ToGridCoordinates(down.1, down.0).Some? <==> t.client.state.height >= 2)
  {
  }

  /** From the bottom-right cell the cursor cannot go right or down, and can go left when
      there is a second column. */
  lemma BottomRightMoves(t: TuiClient)
    requires Fits(t.client.state.height, t.client.state.width)
    requires t.client.state.height >= 1 && t.client.state.width >= 1
    ensures var corner := (GridOffset.1 + t.client.state.width as u16, GridOffset.0 + t.client.state.height as u16);
            var right, down, left := Moved(corner, KeyPress(Right)), Moved(corner, KeyPress(Down)), Moved(corner, KeyPress(Left));
            t.ToGridCoordinates(corner.1, corner.0) == Wrappers.Some((t.client.state.height - 1, t.client.state.width - 1)) &&
            t.ToGridCoordinates(right.1, right.0).None? &&
            t.ToGridCoordinates(down.1, down.0).None? &&
            (t.ToGridCoordinates(left.1, left.0).Some? <==> t.client.state.width >= 2)
  {
  }
}
