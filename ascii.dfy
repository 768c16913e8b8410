/** The pure part of the line-oriented front end of `src/ascii_client.rs`: reading a typed
    command, keeping only commands that hit the board, and the one-character picture of a
    cell. */
module Ascii {
  import Wrappers
  import Text
  import Field
  import Client
  import Grid

  /** A command typed by the player; `None` stands for input that is not a command. */
  datatype Command = None | Exit | Query(row: nat, col: nat) | Flag(row: nat, col: nat) | Submit

  // ---------------------------------------------------------------------------
  // Characters

  predicate IsAsciiChar(c: char)
  {
    (c as int) < 128
  }

  predicate IsAsciiUpper(c: char)
  {
    'A' <= c <= 'Z'
  }

  predicate IsAsciiLower(c: char)
  {
    'a' <= c <= 'z'
  }

  predicate IsAsciiAlphabetic(c: char)
  {
    IsAsciiUpper(c) || IsAsciiLower(c)
  }

  /** `char::to_ascii_lowercase`: only `A`..`Z` change. */
  function ToAsciiLowerChar(c: char): (r: char)
    ensures IsAsciiUpper(c) ==> IsAsciiLower(r) && (r as int) - ('a' as int) == (c as int) - ('A' as int)
    ensures !IsAsciiUpper(c) ==> r == c
    ensures IsAsciiChar(r) <==> IsAsciiChar(c)
  {
    if IsAsciiUpper(c) then ((c as int) + 32) as char else c
  }

  /** `str::to_ascii_lowercase`. */
  function ToAsciiLowercase(s: string): (r: string)
    ensures |r| == |s| && forall i :: 0 <= i < |s| ==> r[i] == ToAsciiLowerChar(s[i])
  {
    seq(|s|, i requires 0 <= i < |s| => ToAsciiLowerChar(s[i]))
  }

  /** Lower-casing twice is lower-casing once. */
  lemma ToAsciiLowercaseIdempotent(s: string)
    ensures ToAsciiLowercase(ToAsciiLowercase(s)) == ToAsciiLowercase(s)
  {
  }

  predicate IsAscii(s: string)
  {
    forall i :: 0 <= i < |s| ==> IsAsciiChar(s[i])
  }

  /** The letter naming board column `col`: `a` for 0 up to `z` for 25. */
  function ColumnLetter(col: nat): (c: char)
    requires col < 26
    ensures IsAsciiLower(c) && (c as int) - ('a' as int) == col
  {
    (('a' as int) + col) as char
  }

  /** `to_digit(36) - 10` of a letter: its place in the alphabet, whatever its case. */
  function ColumnOf(c: char): (col: nat)
    requires IsAsciiAlphabetic(c)
    ensures col < 26 && ColumnLetter(col) == ToAsciiLowerChar(c)
  {
    (ToAsciiLowerChar(c) as int) - ('a' as int)
  }

  // ---------------------------------------------------------------------------
  // Parsing

  /** `parse_coordinate`: a letter for the column, then a decimal digit for the row; only the
      first two characters are read. */
  function ParseCoordinate(input: string): (r: Wrappers.Option<Grid.Pos>)
    requires |input| >= 2
    ensures r.Some? <==> IsAsciiAlphabetic(input[0]) && Text.IsDigit(input[1])
    ensures r.Some? ==> r.value.0 < 10 && r.value.1 < 26 &&
                        Text.DigitChar(r.value.0) == input[1] && ColumnLetter(r.value.1) == ToAsciiLowerChar(input[0])
  {
    var colChar := input[0];
    if !IsAsciiAlphabetic(colChar) then Wrappers.None
    else
      var col := ColumnOf(colChar);
      var rowChar := input[1];
      if !Text.IsDigit(rowChar) then Wrappers.None
      else Wrappers.Some((Text.DigitValue(rowChar), col))
  }

  /** `parse_input`: lower-case the line; reject non-ASCII; `q` exits, `s` submits; two
      characters are a coordinate to dig; three are `f` or `d` followed by a coordinate, to flag
      or to dig; anything else is no command. */
  function ParseInput(input: string): (r: Command)
    ensures !IsAscii(input) ==> r == None
    ensures (r.Query? || r.Flag?) ==> r.row < 10 && r.col < 26
    ensures r.Flag? ==> |input| == 3
    ensures r.Query? ==> |input| == 2 || |input| == 3
    ensures (r == Exit || r == Submit) ==> |input| == 1
  {
    var lowI := ToAsciiLowercase(input);
    if !IsAscii(lowI) then None
    else if lowI == "q" then Exit
    else if lowI == "s" then Submit
    else if |lowI| == 2 then
      match ParseCoordinate(lowI)
      case Some((row, col)) => Query(row, col)
      case None => None
    else if |lowI| == 3 then
      match ParseCoordinate(lowI[1..])
      case Some((row, col)) =>
        if lowI[..1] == "f" then Flag(row, col)
        else if lowI[..1] == "d" then Query(row, col)
        else None
      case None => None
    else None
  }

  /** A command the parser can produce, other than `None`. */
  predicate Typable(c: Command)
  {
    match c
    case None => false
    case Exit => true
    case Submit => true
    case Query(row, col) => row < 10 && col < 26
    case Flag(row, col) => row < 10 && col < 26
  }

  /** The shortest lower-case text of a command: `q`, `s`, a coordinate such as `a1` to dig,
      and `f` followed by a coordinate to flag. */
  function CommandText(c: Command): (s: string)
    requires Typable(c)
    ensures IsAscii(s) && ToAsciiLowercase(s) == s
  {
    match c
    case Exit => "q"
    case Submit => "s"
    case Query(row, col) => [ColumnLetter(col), Text.DigitChar(row)]
    case Flag(row, col) => ['f', ColumnLetter(col), Text.DigitChar(row)]
  }

  /** Every typable command is read back from its text. */
  lemma ParseCommandText(c: Command)
    requires Typable(c)
    ensures ParseInput(CommandText(c)) == c
  {
    var s := CommandText(c);
    assert ToAsciiLowercase(s) == s;
    if c.Flag? {
      assert s[1..] == [ColumnLetter(c.col), Text.DigitChar(c.row)];
      assert s[..1] == "f";
    }
  }

  /** Whatever the parser accepts is, up to the case of its letters, the text of the command
      it yields, or a `d` followed by the text of a dig. */
  lemma ParsedIsCommandText(input: string)
    requires ParseInput(input) != None
    ensures Typable(ParseInput(input))
    ensures var low := ToAsciiLowercase(input);
            low == CommandText(ParseInput(input)) ||
            (ParseInput(input).Query? && low == ['d'] + CommandText(ParseInput(input)))
  {
    var low := ToAsciiLowercase(input);
    var r := ParseInput(input);
    if |low| == 2 {
      assert low == [low[0], low[1]];
    } else if |low| == 3 {
      assert low == [low[0]] + low[1..];
      assert low[1..] == [low[1], low[2]];
    }
  }

  /** A `d` followed by the text of a dig is read back as that dig. */
  lemma ParseDigText(row: nat, col: nat)
    requires row < 10 && col < 26
    ensures ParseInput(['d'] + CommandText(Query(row, col))) == Query(row, col)
  {
    var s := ['d'] + CommandText(Query(row, col));
    assert ToAsciiLowercase(s) == s;
    assert s[1..] == CommandText(Query(row, col)) && s[..1] == "d";
  }

  /** Parsing ignores the case of letters. */
  lemma ParseInputCaseInsensitive(input: string)
    ensures ParseInput(ToAsciiLowercase(input)) == ParseInput(input)
  {
    ToAsciiLowercaseIdempotent(input);
  }

  /** The pinned readings of coordinates. */
  lemma ParseInputCoordinateExamples()
    ensures ParseInput("a1") == Query(1, 0)
    ensures ParseInput("e8") == Query(8, 4)
    ensures ParseInput("fa4") == Flag(4, 0)
    ensures ParseInput("dz4") == Query(4, 25)
  {
    ParseCommandText(Query(1, 0));
    ParseCommandText(Query(8, 4));
    ParseCommandText(Flag(4, 0));
    var dz4 := "dz4";
    assert ToAsciiLowercase(dz4) == dz4;
    assert dz4[1..] == "z4" && dz4[..1] == "d";
  }

  /** A single character exits when it is `q` or `Q`, submits when it is `s` or `S`, and is
      no command otherwise. */
  lemma ParseSingleKey(input: string)
    requires |input| == 1
    ensures ParseInput(input) == (var key := ToAsciiLowerChar(input[0]);
                                  if key == 'q' then Exit else if key == 's' then Submit else None)
  {
    var low := ToAsciiLowercase(input);
    assert low == [ToAsciiLowerChar(input[0])];
  }

  /** The pinned readings of single keys, in either case. */
  lemma ParseInputKeyExamples()
    ensures ParseInput("q") == Exit && ParseInput("Q") == Exit
    ensures ParseInput("s") == Submit && ParseInput("S") == Submit
  {
    ParseSingleKey("q");
    ParseSingleKey("Q");
    ParseSingleKey("s");
    ParseSingleKey("S");
  }

  /** The pinned rejections: no letter first, no digit second, nothing typed. */
  lemma ParseInputRejectExamples()
    ensures ParseInput("nn") == None
    ensures ParseInput("55") == None
    ensures ParseInput("") == None
  {
    assert ToAsciiLowercase("nn") == "nn";
    assert ToAsciiLowercase("55") == "55";
  }

  /** `check_coordinates`: a dig or flag outside the board becomes no command; every other
      command passes unchanged. */
  function CheckCoordinates(state: Grid.Grid<Client.CellState>, c: Command): (r: Command)
    reads state
    requires state.Valid()
    ensures r == c || r == None
    ensures (r.Query? || r.Flag?) ==> r.row < state.height && r.col < state.width
    ensures r == None <==> c == None || ((c.Query? || c.Flag?) && !(c.row < state.height && c.col < state.width))
  {
    match c
    case Query(i, j) => if state.Index(i, j).Some? then c else None
    case Flag(i, j) => if state.Index(i, j).Some? then c else None
    case other => other
  }

  // ---------------------------------------------------------------------------
  // Cell pictures

  const HiddenGlyph: string := "\U{2588}"
  const FlaggedGlyph: string := "\U{2593}"
  const MarkedGlyph: string := "\U{259F}"

  /** `to_char_mono`: a full block for a hidden cell, a dark shade for a flag, a quadrant for a
      mark; an uncovered bomb is `*`, an uncovered empty cell a blank, and an uncovered count
      its decimal digits. */
  function ToCharMono(c: Client.CellState): (s: string)
    ensures c == Client.Hidden ==> s == HiddenGlyph
    ensures c == Client.Flagged ==> s == FlaggedGlyph
    ensures c == Client.Marked ==> s == MarkedGlyph
    ensures c == Client.Revealed(Field.Bomb) ==> s == "*"
    ensures c == Client.Revealed(Field.Clean(0)) ==> s == " "
    ensures c.Revealed? && c.cell.Clean? && c.cell.n > 0 ==>
              s == Text.NatToString(c.cell.n) && Text.ParseNat(s) == c.cell.n
  {
    match c
    case Hidden => HiddenGlyph
    case Flagged => FlaggedGlyph
    case Revealed(r) =>
      (match r
       case Bomb => "*"
       case Clean(i) => if i == 0 then " " else (Text.ParseNatToString(i); Text.NatToString(i)))
    case Marked => MarkedGlyph
  }

  /** Different cell states have different pictures. */
  lemma ToCharMonoInjective(a: Client.CellState, b: Client.CellState)
    ensures ToCharMono(a) == ToCharMono(b) <==> a == b
  {
    if ToCharMono(a) == ToCharMono(b) {
      var s := ToCharMono(a);
      if Text.IsDigit(s[0]) {
        assert a.Revealed? && a.cell.Clean? && a.cell.n > 0;
        assert b.Revealed? && b.cell.Clean? && b.cell.n > 0;
        Text.NatToStringInjective(a.cell.n, b.cell.n);
      }
    }
  }
}
