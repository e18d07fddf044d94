/**
  The first tile-map text format (`GameMap` in shared_include/MapParser.hpp): a header line
  `"<width> <height>"` followed by rows over the alphabet `# C E F .`, read by a strict file
  loader and by a lenient `deserialize`, and written by `serialize`.
 */
module MapParser {
  import opened Outcomes
  import opened Text

  datatype TileType = Empty | Wall | Coin | Electric | EndMarker

  datatype GameMap = GameMap(width: int, height: int, tiles: seq<seq<TileType>>)

  /** Every in-range tile `tiles[y][x]` the accessors and `serialize` read exists. */
  predicate Indexable(m: GameMap) {
    && m.height <= |m.tiles|
    && forall y :: 0 <= y < m.height ==> m.width <= |m.tiles[y]|
  }

  /** The grid is exactly `height` rows of exactly `width` tiles. */
  predicate WellShaped(m: GameMap) {
    && m.width >= 0
    && m.height == |m.tiles|
    && forall y :: 0 <= y < |m.tiles| ==> |m.tiles[y]| == m.width
  }

  predicate InBounds(m: GameMap, x: int, y: int) {
    0 <= x < m.width && 0 <= y < m.height
  }

  function Nat(n: int): nat {
    if n < 0 then 0 else n
  }

  /** `getTile`: the stored tile inside the map, and a wall everywhere outside it. */
  function GetTile(m: GameMap, x: int, y: int): (t: TileType)
    requires Indexable(m)
    ensures InBounds(m, x, y) ==> t == m.tiles[y][x]
    ensures !InBounds(m, x, y) ==> t == Wall
  {
    if 0 <= x < m.width && 0 <= y < m.height then m.tiles[y][x] else Wall
  }

  /** The character switch shared by both readers: unknown characters and '.' are empty. */
  function TileOfChar(c: char): TileType {
    match c
    case '#' => Wall
    case 'C' => Coin
    case 'E' => Electric
    case 'F' => EndMarker
    case _ => Empty
  }

  /** The character `serialize` writes for a tile; reading it back gives the same tile. */
  function CharOfTile(t: TileType): (c: char)
    ensures TileOfChar(c) == t
    ensures c != '\n' && !IsDigit(c)
    ensures t == Empty ==> c == '.'
  {
    match t
    case Wall => '#'
    case Coin => 'C'
    case Electric => 'E'
    case EndMarker => 'F'
    case Empty => '.'
  }

  /**
    The reader recognises exactly the four letters `# C E F`: any character that decodes to a
    non-empty tile is the one `serialize` writes for it, and every other character is empty.
   */
  lemma TileOfCharCases(c: char)
    ensures TileOfChar(c) != Empty <==> c in {'#', 'C', 'E', 'F'}
    ensures TileOfChar(c) != Empty ==> CharOfTile(TileOfChar(c)) == c
  {
  }

  datatype LoadError =
    | MissingHeader              // no first line at all
    | InvalidDimensions          // the first line lacks two integers, or one is <= 0
    | LineTooShort(row: nat)     // strict loader: row `row` has fewer than `width` characters
    | FileTooShort(rowsRead: nat) // strict loader: fewer than `height` rows follow the header

  /**
    The dimension line as both readers treat it: `iss >> width >> height` on the first line,
    rejected when either value is <= 0. A failed extraction is rejected too: on a character
    that is not a number the stream stores 0 and the `<= 0` test rejects it, but when the line
    ends before a number nothing is stored and the program tests an uninitialised field, and a
    value outside 32 bits is stored as `INT_MAX` or `INT_MIN`; the model rejects all of these.
   */
  function ParseHeader(lines: seq<string>): (r: Result<(int, int), LoadError>)
    ensures |lines| == 0 <==> r == Err(MissingHeader)
    ensures r.Ok? <==>
      && |lines| > 0
      && ReadTwoInts(lines[0]).Some?
      && ReadTwoInts(lines[0]).value.0 > 0
      && ReadTwoInts(lines[0]).value.1 > 0
    ensures r.Ok? ==> r.value == ReadTwoInts(lines[0]).value
    ensures r.Err? ==> r.error == MissingHeader || r.error == InvalidDimensions
  {
    if |lines| == 0 then Err(MissingHeader)
    else
      match ReadTwoInts(lines[0])
      case None => Err(InvalidDimensions)
      case Some((w, h)) => if w <= 0 || h <= 0 then Err(InvalidDimensions) else Ok((w, h))
  }

  function DecodeRow(line: string, w: nat): (row: seq<TileType>)
    requires |line| >= w
  {
    seq(w, x requires 0 <= x < w => TileOfChar(line[x]))
  }

  /** Rows from `y` to `h` have at least `w` characters each. */
  predicate LongEnough(rows: seq<string>, w: nat, y: nat, h: nat) {
    forall i :: y <= i < h && i < |rows| ==> |rows[i]| >= w
  }

  /**
    The strict loader's row loop from row `y` on: each row must hold at least `w` characters,
    of which the first `w` are decoded and the rest ignored; running out of rows before `h`
    is an error, and rows after the `h`-th are never looked at.
   */
  function LoadRows(rows: seq<string>, w: nat, h: nat, y: nat): (r: Result<seq<seq<TileType>>, LoadError>)
    requires y <= h
    ensures r.Ok? <==> (y < h ==> h <= |rows|) && LongEnough(rows, w, y, h)
    ensures r.Ok? ==> |r.value| == h - y
    ensures r.Ok? ==> forall i :: 0 <= i < h - y ==>
      |r.value[i]| == w && forall x :: 0 <= x < w ==> r.value[i][x] == TileOfChar(rows[y + i][x])
    ensures r.Err? ==> r.error.LineTooShort? || r.error.FileTooShort?
    ensures r.Err? && r.error.LineTooShort? ==>
      var k := r.error.row;
      y <= k < h && k < |rows| && |rows[k]| < w && LongEnough(rows, w, y, k)
    ensures r.Err? && r.error.FileTooShort? ==>
      r.error.rowsRead == |rows| < h && LongEnough(rows, w, y, h)
    decreases h - y
  {
    if y == h then Ok([])
    else if y >= |rows| then Err(FileTooShort(|rows|))
    else if |rows[y]| < w then Err(LineTooShort(y))
    else
      match LoadRows(rows, w, h, y + 1)
      case Err(e) => Err(e)
      case Ok(rest) => Ok([DecodeRow(rows[y], w)] + rest)
  }

  /**
    `GameMap::loadFromFile` on the lines of the file: the header must be valid, at least
    `height` rows must follow, and each of them must hold at least `width` characters.
   */
  function LoadFromLines(lines: seq<string>): (r: Result<GameMap, LoadError>)
    ensures r.Ok? <==>
      && ParseHeader(lines).Ok?
      && |lines| > ParseHeader(lines).value.1
      && LongEnough(lines[1..], ParseHeader(lines).value.0, 0, ParseHeader(lines).value.1)
    ensures r.Ok? ==>
      && WellShaped(r.value)
      && (r.value.width, r.value.height) == ParseHeader(lines).value
      && forall y, x :: 0 <= y < r.value.height && 0 <= x < r.value.width ==>
           r.value.tiles[y][x] == TileOfChar(lines[y + 1][x])
    ensures ParseHeader(lines).Err? ==> r == Err(ParseHeader(lines).error)
  {
    match ParseHeader(lines)
    case Err(e) => Err(e)
    case Ok((w, h)) =>
      match LoadRows(lines[1..], w, h, 0)
      case Err(e) => Err(e)
      case Ok(tiles) => Ok(GameMap(w, h, tiles))
  }

  function Dots(n: nat): (s: string)
    ensures |s| == n && forall i :: 0 <= i < n ==> s[i] == '.'
  {
    if n == 0 then "" else Dots(n - 1) + "."
  }

  /** A short row is padded with '.' up to `w` characters before it is decoded. */
  function PadRow(line: string, w: nat): (padded: string)
    ensures |padded| >= w
  {
    if |line| < w then line + Dots(w - |line|) else line
  }

  /**
    `deserialize`'s two row loops from row `y` on: rows that are present are padded and
    decoded, rows that are missing become all-empty.
   */
  function FillRows(rows: seq<string>, w: nat, h: nat, y: nat): (tiles: seq<seq<TileType>>)
    requires y <= h
    ensures |tiles| == h - y
    ensures forall i :: 0 <= i < h - y ==> |tiles[i]| == w
    ensures forall i, x :: 0 <= i < h - y && 0 <= x < w ==>
      tiles[i][x] == if y + i < |rows| && x < |rows[y + i]| then TileOfChar(rows[y + i][x]) else Empty
    decreases h - y
  {
    if y == h then []
    else
      var row := if y < |rows| then DecodeRow(PadRow(rows[y], w), w) else seq(w, _ => Empty);
      [row] + FillRows(rows, w, h, y + 1)
  }

  /**
    `GameMap::deserialize`: fails only on the header; otherwise it always yields `height` rows
    of exactly `width` tiles, padding short rows and missing rows with empty tiles.
   */
  function Deserialize(data: string): (r: Result<GameMap, LoadError>)
    ensures r.Ok? <==> ParseHeader(Lines(data)).Ok?
    ensures r.Err? ==> r.error == ParseHeader(Lines(data)).error
    ensures r.Ok? ==>
      var ls := Lines(data);
      && WellShaped(r.value)
      && (r.value.width, r.value.height) == ParseHeader(ls).value
      && forall y, x :: 0 <= y < r.value.height && 0 <= x < r.value.width ==>
           r.value.tiles[y][x] ==
             if y + 1 < |ls| && x < |ls[y + 1]| then TileOfChar(ls[y + 1][x]) else Empty
  {
    var ls := Lines(data);
    match ParseHeader(ls)
    case Err(e) => Err(e)
    case Ok((w, h)) => Ok(GameMap(w, h, FillRows(ls[1..], w, h, 0)))
  }

  function RowText(row: seq<TileType>, w: nat): (s: string)
    requires |row| >= w
    ensures |s| == w && NoNewline(s)
    ensures forall x :: 0 <= x < w ==> TileOfChar(s[x]) == row[x]
    ensures forall x :: 0 <= x < w ==> s[x] == CharOfTile(row[x])
  {
    seq(w, x requires 0 <= x < w => CharOfTile(row[x]))
  }

  function RowTexts(m: GameMap): (rows: seq<string>)
    requires Indexable(m)
    ensures |rows| == Nat(m.height)
    ensures forall y :: 0 <= y < |rows| ==>
      && NoNewline(rows[y])
      && |rows[y]| == Nat(m.width)
      && (forall x :: 0 <= x < m.width ==> TileOfChar(rows[y][x]) == m.tiles[y][x])
      && (forall x :: 0 <= x < m.width ==> rows[y][x] == CharOfTile(m.tiles[y][x]))
  {
    seq(Nat(m.height), y requires 0 <= y < Nat(m.height) => RowText(m.tiles[y], Nat(m.width)))
  }

  /**
    `GameMap::serialize`: the line `"width height"` and then one line of `width` tile
    characters per row, every line ending in '\n'; a reader splitting it into lines finds
    the dimensions on the first and row `y - 1`'s tiles on line `y`.
   */
  function Serialize(m: GameMap): (s: string)
    requires Indexable(m)
    ensures |s| > 0 && s[|s| - 1] == '\n'
    ensures |Lines(s)| == 1 + Nat(m.height)
    ensures IsInt32(m.width) && IsInt32(m.height) ==> ReadTwoInts(Lines(s)[0]) == Some((m.width, m.height))
    ensures forall y :: 1 <= y < |Lines(s)| ==>
      && |Lines(s)[y]| == Nat(m.width)
      && forall x :: 0 <= x < m.width ==> TileOfChar(Lines(s)[y][x]) == m.tiles[y - 1][x]
    ensures Lines(s) == [DimensionLine(m.width, m.height)] + RowTexts(m)
  {
    var ls := [DimensionLine(m.width, m.height)] + RowTexts(m);
    ReaderView(m, ls);
    Unlines(ls)
  }

  lemma ReaderView(m: GameMap, ls: seq<string>)
    requires Indexable(m)
    requires ls == [DimensionLine(m.width, m.height)] + RowTexts(m)
    ensures var s := Unlines(ls);
      && |s| > 0 && s[|s| - 1] == '\n'
      && Lines(s) == ls
      && (IsInt32(m.width) && IsInt32(m.height) ==> ReadTwoInts(ls[0]) == Some((m.width, m.height)))
  {
    LinesOfUnlines(ls);
    UnlinesEndsWithNewline(ls);
    ReadDimensionLine(m.width, m.height);
  }

  lemma UnlinesEndsWithNewline(ls: seq<string>)
    requires |ls| > 0
    ensures |Unlines(ls)| > 0 && Unlines(ls)[|Unlines(ls)| - 1] == '\n'
  {
    if |ls| > 1 {
      UnlinesEndsWithNewline(ls[1..]);
    }
  }

  /** A valid map survives `serialize` followed by `deserialize` unchanged. */
  lemma DeserializeOfSerialize(m: GameMap)
    requires WellShaped(m) && m.width > 0 && m.height > 0
    requires IsInt32(m.width) && IsInt32(m.height)
    ensures Deserialize(Serialize(m)) == Ok(m)
  {
    var s := Serialize(m);
    var r := Deserialize(s);
    assert r.Ok?;
    SameGrid(r.value, m);
  }

  /** A valid map also survives `serialize` followed by the strict loader unchanged. */
  lemma LoadOfSerialize(m: GameMap)
    requires WellShaped(m) && m.width > 0 && m.height > 0
    requires IsInt32(m.width) && IsInt32(m.height)
    ensures LoadFromLines(Lines(Serialize(m))) == Ok(m)
  {
    LoadOfWritten(m, Lines(Serialize(m)));
  }

  /** The strict loader gives `m` back from any lines that read as `serialize`'s output does. */
  lemma LoadOfWritten(m: GameMap, ls: seq<string>)
    requires WellShaped(m) && m.width > 0 && m.height > 0
    requires |ls| == 1 + m.height && ReadTwoInts(ls[0]) == Some((m.width, m.height))
    requires forall y :: 1 <= y < |ls| ==>
      && |ls[y]| == m.width
      && forall x :: 0 <= x < m.width ==> TileOfChar(ls[y][x]) == m.tiles[y - 1][x]
    ensures LoadFromLines(ls) == Ok(m)
  {
    assert LongEnough(ls[1..], m.width, 0, m.height) by {
      forall i | 0 <= i < m.height && i < |ls[1..]|
        ensures |ls[1..][i]| >= m.width
      {
        assert ls[1..][i] == ls[i + 1];
      }
    }
    assert ParseHeader(ls) == Ok((m.width, m.height));
    var r := LoadFromLines(ls);
    assert r.Ok?;
    forall y, x | 0 <= y < m.height && 0 <= x < m.width
      ensures r.value.tiles[y][x] == m.tiles[y][x]
    {
      var z := y + 1;
      assert r.value.tiles[y][x] == TileOfChar(ls[z][x]);
      assert TileOfChar(ls[z][x]) == m.tiles[z - 1][x];
    }
    SameGrid(r.value, m);
  }

  /** Two well-shaped maps with the same dimensions and tiles are the same map. */
  lemma SameGrid(a: GameMap, b: GameMap)
    requires WellShaped(a) && WellShaped(b)
    requires a.width == b.width && a.height == b.height
    requires forall y, x :: 0 <= y < a.height && 0 <= x < a.width ==> a.tiles[y][x] == b.tiles[y][x]
    ensures a == b
  {
    forall y | 0 <= y < a.height
      ensures a.tiles[y] == b.tiles[y]
    {
    }
  }

  /** Rows after the `height`-th never influence the strict loader. */
  lemma LoadIgnoresExtraRows(lines: seq<string>, more: seq<string>)
    requires LoadFromLines(lines).Ok?
    ensures LoadFromLines(lines + more) == LoadFromLines(lines)
  {
    var all := lines + more;
    assert all[0] == lines[0];
    var (w, h) := ParseHeader(lines).value;
    assert LongEnough(all[1..], w, 0, h) by {
      forall i | 0 <= i < h && i < |all[1..]|
        ensures |all[1..][i]| >= w
      {
        assert all[1..][i] == lines[1..][i];
      }
    }
    SameGrid(LoadFromLines(all).value, LoadFromLines(lines).value);
  }

  /** Characters past the `width`-th column never influence the strict loader. */
  lemma LoadIgnoresExtraColumns(lines: seq<string>, longer: seq<string>)
    requires LoadFromLines(lines).Ok?
    requires |longer| == |lines| && longer[0] == lines[0]
    requires forall i :: 1 <= i < |lines| ==> lines[i] <= longer[i]
    ensures LoadFromLines(longer) == LoadFromLines(lines)
  {
    var (w, h) := ParseHeader(lines).value;
    assert LongEnough(longer[1..], w, 0, h) by {
      forall i | 0 <= i < h && i < |longer[1..]|
        ensures |longer[1..][i]| >= w
      {
        assert longer[1..][i] == longer[i + 1];
        assert lines[1..][i] == lines[i + 1];
      }
    }
    var a := LoadFromLines(longer).value;
    var b := LoadFromLines(lines).value;
    forall y, x | 0 <= y < h && 0 <= x < w
      ensures a.tiles[y][x] == b.tiles[y][x]
    {
      assert lines[1..][y] == lines[y + 1];
      assert longer[y + 1][x] == lines[y + 1][x];
    }
    SameGrid(a, b);
  }

  /** Whenever the strict loader accepts a text, the lenient reader produces the same map. */
  lemma DeserializeAgreesWithLoad(data: string)
    requires LoadFromLines(Lines(data)).Ok?
    ensures Deserialize(data) == LoadFromLines(Lines(data))
  {
    var ls := Lines(data);
    var header := ParseHeader(ls);
    assert header.Ok?;
    var w := header.value.0;
    var h := header.value.1;
    assert LongEnough(ls[1..], w, 0, h) && |ls| > h;
    var b := LoadFromLines(ls).value;
    var d := Deserialize(data);
    assert d.Ok?;
    var a := d.value;
    assert a.width == w && a.height == h && b.width == w && b.height == h;
    forall y, x | 0 <= y < h && 0 <= x < w
      ensures a.tiles[y][x] == b.tiles[y][x]
    {
      RowIsLongEnough(ls, w, h, y);
    }
    SameGrid(a, b);
  }

  lemma RowIsLongEnough(ls: seq<string>, w: nat, h: nat, y: nat)
    requires |ls| > h && LongEnough(ls[1..], w, 0, h) && y < h
    ensures |ls[y + 1]| >= w
  {
    assert ls[1..][y] == ls[y + 1];
  }
}
