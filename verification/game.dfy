/**
  The server-side game rules: a tile grid read from a map file, up to ten players moved by
  gravity and a jetpack, coins, electric tiles and a finish line, and the end-of-game and
  winner rules. Positions and velocities are `float` in the program and `real` here.
 */
module Game {
  import opened Outcomes
  import opened Text
  import opened Window
  import MapParser

  datatype Tile = Empty | Wall | Coin | Electric | StartP1 | StartP2 | Finish

  datatype Player = Player(x: real, y: real, velX: real, velY: real, jetpack: bool, score: int, alive: bool, finished: bool)

  /** A default-constructed player: at the origin, at rest, alive, not finished. */
  const NewPlayer: Player := Player(0.0, 0.0, 0.0, 0.0, false, 0, true, false)

  /** `MAX_CLIENTS`: the number of player slots. */
  const MaxClients: nat := 10

  datatype State = State(tiles: seq<seq<Tile>>, players: seq<Player>, width: int, height: int, started: bool, over: bool)

  /** `n` default players. */
  function NewPlayers(n: nat): (ps: seq<Player>)
    ensures |ps| == n && forall i :: 0 <= i < n ==> ps[i] == NewPlayer
  {
    if n == 0 then [] else [NewPlayer] + NewPlayers(n - 1)
  }

  /** The constructed game: no map, ten default players, not started. */
  const Fresh: State := State([], NewPlayers(MaxClients), 0, 0, false, false)

  /** The tile grid has `height` rows of `width` tiles and every player slot exists. */
  predicate Valid(g: State) {
    && |g.players| == MaxClients
    && 0 <= g.width && 0 <= g.height
    && |g.tiles| == g.height
    && forall r :: 0 <= r < |g.tiles| ==> |g.tiles[r]| == g.width
  }

  lemma FreshIsValid()
    ensures Valid(Fresh) && !Fresh.started && !Fresh.over
    ensures forall i :: 0 <= i < |Fresh.players| ==> Fresh.players[i] == NewPlayer
  {
  }

  /* ---------- float to int ---------- */

  function Floor(r: real): (f: int)
    ensures f as real <= r < f as real + 1.0
  {
    r.Floor
  }

  function Ceil(r: real): (c: int)
    ensures c as real - 1.0 < r <= c as real
  {
    -Floor(-r)
  }

  /** `static_cast<int>` of a float: rounds toward zero. */
  function Trunc(r: real): (t: int)
    ensures 0.0 <= r ==> t as real <= r < t as real + 1.0
    ensures r < 0.0 ==> t as real - 1.0 < r <= t as real
  {
    if r >= 0.0 then Floor(r) else Ceil(r)
  }

  /* ---------- tiles ---------- */

  /** The server's map alphabet: '$' is a coin, 'S' and 's' the two start markers. */
  function CharToTile(c: char): (t: Tile)
    ensures t == Wall <==> c == '#'
    ensures t == Coin <==> c == '$'
    ensures t == Electric <==> c == 'E'
    ensures t == StartP1 <==> c == 'S'
    ensures t == StartP2 <==> c == 's'
    ensures t == Finish <==> c == 'F'
  {
    match c
    case '#' => Wall
    case '$' => Coin
    case 'E' => Electric
    case 'S' => StartP1
    case 's' => StartP2
    case 'F' => Finish
    case _ => Empty
  }

  /**
    A coin written by the map generator's file format ('C') is not a coin for the server,
    which reads it as an empty tile.
   */
  lemma CoinDialect()
    ensures CharToTile(MapParser.CharOfTile(MapParser.Coin)) == Empty
    ensures MapParser.TileOfChar('$') == MapParser.Empty && CharToTile('$') == Coin
  {
  }

  /**
    `isValidPosition`: both coordinates, truncated, fall inside the grid. Because the cast
    rounds toward zero, that is the case exactly when each lies strictly between -1 and its
    dimension, on a non-empty grid.
   */
  predicate IsValidPosition(g: State, x: real, y: real): (b: bool)
    ensures b <==>
      (0 < g.width && 0 < g.height
       && -1.0 < x < g.width as real && -1.0 < y < g.height as real)
  {
    var ix, iy := Trunc(x), Trunc(y);
    0 <= ix < g.width && 0 <= iy < g.height
  }

  /** The tile under a position; everything off the grid behaves as a wall. */
  function GetTileAt(g: State, x: real, y: real): (t: Tile)
    requires Valid(g)
    ensures !IsValidPosition(g, x, y) ==> t == Wall
    ensures IsValidPosition(g, x, y) ==> t == g.tiles[Trunc(y)][Trunc(x)]
  {
    if !IsValidPosition(g, x, y) then Wall else g.tiles[Trunc(y)][Trunc(x)]
  }

  /**
    Because the cast rounds toward zero, a position just left of the grid (-1 < x < 0) reads
    the tile of column 0 rather than a wall, and one just above it (-1 < y < 0) the tile of
    row 0.
   */
  lemma ValidPositionBand(g: State, x: real, y: real)
    requires Valid(g)
    ensures -1.0 < x < 0.0 ==> GetTileAt(g, x, y) == GetTileAt(g, 0.0, y)
    ensures -1.0 < y < 0.0 ==> GetTileAt(g, x, y) == GetTileAt(g, x, 0.0)
  {
  }

  /* ---------- loading a map ---------- */

  /** What `file >> width >> height; file.ignore();` leaves: the two numbers and the rest of the text. */
  datatype Header = Header(width: int, height: int, body: string)

  /**
    A failed extraction stores 0 and stops every later read, so a missing width gives a
    0 by 0 map and a missing height a map of height 0; after both numbers one character is
    skipped.
   */
  function ReadHeader(text: string): (hd: Header)
    ensures |hd.body| <= |text| && hd.body == text[|text| - |hd.body|..]
    ensures IsInt32(hd.width) && IsInt32(hd.height)
    ensures ReadInt(text).None? ==> hd == Header(0, 0, "")
    ensures ReadInt(text).Some? && ReadInt(ReadInt(text).value.1).None? ==>
      hd == Header(ReadInt(text).value.0, 0, "")
    ensures ReadInt(text).Some? && ReadInt(ReadInt(text).value.1).Some? ==>
      var r2 := ReadInt(ReadInt(text).value.1).value.1;
      hd == Header(ReadInt(text).value.0, ReadInt(ReadInt(text).value.1).value.0, if |r2| == 0 then r2 else r2[1..])
  {
    var a := ReadInt(text);
    if a.None? then Header(0, 0, "")
    else
      var b := ReadInt(a.value.1);
      if b.None? then Header(a.value.0, 0, "")
      else
        var r2 := b.value.1;
        var body := if |r2| == 0 then r2 else r2[1..];
        HeaderBodySuffix(text);
        Header(a.value.0, b.value.0, body)
  }

  /** After two successful reads, the text past them, less one character, is a suffix of the text. */
  lemma HeaderBodySuffix(text: string)
    requires ReadInt(text).Some? && ReadInt(ReadInt(text).value.1).Some?
    ensures var r2 := ReadInt(ReadInt(text).value.1).value.1;
      var body := if |r2| == 0 then r2 else r2[1..];
      |body| <= |text| && body == text[|text| - |body|..]
  {
    var rest := ReadInt(text).value.1;
    var rest2 := ReadInt(rest).value.1;
    ReadIntRest(text);
    ReadIntRest(rest);
    var body := if |rest2| == 0 then rest2 else rest2[1..];
    SuffixOfSuffix(text, rest, rest2);
    SuffixOfSuffix(text, rest2, body);
  }

  /** `_map.resize(height, std::vector<TileType>(width))` throws on a negative dimension. */
  datatype LoadMapError = NegativeSize

  /** A start marker is recorded as a player position and erased from the grid. */
  function Unmark(t: Tile): (u: Tile)
    ensures u != StartP1 && u != StartP2
    ensures t != StartP1 && t != StartP2 ==> u == t
  {
    if t == StartP1 || t == StartP2 then Empty else t
  }

  predicate GridShape(tiles: seq<seq<Tile>>, w: nat, h: nat) {
    |tiles| == h && forall r :: 0 <= r < h ==> |tiles[r]| == w
  }

  function EmptyGrid(w: nat, h: nat): (tiles: seq<seq<Tile>>)
    ensures GridShape(tiles, w, h)
    ensures forall r, c :: 0 <= r < h && 0 <= c < w ==> tiles[r][c] == Empty
  {
    seq(h, _ => seq(w, _ => Empty))
  }

  /** The grid being filled and the last start position seen for each of the two players. */
  datatype Scan = Scan(tiles: seq<seq<Tile>>, p1: Pos, p2: Pos)

  /** One turn of the column loop: store the tile, and for a start marker move that player there and erase it. */
  function Visit(acc: Scan, x: nat, y: nat, c: char): (r: Scan)
    requires y < |acc.tiles| && x < |acc.tiles[y]|
    ensures |r.tiles| == |acc.tiles|
    ensures forall j :: 0 <= j < |r.tiles| ==> |r.tiles[j]| == |acc.tiles[j]|
  {
    var t := CharToTile(c);
    var tiles := acc.tiles[y := acc.tiles[y][x := Unmark(t)]];
    if t == StartP1 then acc.(tiles := tiles, p1 := Pos(x, y))
    else if t == StartP2 then acc.(tiles := tiles, p2 := Pos(x, y))
    else acc.(tiles := tiles)
  }

  /** `for (x = 0; x < width && x < line.length(); ++x)` over row `y`, from column `x`. */
  function ScanLine(line: string, w: nat, y: nat, x: nat, acc: Scan): (r: Scan)
    requires y < |acc.tiles| && |acc.tiles[y]| == w
    ensures |r.tiles| == |acc.tiles|
    ensures forall j :: 0 <= j < |r.tiles| ==> |r.tiles[j]| == |acc.tiles[j]|
    decreases |line| - x
  {
    if x >= |line| || x >= w then acc
    else ScanLine(line, w, y, x + 1, Visit(acc, x, y, line[x]))
  }

  /** `for (y = 0; y < height && std::getline(file, line); ++y)`, from row `y`. */
  function ScanLines(rows: seq<string>, w: nat, h: nat, y: nat, acc: Scan): (r: Scan)
    requires GridShape(acc.tiles, w, h)
    ensures GridShape(r.tiles, w, h)
    decreases |rows| - y
  {
    if y >= |rows| || y >= h then acc
    else ScanLines(rows, w, h, y + 1, ScanLine(rows[y], w, y, 0, acc))
  }

  /** A default player placed at grid cell `p`. */
  function Placed(p: Pos): (q: Player)
    ensures q.x == p.x as real && q.y == p.y as real
  {
    NewPlayer.(x := p.x as real, y := p.y as real)
  }

  /** The constructed game's players with the first two moved to their start cells. */
  function Starting(p1: Pos, p2: Pos): (ps: seq<Player>)
    ensures |ps| == MaxClients && ps[0] == Placed(p1) && ps[1] == Placed(p2)
    ensures forall i :: 2 <= i < |ps| ==> ps[i] == NewPlayer
  {
    Fresh.players[0 := Placed(p1)][1 := Placed(p2)]
  }

  /** Loading `rows` into a fresh game of the given size. */
  function Load(rows: seq<string>, w: nat, h: nat): (g: State)
    ensures Valid(g) && g.width == w && g.height == h && !g.started && !g.over
    ensures forall r, c :: 0 <= r < h && 0 <= c < w ==>
      g.tiles[r][c] == Unmark(CharToTile(CharAt(rows, w, h, Pos(c, r))))
    ensures forall i :: 2 <= i < |g.players| ==> g.players[i] == NewPlayer
  {
    var s := ScanLines(rows, w, h, 0, Scan(EmptyGrid(w, h), Origin, Origin));
    LoadCells(rows, w, h, s);
    State(s.tiles, Starting(s.p1, s.p2), w, h, false, false)
  }

  /**
    `loadMap` on a freshly constructed game. The rows are the lines after the header, read
    only as far as the header's height and width reach; cells the text does not cover stay
    empty, and no start marker remains in the grid.
   */
  function LoadMap(text: string): (r: Result<State, LoadMapError>)
    ensures r.Err? <==> ReadHeader(text).width < 0 || ReadHeader(text).height < 0
    ensures r.Ok? ==> Valid(r.value) && !r.value.started && !r.value.over
    ensures r.Ok? ==> r.value.width == ReadHeader(text).width && r.value.height == ReadHeader(text).height
    ensures r.Ok? ==> forall y, x :: 0 <= y < r.value.height && 0 <= x < r.value.width ==>
      r.value.tiles[y][x] == Unmark(CharToTile(CharAt(Lines(ReadHeader(text).body), r.value.width, r.value.height, Pos(x, y))))
    ensures r.Ok? ==> forall y, x :: 0 <= y < r.value.height && 0 <= x < r.value.width ==>
      r.value.tiles[y][x] != StartP1 && r.value.tiles[y][x] != StartP2
    ensures r.Ok? ==> forall i :: 2 <= i < |r.value.players| ==> r.value.players[i] == NewPlayer
  {
    var hd := ReadHeader(text);
    if hd.width < 0 || hd.height < 0 then Err(NegativeSize)
    else Ok(Load(Lines(hd.body), hd.width, hd.height))
  }

  /** The loop invariant of the two row loops, with the loops about to visit (x, y). */
  ghost predicate Scanned(acc: Scan, rows: seq<string>, w: nat, h: nat, y: int, x: int) {
    && GridShape(acc.tiles, w, h)
    && (forall r, c :: 0 <= r < h && 0 <= c < w ==>
          acc.tiles[r][c] == if Before(Pos(c, r), y, x) then Unmark(CharToTile(CharAt(rows, w, h, Pos(c, r)))) else Empty)
    && LastMark(acc.p1, rows, w, h, 'S', y, x)
    && LastMark(acc.p2, rows, w, h, 's', y, x)
  }

  lemma Advance(acc: Scan, rows: seq<string>, w: nat, h: nat, y: int, x: int, y2: int, x2: int)
    requires Scanned(acc, rows, w, h, y, x)
    requires Blank(rows, w, h, y, x, y2, x2)
    requires forall p :: Before(p, y, x) ==> Before(p, y2, x2)
    ensures Scanned(acc, rows, w, h, y2, x2)
  {
    forall r, c | 0 <= r < h && 0 <= c < w
      ensures acc.tiles[r][c] == if Before(Pos(c, r), y2, x2) then Unmark(CharToTile(CharAt(rows, w, h, Pos(c, r)))) else Empty
    {
      if Before(Pos(c, r), y2, x2) && !Before(Pos(c, r), y, x) {
        assert CharAt(rows, w, h, Pos(c, r)) == '.';
      }
    }
    MarkAdvance(acc.p1, rows, w, h, 'S', y, x, y2, x2);
    MarkAdvance(acc.p2, rows, w, h, 's', y, x, y2, x2);
  }

  lemma VisitStep(acc: Scan, rows: seq<string>, w: nat, h: nat, y: nat, x: nat)
    requires Scanned(acc, rows, w, h, y, x)
    requires y < h && y < |rows| && x < w && x < |rows[y]|
    ensures Scanned(Visit(acc, x, y, rows[y][x]), rows, w, h, y, x + 1)
  {
    var c := rows[y][x];
    assert CharAt(rows, w, h, Pos(x, y)) == c;
    var r := Visit(acc, x, y, c);
    MarkStep(acc.p1, rows, w, h, 'S', y, x, c, r.p1);
    MarkStep(acc.p2, rows, w, h, 's', y, x, c, r.p2);
    forall rr, cc | 0 <= rr < h && 0 <= cc < w
      ensures r.tiles[rr][cc] == if Before(Pos(cc, rr), y, x + 1) then Unmark(CharToTile(CharAt(rows, w, h, Pos(cc, rr)))) else Empty
    {
    }
  }

  lemma {:induction false} ScanLineStep(rows: seq<string>, w: nat, h: nat, y: nat, x: nat, acc: Scan)
    requires Scanned(acc, rows, w, h, y, x)
    requires y < h && y < |rows| && x <= w
    ensures Scanned(ScanLine(rows[y], w, y, x, acc), rows, w, h, y + 1, 0)
    decreases |rows[y]| - x
  {
    var line := rows[y];
    if x >= |line| || x >= w {
      RowEndBlank(rows, w, h, y, x);
      Advance(acc, rows, w, h, y, x, y + 1, 0);
    } else {
      VisitStep(acc, rows, w, h, y, x);
      ScanLineStep(rows, w, h, y, x + 1, Visit(acc, x, y, line[x]));
    }
  }

  lemma ScanLinesDone(rows: seq<string>, w: nat, h: nat, y: nat, acc: Scan)
    requires Scanned(acc, rows, w, h, y, 0)
    requires y <= h && (y >= |rows| || y >= h)
    ensures Scanned(ScanLines(rows, w, h, y, acc), rows, w, h, h, 0)
  {
    assert ScanLines(rows, w, h, y, acc) == acc;
    RowsEndBlank(rows, w, h, y);
    Advance(acc, rows, w, h, y, 0, h, 0);
  }

  lemma {:induction false} ScanLinesStep(rows: seq<string>, w: nat, h: nat, y: nat, acc: Scan)
    requires Scanned(acc, rows, w, h, y, 0)
    requires y <= h
    ensures Scanned(ScanLines(rows, w, h, y, acc), rows, w, h, h, 0)
    decreases |rows| - y
  {
    if y >= |rows| || y >= h {
      ScanLinesDone(rows, w, h, y, acc);
    } else {
      var next := ScanLine(rows[y], w, y, 0, acc);
      assert ScanLines(rows, w, h, y, acc) == ScanLines(rows, w, h, y + 1, next);
      ScanLineStep(rows, w, h, y, 0, acc);
      ScanLinesStep(rows, w, h, y + 1, next);
    }
  }

  lemma LoadScanned(rows: seq<string>, w: nat, h: nat, s: Scan)
    requires s == ScanLines(rows, w, h, 0, Scan(EmptyGrid(w, h), Origin, Origin))
    ensures Scanned(s, rows, w, h, h, 0)
  {
    var init := Scan(EmptyGrid(w, h), Origin, Origin);
    assert Scanned(init, rows, w, h, 0, 0);
    ScanLinesStep(rows, w, h, 0, init);
  }

  lemma LoadCells(rows: seq<string>, w: nat, h: nat, s: Scan)
    requires s == ScanLines(rows, w, h, 0, Scan(EmptyGrid(w, h), Origin, Origin))
    ensures forall r, c :: 0 <= r < h && 0 <= c < w ==> s.tiles[r][c] == Unmark(CharToTile(CharAt(rows, w, h, Pos(c, r))))
  {
    LoadScanned(rows, w, h, s);
  }

  /**
    Player 1 stands on the last 'S' of the grid in reading order and player 2 on the last
    's'; a player whose marker is absent stays at (0, 0).
   */
  lemma LoadStarts(rows: seq<string>, w: nat, h: nat)
    ensures exists f :: LastMark(f, rows, w, h, 'S', h, 0) && Load(rows, w, h).players[0] == Placed(f)
    ensures exists f :: LastMark(f, rows, w, h, 's', h, 0) && Load(rows, w, h).players[1] == Placed(f)
  {
    var s := ScanLines(rows, w, h, 0, Scan(EmptyGrid(w, h), Origin, Origin));
    LoadScanned(rows, w, h, s);
    assert Load(rows, w, h).players[0] == Placed(s.p1);
    assert Load(rows, w, h).players[1] == Placed(s.p2);
  }

  /** Two successful extractions followed by a newline leave the text after the newline. */
  lemma ReadHeaderOfReads(text: string, w: int, h: int, afterW: string, body: string)
    requires ReadInt(text) == Some((w, afterW))
    requires ReadInt(afterW) == Some((h, "\n" + body))
    ensures ReadHeader(text) == Header(w, h, body)
  {
    assert ("\n" + body)[1..] == body;
  }

  lemma Regroup(a: string, b: string, body: string)
    ensures a + " " + b + "\n" + body == a + (" " + (b + ("\n" + body)))
  {
  }

  /** The header "<width> <height>\n" is read back as those numbers, and the rest of the text follows it. */
  lemma ReadHeaderOfText(w: int, h: int, body: string)
    requires IsInt32(w) && IsInt32(h)
    ensures ReadHeader(DimensionLine(w, h) + "\n" + body) == Header(w, h, body)
  {
    var afterH := "\n" + body;
    var tail := IntToString(h) + afterH;
    var afterW := " " + tail;
    var text := DimensionLine(w, h) + "\n" + body;
    Regroup(IntToString(w), IntToString(h), body);
    ReadIntOfPrinted(w, afterW);
    ReadIntSkipsSpace(tail);
    ReadIntOfPrinted(h, afterH);
    ReadHeaderOfReads(text, w, h, afterW, body);
  }

  /** A map file of the form "<width> <height>\n" followed by the rows loads exactly those rows. */
  lemma LoadMapOfText(w: int, h: int, rows: seq<string>)
    requires 0 <= w && 0 <= h && IsInt32(w) && IsInt32(h)
    requires forall i :: 0 <= i < |rows| ==> NoNewline(rows[i])
    ensures LoadMap(DimensionLine(w, h) + "\n" + Unlines(rows)) == Ok(Load(rows, w, h))
  {
    ReadHeaderOfText(w, h, Unlines(rows));
    LinesOfUnlines(rows);
  }

  /* ---------- starting ---------- */

  /** A player reset for a new round: alive, unfinished, no score, at rest, jetpack off. */
  predicate Ready(p: Player) {
    p.alive && !p.finished && p.score == 0 && p.velX == 0.0 && p.velY == 0.0 && !p.jetpack
  }

  function Reset(p: Player): (q: Player)
    ensures Ready(q) && q.x == p.x && q.y == p.y
  {
    p.(score := 0, alive := true, finished := false, velX := 0.0, velY := 0.0, jetpack := false)
  }

  /** `init`: every player is reset in place and the game starts. */
  function Init(g: State): (r: State)
    ensures r.tiles == g.tiles && r.width == g.width && r.height == g.height
    ensures r.started && !r.over
    ensures |r.players| == |g.players|
    ensures forall i :: 0 <= i < |r.players| ==>
      Ready(r.players[i]) && r.players[i].x == g.players[i].x && r.players[i].y == g.players[i].y
  {
    var ps := seq(|g.players|, i requires 0 <= i < |g.players| => Reset(g.players[i]));
    g.(players := ps, started := true, over := false)
  }

  /** A just-started game is neither over nor decided. */
  lemma InitUndecided(g: State)
    requires Valid(g)
    ensures Valid(Init(g))
    ensures !IsGameOver(Init(g)) && GetWinner(Init(g)) == -1
  {
  }

  /* ---------- movement ---------- */

  const Gravity: real := 20.0
  const JetpackForce: real := 25.0
  const HorizontalSpeed: real := 5.0
  const MaxVerticalVelocity: real := 10.0

  /** The player slot exists and its player is still racing. */
  predicate Active(g: State, id: int) {
    0 <= id < |g.players| && g.players[id].alive && !g.players[id].finished
  }

  /** The vertical velocity after one step of jetpack thrust or gravity, limited to +-10. */
  function NextVelY(velY: real, jet: bool, dt: real): (v: real)
    ensures -MaxVerticalVelocity <= v <= MaxVerticalVelocity
    ensures var raw := if jet then velY - JetpackForce * dt else velY + Gravity * dt;
      && (-MaxVerticalVelocity <= raw <= MaxVerticalVelocity ==> v == raw)
      && (raw > MaxVerticalVelocity ==> v == MaxVerticalVelocity)
      && (raw < -MaxVerticalVelocity ==> v == -MaxVerticalVelocity)
  {
    var v := if jet then velY - JetpackForce * dt else velY + Gravity * dt;
    if v > MaxVerticalVelocity then MaxVerticalVelocity
    else if v < -MaxVerticalVelocity then -MaxVerticalVelocity
    else v
  }

  /** The candidate row position and velocity after the map's top and bottom edges are applied. */
  datatype Target = Target(y: real, velY: real)

  function Bounded(g: State, y: real, velY: real): (t: Target)
    ensures 0 < g.height ==> 0.0 <= t.y < g.height as real
    ensures t.velY == velY || t.velY == 0.0
    ensures 0.0 <= y < g.height as real ==> t == Target(y, velY)
    ensures y < 0.0 ==> t == Target(0.0, 0.0)
    ensures 0.0 <= y && y >= g.height as real ==> t == Target(g.height as real - 0.1, 0.0)
  {
    if y < 0.0 then Target(0.0, 0.0)
    else if y >= g.height as real then Target(g.height as real - 0.1, 0.0)
    else Target(y, velY)
  }

  /**
    The end of a step once the new column `newX` and the candidate row `t` are known, as
    written: the player moves to `t` unless a wall is there; when it is, the vertical velocity
    is zeroed before the test that chooses how to snap onto the wall, so the player is
    always rounded up to the next whole row.
   */
  function Settle(g: State, p: Player, jet: bool, newX: real, t: Target): (q: Player)
    requires Valid(g)
  {
    var q := p.(jetpack := jet, velX := HorizontalSpeed, x := newX);
    if GetTileAt(g, newX, t.y) != Wall then q.(y := t.y, velY := t.velY)
    else
      var velY := 0.0;
      q.(velY := velY, y := if velY > 0.0 then Floor(p.y) as real else Ceil(p.y) as real)
  }

  /** The same end of step snapping down onto a wall below (floor) and up under a wall above (ceil). */
  function SettleFixed(g: State, p: Player, jet: bool, newX: real, t: Target): (q: Player)
    requires Valid(g)
  {
    var q := p.(jetpack := jet, velX := HorizontalSpeed, x := newX);
    if GetTileAt(g, newX, t.y) != Wall then q.(y := t.y, velY := t.velY)
    else q.(velY := 0.0, y := if t.velY > 0.0 then Floor(p.y) as real else Ceil(p.y) as real)
  }

  /** Where one step of `dt` seconds would take a player before walls are considered. */
  function Aim(g: State, p: Player, jet: bool, dt: real): (t: Target)
  {
    var vy := NextVelY(p.velY, jet, dt);
    Bounded(g, p.y + vy * dt, vy)
  }

  /**
    `updatePlayer`: a missing, dead or finished player is left alone; otherwise only that
    player changes: the jetpack flag is stored, the horizontal speed is 5, the vertical
    speed stays within +-10, the player advances by 5 * dt horizontally whatever the map
    holds, and score, life and finish are untouched.
   */
  function UpdatePlayer(g: State, id: int, jet: bool, dt: real): (r: State)
    requires Valid(g)
    ensures Valid(r)
    ensures !Active(g, id) ==> r == g
    ensures Active(g, id) ==> var p, q := g.players[id], r.players[id];
      && r == g.(players := g.players[id := q])
      && q.jetpack == jet && q.velX == HorizontalSpeed
      && -MaxVerticalVelocity <= q.velY <= MaxVerticalVelocity
      && q.x == p.x + HorizontalSpeed * dt
      && q.score == p.score && q.alive == p.alive && q.finished == p.finished
    ensures Active(g, id) ==> var p, q, t := g.players[id], r.players[id], Aim(g, g.players[id], jet, dt);
      && (GetTileAt(g, q.x, t.y) != Wall ==> q.y == t.y && q.velY == t.velY)
      && (GetTileAt(g, q.x, t.y) == Wall ==> q.y == Ceil(p.y) as real && q.velY == 0.0)
  {
    if !Active(g, id) then g
    else
      var p := g.players[id];
      g.(players := g.players[id := Settle(g, p, jet, p.x + HorizontalSpeed * dt, Aim(g, p, jet, dt))])
  }

  /** `updatePlayer` with the wall snap made to depend on the direction of travel. */
  function UpdatePlayerFixed(g: State, id: int, jet: bool, dt: real): (r: State)
    requires Valid(g)
    ensures Valid(r)
    ensures !Active(g, id) ==> r == g
    ensures Active(g, id) ==> r == g.(players := g.players[id := r.players[id]])
  {
    if !Active(g, id) then g
    else
      var p := g.players[id];
      g.(players := g.players[id := SettleFixed(g, p, jet, p.x + HorizontalSpeed * dt, Aim(g, p, jet, dt))])
  }

  /**
    Whatever the direction of travel, a player blocked by a wall stops vertically and is
    put on the next whole row at or below its old position (larger y is further down).
   */
  lemma WallHitRoundsUp(g: State, p: Player, jet: bool, newX: real, t: Target)
    requires Valid(g) && GetTileAt(g, newX, t.y) == Wall
    ensures var q := Settle(g, p, jet, newX, t);
      q.velY == 0.0 && q.y == Ceil(p.y) as real && p.y <= q.y
  {
  }

  /**
    A player that stays on the map stays on it: with a row position in [0, height] before
    the step, the position after it is in [0, height] again.
   */
  lemma StaysOnMap(g: State, id: int, jet: bool, dt: real)
    requires Valid(g) && 0 < g.height && 0 <= id < |g.players|
    requires 0.0 <= g.players[id].y <= g.height as real
    ensures var q := UpdatePlayer(g, id, jet, dt).players[id];
      0.0 <= q.y <= g.height as real
  {
    if Active(g, id) {
      var p := g.players[id];
      SettleStaysOnMap(g, p, jet, p.x + HorizontalSpeed * dt, Aim(g, p, jet, dt));
    }
  }

  lemma SettleStaysOnMap(g: State, p: Player, jet: bool, newX: real, t: Target)
    requires Valid(g) && 0 < g.height
    requires 0.0 <= p.y <= g.height as real && 0.0 <= t.y < g.height as real
    ensures var q := Settle(g, p, jet, newX, t);
      0.0 <= q.y <= g.height as real
  {
    if GetTileAt(g, newX, t.y) == Wall {
      CeilBetween(p.y, g.height);
    }
  }

  /** Rounding up a value in [0, n] stays in [0, n]. */
  lemma CeilBetween(r: real, n: int)
    requires 0.0 <= r <= n as real
    ensures 0 <= Ceil(r) <= n
  {
    var c := Ceil(r);
    assert (c - 1) as real < n as real;
  }

  /** A one-column map with a wall in row 1, and player 0 falling from y = 0.5 at full speed. */
  function FallingOntoWall(): (g: State)
    ensures Valid(g) && Active(g, 0)
  {
    State([[Empty], [Wall], [Empty]],
          Fresh.players[0 := Player(0.0, 0.5, 0.0, 10.0, false, 0, true, false)], 1, 3, true, false)
  }

  /**
    As written, a player falling onto a wall is snapped down into the wall's own row: after
    one step of 0.1 seconds it stands at y = 1.0, on the wall tile.
   */
  lemma FallIntoWall()
    ensures var g := FallingOntoWall(); var q := UpdatePlayer(g, 0, false, 0.1).players[0];
      q.y == 1.0 && GetTileAt(g, q.x, q.y) == Wall
  {
    var g := FallingOntoWall();
    var p := g.players[0];
    assert NextVelY(10.0, false, 0.1) == 10.0;
    var t := Aim(g, p, false, 0.1);
    assert t == Target(1.5, 10.0);
    assert Trunc(0.5) == 0 && Trunc(1.5) == 1 && Trunc(1.0) == 1;
    assert GetTileAt(g, 0.5, 1.5) == Wall;
    WallHitRoundsUp(g, p, false, 0.5, t);
  }

  /**
    With the snap depending on the direction, a blocked player never moves toward the wall
    that stopped it: falling it ends at or above its old row position, rising at or below.
   */
  lemma WallHitKeepsSide(g: State, p: Player, jet: bool, newX: real, t: Target)
    requires Valid(g) && GetTileAt(g, newX, t.y) == Wall
    ensures var q := SettleFixed(g, p, jet, newX, t);
      q.velY == 0.0 && (if t.velY > 0.0 then q.y <= p.y else p.y <= q.y)
  {
  }

  /** In the example above the corrected step keeps the player on the empty tile above the wall. */
  lemma FallOntoWallFixed()
    ensures var g := FallingOntoWall(); var q := UpdatePlayerFixed(g, 0, false, 0.1).players[0];
      q.y == 0.0 && GetTileAt(g, q.x, q.y) == Empty
  {
    var g := FallingOntoWall();
    var p := g.players[0];
    assert NextVelY(10.0, false, 0.1) == 10.0;
    var t := Aim(g, p, false, 0.1);
    assert t == Target(1.5, 10.0);
    assert Trunc(0.5) == 0 && Trunc(1.5) == 1 && Trunc(0.0) == 0;
    assert GetTileAt(g, 0.5, 1.5) == Wall;
  }

  /* ---------- collisions ---------- */

  /** Nothing a collision does can be undone by a later one: scores only grow, death and finishing stick, positions stay. */
  predicate Progressed(a: Player, b: Player) {
    && a.score <= b.score
    && (!a.alive ==> !b.alive)
    && (a.finished ==> b.finished)
    && b.x == a.x && b.y == a.y
  }

  /**
    `checkCollisions`: a racing player on a coin scores it and the coin is removed, on an
    electric tile dies, on the finish finishes; nothing else changes.
   */
  function CheckCollisions(g: State, id: int): (r: State)
    requires Valid(g)
    ensures Valid(r)
    ensures r.width == g.width && r.height == g.height && r.started == g.started && r.over == g.over
    ensures forall j :: 0 <= j < |g.players| ==> Progressed(g.players[j], r.players[j])
    ensures forall j :: 0 <= j < |g.players| && j != id ==> r.players[j] == g.players[j]
    ensures !Active(g, id) ==> r == g
    ensures Active(g, id) && GetTileAt(g, g.players[id].x, g.players[id].y) == Coin ==>
      var ix, iy := Trunc(g.players[id].x), Trunc(g.players[id].y);
      r.tiles == g.tiles[iy := g.tiles[iy][ix := Empty]]
    ensures !(Active(g, id) && GetTileAt(g, g.players[id].x, g.players[id].y) == Coin) ==> r.tiles == g.tiles
    ensures 0 <= id < |g.players| ==> r.players[id] == Collided(g, id, id)
  {
    if !(0 <= id < |g.players|) then g
    else
      var p := g.players[id];
      if !p.alive || p.finished then g
      else
        match GetTileAt(g, p.x, p.y)
        case Coin =>
          var ix, iy := Trunc(p.x), Trunc(p.y);
          g.(players := g.players[id := p.(score := p.score + 1)],
             tiles := g.tiles[iy := g.tiles[iy][ix := Empty]])
        case Electric => g.(players := g.players[id := p.(alive := false)])
        case Finish => g.(players := g.players[id := p.(finished := true)])
        case _ => g
  }

  /** What a racing player's tile does to it. */
  lemma CollisionEffect(g: State, id: int)
    requires Valid(g) && Active(g, id)
    ensures var p, t, q := g.players[id], GetTileAt(g, g.players[id].x, g.players[id].y), CheckCollisions(g, id).players[id];
      && (t == Coin ==>
            q.score == p.score + 1 && q.alive && !q.finished && GetTileAt(CheckCollisions(g, id), p.x, p.y) == Empty)
      && (t == Electric ==> !q.alive && q.score == p.score && CheckCollisions(g, id).tiles == g.tiles)
      && (t == Finish ==> q.finished && q.alive && q.score == p.score && CheckCollisions(g, id).tiles == g.tiles)
      && (t != Coin && t != Electric && t != Finish ==> CheckCollisions(g, id) == g)
  {
  }

  /** Checking a player's collisions twice in a row has the effect of checking them once. */
  lemma CheckCollisionsIdempotent(g: State, id: int)
    requires Valid(g)
    ensures CheckCollisions(CheckCollisions(g, id), id) == CheckCollisions(g, id)
  {
    if Active(g, id) {
      var p := g.players[id];
      if GetTileAt(g, p.x, p.y) == Coin {
        var r := CheckCollisions(g, id);
        assert GetTileAt(r, p.x, p.y) == Empty;
      }
    }
  }

  function Indicator(t: Tile): nat {
    if t == Coin then 1 else 0
  }

  function RowCoins(row: seq<Tile>): nat {
    if |row| == 0 then 0 else Indicator(row[0]) + RowCoins(row[1..])
  }

  /** The number of coins left on the map. */
  function CoinCount(tiles: seq<seq<Tile>>): nat {
    if |tiles| == 0 then 0 else RowCoins(tiles[0]) + CoinCount(tiles[1..])
  }

  function TotalScore(ps: seq<Player>): int {
    if |ps| == 0 then 0 else ps[0].score + TotalScore(ps[1..])
  }

  lemma {:induction false} RowCoinsUpdate(row: seq<Tile>, x: nat, t: Tile)
    requires x < |row|
    ensures RowCoins(row[x := t]) == RowCoins(row) - Indicator(row[x]) + Indicator(t)
  {
    if x > 0 {
      assert row[x := t][1..] == row[1..][x - 1 := t];
      RowCoinsUpdate(row[1..], x - 1, t);
    } else {
      assert row[x := t][1..] == row[1..];
    }
  }

  lemma {:induction false} CoinCountUpdate(tiles: seq<seq<Tile>>, y: nat, row: seq<Tile>)
    requires y < |tiles|
    ensures CoinCount(tiles[y := row]) == CoinCount(tiles) - RowCoins(tiles[y]) + RowCoins(row)
  {
    if y > 0 {
      assert tiles[y := row][1..] == tiles[1..][y - 1 := row];
      CoinCountUpdate(tiles[1..], y - 1, row);
    } else {
      assert tiles[y := row][1..] == tiles[1..];
    }
  }

  lemma {:induction false} TotalScoreUpdate(ps: seq<Player>, i: nat, p: Player)
    requires i < |ps|
    ensures TotalScore(ps[i := p]) == TotalScore(ps) - ps[i].score + p.score
  {
    if i > 0 {
      assert ps[i := p][1..] == ps[1..][i - 1 := p];
      TotalScoreUpdate(ps[1..], i - 1, p);
    } else {
      assert ps[i := p][1..] == ps[1..];
    }
  }

  /** Coins on the map plus points scored: a collected coin moves from the first to the second. */
  function Worth(g: State): int {
    CoinCount(g.tiles) + TotalScore(g.players)
  }

  lemma CheckCollisionsConserves(g: State, id: int)
    requires Valid(g)
    ensures Worth(CheckCollisions(g, id)) == Worth(g)
  {
    if Active(g, id) {
      var p := g.players[id];
      var r := CheckCollisions(g, id);
      var t := GetTileAt(g, p.x, p.y);
      if t == Coin {
        var ix, iy := Trunc(p.x), Trunc(p.y);
        RowCoinsUpdate(g.tiles[iy], ix, Empty);
        CoinCountUpdate(g.tiles, iy, g.tiles[iy][ix := Empty]);
        TotalScoreUpdate(g.players, id, p.(score := p.score + 1));
      } else if t == Electric || t == Finish {
        TotalScoreUpdate(g.players, id, r.players[id]);
      }
    }
  }

  /* ---------- the game loop ---------- */

  /** The grid cell a player stands on, as the collision test truncates its position. */
  function CellOf(p: Player): Pos {
    Pos(Trunc(p.x), Trunc(p.y))
  }

  /** Some racing player in slots `i` to `j - 1` stands on cell `c`. */
  ghost predicate ClaimedBefore(g: State, i: int, j: int, c: Pos) {
    exists k :: i <= k < j && Active(g, k) && CellOf(g.players[k]) == c
  }

  /**
    What the player loop from slot `i` does to player `j`, stated without the loop: players
    before `i` and players not racing are untouched; a racing player on an electric tile
    dies, on the finish finishes, and on a coin scores one point unless a racing player in
    an earlier slot (from `i` on) stands on the same cell and so took the coin first.
   */
  ghost function Collided(g: State, i: int, j: int): Player
    requires Valid(g) && 0 <= j < |g.players|
  {
    var p := g.players[j];
    if j < i || !Active(g, j) then p
    else match GetTileAt(g, p.x, p.y)
      case Coin => if ClaimedBefore(g, i, j, CellOf(p)) then p else p.(score := p.score + 1)
      case Electric => p.(alive := false)
      case Finish => p.(finished := true)
      case _ => p
  }

  /** What the player loop from slot `i` leaves in cell (x, y): a coin a racing player stands on is gone. */
  ghost function CollidedTile(g: State, i: int, x: int, y: int): Tile
    requires Valid(g) && 0 <= y < g.height && 0 <= x < g.width
  {
    if g.tiles[y][x] == Coin && ClaimedBefore(g, i, |g.players|, Pos(x, y)) then Empty else g.tiles[y][x]
  }

  /**
    The player loop of `update`, from player `i` on: every racing player's collisions are
    checked in slot order, which has the effect `Collided` and `CollidedTile` describe.
   */
  function CollideFrom(g: State, i: nat): (r: State)
    requires Valid(g)
    ensures Valid(r)
    ensures r.width == g.width && r.height == g.height && r.started == g.started && r.over == g.over
    ensures forall j :: 0 <= j < |g.players| ==> Progressed(g.players[j], r.players[j])
    ensures forall j :: 0 <= j < i && j < |g.players| ==> r.players[j] == g.players[j]
    ensures forall j :: 0 <= j < |g.players| ==> r.players[j] == Collided(g, i, j)
    ensures forall y, x :: 0 <= y < g.height && 0 <= x < g.width ==> r.tiles[y][x] == CollidedTile(g, i, x, y)
    decreases |g.players| - i
  {
    if i >= |g.players| then g
    else
      var g2 := if Active(g, i) then CheckCollisions(g, i) else g;
      CollideStep(g, i);
      CollideFrom(g2, i + 1)
  }

  /** One turn of the loop hands the rest of the loop the same outcome. */
  lemma CollideStep(g: State, i: nat)
    requires Valid(g) && i < |g.players|
    ensures var g2 := if Active(g, i) then CheckCollisions(g, i) else g;
      && Valid(g2) && g2.width == g.width && g2.height == g.height
      && (forall j :: 0 <= j < |g.players| ==> Collided(g2, i + 1, j) == Collided(g, i, j))
      && (forall y, x :: 0 <= y < g.height && 0 <= x < g.width ==> CollidedTile(g2, i + 1, x, y) == CollidedTile(g, i, x, y))
  {
    forall j | 0 <= j < |g.players|
      ensures Collided(if Active(g, i) then CheckCollisions(g, i) else g, i + 1, j) == Collided(g, i, j)
    {
      CollideStepPlayer(g, i, j);
    }
    forall y, x | 0 <= y < g.height && 0 <= x < g.width
      ensures CollidedTile(if Active(g, i) then CheckCollisions(g, i) else g, i + 1, x, y) == CollidedTile(g, i, x, y)
    {
      CollideStepTile(g, i, x, y);
    }
  }

  /** Moving the start of the range past a slot that cannot claim `c` changes nothing. */
  lemma ClaimedShift(g: State, g2: State, i: int, j: int, c: Pos)
    requires |g2.players| == |g.players| && 0 <= i
    requires forall k :: 0 <= k < |g.players| && k != i ==> g2.players[k] == g.players[k]
    requires Active(g, i) ==> CellOf(g.players[i]) != c
    ensures ClaimedBefore(g2, i + 1, j, c) <==> ClaimedBefore(g, i, j, c)
  {
    if ClaimedBefore(g, i, j, c) {
      var k :| i <= k < j && Active(g, k) && CellOf(g.players[k]) == c;
      assert k != i && g2.players[k] == g.players[k];
      assert Active(g2, k);
    }
    if ClaimedBefore(g2, i + 1, j, c) {
      var k :| i + 1 <= k < j && Active(g2, k) && CellOf(g2.players[k]) == c;
      assert g2.players[k] == g.players[k];
      assert Active(g, k);
    }
  }

  lemma CollideStepPlayer(g: State, i: nat, j: int)
    requires Valid(g) && i < |g.players| && 0 <= j < |g.players|
    ensures Collided(if Active(g, i) then CheckCollisions(g, i) else g, i + 1, j) == Collided(g, i, j)
  {
    var g2 := if Active(g, i) then CheckCollisions(g, i) else g;
    var q := g.players[j];
    if j > i && Active(g, j) && GetTileAt(g, q.x, q.y) != Electric && GetTileAt(g, q.x, q.y) != Finish {
      assert g2.players[j] == q && Active(g2, j);
      var p := g.players[i];
      var c := CellOf(q);
      if Active(g, i) && GetTileAt(g, p.x, p.y) == Coin && CellOf(p) == c {
        assert GetTileAt(g2, q.x, q.y) == Empty;
        assert ClaimedBefore(g, i, j, c);
      } else {
        assert GetTileAt(g2, q.x, q.y) == GetTileAt(g, q.x, q.y);
        if GetTileAt(g, q.x, q.y) == Coin {
          ClaimedShift(g, g2, i, j, c);
        }
      }
    }
  }

  lemma CollideStepTile(g: State, i: nat, x: int, y: int)
    requires Valid(g) && i < |g.players| && 0 <= y < g.height && 0 <= x < g.width
    ensures CollidedTile(if Active(g, i) then CheckCollisions(g, i) else g, i + 1, x, y) == CollidedTile(g, i, x, y)
  {
    var g2 := if Active(g, i) then CheckCollisions(g, i) else g;
    var n := |g.players|;
    var p := g.players[i];
    if Active(g, i) && GetTileAt(g, p.x, p.y) == Coin && CellOf(p) == Pos(x, y) {
      assert g2.tiles[y][x] == Empty;
      assert ClaimedBefore(g, i, n, Pos(x, y));
    } else {
      assert g2.tiles[y][x] == g.tiles[y][x];
      if g.tiles[y][x] == Coin {
        ClaimedShift(g, g2, i, n, Pos(x, y));
      }
    }
  }

  lemma {:induction false} CollideFromConserves(g: State, i: nat)
    requires Valid(g)
    ensures Worth(CollideFrom(g, i)) == Worth(g)
    decreases |g.players| - i
  {
    if i < |g.players| {
      var g2 := if Active(g, i) then CheckCollisions(g, i) else g;
      CheckCollisionsConserves(g, i);
      CollideFromConserves(g2, i + 1);
    }
  }

  /**
    `update`: nothing happens before the start or after the end; otherwise every racing
    player's collisions are checked in slot order and the game ends when `isGameOver` says so.
    Scores only grow, deaths and finishes stick and no one moves.
   */
  function Update(g: State): (r: State)
    requires Valid(g)
    ensures Valid(r)
    ensures !g.started || g.over ==> r == g
    ensures g.started && !g.over ==> r.started && r.over == IsGameOver(r)
    ensures r.width == g.width && r.height == g.height
    ensures forall j :: 0 <= j < |g.players| ==> Progressed(g.players[j], r.players[j])
    ensures g.started && !g.over ==> forall j :: 0 <= j < |g.players| ==> r.players[j] == Collided(g, 0, j)
    ensures g.started && !g.over ==>
      forall y, x :: 0 <= y < g.height && 0 <= x < g.width ==> r.tiles[y][x] == CollidedTile(g, 0, x, y)
  {
    if !g.started || g.over then g
    else
      var c := CollideFrom(g, 0);
      c.(over := IsGameOver(c))
  }

  /**
    In a running game, one `update` kills a racing player on an electric tile, finishes one on
    the finish tile, and gives one on a coin a point and empties that cell when no racing
    player in an earlier slot stands on the same cell.
   */
  lemma UpdateEffects(g: State, j: int)
    requires Valid(g) && g.started && !g.over && Active(g, j)
    ensures var p, t, r := g.players[j], GetTileAt(g, g.players[j].x, g.players[j].y), Update(g);
      && (t == Electric ==> !r.players[j].alive)
      && (t == Finish ==> r.players[j].finished)
      && (t == Coin && !ClaimedBefore(g, 0, j, CellOf(p)) ==>
            r.players[j].score == p.score + 1 && r.tiles[CellOf(p).y][CellOf(p).x] == Empty)
  {
    var p := g.players[j];
    if GetTileAt(g, p.x, p.y) == Coin {
      assert ClaimedBefore(g, 0, |g.players|, CellOf(p));
    }
  }

  /**
    Two racing players on the same coin: the first racing slot on that cell takes it and the
    later one gets nothing.
   */
  lemma SharedCoin(g: State, i: int, j: int)
    requires Valid(g) && g.started && !g.over && Active(g, i) && Active(g, j) && i < j
    requires CellOf(g.players[i]) == CellOf(g.players[j]) && !ClaimedBefore(g, 0, i, CellOf(g.players[i]))
    requires GetTileAt(g, g.players[i].x, g.players[i].y) == Coin
    ensures Update(g).players[i].score == g.players[i].score + 1
    ensures Update(g).players[j].score == g.players[j].score
  {
    UpdateEffects(g, i);
    assert ClaimedBefore(g, 0, j, CellOf(g.players[j]));
  }

  /** A coin is never created or lost: the coins left plus the points scored stay the same. */
  lemma UpdateConserves(g: State)
    requires Valid(g)
    ensures Worth(Update(g)) == Worth(g)
  {
    if g.started && !g.over {
      CollideFromConserves(g, 0);
    }
  }

  /* ---------- end of game ---------- */

  /** The loop of `isGameOver` over slots `i` to `n - 1`: true unless one of them is still racing. */
  function AllDoneOrDead(ps: seq<Player>, i: nat, n: nat): (b: bool)
    requires n <= |ps|
    ensures b <==> forall j :: i <= j < n ==> !ps[j].alive || ps[j].finished
    decreases n - i
  {
    if i >= n then true
    else if ps[i].alive && !ps[i].finished then false
    else AllDoneOrDead(ps, i + 1, n)
  }

  /**
    `isGameOver` looks at the first two players only: the game is over when either of them
    is dead, or when both have finished.
   */
  function IsGameOver(g: State): (b: bool)
    requires 2 <= |g.players|
    ensures b <==> !g.players[0].alive || !g.players[1].alive || (g.players[0].finished && g.players[1].finished)
  {
    AllDoneOrDead(g.players, 0, 2) || !g.players[0].alive || !g.players[1].alive
  }

  /**
    `getWinner`: -1 while the game runs, else the index of the winner. A death decides first
    (player 1 dead: player 2 wins), then finishing, with the score breaking the tie when
    both finished and player 1 taking an equal score.
   */
  function GetWinner(g: State): (w: int)
    requires 2 <= |g.players|
    ensures w == -1 || w == 0 || w == 1
    ensures var p0, p1 := g.players[0], g.players[1];
      && (w == -1 <==> !g.over || (p0.alive && p1.alive && !p0.finished && !p1.finished))
      && (w == 0 <==> g.over && p0.alive && (!p1.alive || (p0.finished && (!p1.finished || p0.score >= p1.score))))
      && (w == 1 <==> g.over && (!p0.alive || (p1.alive && p1.finished && (!p0.finished || p1.score > p0.score))))
  {
    var p0, p1 := g.players[0], g.players[1];
    if !g.over then -1
    else if !p0.alive then 1
    else if !p1.alive then 0
    else if p0.finished && p1.finished && p0.score > p1.score then 0
    else if p0.finished && p1.finished && p1.score > p0.score then 1
    else if p0.finished then 0
    else if p1.finished then 1
    else -1
  }

  /** A game that `update` has ended always has a winner. */
  lemma OverIsDecided(g: State)
    requires 2 <= |g.players|
    requires g.over && IsGameOver(g)
    ensures GetWinner(g) != -1
  {
  }

  /** When both first players are dead the second one is declared the winner. */
  lemma BothDeadSecondWins(g: State)
    requires 2 <= |g.players| && g.over
    requires !g.players[0].alive && !g.players[1].alive
    ensures GetWinner(g) == 1
  {
  }

  /** When both finish with the same score the first one is declared the winner. */
  lemma EqualFinishFirstWins(g: State)
    requires 2 <= |g.players| && g.over
    requires g.players[0].alive && g.players[1].alive
    requires g.players[0].finished && g.players[1].finished
    requires g.players[0].score == g.players[1].score
    ensures GetWinner(g) == 0
  {
  }
}
