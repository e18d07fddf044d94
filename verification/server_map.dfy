/**
  The second tile-map text format (`Map` in server_src/map.cpp, declared in
  shared_include/Map.hpp): the same `"<width> <height>"` header, rows over `# . $ E S s F`,
  and, built while parsing, the lists of coin, obstacle and start cells and the finish cell.
 */
module ServerMap {
  import opened Outcomes
  import opened Text
  import opened Window

  datatype Cell = Empty | Wall | Coin | Electric | Finish

  datatype Map = Map(
    width: int,
    height: int,
    grid: seq<seq<Cell>>,
    startPositions: seq<Pos>,
    coins: seq<Pos>,
    obstacles: seq<Pos>,
    finishPosition: Pos)

  /** `Map()`: no rows, empty lists, and a value-initialised finish position (0, 0). */
  const Fresh: Map := Map(0, 0, [], [], [], [], Pos(0, 0))

  /** Every in-range cell `grid[y][x]` the accessors and `serialize` read exists. */
  predicate Indexable(m: Map) {
    && m.height <= |m.grid|
    && forall y :: 0 <= y < m.height ==> m.width <= |m.grid[y]|
  }

  predicate WellShaped(m: Map) {
    && m.width >= 0
    && m.height == |m.grid|
    && forall y :: 0 <= y < |m.grid| ==> |m.grid[y]| == m.width
  }

  function Nat(n: int): nat {
    if n < 0 then 0 else n
  }

  // ---------------------------------------------------------------------------
  // Queries
  // ---------------------------------------------------------------------------

  /** `getCellAt`: the stored cell inside the map, a wall everywhere outside it. */
  function GetCellAt(m: Map, x: int, y: int): (c: Cell)
    requires Indexable(m)
    ensures InGrid(m.width, m.height, Pos(x, y)) ==> c == m.grid[y][x]
    ensures !InGrid(m.width, m.height, Pos(x, y)) ==> c == Wall
  {
    if x < 0 || x >= m.width || y < 0 || y >= m.height then Wall else m.grid[y][x]
  }

  /** `isCellWalkable`: false off the map and false exactly on wall cells inside it. */
  function IsCellWalkable(m: Map, x: int, y: int): (b: bool)
    requires Indexable(m)
    ensures b <==> InGrid(m.width, m.height, Pos(x, y)) && m.grid[y][x] != Wall
  {
    GetCellAt(m, x, y) != Wall
  }

  function IsCellCoin(m: Map, x: int, y: int): (b: bool)
    requires Indexable(m)
    ensures b <==> InGrid(m.width, m.height, Pos(x, y)) && m.grid[y][x] == Coin
  {
    GetCellAt(m, x, y) == Coin
  }

  function IsCellElectric(m: Map, x: int, y: int): (b: bool)
    requires Indexable(m)
    ensures b <==> InGrid(m.width, m.height, Pos(x, y)) && m.grid[y][x] == Electric
  {
    GetCellAt(m, x, y) == Electric
  }

  function IsCellFinish(m: Map, x: int, y: int): (b: bool)
    requires Indexable(m)
    ensures b <==> InGrid(m.width, m.height, Pos(x, y)) && m.grid[y][x] == Finish
  {
    GetCellAt(m, x, y) == Finish
  }

  /** `getStartPosition`: the slot's start cell, or (0, 0) for an index with no entry. */
  function GetStartPosition(m: Map, playerIndex: int): (p: Pos)
    ensures 0 <= playerIndex < |m.startPositions| ==> p == m.startPositions[playerIndex]
    ensures !(0 <= playerIndex < |m.startPositions|) ==> p == Origin
  {
    if playerIndex < 0 || playerIndex >= |m.startPositions| then Origin else m.startPositions[playerIndex]
  }

  // ---------------------------------------------------------------------------
  // Parsing: loadFromFile and deserialize
  // ---------------------------------------------------------------------------

  /** The parser's character switch; start markers and unknown characters leave the cell empty. */
  function CellOfChar(c: char): Cell {
    match c
    case '#' => Wall
    case '$' => Coin
    case 'E' => Electric
    case 'F' => Finish
    case _ => Empty
  }

  predicate Sorted(ps: seq<Pos>) {
    forall i, j :: 0 <= i < j < |ps| ==> RowMajorLess(ps[i], ps[j])
  }

  /**
    `ps` lists, in row-major order and each once, exactly the grid cells visited before
    (x, y) whose character is one of `marks`.
   */
  ghost predicate Lists(ps: seq<Pos>, rows: seq<string>, w: int, h: int, marks: set<char>, y: int, x: int) {
    && Sorted(ps)
    && (forall i :: 0 <= i < |ps| ==>
          InGrid(w, h, ps[i]) && Before(ps[i], y, x) && CharAt(rows, w, h, ps[i]) in marks)
    && (forall p :: InGrid(w, h, p) && Before(p, y, x) && CharAt(rows, w, h, p) in marks ==> p in ps)
  }

  /** The parser's working state: the grid being filled and the lists being appended to. */
  datatype Scan = Scan(grid: seq<seq<Cell>>, starts: seq<Pos>, coins: seq<Pos>, obstacles: seq<Pos>, finish: Pos)

  predicate GridShape(g: seq<seq<Cell>>, w: nat, h: nat) {
    |g| == h && forall r :: 0 <= r < h ==> |g[r]| == w
  }

  /**
    `grid.resize(height, std::vector<Cell>(width, EMPTY))` on an empty grid. The game's loader
    has its own copy over its own tile type: one generic grid of a type parameter costs the
    coin and obstacle proofs more than a copy per cell type.
   */
  function EmptyGrid(w: nat, h: nat): (g: seq<seq<Cell>>)
    ensures GridShape(g, w, h)
    ensures forall r, c :: 0 <= r < h && 0 <= c < w ==> g[r][c] == Empty
  {
    seq(h, _ => seq(w, _ => Empty))
  }

  /** One turn of the column loop: set the cell from its character and record markers. */
  function Visit(acc: Scan, x: nat, y: nat, c: char): (r: Scan)
    requires y < |acc.grid| && x < |acc.grid[y]|
    ensures |r.grid| == |acc.grid|
    ensures forall j :: 0 <= j < |r.grid| ==> |r.grid[j]| == |acc.grid[j]|
  {
    var p := Pos(x, y);
    var g := acc.grid[y := acc.grid[y][x := CellOfChar(c)]];
    if c == '$' then acc.(grid := g, coins := acc.coins + [p])
    else if c == 'E' then acc.(grid := g, obstacles := acc.obstacles + [p])
    else if c == 'S' || c == 's' then acc.(grid := g, starts := acc.starts + [p])
    else if c == 'F' then acc.(grid := g, finish := p)
    else acc.(grid := g)
  }

  /** `for (x = 0; x < line.length() && x < width; x++)` over row `y`, from column `x`. */
  function ScanLine(line: string, w: nat, y: nat, x: nat, acc: Scan): (r: Scan)
    requires y < |acc.grid| && |acc.grid[y]| == w
    ensures |r.grid| == |acc.grid|
    ensures forall j :: 0 <= j < |r.grid| ==> |r.grid[j]| == |acc.grid[j]|
    decreases |line| - x
  {
    if x >= |line| || x >= w then acc
    else ScanLine(line, w, y, x + 1, Visit(acc, x, y, line[x]))
  }

  /** `while (std::getline(...) && y < height)` over the rows after the header, from row `y`. */
  function ScanLines(rows: seq<string>, w: nat, h: nat, y: nat, acc: Scan): (r: Scan)
    requires GridShape(acc.grid, w, h)
    ensures GridShape(r.grid, w, h)
    decreases |rows| - y
  {
    if y >= |rows| || y >= h then acc
    else ScanLines(rows, w, h, y + 1, ScanLine(rows[y], w, y, 0, acc))
  }

  /** `while (startPositions.size() < 2) startPositions.push_back({0, 0})`. */
  function PadStarts(starts: seq<Pos>): (r: seq<Pos>)
    ensures |r| == if |starts| < 2 then 2 else |starts|
    ensures r[..|starts|] == starts
    ensures forall i :: |starts| <= i < |r| ==> r[i] == Origin
    decreases 2 - |starts|
  {
    if |starts| < 2 then PadStarts(starts + [Origin]) else starts
  }

  datatype ParseError =
    | MissingHeader  // the text has no first line
    | BadHeader      // the first line does not start with two integers
    | NegativeSize   // a negative dimension: the grid allocation throws std::length_error

  /** All the parser's results, stated against the characters it reads. */
  ghost predicate Parsed(m: Map, rows: seq<string>) {
    var w, h := m.width, m.height;
    && WellShaped(m)
    && (forall y, x :: 0 <= y < h && 0 <= x < w ==> m.grid[y][x] == CellOfChar(CharAt(rows, w, h, Pos(x, y))))
    && Lists(m.coins, rows, w, h, {'$'}, h, 0)
    && Lists(m.obstacles, rows, w, h, {'E'}, h, 0)
    && (exists k :: 0 <= k <= |m.startPositions| && StartsPadded(m.startPositions, k, rows, w, h))
    && LastMark(m.finishPosition, rows, w, h, 'F', h, 0)
  }

  /** The first `k` starts list the 'S' and 's' cells in scan order; the rest are (0, 0) padding. */
  ghost predicate StartsPadded(starts: seq<Pos>, k: nat, rows: seq<string>, w: int, h: int)
    requires k <= |starts|
  {
    && Lists(starts[..k], rows, w, h, {'S', 's'}, h, 0)
    && |starts| == (if k < 2 then 2 else k)
    && forall i :: k <= i < |starts| ==> starts[i] == Origin
  }

  /**
    The parse both `loadFromFile` and `deserialize` perform on a fresh `Map`, on the lines of
    the text. It fails only on the header; the rows are read leniently.
   */
  function Parse(lines: seq<string>): (r: Result<Map, ParseError>)
    ensures |lines| == 0 <==> r == Err(MissingHeader)
    ensures r == Err(BadHeader) <==> |lines| > 0 && ReadTwoInts(lines[0]).None?
    ensures r == Err(NegativeSize) <==>
      |lines| > 0 && ReadTwoInts(lines[0]).Some? &&
      (ReadTwoInts(lines[0]).value.0 < 0 || ReadTwoInts(lines[0]).value.1 < 0)
    ensures r.Ok? ==> (r.value.width, r.value.height) == ReadTwoInts(lines[0]).value
    ensures r.Ok? ==> WellShaped(r.value)
    ensures r.Ok? ==> forall y, x :: 0 <= y < r.value.height && 0 <= x < r.value.width ==>
      r.value.grid[y][x] == CellOfChar(CharAt(lines[1..], r.value.width, r.value.height, Pos(x, y)))
  {
    if |lines| == 0 then Err(MissingHeader)
    else
      match ReadTwoInts(lines[0])
      case None => Err(BadHeader)
      case Some((w, h)) =>
        if w < 0 || h < 0 then Err(NegativeSize)
        else
          Ok(Build(lines[1..], w, h))
  }

  /** The row and column loops over a fresh `w` by `h` grid, then the start padding. */
  function Build(rows: seq<string>, w: nat, h: nat): (m: Map)
    ensures m.width == w && m.height == h && WellShaped(m)
    ensures forall y, x :: 0 <= y < h && 0 <= x < w ==> m.grid[y][x] == CellOfChar(CharAt(rows, w, h, Pos(x, y)))
  {
    var s := ScanLines(rows, w, h, 0, Scan(EmptyGrid(w, h), [], [], [], Origin));
    var m := Map(w, h, s.grid, PadStarts(s.starts), s.coins, s.obstacles, s.finish);
    ParseCells(rows, w, h, s, m);
    m
  }

  /**
    `deserialize` into a fresh `Map`: the same parse over the lines of a string. It fails
    exactly when the text has no first line, the first line does not start with two
    integers, or one of them is negative; otherwise the map has the header's dimensions and
    every cell is decoded from the character the row loops read there.
   */
  function Deserialize(data: string): (r: Result<Map, ParseError>)
    ensures r.Err? <==>
      || |Lines(data)| == 0
      || ReadTwoInts(Lines(data)[0]).None?
      || ReadTwoInts(Lines(data)[0]).value.0 < 0 || ReadTwoInts(Lines(data)[0]).value.1 < 0
    ensures r.Ok? ==> WellShaped(r.value) && (r.value.width, r.value.height) == ReadTwoInts(Lines(data)[0]).value
    ensures r.Ok? ==> forall y, x :: 0 <= y < r.value.height && 0 <= x < r.value.width ==>
      r.value.grid[y][x] == CellOfChar(CharAt(Lines(data)[1..], r.value.width, r.value.height, Pos(x, y)))
  {
    Parse(Lines(data))
  }

  // ---------------------------------------------------------------------------
  // The scan invariant
  // ---------------------------------------------------------------------------

  /** The state after the loops have visited every cell before column `x` of row `y`. */
  ghost predicate Scanned(acc: Scan, rows: seq<string>, w: nat, h: nat, y: int, x: int) {
    && GridShape(acc.grid, w, h)
    && (forall r, c :: 0 <= r < h && 0 <= c < w ==>
          acc.grid[r][c] == if Before(Pos(c, r), y, x) then CellOfChar(CharAt(rows, w, h, Pos(c, r))) else Empty)
    && Lists(acc.coins, rows, w, h, {'$'}, y, x)
    && Lists(acc.obstacles, rows, w, h, {'E'}, y, x)
    && Lists(acc.starts, rows, w, h, {'S', 's'}, y, x)
    && LastMark(acc.finish, rows, w, h, 'F', y, x)
  }

  lemma ListsAdvance(ps: seq<Pos>, rows: seq<string>, w: nat, h: nat, marks: set<char>, y: int, x: int, y2: int, x2: int)
    requires Lists(ps, rows, w, h, marks, y, x)
    requires '.' !in marks
    requires Blank(rows, w, h, y, x, y2, x2)
    requires forall p :: Before(p, y, x) ==> Before(p, y2, x2)
    ensures Lists(ps, rows, w, h, marks, y2, x2)
  {
    forall p | InGrid(w, h, p) && Before(p, y2, x2) && CharAt(rows, w, h, p) in marks
      ensures p in ps
    {
      assert Before(p, y, x);
    }
  }

  lemma Advance(acc: Scan, rows: seq<string>, w: nat, h: nat, y: int, x: int, y2: int, x2: int)
    requires Scanned(acc, rows, w, h, y, x)
    requires Blank(rows, w, h, y, x, y2, x2)
    requires forall p :: Before(p, y, x) ==> Before(p, y2, x2)
    ensures Scanned(acc, rows, w, h, y2, x2)
  {
    ListsAdvance(acc.coins, rows, w, h, {'$'}, y, x, y2, x2);
    ListsAdvance(acc.obstacles, rows, w, h, {'E'}, y, x, y2, x2);
    ListsAdvance(acc.starts, rows, w, h, {'S', 's'}, y, x, y2, x2);
    forall r, c | 0 <= r < h && 0 <= c < w
      ensures acc.grid[r][c] == if Before(Pos(c, r), y2, x2) then CellOfChar(CharAt(rows, w, h, Pos(c, r))) else Empty
    {
      if Before(Pos(c, r), y2, x2) && !Before(Pos(c, r), y, x) {
        assert CharAt(rows, w, h, Pos(c, r)) == '.';
      }
    }
    MarkAdvance(acc.finish, rows, w, h, 'F', y, x, y2, x2);
  }

  lemma ListsPush(ps: seq<Pos>, rows: seq<string>, w: nat, h: nat, marks: set<char>, y: nat, x: nat)
    requires Lists(ps, rows, w, h, marks, y, x)
    requires InGrid(w, h, Pos(x, y)) && CharAt(rows, w, h, Pos(x, y)) in marks
    ensures Lists(ps + [Pos(x, y)], rows, w, h, marks, y, x + 1)
  {
    var qs := ps + [Pos(x, y)];
    forall i, j | 0 <= i < j < |qs|
      ensures RowMajorLess(qs[i], qs[j])
    {
      if j == |ps| {
        assert Before(ps[i], y, x);
      }
    }
    forall p | InGrid(w, h, p) && Before(p, y, x + 1) && CharAt(rows, w, h, p) in marks
      ensures p in qs
    {
      if p != Pos(x, y) {
        assert Before(p, y, x);
        assert p in ps;
      }
    }
  }

  lemma ListsSkip(ps: seq<Pos>, rows: seq<string>, w: nat, h: nat, marks: set<char>, y: nat, x: nat)
    requires Lists(ps, rows, w, h, marks, y, x)
    requires CharAt(rows, w, h, Pos(x, y)) !in marks
    ensures Lists(ps, rows, w, h, marks, y, x + 1)
  {
    forall p | InGrid(w, h, p) && Before(p, y, x + 1) && CharAt(rows, w, h, p) in marks
      ensures p in ps
    {
      assert Before(p, y, x);
    }
  }

  /** One turn of the column loop keeps the invariant, one cell further on. */
  lemma VisitStep(acc: Scan, rows: seq<string>, w: nat, h: nat, y: nat, x: nat)
    requires Scanned(acc, rows, w, h, y, x)
    requires y < h && y < |rows| && x < w && x < |rows[y]|
    ensures Scanned(Visit(acc, x, y, rows[y][x]), rows, w, h, y, x + 1)
  {
    var c := rows[y][x];
    var p := Pos(x, y);
    assert CharAt(rows, w, h, p) == c;
    var r := Visit(acc, x, y, c);
    if c == '$' { ListsPush(acc.coins, rows, w, h, {'$'}, y, x); } else { ListsSkip(acc.coins, rows, w, h, {'$'}, y, x); }
    if c == 'E' { ListsPush(acc.obstacles, rows, w, h, {'E'}, y, x); } else { ListsSkip(acc.obstacles, rows, w, h, {'E'}, y, x); }
    if c == 'S' || c == 's' {
      ListsPush(acc.starts, rows, w, h, {'S', 's'}, y, x);
    } else {
      ListsSkip(acc.starts, rows, w, h, {'S', 's'}, y, x);
    }
    MarkStep(acc.finish, rows, w, h, 'F', y, x, c, r.finish);
    forall rr, cc | 0 <= rr < h && 0 <= cc < w
      ensures r.grid[rr][cc] == if Before(Pos(cc, rr), y, x + 1) then CellOfChar(CharAt(rows, w, h, Pos(cc, rr))) else Empty
    {
    }
  }

  /**
    The column loop keeps `Scanned` up to the end of its row. The game's loader has a lemma of
    the same shape, but over its own `Scan`, `Visit` and `Scanned`: without abstract modules
    the two loaders' invariants cannot share one proof.
   */
  lemma {:induction false} ScanLineStep(rows: seq<string>, w: nat, h: nat, y: nat, x: nat, acc: Scan)
    requires Scanned(acc, rows, w, h, y, x)
    requires y < h && y < |rows| && x <= w
    ensures Scanned(ScanLine(rows[y], w, y, x, acc), rows, w, h, y + 1, 0)
    decreases |rows[y]| - x
  {
    var line := rows[y];
    if x >= |line| || x >= w {
      RowEndBlank(rows, w, h, y, x);
      Advance(acc, rows, w, h, y, x, y + 1, 0);
    } else {
      VisitStep(acc, rows, w, h, y, x);
      ScanLineStep(rows, w, h, y, x + 1, Visit(acc, x, y, line[x]));
    }
  }

  lemma ScanLinesDone(rows: seq<string>, w: nat, h: nat, y: nat, acc: Scan)
    requires Scanned(acc, rows, w, h, y, 0)
    requires y <= h && (y >= |rows| || y >= h)
    ensures Scanned(ScanLines(rows, w, h, y, acc), rows, w, h, h, 0)
  {
    assert ScanLines(rows, w, h, y, acc) == acc;
    RowsEndBlank(rows, w, h, y);
    Advance(acc, rows, w, h, y, 0, h, 0);
  }

  lemma {:induction false} ScanLinesStep(rows: seq<string>, w: nat, h: nat, y: nat, acc: Scan)
    requires Scanned(acc, rows, w, h, y, 0)
    requires y <= h
    ensures Scanned(ScanLines(rows, w, h, y, acc), rows, w, h, h, 0)
    decreases |rows| - y
  {
    if y >= |rows| || y >= h {
      ScanLinesDone(rows, w, h, y, acc);
    } else {
      var next := ScanLine(rows[y], w, y, 0, acc);
      assert ScanLines(rows, w, h, y, acc) == ScanLines(rows, w, h, y + 1, next);
      ScanLineStep(rows, w, h, y, 0, acc);
      ScanLinesStep(rows, w, h, y + 1, next);
    }
  }

  lemma ParseIsParsed(rows: seq<string>, w: nat, h: nat, s: Scan, m: Map)
    requires s == ScanLines(rows, w, h, 0, Scan(EmptyGrid(w, h), [], [], [], Origin))
    requires m == Map(w, h, s.grid, PadStarts(s.starts), s.coins, s.obstacles, s.finish)
    ensures Parsed(m, rows)
  {
    var init := Scan(EmptyGrid(w, h), [], [], [], Origin);
    assert Scanned(init, rows, w, h, 0, 0);
    ScanLinesStep(rows, w, h, 0, init);
    var k := |s.starts|;
    assert m.startPositions[..k] == s.starts;
    assert StartsPadded(m.startPositions, k, rows, w, h);
  }

  lemma ParseCells(rows: seq<string>, w: nat, h: nat, s: Scan, m: Map)
    requires s == ScanLines(rows, w, h, 0, Scan(EmptyGrid(w, h), [], [], [], Origin))
    requires m == Map(w, h, s.grid, PadStarts(s.starts), s.coins, s.obstacles, s.finish)
    ensures WellShaped(m)
    ensures forall y, x :: 0 <= y < h && 0 <= x < w ==> m.grid[y][x] == CellOfChar(CharAt(rows, w, h, Pos(x, y)))
  {
    ParseIsParsed(rows, w, h, s, m);
  }

  /**
    What a successful parse builds besides the grid: the coin and obstacle lists are exactly
    the grid's coin and obstacle cells in scan order, the start list holds the 'S' and 's'
    cells in scan order padded with (0, 0) to at least two entries, and the finish position
    is the last 'F' read, or (0, 0) when there is none.
   */
  lemma ParseLists(lines: seq<string>)
    requires Parse(lines).Ok?
    ensures Parsed(Parse(lines).value, lines[1..])
  {
    var (w, h) := ReadTwoInts(lines[0]).value;
    BuildLists(lines[1..], w, h);
  }

  lemma BuildLists(rows: seq<string>, w: nat, h: nat)
    ensures Parsed(Build(rows, w, h), rows)
  {
    var s := ScanLines(rows, w, h, 0, Scan(EmptyGrid(w, h), [], [], [], Origin));
    var m := Map(w, h, s.grid, PadStarts(s.starts), s.coins, s.obstacles, s.finish);
    ParseIsParsed(rows, w, h, s, m);
  }

  // ---------------------------------------------------------------------------
  // serialize
  // ---------------------------------------------------------------------------

  /**
    The marker an empty cell at `p` gets from the start list: 'S' when the first matching
    entry is entry 0, 's' when it is a later one, '.' when none matches.
   */
  function StartMark(starts: seq<Pos>, p: Pos, i: nat): (c: char)
    ensures c in {'S', 's', '.'}
    ensures c == '.' <==> forall j :: i <= j < |starts| ==> starts[j] != p
    decreases |starts| - i
  {
    if i >= |starts| then '.'
    else if starts[i] == p then (if i == 0 then 'S' else 's')
    else StartMark(starts, p, i + 1)
  }

  /** The character `serialize` writes for cell (x, y), as written in the source. */
  function SerialChar(m: Map, x: nat, y: nat): char
    requires y < |m.grid| && x < |m.grid[y]|
  {
    match m.grid[y][x]
    case Wall => '#'
    case Empty =>
      if m.finishPosition == Pos(x, y) then 'F' else StartMark(m.startPositions, Pos(x, y), 0)
    case Coin => '$'
    case Electric => 'E'
    case Finish => 'F'
  }

  /**
    The character written for cell (x, y) when an empty cell is never written as 'F': only
    the start markers are restored on empty cells.
   */
  function SerialCharFixed(m: Map, x: nat, y: nat): char
    requires y < |m.grid| && x < |m.grid[y]|
  {
    match m.grid[y][x]
    case Wall => '#'
    case Empty => StartMark(m.startPositions, Pos(x, y), 0)
    case Coin => '$'
    case Electric => 'E'
    case Finish => 'F'
  }

  function RowsWith(m: Map, fixed: bool): (rows: seq<string>)
    requires Indexable(m)
    ensures |rows| == Nat(m.height)
    ensures forall y :: 0 <= y < |rows| ==>
      && NoNewline(rows[y])
      && |rows[y]| == Nat(m.width)
      && forall x :: 0 <= x < Nat(m.width) ==>
           rows[y][x] == if fixed then SerialCharFixed(m, x, y) else SerialChar(m, x, y)
  {
    seq(Nat(m.height), y requires 0 <= y < Nat(m.height) =>
      seq(Nat(m.width), x requires 0 <= x < Nat(m.width) =>
        if fixed then SerialCharFixed(m, x, y) else SerialChar(m, x, y)))
  }

  /**
    `Map::serialize` as written: the dimension line, then one line per row in which walls,
    coins, obstacles and finish cells are written as '#', '$', 'E' and 'F', and an empty
    cell as 'F' when it is the finish position, as 'S' or 's' when it is a start position,
    and as '.' otherwise. Reading the text back sees `SerialChar` at each cell.
   */
  function Serialize(m: Map): (s: string)
    requires Indexable(m)
    ensures |s| > 0 && s[|s| - 1] == '\n'
    ensures Lines(s)[1..] == RowsWith(m, false)
    ensures IsInt32(m.width) && IsInt32(m.height) ==> ReadTwoInts(Lines(s)[0]) == Some((m.width, m.height))
  {
    var ls := [DimensionLine(m.width, m.height)] + RowsWith(m, false);
    WrittenLines(m, ls);
    Unlines(ls)
  }

  /** The serialiser with the finish branch for empty cells removed. */
  function SerializeFixed(m: Map): (s: string)
    requires Indexable(m)
    ensures |s| > 0 && s[|s| - 1] == '\n'
    ensures Lines(s)[1..] == RowsWith(m, true)
    ensures IsInt32(m.width) && IsInt32(m.height) ==> ReadTwoInts(Lines(s)[0]) == Some((m.width, m.height))
  {
    var ls := [DimensionLine(m.width, m.height)] + RowsWith(m, true);
    WrittenLines(m, ls);
    Unlines(ls)
  }

  lemma WrittenLines(m: Map, ls: seq<string>)
    requires |ls| > 0 && ls[0] == DimensionLine(m.width, m.height)
    requires forall i :: 0 <= i < |ls| ==> NoNewline(ls[i])
    ensures var s := Unlines(ls);
      && |s| > 0 && s[|s| - 1] == '\n'
      && Lines(s) == ls
      && (IsInt32(m.width) && IsInt32(m.height) ==> ReadTwoInts(ls[0]) == Some((m.width, m.height)))
  {
    LinesOfUnlines(ls);
    UnlinesEndsWithNewline(ls);
    ReadDimensionLine(m.width, m.height);
  }

  lemma UnlinesEndsWithNewline(ls: seq<string>)
    requires |ls| > 0
    ensures |Unlines(ls)| > 0 && Unlines(ls)[|Unlines(ls)| - 1] == '\n'
  {
    if |ls| > 1 {
      UnlinesEndsWithNewline(ls[1..]);
    }
  }

  /** The finish position names an empty cell of the grid. */
  predicate FinishOnEmpty(m: Map)
    requires WellShaped(m)
  {
    InGrid(m.width, m.height, m.finishPosition) && m.grid[m.finishPosition.y][m.finishPosition.x] == Empty
  }

  /** A text whose header reads as two non-negative integers parses to the map its rows build. */
  lemma ReadText(s: string, rows: seq<string>, w: int, h: int)
    requires |Lines(s)| > 0 && Lines(s)[1..] == rows
    requires ReadTwoInts(Lines(s)[0]) == Some((w, h)) && w >= 0 && h >= 0
    ensures Deserialize(s) == Ok(Build(rows, w, h))
  {
  }

  /** Rows that fill a `w` by `h` rectangle build, at every cell, the cell of its character. */
  lemma BuildFull(rows: seq<string>, w: nat, h: nat)
    requires |rows| == h && forall y :: 0 <= y < h ==> |rows[y]| == w
    ensures forall y, x :: 0 <= y < h && 0 <= x < w ==> Build(rows, w, h).grid[y][x] == CellOfChar(rows[y][x])
  {
    var d := Build(rows, w, h);
    forall y, x | 0 <= y < h && 0 <= x < w
      ensures d.grid[y][x] == CellOfChar(rows[y][x])
    {
      assert CharAt(rows, w, h, Pos(x, y)) == rows[y][x];
    }
  }

  /** Reading back a text whose rows are `RowsWith(m, fixed)` gives the map those rows build. */
  lemma ReadBack(m: Map, s: string, fixed: bool)
    requires WellShaped(m) && IsInt32(m.width) && IsInt32(m.height)
    requires |Lines(s)| > 0 && Lines(s)[1..] == RowsWith(m, fixed)
    requires ReadTwoInts(Lines(s)[0]) == Some((m.width, m.height))
    ensures Deserialize(s) == Ok(Build(RowsWith(m, fixed), m.width, m.height))
    ensures var d := Build(RowsWith(m, fixed), m.width, m.height);
      forall y, x :: 0 <= y < m.height && 0 <= x < m.width ==>
        d.grid[y][x] == CellOfChar(if fixed then SerialCharFixed(m, x, y) else SerialChar(m, x, y))
  {
    ReadText(s, RowsWith(m, fixed), m.width, m.height);
    BuildWritten(m, fixed);
  }

  /** The rows `RowsWith(m, fixed)` build, at every cell, the cell of the character written there. */
  lemma BuildWritten(m: Map, fixed: bool)
    requires WellShaped(m)
    ensures var d := Build(RowsWith(m, fixed), m.width, m.height);
      forall y, x :: 0 <= y < m.height && 0 <= x < m.width ==>
        d.grid[y][x] == CellOfChar(if fixed then SerialCharFixed(m, x, y) else SerialChar(m, x, y))
  {
    var rows := RowsWith(m, fixed);
    BuildFull(rows, m.width, m.height);
    var d := Build(rows, m.width, m.height);
    forall y, x | 0 <= y < m.height && 0 <= x < m.width
      ensures d.grid[y][x] == CellOfChar(if fixed then SerialCharFixed(m, x, y) else SerialChar(m, x, y))
    {
      assert d.grid[y][x] == CellOfChar(rows[y][x]);
    }
  }

  /** Reading a written character back gives the cell it was written for, but for the finish branch. */
  lemma CellOfSerialChar(m: Map, x: nat, y: nat)
    requires y < |m.grid| && x < |m.grid[y]|
    ensures CellOfChar(SerialCharFixed(m, x, y)) == m.grid[y][x]
    ensures CellOfChar(SerialChar(m, x, y)) ==
      if m.grid[y][x] == Empty && m.finishPosition == Pos(x, y) then Finish else m.grid[y][x]
  {
  }

  /** The grid comparison behind both round trips: `d` holds, at every cell, the cell of the character written for `m`. */
  lemma CompareGrids(m: Map, d: Map, fixed: bool)
    requires WellShaped(m) && WellShaped(d) && d.width == m.width && d.height == m.height
    requires forall y, x :: 0 <= y < m.height && 0 <= x < m.width ==>
      d.grid[y][x] == CellOfChar(if fixed then SerialCharFixed(m, x, y) else SerialChar(m, x, y))
    ensures fixed ==> d.grid == m.grid
    ensures !fixed ==> (d.grid == m.grid <==> !FinishOnEmpty(m))
  {
    if !fixed && FinishOnEmpty(m) {
      var f := m.finishPosition;
      CellOfSerialChar(m, f.x, f.y);
      assert d.grid[f.y][f.x] == Finish;
    } else {
      forall y | 0 <= y < m.height
        ensures d.grid[y] == m.grid[y]
      {
        forall x | 0 <= x < m.width
          ensures d.grid[y][x] == m.grid[y][x]
        {
          CellOfSerialChar(m, x, y);
        }
      }
    }
  }

  /**
    Serialising and parsing back reproduces the grid exactly when the finish position does
    not name an empty cell: such a cell is written as 'F' and comes back as a finish cell.
   */
  lemma GridRoundTrip(m: Map)
    requires WellShaped(m) && IsInt32(m.width) && IsInt32(m.height)
    ensures Deserialize(Serialize(m)).Ok?
    ensures Deserialize(Serialize(m)).value.grid == m.grid <==> !FinishOnEmpty(m)
  {
    ReadBack(m, Serialize(m), false);
    CompareGrids(m, Build(RowsWith(m, false), m.width, m.height), false);
  }

  /**
    Rows without any 'F' whose top-left cell is '.' build a map with the finish position
    left at (0, 0) on an empty cell: by `GridRoundTrip` serialising it does not give the
    grid back, and by `PhantomWritten` the reparsed map has a finish cell at (0, 0) that
    was never in the text.
   */
  lemma PhantomFinish(rows: seq<string>, w: nat, h: nat)
    requires w > 0 && h > 0
    requires CharAt(rows, w, h, Pos(0, 0)) == '.'
    requires forall q :: InGrid(w, h, q) ==> CharAt(rows, w, h, q) != 'F'
    ensures var m := Build(rows, w, h);
      m.grid[0][0] == Empty && m.finishPosition == Origin && FinishOnEmpty(m)
  {
    BuildLists(rows, w, h);
  }

  /** The text "2 1" / ".." parses to the map `PhantomFinish` is about. */
  lemma PhantomExample()
    ensures Parse(["2 1", ".."]) == Ok(Build([".."], 2, 1))
    ensures CharAt([".."], 2, 1, Pos(0, 0)) == '.'
    ensures forall q :: InGrid(2, 1, q) ==> CharAt([".."], 2, 1, q) != 'F'
  {
    HeaderTwoOne();
    var lines := ["2 1", ".."];
    assert lines[1..] == [".."];
    assert Parse(lines) == Ok(Build(lines[1..], 2, 1));
    DotsRow();
  }

  /** The header "2 1" reads as width 2 and height 1. */
  lemma HeaderTwoOne()
    ensures ReadTwoInts("2 1") == Some((2, 1))
  {
    assert NatToString(2) == "2" && NatToString(1) == "1";
    assert IntToString(2) == "2" && IntToString(1) == "1";
    assert DimensionLine(2, 1) == "2 1";
    ReadDimensionLine(2, 1);
  }

  /** The row ".." reads '.' at both of its cells. */
  lemma DotsRow()
    ensures forall q :: InGrid(2, 1, q) ==> CharAt([".."], 2, 1, q) == '.'
  {
    forall q | InGrid(2, 1, q)
      ensures CharAt([".."], 2, 1, q) == '.'
    {
      assert q.y == 0 && (q.x == 0 || q.x == 1);
    }
  }

  /** An empty cell at (0, 0) that is the finish position comes back as a finish cell. */
  lemma PhantomWritten(m: Map)
    requires WellShaped(m) && IsInt32(m.width) && IsInt32(m.height) && m.width > 0 && m.height > 0
    requires m.grid[0][0] == Empty && m.finishPosition == Origin
    ensures Deserialize(Serialize(m)).Ok?
    ensures Deserialize(Serialize(m)).value.grid[0][0] == Finish
  {
    ReadBack(m, Serialize(m), false);
    CellOfSerialChar(m, 0, 0);
  }

  /** With empty cells never written as 'F', every well-shaped map's grid survives serialising and parsing back. */
  lemma FixedGridRoundTrip(m: Map)
    requires WellShaped(m) && IsInt32(m.width) && IsInt32(m.height)
    ensures Deserialize(SerializeFixed(m)).Ok?
    ensures Deserialize(SerializeFixed(m)).value.grid == m.grid
  {
    ReadBack(m, SerializeFixed(m), true);
    CompareGrids(m, Build(RowsWith(m, true), m.width, m.height), true);
  }
}
