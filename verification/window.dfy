/**
  The reading window shared by the row-by-row map loaders: a `width` by `height` grid is
  filled from the lines of a text by two nested loops, the outer one over the rows that are
  present (at most `height`), the inner one over the characters of a row (at most `width`).
  Cells the loops never reach keep the value the grid was created with.
 */
module Window {

  /** A `std::pair<int, int>` coordinate: `first` is the column, `second` the row. */
  datatype Pos = Pos(x: int, y: int)

  const Origin: Pos := Pos(0, 0)

  predicate InGrid(w: int, h: int, p: Pos) {
    0 <= p.x < w && 0 <= p.y < h
  }

  /**
    The character the row loops read at `p`: the loops visit row `y < h` only if the text has
    that row, and column `x` only if `x < w` and the row is that long. Cells never visited
    read as '.', the character of an untouched empty cell.
   */
  function CharAt(rows: seq<string>, w: int, h: int, p: Pos): char {
    if 0 <= p.y < h && p.y < |rows| && 0 <= p.x < w && p.x < |rows[p.y]| then rows[p.y][p.x] else '.'
  }

  /** Row-major order: the order the nested row and column loops visit cells. */
  predicate RowMajorLess(p: Pos, q: Pos) {
    p.y < q.y || (p.y == q.y && p.x < q.x)
  }

  /** Visited before the loops reach column `x` of row `y`. */
  predicate Before(p: Pos, y: int, x: int) {
    p.y < y || (p.y == y && p.x < x)
  }

  /** Every cell from (x, y) up to (x2, y2) reads as '.'. */
  ghost predicate Blank(rows: seq<string>, w: int, h: int, y: int, x: int, y2: int, x2: int) {
    forall p :: InGrid(w, h, p) && !Before(p, y, x) && Before(p, y2, x2) ==> CharAt(rows, w, h, p) == '.'
  }

  /**
    `f` is the last cell holding `mark` visited before (x, y), or (0, 0) when there is none:
    the loaders overwrite a single position each time they meet the mark.
   */
  ghost predicate LastMark(f: Pos, rows: seq<string>, w: int, h: int, mark: char, y: int, x: int) {
    || (&& InGrid(w, h, f) && Before(f, y, x) && CharAt(rows, w, h, f) == mark
        && forall q :: InGrid(w, h, q) && Before(q, y, x) && CharAt(rows, w, h, q) == mark ==> !RowMajorLess(f, q))
    || (f == Origin && forall q :: InGrid(w, h, q) && Before(q, y, x) ==> CharAt(rows, w, h, q) != mark)
  }

  /** Visiting cell (x, y), which holds `c`, moves the position to it exactly when `c` is the mark. */
  lemma MarkStep(f: Pos, rows: seq<string>, w: int, h: int, mark: char, y: int, x: int, c: char, f2: Pos)
    requires LastMark(f, rows, w, h, mark, y, x)
    requires InGrid(w, h, Pos(x, y)) && CharAt(rows, w, h, Pos(x, y)) == c
    requires f2 == if c == mark then Pos(x, y) else f
    ensures LastMark(f2, rows, w, h, mark, y, x + 1)
  {
    if c == mark {
      forall q | InGrid(w, h, q) && Before(q, y, x + 1) && CharAt(rows, w, h, q) == mark
        ensures !RowMajorLess(f2, q)
      {
      }
    } else if InGrid(w, h, f) && Before(f, y, x) && CharAt(rows, w, h, f) == mark {
      forall q | InGrid(w, h, q) && Before(q, y, x + 1) && CharAt(rows, w, h, q) == mark
        ensures !RowMajorLess(f2, q)
      {
        assert q != Pos(x, y);
        assert Before(q, y, x);
      }
    } else {
      forall q | InGrid(w, h, q) && Before(q, y, x + 1)
        ensures CharAt(rows, w, h, q) != mark
      {
        if q != Pos(x, y) {
          assert Before(q, y, x);
        }
      }
    }
  }

  /** Skipping cells that read as '.' keeps the last position of any other mark. */
  lemma MarkAdvance(f: Pos, rows: seq<string>, w: int, h: int, mark: char, y: int, x: int, y2: int, x2: int)
    requires LastMark(f, rows, w, h, mark, y, x)
    requires mark != '.'
    requires Blank(rows, w, h, y, x, y2, x2)
    requires forall p :: Before(p, y, x) ==> Before(p, y2, x2)
    ensures LastMark(f, rows, w, h, mark, y2, x2)
  {
    if InGrid(w, h, f) && Before(f, y, x) && CharAt(rows, w, h, f) == mark {
      forall q | InGrid(w, h, q) && Before(q, y2, x2) && CharAt(rows, w, h, q) == mark
        ensures !RowMajorLess(f, q)
      {
        assert Before(q, y, x);
      }
    } else {
      forall q | InGrid(w, h, q) && Before(q, y2, x2)
        ensures CharAt(rows, w, h, q) != mark
      {
        if !Before(q, y, x) {
          assert CharAt(rows, w, h, q) == '.';
        }
      }
    }
  }

  /** Once a row's loop stops (past the row's end or the width), the rest of that row reads as '.'. */
  lemma RowEndBlank(rows: seq<string>, w: int, h: int, y: int, x: int)
    requires 0 <= y < |rows| && (x >= |rows[y]| || x >= w)
    ensures Blank(rows, w, h, y, x, y + 1, 0)
    ensures forall p :: Before(p, y, x) ==> Before(p, y + 1, 0)
  {
  }

  /** Once the row loop stops (out of rows or at the height), every later row reads as '.'. */
  lemma RowsEndBlank(rows: seq<string>, w: int, h: int, y: int)
    requires y <= h && (y >= |rows| || y >= h)
    ensures Blank(rows, w, h, y, 0, h, 0)
    ensures forall p :: Before(p, y, 0) ==> Before(p, h, 0)
  {
  }
}
