/** One frame: the lines a window paints, and where the terminal's cursor goes. */
module Painting {
  import opened Text
  import opened Geometry
  import opened Wrap
  import opened Sublines
  import opened ScreenLines
  import opened Viewport

  /** What the `y`-th line of a window whose top is line `top` has to show. */
  function Expected(v: View, coloff: int, top: nat, y: nat): Painted
    requires Viewable(v)
  {
    if top + y < Total(v) then Shown(v, coloff, LineAt(v, top + y)) else Past
  }

  /** `painted` is the start of what has to be shown. */
  ghost predicate PaintedSoFar(v: View, coloff: int, top: nat, painted: seq<Painted>)
    requires Viewable(v)
  {
    forall y | 0 <= y < |painted| :: painted[y] == Expected(v, coloff, top, y)
  }

  lemma PaintNext(v: View, coloff: int, top: nat, painted: seq<Painted>, p: Painted, l: Line)
    requires Viewable(v) && PaintedSoFar(v, coloff, top, painted)
    requires IsLine(v, l) && IndexOf(v, l) == top + |painted| && p == Shown(v, coloff, l)
    ensures PaintedSoFar(v, coloff, top, painted + [p])
  {
    hide LinesBefore, Shown, LineAt;
    LineAtIndex(v, l);
  }

  lemma PaintPast(v: View, coloff: int, top: nat, painted: seq<Painted>)
    requires Viewable(v) && PaintedSoFar(v, coloff, top, painted) && top + |painted| >= Total(v)
    ensures PaintedSoFar(v, coloff, top, painted + [Past])
  {
  }

  lemma {:induction false} PaintSpans(v: View, coloff: int, top: nat, painted: seq<Painted>, first: Line,
                                      spans: seq<Painted>)
    requires Viewable(v) && PaintedSoFar(v, coloff, top, painted)
    requires SpansOf(v, first, spans) && IndexOf(v, first) == top + |painted|
    ensures PaintedSoFar(v, coloff, top, painted + spans)
  {
    hide LinesBefore, LineAt, Count;
    forall y | |painted| <= y < |painted + spans| ensures (painted + spans)[y] == Expected(v, coloff, top, y) {
      var k := y - |painted|;
      LineAtIndex(v, Line(first.row, first.sub + k));
      assert (painted + spans)[y] == spans[k];
    }
  }

  /** `spans` are the sub-lines of a non-empty wrapped row from `first` on. */
  ghost predicate SpansOf(v: View, first: Line, spans: seq<Painted>)
    requires Viewable(v)
  {
    v.wrap && IsLine(v, first) && v.rows[first.row] != [] && first.sub + |spans| <= Count(v, first.row) &&
    forall k | 0 <= k < |spans| :: spans[k] == Shown(v, 0, Line(first.row, first.sub + k))
  }

  /** The part of the painter that paints one wrapped row, from its sub-line `skip`, or
      its last if it has not so many, for at most `room` lines. */
  method PaintRow(v: View, row: nat, skip: int, room: nat) returns (spans: seq<Painted>)
    requires Viewable(v) && v.wrap && row < |v.rows| && v.rows[row] != [] && room > 0
    ensures var first := Clamped(v, row, skip);
            SpansOf(v, first, spans) && |spans| == Min(room, Count(v, row) - first.sub)
  {
    hide BreakFrom, CellWidth, SublinesFrom, LineWidth;
    spans := [];
    var p, sub, skip' := START, 0, skip;
    ghost var starts, first := StartsOf(v, row), Clamped(v, row, skip);
    while p.byte < |v.rows[row]|
      invariant sub < |starts| && p == starts[sub] && p.byte < |v.rows[row]| && skip' == skip
      invariant if sub <= first.sub then spans == [] else |spans| == sub - first.sub
      invariant |spans| < room && SpansOf(v, first, spans)
      decreases |v.rows[row]| - p.byte
    {
      SublineIsBreak(v.scr, v.rows[row], START, sub);
      var more, end := WordWrapBreak(v.scr, v.rows[row], p);
      if sub < skip' {
        if more {
          sub, p := sub + 1, end;
          continue;
        }
        skip' := sub;
      }
      LastColumn(v, row, sub);
      spans := spans + [Span(row, p, end.col)];
      if !more { break; }
      if |spans| == room { break; }
      sub, p := sub + 1, end;
    }
  }

  /** The breaker's column for a row's last sub-line is the width of the row. */
  lemma LastColumn(v: View, row: nat, sub: nat)
    requires Viewable(v) && v.wrap && IsLine(v, Line(row, sub)) && v.rows[row] != []
    ensures var b := BreakFrom(v.scr, v.rows[row], StartsOf(v, row)[sub]);
            Span(row, StartsOf(v, row)[sub], b.end.col) == Shown(v, 0, Line(row, sub))
  {
    hide BreakFrom, CellWidth, SublinesFrom;
    var s, p := v.rows[row], StartsOf(v, row)[sub];
    SublineIsBreak(v.scr, s, START, sub);
    WalkSplits(v.scr, s, START, p, |s|);
  }

  lemma FirstOfRow(v: View, row: nat)
    requires Viewable(v) && row < |v.rows|
    ensures LinesBefore(v, row + 1) == LinesBefore(v, row) + Count(v, row)
    ensures Clamped(v, row, 0) == Line(row, 0)
    ensures !v.wrap || v.rows[row] == [] ==> forall skip: int :: Clamped(v, row, skip) == Line(row, 0)
    ensures !v.wrap || v.rows[row] == [] ==> Count(v, row) == 1
    ensures forall coloff :: Shown(v, coloff, Line(row, 0)) == if !v.wrap then Cut(row, coloff) else
                if v.rows[row] == [] then Empty(row) else Shown(v, 0, Line(row, 0))
  {
    hide LinesBefore;
    NextRowIndex(v, row);
    if v.wrap { SoundIffFirstFits(v.scr, v.rows[row], START); }
  }

  lemma PaintNothing(v: View, coloff: int, top: nat)
    requires Viewable(v)
    ensures PaintedSoFar(v, coloff, top, [])
  {
  }

  lemma StoredIsTop(win: Window, v: View)
    requires Viewable(v) && 0 <= win.rowoff < |v.rows|
    ensures win.TopIndex(v) == IndexOf(v, Clamped(v, win.rowoff, if v.wrap then win.skip else 0))
  {
    hide LinesBefore;
  }

  /** Paint one window.  `rowoff` names a row: the caller has clamped it. */
  method DrawRows(win: Window, v: View, screenrows: nat) returns (painted: seq<Painted>)
    requires Viewable(v) && 0 <= win.rowoff < |v.rows|
    ensures |painted| == screenrows && PaintedSoFar(v, win.coloff, win.TopIndex(v), painted)
  {
    hide LinesBefore, StartsOf, Count, Shown, Expected, PaintedSoFar, Clamped, SpansOf;
    var filerow, skip, y := win.rowoff, win.skip, 0;
    ghost var top := win.TopIndex(v);
    painted := [];
    PaintNothing(v, win.coloff, top);
    StoredIsTop(win, v);
    while y < screenrows
      invariant |painted| == y <= screenrows && PaintedSoFar(v, win.coloff, top, painted)
      invariant 0 <= filerow <= |v.rows|
      invariant y < screenrows ==>
                  if filerow == |v.rows| then top + y >= Total(v)
                  else top + y == IndexOf(v, Clamped(v, filerow, if v.wrap then skip else 0))
      decreases screenrows - y
    {
      if filerow >= |v.rows| {
        PaintPast(v, win.coloff, top, painted);
        painted := painted + [Past];
      } else {
        FirstOfRow(v, filerow);
        if filerow + 1 < |v.rows| { FirstOfRow(v, filerow + 1); }
        if !v.wrap {
          PaintNext(v, win.coloff, top, painted, Cut(filerow, win.coloff), Line(filerow, 0));
          painted := painted + [Cut(filerow, win.coloff)];
        } else if v.rows[filerow] == [] {
          PaintNext(v, win.coloff, top, painted, Empty(filerow), Line(filerow, 0));
          painted := painted + [Empty(filerow)];
        } else {
          var spans := PaintRow(v, filerow, skip, screenrows - y);
          PaintSpans(v, win.coloff, top, painted, Clamped(v, filerow, skip), spans);
          painted := painted + spans;
          y := y + |spans| - 1;
        }
        filerow, skip := filerow + 1, 0;
      }
      y := y + 1;
    }
  }

  /** Where the terminal's cursor goes: column and line within the window.  A cursor out of
      sight goes to the nearer edge. */
  method ScreenCursorPos(win: Window, v: View, cursorCol: int) returns (scx: int, scy: int)
    requires Viewable(v) && 0 <= win.cursor.y < |v.rows| && win.cursor.x >= 0
    requires cursorCol >= 0 ==> cursorCol == DisplayColumn(v.scr.wc, v.rows[win.cursor.y], win.cursor.x)
    ensures forall line: nat |
              CursorOn(v, line, win.cursor.y, DisplayColumn(v.scr.wc, v.rows[win.cursor.y], win.cursor.x)) ::
              var col := DisplayColumn(v.scr.wc, v.rows[win.cursor.y], win.cursor.x);
              var l := Line(win.cursor.y, line);
              var away := IndexOf(v, l) - win.TopIndex(v);
              scx == (if v.wrap then col - StartsOf(v, win.cursor.y)[line].col else Max(0, col - win.coloff)) &&
              (!(win.Stale(v) && l == win.Top(v)) ==>
                 scy == if 0 <= away <= win.height - 1 then away else if away < 0 then 0 else win.height - 1)
  {
    hide LinesBefore, Count, SublinesOf, DisplayColumn;
    var total := cursorCol;
    if total < 0 { total := WalkToColumn(v.scr.wc, v.rows[win.cursor.y], win.cursor.x); }
    var sub, col := 0, total as int;
    if v.wrap { sub, col := CursorScreenLine(v.scr, v.rows[win.cursor.y], total); }
    CursorIsOn(v, win.cursor.y, sub, total);
    scx := if v.wrap then col else total - win.coloff;
    if scx < 0 { scx := 0; }
    var l := Line(win.cursor.y, sub);
    scy := win.LinesFromTop(v, l, win.height - 1);
    if scy < 0 {
      var top := win.TopRead(v);
      IndexOrder(v, l, win.Top(v));
      IndexOrder(v, win.Top(v), l);
      var above := l.row < top.row || (l.row == top.row && sub < top.sub);
      scy := if above then 0 else win.height - 1;
    }
    forall line: nat | CursorOn(v, line, win.cursor.y, total) ensures line == sub {
      OneLineShowsTheCursor(v, win.cursor.y, line, sub, total);
    }
  }

  /** The flag behind "Bot" in the status bar.  Without wrap it misses the case where the
      last row is exactly the window's last line. */
  method UpdateEndFlag(win: Window, v: View) returns (end: bool)
    requires Viewable(v) && 0 <= win.rowoff < |v.rows|
    ensures end <==> Total(v) - win.TopIndex(v) < win.height + if v.wrap then 1 else 0
  {
    hide LinesBefore;
    if !v.wrap {
      RowsAreLines(v);
      return win.rowoff + win.height > |v.rows|;
    }
    var n := win.LinesToEnd(v, win.height);
    end := n <= win.height;
  }

  /** The cursor stands behind the last character of a row whose last screen line is as wide
      as the window, so there is no column left for it. */
  ghost predicate PastFullLine(v: View, p: Pos, line: nat)
    requires Viewable(v) && 0 <= p.y < |v.rows| && IsLine(v, Line(p.y, line))
  {
    var row, starts := v.rows[p.y], StartsOf(v, p.y);
    line == |starts| - 1 && DisplayColumn(v.scr.wc, row, p.x) == LineWidth(v.scr.wc, row) &&
    LineWidth(v.scr.wc, row) - starts[line].col == v.scr.cols
  }

  /** A frame of the focused window, from any stored top: the window's top is forced into
      the buffer, the cursor is brought into sight, the lines are painted and the
      terminal's cursor is put on the painted line that shows the buffer's. */
  method DrawFrame(win: Window, v: View) returns (painted: seq<Painted>, scx: int, scy: int, ghost line: nat)
    requires Viewable(v) && win.cursor.x >= 0 && win.cursor.y >= 0 && win.height >= 1
    modifies win
    ensures |painted| == win.height == old(win.height)
    ensures PaintedSoFar(v, win.coloff, win.TopIndex(v), painted)
    ensures 0 <= win.cursor.y < |v.rows| && IsLine(v, Line(win.cursor.y, line))
    ensures CursorOn(v, line, win.cursor.y, DisplayColumn(v.scr.wc, v.rows[win.cursor.y], win.cursor.x))
    ensures 0 <= scy < win.height && painted[scy] == Shown(v, win.coloff, Line(win.cursor.y, line))
    ensures !v.wrap && v.scr.cols >= 1 ==> 0 <= scx < v.scr.cols
    ensures v.wrap ==> 0 <= scx <= v.scr.cols && (scx == v.scr.cols <==> PastFullLine(v, win.cursor, line))
  {
    hide LinesBefore, Count, SublinesOf, DisplayColumn, StartsOf, Shown, PaintedSoFar, Expected, Clamped,
         PastFullLine;
    win.TopSet(v, win.rowoff, win.skip);
    var col;
    col, line := win.Scroll(v);
    painted := DrawRows(win, v, win.height);
    scx, scy := ScreenCursorPos(win, v, col);
    CursorColumnFits(v, win.cursor, line);
    LineIsPainted(v, win.coloff, win.TopIndex(v), painted, Line(win.cursor.y, line));
  }

  /** A line within the window is painted at its distance from the top. */
  lemma LineIsPainted(v: View, coloff: int, top: nat, painted: seq<Painted>, l: Line)
    requires Viewable(v) && PaintedSoFar(v, coloff, top, painted)
    requires IsLine(v, l) && top <= IndexOf(v, l) < top + |painted|
    ensures painted[IndexOf(v, l) - top] == Shown(v, coloff, l)
  {
    hide LinesBefore, Count, Shown, LineAt;
    LineAtIndex(v, l);
    assert painted[IndexOf(v, l) - top] == Expected(v, coloff, top, IndexOf(v, l) - top);
  }

  lemma OneLineShowsTheCursor(v: View, row: nat, j: nat, k: nat, col: nat)
    requires Viewable(v) && row < |v.rows| && CursorOn(v, j, row, col) && CursorOn(v, k, row, col)
    ensures j == k
  {
    hide SublinesFrom;
    if v.wrap { ShowsOneLine(SublinesOf(v.scr, v.rows[row]), j, k, col); }
  }

  /** Within its screen line the cursor is never right of the window's edge, and on it only
      past a last line as wide as the window. */
  lemma CursorColumnFits(v: View, p: Pos, line: nat)
    requires Viewable(v) && 0 <= p.y < |v.rows| && p.x >= 0
    requires CursorOn(v, line, p.y, DisplayColumn(v.scr.wc, v.rows[p.y], p.x))
    ensures v.wrap ==>
              var scx := DisplayColumn(v.scr.wc, v.rows[p.y], p.x) - StartsOf(v, p.y)[line].col;
              0 <= scx <= v.scr.cols && (scx == v.scr.cols <==> PastFullLine(v, p, line))
  {
    hide SublinesFrom;
    if v.wrap {
      var s := v.rows[p.y];
      SublinesAreSound(v.scr, s, line);
      WalkIsMonotone(v.scr.wc, s, 0, 0, p.x);
    }
  }
}
