/** A window's view of a buffer: which screen line is at its top, moving it, keeping the
    cursor in sight, and what is painted.

    The source only ever compares and subtracts positions; here every position is the
    number of a screen line, counted from the start of the buffer. */
module Viewport {
  import opened Text
  import opened Geometry
  import opened Wrap
  import opened Sublines
  import opened ScreenLines

  /** What one screen line of the window shows. */
  datatype Painted =
    | Past                                           // below the last row
    | Empty(row: nat)                                // an empty row, under wrap
    | Span(row: nat, from: Place, toCol: nat)        // one sub-line of a wrapped row
    | Cut(row: nat, fromCol: int)                    // a row cut at the window's columns

  function Shown(v: View, coloff: int, l: Line): Painted
    requires Viewable(v) && IsLine(v, l)
  {
    if !v.wrap then Cut(l.row, coloff)
    else if v.rows[l.row] == [] then Empty(l.row)
    else Span(l.row, StartsOf(v, l.row)[l.sub], EndColumn(v.scr, v.rows[l.row], StartsOf(v, l.row), l.sub))
  }

  function Min(a: int, b: int): int { if a < b then a else b }

  function Max(a: int, b: int): int { if a < b then b else a }

  /** Line number `line` of row `row` is where column `col` is shown. */
  ghost predicate CursorOn(v: View, line: nat, row: nat, col: nat)
    requires Viewable(v) && row < |v.rows|
  {
    IsLine(v, Line(row, line)) && (v.wrap ==> ShowsColumn(SublinesOf(v.scr, v.rows[row]), line, col))
  }

  lemma CursorIsOn(v: View, row: nat, line: nat, col: nat)
    requires Viewable(v) && row < |v.rows|
    requires if v.wrap then line < |SublinesOf(v.scr, v.rows[row])| &&
                            ShowsColumn(SublinesOf(v.scr, v.rows[row]), line, col)
             else line == 0
    ensures CursorOn(v, line, row, col)
  {
  }

  method CursorSubline(v: View, row: nat, col: nat) returns (sub: nat)
    requires Viewable(v) && row < |v.rows|
    ensures CursorOn(v, sub, row, col)
  {
    sub := 0;
    if v.wrap {
      var line, _ := CursorScreenLine(v.scr, v.rows[row], col);
      sub := line;
    }
  }

  /** Where scrolling by `n` takes a window whose top is line `top`, stored as if it were
      line `raw`.  Down: the furthest line, at most `n` on, that leaves no more than two
      blank ones below the text.  Up: `n` back, or the first. */
  function ScrolledTop(v: View, top: nat, raw: nat, height: int, n: int): (r: int)
    requires Viewable(v)
    ensures n > 0 && top < Total(v) ==>
              top <= r <= top + n && r < Total(v) && (r == top || r + height - 2 <= Total(v)) &&
              (r == top + n || r == Total(v) - 1 || r + 1 + height - 2 > Total(v))
    ensures n < 0 && raw == top ==> if top + n < 0 then r == 0 else r == top + n
    ensures n < 0 && raw > top ==> if raw + n < top then r == Max(0, raw + n) else r == top
  {
    if n > 0 then Min(top + Max(0, Min(n, Total(v) - top - (height - 2))), Total(v) - 1)
    else Min(top, Max(0, raw + n))
  }

  lemma ClampedLine(v: View, l: Line)
    requires Viewable(v) && IsLine(v, l)
    ensures Clamped(v, l.row, l.sub) == l
  {
  }

  lemma FirstLineTop(v: View, t: Line)
    requires Viewable(v) && t.row < |v.rows|
    ensures t.sub == 0 ==> IndexOf(v, Clamped(v, t.row, t.sub)) == LinesBefore(v, t.row)
  {
  }

  /** The number of the line a stored top stands for. */
  lemma StoredTop(v: View, t: Line)
    requires Viewable(v) && t.row < |v.rows|
    ensures var top := IndexOf(v, Clamped(v, t.row, t.sub));
            top <= IndexOf(v, t) && LinesBefore(v, t.row) <= top < LinesBefore(v, t.row) + Count(v, t.row) <= Total(v)
    ensures IndexOf(v, Clamped(v, t.row, t.sub)) == Min(IndexOf(v, t), LinesBefore(v, t.row) + Count(v, t.row) - 1)
  {
    hide LinesBefore, Count;
    LinesBeforeGrows(v, t.row, |v.rows|);
  }

  /** A stored top that moved up from `t` to `u`. */
  lemma SettledTop(v: View, t: Line, u: Line)
    requires Viewable(v) && t.row < |v.rows| && u.row <= t.row && IndexOf(v, u) <= IndexOf(v, t)
    requires u.row < t.row ==> IsLine(v, u)
    ensures IndexOf(v, Clamped(v, u.row, u.sub)) == Min(IndexOf(v, Clamped(v, t.row, t.sub)), IndexOf(v, u))
  {
    hide LinesBefore, Count, Clamped;
    StoredTop(v, t);
    StoredTop(v, u);
    if u.row < t.row { LinesBeforeGrows(v, u.row, t.row); }
  }

  /** Without wrap a row is a line and its number is its row. */
  lemma RowsAreLines(v: View)
    requires Viewable(v) && !v.wrap
    ensures Total(v) == |v.rows|
    ensures forall row | 0 <= row <= |v.rows| :: LinesBefore(v, row) == row
  {
    forall row | 0 <= row <= |v.rows| ensures LinesBefore(v, row) == row {
      LinesBeforeGrows(v, 0, row);
    }
  }

  /** One walk down from a stored top, at most `steps` screen lines. */
  method WalkDown(v: View, top: Line, steps: nat) returns (moved: nat, l: Line)
    requires Viewable(v) && top.row < |v.rows|
    requires v.wrap
    ensures var t := IndexOf(v, Clamped(v, top.row, top.sub));
            IsLine(v, l) && IndexOf(v, l) == t + moved == Min(t + steps, Total(v) - 1)
  {
    hide LinesBefore, StartsOf, Count, Clamped;
    var w := new ScreenWalk(v, top.row, top.sub);
    ghost var t := w.Index();
    IndexOrder(v, Line(w.row, w.subline), Line(w.row, w.subline));
    moved := 0;
    for i := 0 to steps
      invariant moved == i && w.Valid() && w.v == v && w.Index() == t + moved < Total(v)
    {
      var went := w.Next();
      if !went { break; }
      moved := moved + 1;
    }
    l := Line(w.row, w.subline);
  }

  method CountLines(v: View, row: nat) returns (n: nat)
    requires Viewable(v) && row < |v.rows|
    ensures n == Count(v, row)
  {
    if v.wrap {
      n := CountScreenLines(v.scr, v.rows[row]);
    } else {
      n := 1;
    }
  }

  lemma LinesBeforeFirst(v: View)
    requires Viewable(v)
    ensures LinesBefore(v, 0) == 0
  {
  }

  /** Walk back `n` lines, stopping at the start of the buffer. */
  method LinesBack(v: View, from: Line, n: int) returns (to: Line)
    requires Viewable(v) && from.row < |v.rows|
    ensures to.row < |v.rows| && IndexOf(v, to) == Max(0, IndexOf(v, from) - Max(0, n))
    ensures if to.row == from.row then to.sub <= from.sub else to.row < from.row && IsLine(v, to)
  {
    hide LinesBefore, StartsOf, Count;
    var left := n;
    to := from;
    LinesBeforeFirst(v);
    while left > 0
      invariant to.row < |v.rows| && left <= Max(0, n) && (n <= 0 ==> left == n && to == from)
      invariant n > 0 ==> 0 <= left && IndexOf(v, to) == IndexOf(v, from) - (n - left)
      invariant if to.row == from.row then to.sub <= from.sub else to.row < from.row && IsLine(v, to)
      decreases left
    {
      if to.sub > 0 {
        to := Line(to.row, to.sub - 1);
      } else {
        if to.row <= 0 { break; }
        NextRowIndex(v, to.row - 1);
        var count := CountLines(v, to.row - 1);
        to := Line(to.row - 1, count - 1);
      }
      left := left - 1;
    }
  }

  /** Walk back `n` screen lines and as many forward: the walk ends where it started unless
      the start of the buffer cut the way back short, or nothing is below. */
  method BackThenForward(v: View, l: Line, n: nat) returns (to: Line)
    requires Viewable(v) && IsLine(v, l)
    ensures IsLine(v, to) && IndexOf(v, l) < Total(v)
    ensures to == l <==> n <= IndexOf(v, l) || IndexOf(v, l) == Total(v) - 1
  {
    hide LinesBefore, StartsOf, Count, Clamped;
    IndexOrder(v, l, l);
    var back := LinesBack(v, l, n);
    if back.row == l.row { EarlierLine(v, l, back.sub); }
    ClampedLine(v, back);
    var w := new ScreenWalk(v, back.row, back.sub);
    for i := 0 to n
      invariant w.Valid() && w.v == v && fresh(w)
      invariant w.Index() == Min(IndexOf(v, back) + i, Total(v) - 1)
    {
      var _ := w.Next();
    }
    to := Line(w.row, w.subline);
    IndexOrder(v, l, to);
  }

  lemma EarlierLine(v: View, l: Line, sub: nat)
    requires Viewable(v) && IsLine(v, l) && sub <= l.sub
    ensures IsLine(v, Line(l.row, sub))
  {
  }

  class Window {
    var rowoff: int
    var skip: int
    var coloff: int
    var height: int
    var cursor: Pos

    /** The stored top, with its row forced into the buffer but not its sub-line. */
    function TopRead(v: View): (t: Line)
      requires Viewable(v)
      reads `rowoff, `skip
      ensures t.row < |v.rows|
    {
      Line(if rowoff < 0 then 0 else if rowoff > |v.rows| - 1 then |v.rows| - 1 else rowoff,
           if v.wrap && skip > 0 then skip else 0)
    }

    /** The line at the top of the window. */
    ghost function Top(v: View): (t: Line)
      requires Viewable(v)
      reads `rowoff, `skip
      ensures IsLine(v, t)
    {
      Clamped(v, TopRead(v).row, TopRead(v).sub)
    }

    ghost function TopIndex(v: View): (i: nat)
      requires Viewable(v)
      reads `rowoff, `skip
    {
      IndexOf(v, Top(v))
    }

    /** The stored sub-line is one the row no longer has. */
    ghost predicate Stale(v: View)
      requires Viewable(v)
      reads `rowoff, `skip
    {
      !IsLine(v, TopRead(v))
    }

    method TopSet(v: View, row: int, subline: int)
      requires Viewable(v)
      modifies `rowoff, `skip
      ensures 0 <= rowoff < |v.rows|
      ensures TopRead(v) == if 0 <= row < |v.rows| then Line(row, if v.wrap then Max(0, subline) else 0)
                            else Line(if row < 0 then 0 else |v.rows| - 1, 0)
    {
      var clamped := row;
      if clamped < 0 { clamped := 0; }
      if clamped > |v.rows| - 1 { clamped := |v.rows| - 1; }
      rowoff := clamped;
      skip := if clamped != row || !v.wrap || subline < 0 then 0 else subline;
    }

    /** Distance from the top to a line.  A stale top hides itself: asked for the very
        line it shows, it answers that the line is above the window. */
    method LinesFromTop(v: View, l: Line, max: int) returns (d: int)
      requires Viewable(v) && IsLine(v, l)
      ensures var away := IndexOf(v, l) - TopIndex(v);
              d == if 0 <= away <= max && !(Stale(v) && l == Top(v)) then away else -1
    {
      hide LinesBefore, StartsOf, Count;
      var top := TopRead(v);
      IndexOrder(v, l, Top(v));
      IndexOrder(v, Top(v), l);
      if l.row < top.row { return -1; }
      if !v.wrap {
        LinesBeforeGrows(v, top.row, l.row);
        return if l.row - top.row <= max then l.row - top.row else -1;
      }
      if l.row == top.row {
        d := l.sub - top.sub;
        return if d >= 0 && d <= max then d else -1;
      }
      var w := new ScreenWalk(v, top.row, top.sub);
      d := 0;
      while d <= max
        invariant 0 <= d && w.Valid() && w.v == v && fresh(w)
        invariant w.Index() == TopIndex(v) + d && w.Index() <= IndexOf(v, l)
        decreases max - d
      {
        IndexOrder(v, Line(w.row, w.subline), l);
        IndexOrder(v, l, Line(w.row, w.subline));
        if w.row == l.row && w.subline == l.sub { return d; }
        if w.row > l.row { return -1; }
        var moved := w.Next();
        if !moved { return -1; }
        d := d + 1;
      }
      return -1;
    }

    method LinesToEnd(v: View, cap: int) returns (n: int)
      requires Viewable(v)
      ensures n == Min(Total(v) - TopIndex(v), cap + 1)
    {
      hide LinesBefore, StartsOf, Count;
      var top := TopRead(v);
      IndexOrder(v, Top(v), Top(v));
      if !v.wrap {
        LinesBeforeGrows(v, top.row, |v.rows|);
        n := |v.rows| - top.row;
        return if n > cap then cap + 1 else n;
      }
      var w := new ScreenWalk(v, top.row, top.sub);
      n := 1;
      while n <= cap
        invariant 1 <= n && w.Valid() && w.v == v && fresh(w)
        invariant w.Index() == TopIndex(v) + n - 1 < Total(v)
        invariant n == 1 || n <= cap + 1
        decreases cap - n
      {
        var moved := w.Next();
        if !moved { return n; }
        n := n + 1;
      }
      n := cap + 1;
    }

    /** How far a request to scroll may go: down until only two lines would be blank. */
    method ScrollAllowance(v: View, n: int) returns (steps: int)
      requires Viewable(v)
      ensures steps == if n < 0 then n else Max(0, Min(n, Total(v) - TopIndex(v) - (height - 2)))
    {
      if n < 0 { return n; }
      var cap := height - 2;
      steps := LinesToEnd(v, cap + n);
      steps := steps - cap;
      if steps < 0 { steps := 0; }
      if steps > n { steps := n; }
    }

    /** One screen line down. */
    method TopForward(v: View) returns (moved: bool)
      requires Viewable(v)
      modifies `rowoff, `skip
      ensures moved <==> old(TopIndex(v)) + 1 < Total(v)
      ensures TopIndex(v) == old(TopIndex(v)) + (if moved then 1 else 0)
    {
      hide LinesBefore, StartsOf, Count;
      var top := TopRead(v);
      IndexOrder(v, Top(v), Top(v));
      if v.wrap {
        var w := new ScreenWalk(v, top.row, top.sub);
        moved := w.Next();
        if !moved { return; }
        TopSet(v, w.row, w.subline);
        return;
      }
      LinesBeforeGrows(v, top.row, |v.rows|);
      if top.row >= |v.rows| - 1 { return false; }
      LinesBeforeGrows(v, top.row, top.row + 1);
      TopSet(v, top.row + 1, 0);
      moved := true;
    }

    /** One screen line up, counting sub-lines a stale top does not have. */
    method TopBack(v: View) returns (moved: bool)
      requires Viewable(v)
      modifies `rowoff, `skip
      ensures moved <==> old(IndexOf(v, TopRead(v))) > 0
      ensures IndexOf(v, TopRead(v)) == old(IndexOf(v, TopRead(v))) - (if moved then 1 else 0)
      ensures TopRead(v).row <= old(TopRead(v)).row && (TopRead(v).row < old(TopRead(v)).row ==> !Stale(v))
    {
      hide LinesBefore, StartsOf, Count;
      var top := TopRead(v);
      LinesBeforeGrows(v, 0, top.row);
      if top.row <= 0 && top.sub <= 0 { LinesBeforeFirst(v); return false; }
      var to := LinesBack(v, top, 1);
      TopSet(v, to.row, to.sub);
      moved := true;
    }

    /** Move the top one line; false when it is already at that end. */
    method TopAdvance(v: View, dir: int) returns (moved: bool)
      requires Viewable(v)
      modifies `rowoff, `skip
      ensures dir > 0 ==> (moved <==> old(TopIndex(v)) + 1 < Total(v)) &&
                          TopIndex(v) == old(TopIndex(v)) + (if moved then 1 else 0)
      ensures dir <= 0 ==> (moved <==> old(IndexOf(v, TopRead(v))) > 0) &&
                           IndexOf(v, TopRead(v)) == old(IndexOf(v, TopRead(v))) - (if moved then 1 else 0) &&
                           TopRead(v).row <= old(TopRead(v)).row &&
                           (TopRead(v).row < old(TopRead(v)).row ==> !Stale(v))
    {
      hide LinesBefore, StartsOf, Count, Clamped;
      if dir > 0 {
        moved := TopForward(v);
      } else {
        moved := TopBack(v);
      }
    }

    /** Scroll by `n` screen lines.  Down stops by the allowance or at the last line, up at
        the first; a stale top counts the sub-lines it does not have before it moves. */
    method ScrollViewport(v: View, n: int)
      requires Viewable(v)
      modifies `rowoff, `skip
      ensures n == 0 ==> rowoff == old(rowoff) && skip == old(skip)
      ensures n != 0 && 0 <= old(rowoff) < |v.rows| ==>
                TopIndex(v) == ScrolledTop(v, old(TopIndex(v)), old(IndexOf(v, TopRead(v))), height, n)
      ensures n != 0 && !(0 <= old(rowoff) < |v.rows|) ==>
                var edge := LinesBefore(v, if old(rowoff) < 0 then 0 else |v.rows| - 1);
                TopIndex(v) == ScrolledTop(v, edge, edge, height, n)
    {
      hide LinesBefore, StartsOf, Count, Clamped, ScrolledTop;
      if n == 0 { return; }
      TopSet(v, rowoff, skip);
      FirstLineTop(v, TopRead(v));
      ScrollBy(v, n);
    }

    method ScrollBy(v: View, n: int)
      requires Viewable(v) && 0 <= rowoff < |v.rows| && n != 0
      modifies `rowoff, `skip
      ensures TopIndex(v) == ScrolledTop(v, old(TopIndex(v)), old(IndexOf(v, TopRead(v))), height, n)
    {
      hide LinesBefore, StartsOf, Count, Clamped;
      if !v.wrap {
        ScrollRows(v, n);
      } else if n > 0 {
        ScrollDown(v, n);
      } else {
        ScrollUp(v, -n);
      }
    }

    method ScrollRows(v: View, n: int)
      requires Viewable(v) && !v.wrap && 0 <= rowoff < |v.rows|
      modifies `rowoff, `skip
      ensures TopIndex(v) == ScrolledTop(v, old(TopIndex(v)), old(IndexOf(v, TopRead(v))), height, n)
    {
      hide LinesBefore, StartsOf, Count;
      RowsAreLines(v);
      var steps := ScrollAllowance(v, n);
      TopSet(v, rowoff + steps, 0);
    }

    method ScrollDown(v: View, n: int)
      requires Viewable(v) && v.wrap && n > 0
      modifies `rowoff, `skip
      ensures var top := old(TopIndex(v));
              TopIndex(v) == Min(top + Max(0, Min(n, Total(v) - top - (height - 2))), Total(v) - 1)
    {
      hide LinesBefore, StartsOf, Count, Clamped;
      IndexOrder(v, Top(v), Top(v));
      var steps := ScrollAllowance(v, n);
      var moved, l := WalkDown(v, TopRead(v), steps);
      ClampedLine(v, l);
      if moved > 0 { TopSet(v, l.row, l.sub); }
    }

    method ScrollUp(v: View, n: nat)
      requires Viewable(v) && v.wrap
      modifies `rowoff, `skip
      ensures TopIndex(v) == Min(old(TopIndex(v)), Max(0, old(IndexOf(v, TopRead(v))) - n))
    {
      hide LinesBefore, StartsOf, Count, Clamped;
      ghost var t := TopRead(v);
      for i := 0 to n
        invariant IndexOf(v, TopRead(v)) == Max(0, IndexOf(v, t) - i)
        invariant TopRead(v).row <= t.row && (TopRead(v).row < t.row ==> !Stale(v))
      {
        var moved := TopAdvance(v, -1);
        if !moved { break; }
      }
      assert IndexOf(v, TopRead(v)) == Max(0, IndexOf(v, t) - n);
      SettledTop(v, t, TopRead(v));
    }

    /** Make the cursor's screen line and, without wrap, its column visible; leave the
        window alone if they already are. */
    method Scroll(v: View) returns (cursorCol: nat, ghost line: nat)
      requires Viewable(v) && cursor.x >= 0 && cursor.y >= 0 && height >= 1
      modifies this
      ensures height == old(height) && (0 <= old(rowoff) < |v.rows| ==> 0 <= rowoff < |v.rows|)
      ensures 0 <= cursor.y < |v.rows| && 0 <= cursor.x <= |v.rows[cursor.y]|
      ensures var p := old(cursor);
              cursor == if p.y >= |v.rows| then Pos(|v.rows[|v.rows| - 1]|, |v.rows| - 1)
                        else Pos(Min(p.x, |v.rows[p.y]|), p.y)
      ensures cursorCol == DisplayColumn(v.scr.wc, v.rows[cursor.y], cursor.x)
      ensures CursorOn(v, line, cursor.y, cursorCol)
      ensures var i, top := IndexOf(v, Line(cursor.y, line)), old(TopIndex(v));
              TopIndex(v) == if i < top then i else if i >= top + height then i - height + 1 else top
      ensures Stale(v) ==> Top(v) != Line(cursor.y, line)
      ensures if v.wrap then coloff == 0
              else coloff == if cursorCol < old(coloff) then cursorCol
                             else if cursorCol >= old(coloff) + v.scr.cols then cursorCol - v.scr.cols + 1
                             else old(coloff)
    {
      hide LinesBefore, StartsOf, Count, Clamped, DisplayColumn, SublinesOf, CursorOn, TopIndex, Top, Stale;
      CursorIntoBuffer(v);
      cursorCol := WalkToColumn(v.scr.wc, v.rows[cursor.y], cursor.x);
      var sub := ScrollLines(v, cursorCol);
      line := sub;
      ScrollColumns(v, cursorCol);
    }

    method CursorIntoBuffer(v: View)
      requires Viewable(v) && cursor.x >= 0 && cursor.y >= 0
      modifies `cursor
      ensures 0 <= cursor.y < |v.rows| && 0 <= cursor.x <= |v.rows[cursor.y]|
      ensures var p := old(cursor);
              cursor == if p.y >= |v.rows| then Pos(|v.rows[|v.rows| - 1]|, |v.rows| - 1)
                        else Pos(Min(p.x, |v.rows[p.y]|), p.y)
    {
      if cursor.y > |v.rows| - 1 {
        cursor := Pos(|v.rows[|v.rows| - 1]|, |v.rows| - 1);
      } else if cursor.x > |v.rows[cursor.y]| {
        cursor := Pos(|v.rows[cursor.y]|, cursor.y);
      }
    }

    /** The lines half of `Scroll`. */
    method ScrollLines(v: View, cursorCol: nat) returns (line: nat)
      requires Viewable(v) && 0 <= cursor.y < |v.rows| && height >= 1
      modifies `rowoff, `skip
      ensures 0 <= old(rowoff) < |v.rows| ==> 0 <= rowoff < |v.rows|
      ensures CursorOn(v, line, cursor.y, cursorCol)
      ensures var i, top := IndexOf(v, Line(cursor.y, line)), old(TopIndex(v));
              TopIndex(v) == if i < top then i else if i >= top + height then i - height + 1 else top
      ensures Stale(v) ==> Top(v) != Line(cursor.y, line)
    {
      hide LinesBefore, StartsOf, Count, Clamped, SublinesOf;
      line := CursorSubline(v, cursor.y, cursorCol);
      if v.wrap {
        ScrollToLine(v, Line(cursor.y, line));
      } else {
        ScrollToRow(v, cursor.y);
      }
    }

    /** The columns half of `Scroll`. */
    method ScrollColumns(v: View, cursorCol: nat)
      modifies `coloff
      ensures if v.wrap then coloff == 0
              else coloff == if cursorCol < old(coloff) then cursorCol
                             else if cursorCol >= old(coloff) + v.scr.cols then cursorCol - v.scr.cols + 1
                             else old(coloff)
    {
      if v.wrap {
        coloff := 0;
      } else if cursorCol < coloff {
        coloff := cursorCol;
      } else if cursorCol >= coloff + v.scr.cols {
        coloff := cursorCol - v.scr.cols + 1;
      }
    }

    /** Set the top so that line `l` is the bottom one, or as far down as the buffer has
        lines above it. */
    method ShowAtBottom(v: View, l: Line)
      requires Viewable(v) && v.wrap && IsLine(v, l) && height >= 1
      modifies `rowoff, `skip
      ensures 0 <= rowoff < |v.rows| && !Stale(v)
      ensures TopIndex(v) == Max(0, IndexOf(v, l) - (height - 1))
    {
      hide LinesBefore, StartsOf, Count;
      var to := LinesBack(v, l, height - 1);
      TopSet(v, to.row, to.sub);
    }

    /** The wrapping half: a line above the window becomes its first, one below its last. */
    method ScrollToLine(v: View, l: Line)
      requires Viewable(v) && v.wrap && IsLine(v, l) && height >= 1
      modifies `rowoff, `skip
      ensures 0 <= old(rowoff) < |v.rows| ==> 0 <= rowoff < |v.rows|
      ensures var i, top := IndexOf(v, l), old(TopIndex(v));
              TopIndex(v) == if i < top then i else if i >= top + height then i - height + 1 else top
      ensures Stale(v) ==> Top(v) != l
    {
      hide LinesBefore, StartsOf, Count;
      var top := TopRead(v);
      IndexOrder(v, l, Top(v));
      IndexOrder(v, Top(v), l);
      if l.row < top.row || (l.row == top.row && l.sub < top.sub) {
        TopSet(v, l.row, l.sub);
      } else {
        var away := LinesFromTop(v, l, height - 1);
        if away < 0 { ShowAtBottom(v, l); }
      }
    }

    method ScrollToRow(v: View, row: nat)
      requires Viewable(v) && !v.wrap && row < |v.rows| && height >= 1
      modifies `rowoff, `skip
      ensures 0 <= rowoff < |v.rows|
      ensures var i, top := IndexOf(v, Line(row, 0)), old(TopIndex(v));
              TopIndex(v) == if i < top then i else if i >= top + height then i - height + 1 else top
      ensures !Stale(v)
    {
      hide LinesBefore, StartsOf, Count;
      RowsAreLines(v);
      if row < rowoff {
        TopSet(v, row, 0);
      } else if row >= rowoff + height {
        TopSet(v, row - height + 1, 0);
      } else {
        TopSet(v, rowoff, 0);
      }
    }
  }
}
