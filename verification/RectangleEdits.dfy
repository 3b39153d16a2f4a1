/** Killing and yanking rectangles in a buffer. */
module RectangleEdits {
  import opened Text
  import opened Utf8
  import opened Lines
  import opened Clamping
  import opened Records
  import opened History
  import opened Undoing
  import opened SingleUndo
  import opened RowStore
  import opened EditBuffer
  import opened Typing
  import Editing
  import opened Rectangles

  // ---- Rows top to bottom of a text ------------------------------------------

  lemma JoinThree(above: seq<Text>, mid: seq<Text>, below: seq<Text>)
    requires mid != []
    ensures Join(above + mid + below) == Ended(above) + Join(mid) + Tail(below)
  {
    hide Ended, Join, Tail;
    var n := |mid| - 1;
    var rows := above + mid + below;
    JoinAround(rows, |above| + n);
    JoinAround(mid, n);
    assert rows[..|above| + n] == above + mid[..n];
    EndedConcat(above, mid[..n]);
    assert rows[|above| + n + 1..] == below;
    assert mid[n + 1..] == [];
    TailOfNone();
  }

  lemma TailOfNone()
    ensures Tail([]) == []
  {
  }

  /** Replacing whole rows replaces a stretch of the text. */
  lemma SpanReplaced(rows: seq<Text>, top: nat, bottom: nat, new': seq<Text>)
    requires top <= bottom < |rows| && new' != []
    ensures var s, e, t := Pos(0, top), Pos(|rows[bottom]|, bottom), Join(rows);
            var o, f := GridOffset(rows, s), GridOffset(rows, e);
            o <= f && t[..o] + Join(new') + t[f..] == Join(rows[..top] + new' + rows[bottom + 1..])
  {
    hide Ended, Join, Tail, GridOffset;
    var s, e := Pos(0, top), Pos(|rows[bottom]|, bottom);
    GridOrder(rows, s, e);
    CutAt(rows, s);
    CutAt(rows, e);
    JoinThree(rows[..top], new', rows[bottom + 1..]);
    assert rows[top][..0] == [] && rows[bottom][|rows[bottom]|..] == [];
  }

  /** Edits of whole rows are never taken for a deletion of the final newline. */
  lemma SpanNotRefused(rows: seq<Text>, top: nat, bottom: nat, new': seq<Text>)
    requires top <= bottom < |rows| && NlFree(rows) && |new'| == bottom + 1 - top
    ensures var o, f := GridOffset(rows, Pos(0, top)), GridOffset(rows, Pos(|rows[bottom]|, bottom));
            o <= f && !DeletesOnlyFinalNewline(Join(rows), o, f, Join(new'))
  {
    hide Ended, Join, Tail, GridOffset;
    var s, e := Pos(0, top), Pos(|rows[bottom]|, bottom);
    GridOrder(rows, s, e);
    FinalNewlineInRows(rows, s, e);
    if |new'| > 1 {
      JoinOfMore(new');
    }
  }

  /** The rows an edit of whole rows leaves: in a file, a last row that is not empty is
      followed by the repair. */
  function Mended(rows: seq<Text>, isFile: bool): (m: seq<Text>)
    ensures rows <= m
  {
    if isFile && rows != [] && rows[|rows| - 1] != [] then rows + [[]] else rows
  }

  lemma MendedText(rows: seq<Text>, isFile: bool)
    requires rows != [] && NlFree(rows)
    ensures var t := Join(rows);
            Join(Mended(rows, isFile)) == WithFinalNewline(t, isFile) &&
            NlFree(Mended(rows, isFile))
  {
    hide Join;
    TerminatedInRows(rows);
    EmptyRowAdded(rows);
  }

  lemma SpanEdited(doc: Doc, rows: seq<Text>, top: nat, bottom: nat, new': seq<Text>, chain: bool, after: seq<Text>)
    requires top <= bottom < |rows| && NlFree(rows) && doc.text == Join(rows) && !doc.session.readOnly
    requires |new'| == bottom + 1 - top && NlFree(new')
    requires after != [] && NlFree(after)
    requires var o, f := GridOffset(rows, Pos(0, top)), GridOffset(rows, Pos(|rows[bottom]|, bottom));
             o <= f && Join(after) == EditAt(doc, o, f, Join(new'), chain, false).text
    ensures after == Mended(rows[..top] + new' + rows[bottom + 1..], doc.session.isFile)
  {
    hide Ended, Join, Tail, GridOffset, EditAt, DeletesOnlyFinalNewline, Mended, Terminated;
    var o, f := GridOffset(rows, Pos(0, top)), GridOffset(rows, Pos(|rows[bottom]|, bottom));
    var all := rows[..top] + new' + rows[bottom + 1..];
    SpanNotRefused(rows, top, bottom, new');
    SpanReplaced(rows, top, bottom, new');
    EditedText(doc, o, f, Join(new'), chain, false);
    MendedText(all, doc.session.isFile);
    JoinInjective(after, Mended(all, doc.session.isFile));
  }

  lemma EmptyRowAdded(rows: seq<Text>)
    requires rows != []
    ensures Join(rows + [[]]) == Join(rows) + [NL]
  {
    ClosedByEmptyRow(rows);
  }

  // ---- The commands ----------------------------------------------------------

  method ReadRows(buf: Buffer, top: nat, bottom: nat) returns (mid: seq<Text>)
    requires buf.Valid() && top <= bottom < |buf.rows.Lines|
    ensures mid == buf.rows.Lines[top..bottom + 1]
  {
    hide Rows.Valid;
    mid := [];
    for y := top to bottom + 1
      invariant mid == buf.rows.Lines[top..y]
    {
      var row := buf.rows.Suffix(y, 0);
      mid := mid + [row];
    }
  }

  /** The edit that replaces whole rows of a text. */
  ghost function SpanEdit(doc: Doc, rows: seq<Text>, top: nat, bottom: nat, new': seq<Text>, chain: bool): Doc
    requires top <= bottom < |rows| && doc.text == Join(rows) && new' != []
  {
    var s, e := Pos(0, top), Pos(|rows[bottom]|, bottom);
    GridOrder(rows, s, e);
    EditAt(doc, GridOffset(rows, s), GridOffset(rows, e), Join(new'), chain, false)
  }

  /** The rows left by a kill, and by a yank at column `x`. */
  function AfterKill(rows: seq<Text>, top: nat, bottom: nat, c: Columns, isFile: bool): (after: seq<Text>)
    requires top <= bottom < |rows|
    ensures |after| >= |rows| && after[top] == Kept(rows[top], c)
  {
    Mended(rows[..top] + KeptRows(rows[top..bottom + 1], c) + rows[bottom + 1..], isFile)
  }

  function AfterYank(rows: seq<Text>, top: nat, x: nat, kill: Rect, isFile: bool): (after: seq<Text>)
    requires kill.cells != [] && top + |kill.cells| <= |rows|
    ensures |after| >= |rows| && after[top] == Yanked(rows[top], x, kill.cells[0])
  {
    var below := top + |kill.cells|;
    Mended(rows[..top] + YankedRows(rows[top..below], x, kill) + rows[below..], isFile)
  }

  /** Replace the whole rows `top` to `bottom`, as one edit. */
  method ReplaceSpan(buf: Buffer, top: nat, bottom: nat, ghost new': seq<Text>, text: Text, chain: bool)
    requires buf.Valid() && top <= bottom < |buf.rows.Lines| && !buf.readOnly
    requires |new'| == bottom + 1 - top && NlFree(new') && text == Join(new')
    modifies buf, buf.rows.Repr
    ensures buf.Valid() && fresh(buf.rows.Repr - old(buf.rows.Repr))
    ensures buf.rows.Lines == Mended(old(buf.rows.Lines)[..top] + new' + old(buf.rows.Lines)[bottom + 1..], buf.isFile)
    ensures buf.Model() == SpanEdit(old(buf.Model()), old(buf.rows.Lines), top, bottom, new', chain)
  {
    hide Join, GridOffset, Rows.Valid, EditAt, Mended;
    ghost var was, doc := buf.rows.Lines, buf.Model();
    var s, e := Pos(0, top), Pos(buf.rows.Size(bottom), bottom);
    GridOrder(was, s, e);
    var old' := buf.rows.CollectRegionText(s, e);
    var _ := buf.MutateReplace(s, e, old', text, chain);
    SpanEdited(doc, was, top, bottom, new', chain, buf.rows.Lines);
  }

  /** Put the cursor at a column of a row, at a character of it. */
  method PlaceCursor(buf: Buffer, x: nat, y: nat)
    requires buf.Valid() && y < |buf.rows.Lines|
    modifies buf`cursor
    ensures buf.cursor == Pos(CursorColumn(buf.rows.Lines[y], x), y)
  {
    hide SnapFwd, Rows.Valid;
    var row := buf.rows.Suffix(y, 0);
    assert row == buf.rows.Lines[y];
    var cx := RectSnapFwd(row, x);
    SnapAtZero(row, Columns(x, x));
    if cx > |row| { cx := |row|; }
    buf.cursor := Pos(cx, y);
  }

  /** Rows and columns of the rectangle with two opposite corners. */
  datatype Area = Area(top: nat, bottom: nat, cols: Columns)

  /** The area between cursor and mark, whichever comes first; the later of the two is
      first forced onto a character. */
  /** From each row of the area exactly the whole characters within its columns are gone
      and in the cells; the rows around it are as they were. */
  ghost predicate AreaCut(rows: seq<Text>, a: Area, after: seq<Text>, kill: Rect) {
    a.top <= a.bottom < |rows| <= |after| && |kill.cells| == a.bottom + 1 - a.top &&
    forall y | 0 <= y < |rows| ::
      if a.top <= y <= a.bottom then CutExactly(rows[y], a.cols, after[y], kill.cells[y - a.top])
      else after[y] == rows[y]
  }

  lemma KilledAreaIsCut(rows: seq<Text>, a: Area, isFile: bool)
    requires a.top <= a.bottom < |rows| && Proper(a.cols)
    ensures AreaCut(rows, a, AfterKill(rows, a.top, a.bottom, a.cols, isFile),
                    CutRect(rows[a.top..a.bottom + 1], a.cols))
  {
    hide Kept, Cell, CutExactly, KeptRows, Mended, CutRect, AreaCut;
    var mid := rows[a.top..a.bottom + 1];
    var kept, kill := KeptRows(mid, a.cols), CutRect(mid, a.cols);
    forall i: nat | i < |mid| ensures CutExactly(mid[i], a.cols, kept[i], kill.cells[i]) {
      CutIsExact(mid[i], a.cols);
      KeptRowAt(mid, a.cols, i);
    }
    AreaIsCut(rows, a, kept, kill, AfterKill(rows, a.top, a.bottom, a.cols, isFile));
  }

  lemma AreaIsCut(rows: seq<Text>, a: Area, kept: seq<Text>, kill: Rect, after: seq<Text>)
    requires a.top <= a.bottom < |rows| && |kept| == |kill.cells| == a.bottom + 1 - a.top
    requires rows[..a.top] + kept + rows[a.bottom + 1..] <= after
    requires var mid := rows[a.top..a.bottom + 1];
             forall i: nat | i < |mid| :: CutExactly(mid[i], a.cols, kept[i], kill.cells[i])
    ensures AreaCut(rows, a, after, kill)
  {
    hide CutExactly;
    forall y | 0 <= y < |rows|
      ensures if a.top <= y <= a.bottom then CutExactly(rows[y], a.cols, after[y], kill.cells[y - a.top])
              else after[y] == rows[y]
    {
      var left := rows[..a.top] + kept + rows[a.bottom + 1..];
      AtOfThree(rows, a.top, a.bottom, kept, y);
      assert after[y] == left[y];
      if a.top <= y <= a.bottom { SliceAt(rows, a.top, a.bottom + 1, y); }
    }
  }

  lemma SliceAt(rows: seq<Text>, from: nat, to: nat, y: nat)
    requires from <= y < to <= |rows|
    ensures rows[from..to][y - from] == rows[y]
  {
  }

  lemma KeptRowAt(rows: seq<Text>, c: Columns, i: nat)
    requires i < |rows| && Proper(c)
    ensures KeptRows(rows, c)[i] == Kept(rows[i], c) && CutRect(rows, c).cells[i] == Cell(rows[i], c)
  {
    hide Kept, Cell;
  }

  lemma AtOfThree(rows: seq<Text>, top: nat, bottom: nat, new': seq<Text>, y: nat)
    requires top <= bottom < |rows| && |new'| == bottom + 1 - top && y < |rows|
    ensures (rows[..top] + new' + rows[bottom + 1..])[y] == if top <= y <= bottom then new'[y - top] else rows[y]
  {
  }

  /** Each slice is in its row, and the rows around are as they were. */
  ghost predicate AreaYanked(rows: seq<Text>, top: nat, x: nat, kill: Rect, after: seq<Text>) {
    top + |kill.cells| <= |rows| <= |after| &&
    forall y | 0 <= y < |rows| ::
      if top <= y < top + |kill.cells| then YankedExactly(rows[y], x, kill.cells[y - top], after[y])
      else after[y] == rows[y]
  }

  lemma YankedAreaIsExact(rows: seq<Text>, top: nat, x: nat, kill: Rect, isFile: bool)
    requires kill.cells != [] && top + |kill.cells| <= |rows|
    ensures AreaYanked(rows, top, x, kill, AfterYank(rows, top, x, kill, isFile))
  {
    hide Yanked, YankedExactly;
    var below := top + |kill.cells|;
    var mid := rows[top..below];
    var all := rows[..top] + YankedRows(mid, x, kill) + rows[below..];
    forall y | top <= y < below ensures YankedExactly(rows[y], x, kill.cells[y - top], all[y]) {
      YankIsExact(rows[y], x, kill.cells[y - top]);
      assert mid[y - top] == rows[y];
    }
  }

  /** A document whose rows `rows`, but for the columns of an area, became `after`. */
  ghost function AreaKilled(doc: Doc, rows: seq<Text>, a: Area, after: seq<Text>): Doc
    requires a.top <= a.bottom < |rows| && doc.text == Join(rows) && a.top < |after|
  {
    SpanEdit(doc, rows, a.top, a.bottom, KeptRows(rows[a.top..a.bottom + 1], a.cols), false)
    .(cursor := Pos(CursorColumn(after[a.top], a.cols.left), a.top), markActive := false)
  }

  /** Take an area out of the buffer and leave the cursor at its corner. */
  method KillArea(buf: Buffer, a: Area) returns (kill: Rect)
    requires buf.Valid() && a.top <= a.bottom < |buf.rows.Lines| && Proper(a.cols) && !buf.readOnly
    modifies buf, buf.rows.Repr
    ensures buf.Valid() && fresh(buf.rows.Repr - old(buf.rows.Repr))
    ensures kill == CutRect(old(buf.rows.Lines)[a.top..a.bottom + 1], a.cols) && WellMade(kill)
    ensures buf.rows.Lines == AfterKill(old(buf.rows.Lines), a.top, a.bottom, a.cols, buf.isFile)
    ensures buf.Model() == AreaKilled(old(buf.Model()), old(buf.rows.Lines), a, buf.rows.Lines)
    ensures AreaCut(old(buf.rows.Lines), a, buf.rows.Lines, kill)
    ensures buf.cursor.y == a.top && NextEdge(buf.rows.Lines[a.top], a.cols.left, buf.cursor.x)
  {
    hide Join, SpanEdit, Rows.Valid, Mended, Kept, Cell, CursorColumn, AreaCut, NextEdge;
    KilledAreaIsCut(buf.rows.Lines, a, buf.isFile);
    var mid := ReadRows(buf, a.top, a.bottom);
    kill := ExtractRectColumns(mid, a.cols);
    var text := KillText(mid, a.cols);
    RowsStayNlFree(mid, a.cols, 0, kill);
    ReplaceSpan(buf, a.top, a.bottom, KeptRows(mid, a.cols), text, false);
    PlaceCursor(buf, a.cols.left, a.top);
    CursorOnNextEdge(buf.rows.Lines[a.top], a.cols.left);
    buf.markActive := false;
  }

  function AreaOf(rows: seq<Text>, p: Pos, m: Pos): (a: Area)
    requires OnGrid(rows, p) && OnGrid(rows, m)
    ensures a.top <= a.bottom < |rows| && Proper(a.cols)
    ensures {a.top, a.bottom} == {p.y, m.y}
    ensures {a.cols.left, a.cols.right} ==
            if Before(m, p) then {m.x, ClampedMark(rows, p).x} else {p.x, ClampedMark(rows, m).x}
  {
    var near, far := (if Before(m, p) then m else p), ClampedMark(rows, if Before(m, p) then p else m);
    Area(near.y, far.y, if near.x > far.x then Columns(far.x, near.x) else Columns(near.x, far.x))
  }

  /** The mark is put at the far corner, on a character. */
  function Marked(doc: Doc, rows: seq<Text>, a: Area): Doc
    requires a.bottom < |rows|
  {
    doc.(tracked := doc.tracked.(mark := Pos(SnapBack(rows[a.bottom], a.cols.right), a.bottom)))
  }

  /** The area between two places, the later one clamped. */
  method NormaliseRegion(buf: Buffer, cursor: Pos, mark: Pos) returns (a: Area)
    requires buf.Valid() && OnGrid(buf.rows.Lines, cursor) && OnGrid(buf.rows.Lines, mark)
    ensures a == AreaOf(buf.rows.Lines, cursor, mark)
  {
    hide Join, Rows.Valid, Snapped;
    var p, m := cursor, mark;
    if p.y > m.y || (p.y == m.y && p.x > m.x) { p, m := m, p; }
    m := Editing.ClampToBuffer(buf, m);
    a := Area(p.y, m.y, if p.x > m.x then Columns(m.x, p.x) else Columns(p.x, m.x));
  }

  method MarkCorner(buf: Buffer, a: Area)
    requires buf.Valid() && a.bottom < |buf.rows.Lines|
    modifies buf`tracked
    ensures buf.Valid() && buf.Model() == Marked(old(buf.Model()), buf.rows.Lines, a)
  {
    hide Join, Rows.Valid, SnapBack;
    var row := buf.rows.Suffix(a.bottom, 0);
    assert row == buf.rows.Lines[a.bottom];
    var mx := RectSnapBack(row, a.cols.right);
    SnapAtZero(row, a.cols);
    buf.tracked := buf.tracked.(mark := Pos(mx, a.bottom));
  }

  /** The area between cursor and mark, if there is a mark, which goes to its corner. */
  method NormaliseCorners(buf: Buffer) returns (valid: bool, a: Area)
    requires buf.Valid() && OnGrid(buf.rows.Lines, buf.cursor)
    modifies buf`tracked
    ensures valid <==> !Editing.MarkInvalid(buf.rows.Lines, old(buf.tracked).mark, buf.cursor)
    ensures buf.Valid() && (!valid ==> buf.Model() == old(buf.Model()))
    ensures valid ==>
              OnGrid(buf.rows.Lines, old(buf.tracked).mark) &&
              a == AreaOf(buf.rows.Lines, buf.cursor, old(buf.tracked).mark) &&
              buf.Model() == Marked(old(buf.Model()), buf.rows.Lines, a)
  {
    hide Join, Rows.Valid, AreaOf, Marked;
    var p, m := buf.cursor, buf.tracked.mark;
    valid, a := false, Area(0, 0, Columns(0, 0));
    if m.x < 0 || m.y < 0 || m.y >= buf.rows.numrows { return; }
    if m.x > buf.rows.Size(m.y) || m == p { return; }
    a := NormaliseRegion(buf, p, m);
    MarkCorner(buf, a);
    valid := true;
  }

  /** Kill the rectangle between cursor and mark. */
  method KillRectangle(buf: Buffer) returns (done: bool, kill: Rect)
    requires buf.Valid() && OnGrid(buf.rows.Lines, buf.cursor)
    modifies buf, buf.rows.Repr
    ensures buf.Valid() && fresh(buf.rows.Repr - old(buf.rows.Repr))
    ensures done <==> !old(buf.readOnly) &&
                      !Editing.MarkInvalid(old(buf.rows.Lines), old(buf.tracked).mark, old(buf.cursor))
    ensures !done ==> buf.Model() == old(buf.Model())
    ensures done ==>
              var rows := old(buf.rows.Lines);
              var a := AreaOf(rows, old(buf.cursor), old(buf.tracked).mark);
              kill == CutRect(rows[a.top..a.bottom + 1], a.cols) && WellMade(kill) &&
              AreaCut(rows, a, buf.rows.Lines, kill) &&
              buf.cursor.y == a.top && NextEdge(buf.rows.Lines[a.top], a.cols.left, buf.cursor.x) &&
              buf.rows.Lines == AfterKill(rows, a.top, a.bottom, a.cols, buf.isFile) &&
              buf.Model() == AreaKilled(Marked(old(buf.Model()), rows, a), rows, a, buf.rows.Lines)
  {
    hide Join, SpanEdit, Rows.Valid, AfterKill, KeptRows, CursorColumn, WellMade, CutRect, AreaOf, Marked,
         AreaKilled, AreaCut, NextEdge, Editing.MarkInvalid;
    done, kill := false, Rect(0, []);
    if buf.readOnly { return; }
    var valid, a := NormaliseCorners(buf);
    if !valid { return; }
    kill := KillArea(buf, a);
    done := true;
  }

  lemma AreaKilledEndsSelection(doc: Doc, rows: seq<Text>, a: Area, after: seq<Text>)
    requires a.top <= a.bottom < |rows| && doc.text == Join(rows) && a.top < |after|
    ensures !AreaKilled(doc, rows, a, after).markActive
  {
  }

  /** The region goes, and with it rectangle mode. */
  method DeleteRegion(buf: Buffer, rectangleMode: bool) returns (mode: bool)
    requires buf.Valid() && OnGrid(buf.rows.Lines, buf.cursor) && !buf.readOnly
    requires !Editing.MarkInvalid(buf.rows.Lines, buf.tracked.mark, buf.cursor)
    modifies buf, buf.rows.Repr
    ensures buf.Valid() && fresh(buf.rows.Repr - old(buf.rows.Repr)) && !mode
    ensures var rows, p, m := old(buf.rows.Lines), old(buf.cursor), old(buf.tracked).mark;
            if rectangleMode then
              var a := AreaOf(rows, p, m);
              buf.rows.Lines == AfterKill(rows, a.top, a.bottom, a.cols, buf.isFile) &&
              buf.Model() == AreaKilled(Marked(old(buf.Model()), rows, a), rows, a, buf.rows.Lines)
            else
              var s, e := (if Before(m, p) then m else p), (if Before(m, p) then p else m);
              GridOffset(rows, s) <= GridOffset(rows, e) &&
              buf.Model() == EditAt(old(buf.Model()), GridOffset(rows, s), GridOffset(rows, e), [], false, false)
                             .(cursor := s, markActive := false)
  {
    hide Join, GridOffset, Rows.Valid, EditAt, AreaOf, AfterKill, AreaKilled, CutRect, WellMade;
    mode := false;
    if rectangleMode {
      ghost var a := AreaOf(buf.rows.Lines, buf.cursor, buf.tracked.mark);
      ghost var rows, doc := buf.rows.Lines, buf.Model();
      var _, _ := KillRectangle(buf);
      AreaKilledEndsSelection(Marked(doc, rows, a), rows, a, buf.rows.Lines);
    } else {
      Editing.DeleteRange(buf, buf.cursor, buf.tracked.mark);
    }
    buf.markActive := false;
  }

  /** Backspace: an active region goes as a whole, as a rectangle if that is what is marked,
      and ends rectangle mode; otherwise characters go one by one. */
  method BackSpace(buf: Buffer, count: int, rectangleMode: bool) returns (mode: bool)
    requires Editing.CursorOnCharacter(buf)
    modifies buf, buf.rows.Repr
    ensures buf.Valid() && fresh(buf.rows.Repr - old(buf.rows.Repr))
    ensures var region := old(buf.markActive) &&
                          !Editing.MarkInvalid(old(buf.rows.Lines), old(buf.tracked).mark, old(buf.cursor));
            var rows, p, m := old(buf.rows.Lines), old(buf.cursor), old(buf.tracked).mark;
            mode == (rectangleMode && (old(buf.readOnly) || !region)) &&
            (old(buf.readOnly) ==> buf.Model() == old(buf.Model())) &&
            (!old(buf.readOnly) && region && rectangleMode ==>
               var a := AreaOf(rows, p, m);
               buf.rows.Lines == AfterKill(rows, a.top, a.bottom, a.cols, buf.isFile) &&
               buf.Model() == AreaKilled(Marked(old(buf.Model()), rows, a), rows, a, buf.rows.Lines)) &&
            (!old(buf.readOnly) && region && !rectangleMode ==>
               var s, e := (if Before(m, p) then m else p), (if Before(m, p) then p else m);
               GridOffset(rows, s) <= GridOffset(rows, e) &&
               buf.Model() == EditAt(old(buf.Model()), GridOffset(rows, s), GridOffset(rows, e), [], false, false)
                              .(cursor := s, markActive := false)) &&
            (!old(buf.readOnly) && !region ==>
               Editing.CursorOnCharacter(buf) &&
               buf.Model() == DeletedBackward(old(buf.Model()).(markActive := false), old(Editing.CursorOffset(buf)),
                                              Repeat(count)))
  {
    hide Join, GridOffset, Rows.Valid, EditAt, ValidUtf8, DeletedBackward, AreaOf, AfterKill, AreaKilled;
    mode := rectangleMode;
    if buf.readOnly { return; }
    var region := Editing.HasRegion(buf);
    if region {
      mode := DeleteRegion(buf, rectangleMode);
      return;
    }
    buf.markActive := false;
    Editing.BackSpaceChars(buf, count);
  }

  /** Rows added to make room, then the rectangle put in at the cursor. */
  function Room(rows: seq<Text>, bottom: nat): (more: nat) {
    if bottom >= |rows| then bottom + 1 - |rows| else 0
  }

  function Widened(rows: seq<Text>, more: nat): (ext: seq<Text>)
    ensures |ext| == |rows| + more
  {
    rows + seq(more, _ => [])
  }

  lemma {:induction false} WidenedText(rows: seq<Text>, more: nat)
    requires rows != []
    ensures Join(Widened(rows, more)) == Join(rows) + Newlines(more)
    ensures NlFree(rows) ==> NlFree(Widened(rows, more))
  {
    hide Join;
    if more == 0 {
      assert Widened(rows, 0) == rows;
    } else {
      WidenedText(rows, more - 1);
      assert Widened(rows, more) == Widened(rows, more - 1) + [[]];
      EmptyRowAdded(Widened(rows, more - 1));
      assert Newlines(more) == Newlines(more - 1) + [NL];
    }
  }

  lemma ExtendedText(doc: Doc, n: nat)
    requires !doc.session.readOnly
    ensures Extended(doc, n).text == doc.text + Newlines(n) && Extended(doc, n).session == doc.session
  {
    assert Insert(doc.text, |doc.text|, Newlines(n)) == doc.text + Newlines(n);
  }

  /** Make room below and report whether that took new rows. */
  method MakeRoom(buf: Buffer, bottom: nat) returns (extended: bool)
    requires buf.Valid() && !buf.readOnly
    modifies buf, buf.rows.Repr
    ensures buf.Valid() && fresh(buf.rows.Repr - old(buf.rows.Repr)) && !buf.readOnly
    ensures var n := Room(old(buf.rows.Lines), bottom);
            extended == (n > 0) && buf.rows.Lines == Widened(old(buf.rows.Lines), n) &&
            buf.Model() == Extended(old(buf.Model()), n)
  {
    hide Join, Rows.Valid, Extended;
    ghost var was, doc := buf.rows.Lines, buf.Model();
    ghost var n := Room(was, bottom);
    ExtendedText(doc, n);
    WidenedText(was, n);
    if bottom >= buf.rows.numrows {
      buf.MutateExtendRows(buf.rows.numrows, bottom - buf.rows.numrows + 1);
      JoinInjective(buf.rows.Lines, Widened(was, n));
      extended := true;
    } else {
      ExtendedByNone(doc);
      assert Widened(was, 0) == was;
      extended := false;
    }
  }

  lemma ExtendedByNone(doc: Doc)
    ensures Extended(doc, 0) == doc
  {
  }

  /** Put a rectangle in with its corner at the cursor; rows missing below are added first,
      as part of the same undo step. */
  method YankRectangle(buf: Buffer, kill: Rect) returns (done: bool)
    requires buf.Valid() && OnGrid(buf.rows.Lines, buf.cursor) && WellMade(kill)
    modifies buf, buf.rows.Repr
    ensures buf.Valid() && fresh(buf.rows.Repr - old(buf.rows.Repr))
    ensures done <==> !old(buf.readOnly) && kill.width > 0 && kill.cells != []
    ensures !done ==> buf.Model() == old(buf.Model())
    ensures done ==>
              var rows, p := old(buf.rows.Lines), old(buf.cursor);
              var more := Room(rows, p.y + |kill.cells| - 1);
              var ext := Widened(rows, more);
              buf.rows.Lines == AfterYank(ext, p.y, p.x, kill, buf.isFile) &&
              AreaYanked(ext, p.y, p.x, kill, buf.rows.Lines) &&
              NextEdge(buf.rows.Lines[p.y], p.x, buf.cursor.x) &&
              buf.cursor == Pos(CursorColumn(buf.rows.Lines[p.y], p.x), p.y) &&
              Join(ext) == Extended(old(buf.Model()), more).text &&
              buf.Model() == YankEdit(Extended(old(buf.Model()), more), ext, p.y, p.x, kill, more > 0)
                             .(cursor := buf.cursor, markActive := false)
  {
    hide Join, Rows.Valid, YankEdit, Extended, CursorColumn, Widened, AfterYank, AreaYanked,
         NextEdge, WellMade;
    if buf.readOnly { return false; }
    if kill.width <= 0 || |kill.cells| <= 0 { return false; }
    var x, top := buf.cursor.x, buf.cursor.y;
    var chain := MakeRoom(buf, top + |kill.cells| - 1);
    YankedAreaIsExact(buf.rows.Lines, top, x, kill, buf.isFile);
    PutRectangle(buf, x, top, kill, chain);
    CursorOnNextEdge(buf.rows.Lines[top], x);
    done := true;
  }

  ghost function YankEdit(doc: Doc, rows: seq<Text>, top: nat, x: nat, kill: Rect, chain: bool): Doc
    requires kill.cells != [] && top + |kill.cells| <= |rows| && doc.text == Join(rows)
  {
    SpanEdit(doc, rows, top, top + |kill.cells| - 1, YankedRows(rows[top..top + |kill.cells|], x, kill), chain)
  }

  /** Put a rectangle in at rows that are all there. */
  method PutRectangle(buf: Buffer, x: nat, top: nat, kill: Rect, chain: bool)
    requires buf.Valid() && !buf.readOnly
    requires kill.cells != [] && top + |kill.cells| <= |buf.rows.Lines| && WellMade(kill)
    modifies buf, buf.rows.Repr
    ensures buf.Valid() && fresh(buf.rows.Repr - old(buf.rows.Repr))
    ensures buf.rows.Lines == AfterYank(old(buf.rows.Lines), top, x, kill, buf.isFile)
    ensures buf.cursor == Pos(CursorColumn(buf.rows.Lines[top], x), top)
    ensures buf.Model() == YankEdit(old(buf.Model()), old(buf.rows.Lines), top, x, kill, chain)
                           .(cursor := buf.cursor, markActive := false)
  {
    hide Join, Rows.Valid, SpanEdit, Yanked, CursorColumn, Mended;
    var bottom := top + |kill.cells| - 1;
    var mid := ReadRows(buf, top, bottom);
    var text := YankText(mid, x, kill);
    YankedStaysNlFree(mid, x, kill);
    ReplaceSpan(buf, top, bottom, YankedRows(mid, x, kill), text, chain);
    PlaceCursor(buf, x, top);
    buf.markActive := false;
  }

  // ---- Undoing each other ------------------------------------------------------

  /** A rectangle killed and yanked where the cursor was left restores the buffer exactly
      when both columns are character boundaries of each of its rows and each reaches the
      right one. */
  lemma KillThenYank(rows: seq<Text>, top: nat, bottom: nat, c: Columns, isFile: bool)
    requires top <= bottom < |rows| && c.left < c.right && (isFile ==> rows[|rows| - 1] == [])
    ensures var mid := rows[top..bottom + 1];
            var left := AfterKill(rows, top, bottom, c, isFile);
            |left| == |rows| &&
            (AfterYank(left, top, CursorColumn(left[top], c.left), CutRect(mid, c), isFile) == rows
             <==> AllClean(rows[top..bottom + 1], c))
  {
    hide SnapFwd, SnapBack, CursorColumn, Kept, Cell, Yanked, Clean, Mended, KeptRows, YankedRows, CutRect;
    var mid := rows[top..bottom + 1];
    var kept, x, kill := KeptRows(mid, c), CursorColumn(KeptRows(mid, c)[0], c.left), CutRect(mid, c);
    var left := rows[..top] + kept + rows[bottom + 1..];
    MiddleReplaced(rows, top, bottom, kept);
    KeptLastRow(rows, top, bottom, c, isFile);
    assert AfterKill(rows, top, bottom, c, isFile) == left;
    var back := YankedRows(kept, x, kill);
    var all := rows[..top] + back + rows[bottom + 1..];
    KillThenYankRestores(mid, c);
    SpanIsMiddle(rows, top, bottom, back);
    MendsOrNot(all, rows, isFile);
  }

  lemma MiddleReplaced(rows: seq<Text>, top: nat, bottom: nat, new': seq<Text>)
    requires top <= bottom < |rows| && |new'| == bottom + 1 - top
    ensures var left := rows[..top] + new' + rows[bottom + 1..];
            |left| == |rows| && left[top] == new'[0] && left[top..bottom + 1] == new' &&
            left[..top] == rows[..top] && left[bottom + 1..] == rows[bottom + 1..]
  {
  }

  /** An empty last row is still one after a kill, so nothing has to be mended. */
  lemma KeptLastRow(rows: seq<Text>, top: nat, bottom: nat, c: Columns, isFile: bool)
    requires top <= bottom < |rows| && (isFile ==> rows[|rows| - 1] == [])
    ensures var left := rows[..top] + KeptRows(rows[top..bottom + 1], c) + rows[bottom + 1..];
            Mended(left, isFile) == left
  {
    hide Kept, KeptRows;
    var kept := KeptRows(rows[top..bottom + 1], c);
    LastOfThree(rows[..top], kept, rows[bottom + 1..]);
    LastOfThree(rows[..top], rows[top..bottom + 1], rows[bottom + 1..]);
    assert rows == rows[..top] + rows[top..bottom + 1] + rows[bottom + 1..];
    LastKept(rows[top..bottom + 1], c);
    NothingKept(c);
  }

  lemma LastKept(rows: seq<Text>, c: Columns)
    requires rows != []
    ensures KeptRows(rows, c)[|rows| - 1] == Kept(rows[|rows| - 1], c)
  {
    hide Kept;
  }

  lemma LastOfThree(a: seq<Text>, b: seq<Text>, c: seq<Text>)
    requires b != []
    ensures var all := a + b + c; all[|all| - 1] == if c == [] then b[|b| - 1] else c[|c| - 1]
  {
  }

  /** Rows of one length are no different for being mended. */
  lemma MendsOrNot(all: seq<Text>, rows: seq<Text>, isFile: bool)
    requires |all| == |rows| && (isFile && rows != [] ==> rows[|rows| - 1] == [])
    ensures Mended(all, isFile) == rows <==> all == rows
  {
  }

  lemma NothingKept(c: Columns)
    ensures Kept([], c) == []
  {
  }

  lemma SpanIsMiddle(rows: seq<Text>, top: nat, bottom: nat, back: seq<Text>)
    requires top <= bottom < |rows| && |back| == bottom + 1 - top
    ensures rows[..top] + back + rows[bottom + 1..] == rows <==> back == rows[top..bottom + 1]
  {
    var all := rows[..top] + back + rows[bottom + 1..];
    assert all[top..bottom + 1] == back;
    assert rows == rows[..top] + rows[top..bottom + 1] + rows[bottom + 1..];
  }

  /** A kill keeps a text valid, and so does a yank of a valid rectangle; what is killed is
      valid. */
  lemma RectanglesKeepValid(rows: seq<Text>, c: Columns, x: nat, kill: Rect)
    requires Proper(c) && forall y | 0 <= y < |rows| :: ValidUtf8(rows[y])
    ensures forall y | 0 <= y < |rows| :: ValidUtf8(KeptRows(rows, c)[y]) && ValidUtf8(CutRect(rows, c).cells[y])
    ensures |kill.cells| == |rows| && (forall y | 0 <= y < |rows| :: ValidUtf8(kill.cells[y])) ==>
              forall y | 0 <= y < |rows| :: ValidUtf8(YankedRows(rows, x, kill)[y])
  {
    hide ValidUtf8, Kept, Cell, Yanked;
    forall y | 0 <= y < |rows|
      ensures ValidUtf8(KeptRows(rows, c)[y]) && ValidUtf8(CutRect(rows, c).cells[y])
    {
      RowReassembles(rows[y], c);
    }
    if |kill.cells| == |rows| && forall y | 0 <= y < |rows| :: ValidUtf8(kill.cells[y]) {
      forall y | 0 <= y < |rows| ensures ValidUtf8(YankedRows(rows, x, kill)[y]) {
        YankKeepsValid(rows[y], x, kill.cells[y]);
      }
    }
  }

  /** One undo takes back a whole yank, rows added and final newline restored included. */
  lemma UndoTakesBackAYank(doc: Doc, rows: seq<Text>, more: nat, top: nat, x: nat, kill: Rect, after: Doc)
    requires Inv(doc) && !doc.session.readOnly && rows != [] && NlFree(rows) && Join(rows) == Extended(doc, more).text
    requires kill.cells != [] && kill.width > 0 && WellMade(kill) && top + |kill.cells| <= |rows|
    requires SameButView(YankEdit(Extended(doc, more), rows, top, x, kill, more > 0), after)
    ensures Inv(after) && Undo(after, 1).text == doc.text && Undo(after, 1).undo == Closed(doc.undo)
  {
    hide Inv, Undo, EditAt, GridOffset, Join, Extended;
    var bottom := top + |kill.cells| - 1;
    var new' := YankedRows(rows[top..bottom + 1], x, kill);
    var s, e := Pos(0, top), Pos(|rows[bottom]|, bottom);
    GridOrder(rows, s, e);
    SpanNotRefused(rows, top, bottom, new');
    YankIsSomething(new', x, kill, rows[top..bottom + 1]);
    ExtendedText(doc, more);
    if more == 0 {
      ExtendedByNone(doc);
      UndoTakesBackAnEdit(doc, GridOffset(rows, s), GridOffset(rows, e), Join(new'), after);
    } else {
      UndoTakesBackAnExtendedEdit(doc, more, GridOffset(rows, s), GridOffset(rows, e), Join(new'), after);
    }
  }

  lemma YankIsSomething(new': seq<Text>, x: nat, kill: Rect, mid: seq<Text>)
    requires kill.cells != [] && kill.width > 0 && WellMade(kill)
    requires |mid| == |kill.cells| && new' == YankedRows(mid, x, kill)
    ensures Join(new') != []
  {
    hide Join, SnapFwd;
    RowInJoin(new', 0);
    assert new'[0] == Yanked(mid[0], x, kill.cells[0]);
    assert |new'[0]| >= kill.width;
  }
}
