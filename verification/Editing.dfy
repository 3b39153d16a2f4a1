/** The editing commands themselves, on a buffer: typing with a repeat count, deleting
    characters and ranges, and the clamp that runs after every command. */
module Editing {
  import opened Text
  import opened Utf8
  import opened Lines
  import opened History
  import opened Clamping
  import opened Undoing
  import opened Typing
  import opened RowStore
  import opened EditBuffer

  function Repeated(text: Text, times: nat): Text {
    if times == 0 then [] else Repeated(text, times - 1) + text
  }

  /** Offset of the cursor. */
  ghost function CursorOffset(buf: Buffer): (o: nat)
    requires buf.Valid() && OnGrid(buf.rows.Lines, buf.cursor)
    reads buf, buf.rows, buf.rows.Repr
    ensures o <= |buf.TextOf()|
  {
    GridOffset(buf.rows.Lines, buf.cursor)
  }

  lemma RepeatedOnce(text: Text)
    ensures Repeated(text, 1) == text
  {
    assert Repeated(text, 1) == Repeated(text, 0) + text;
  }

  /** One repetition is the text itself, and `a + b` of them are `a` and then `b`. */
  lemma {:induction false} RepeatedInParts(text: Text, a: nat, b: nat)
    ensures Repeated(text, 1) == text && Repeated(text, a + b) == Repeated(text, a) + Repeated(text, b)
    decreases b
  {
    RepeatedOnce(text);
    if b > 0 { RepeatedInParts(text, a, b - 1); }
  }

  method RepeatText(text: Text, times: nat) returns (d: Text)
    ensures d == Repeated(text, times)
  {
    d := [];
    for i := 0 to times
      invariant d == Repeated(text, i)
    {
      d := d + text;
    }
  }

  /** Insert `text` `times` times at the cursor; a single repetition may join the open run. */
  method InsertRepeat(buf: Buffer, text: Text, times: nat)
    requires buf.Valid() && OnGrid(buf.rows.Lines, buf.cursor)
    requires !buf.readOnly && text != [] && times >= 1
    modifies buf, buf.rows.Repr
    ensures buf.Valid() && fresh(buf.rows.Repr - old(buf.rows.Repr))
    ensures var o, all := old(CursorOffset(buf)), Repeated(text, times);
            buf.Model() == EditAt(old(buf.Model()), o, o, all, false, times == 1)
                           .(cursor := Advance(old(buf.cursor), all))
  {
    hide Join, GridOffset, Rows.Valid, EditAt;
    hide Repeated;
    var end;
    if times == 1 {
      RepeatedOnce(text);
      end := buf.MutateInsertChar(buf.cursor, text);
    } else {
      var d := RepeatText(text, times);
      end := buf.MutateReplace(buf.cursor, buf.cursor, [], d, false);
    }
    buf.cursor := end.at;
  }

  /** Row coordinates of the next and the previous boundary. */
  lemma StepForwardOnGrid(rows: seq<Text>, p: Pos)
    requires NlFree(rows) && OnGrid(rows, p) && GridOffset(rows, p) < |Join(rows)|
    requires ValidUtf8(Join(rows)) && Boundary(Join(rows), GridOffset(rows, p))
    ensures var n, q := NBytes(Join(rows)[GridOffset(rows, p)]),
                        (if p.x == |rows[p.y]| then Pos(0, p.y + 1) else Pos(p.x + NBytes(rows[p.y][p.x]), p.y));
            OnGrid(rows, q) && GridOffset(rows, q) == GridOffset(rows, p) + n
  {
    hide Join, GridOffset, ValidUtf8, CharLen;
    ByteAt(rows, p);
    NextBoundary(Join(rows), GridOffset(rows, p));
    if p.x == |rows[p.y]| {
      NextPlaceIsNextOffset(rows, p);
    } else {
      RowsValidIffTextValid(rows);
      BoundaryInRow(rows, p);
      NextBoundary(rows[p.y], p.x);
      SameRowOffset(rows, p, p.x + NBytes(rows[p.y][p.x]));
    }
  }

  lemma SameRowOffset(rows: seq<Text>, p: Pos, x: nat)
    requires OnGrid(rows, p) && x <= |rows[p.y]|
    ensures GridOffset(rows, Pos(x, p.y)) == GridOffset(rows, p) + x - p.x
  {
  }

  /** The cursor stands on a character of a valid text. */
  ghost predicate CursorOnCharacter(buf: Buffer)
    reads buf, buf.rows, buf.rows.Repr
  {
    buf.Valid() && OnGrid(buf.rows.Lines, buf.cursor) &&
    ValidUtf8(buf.TextOf()) && Boundary(buf.TextOf(), CursorOffset(buf))
  }

  /** Bytes `x` to `e` of row `y`, as text of the buffer. */
  lemma SliceOfRow(rows: seq<Text>, p: Pos, e: nat)
    requires OnGrid(rows, p) && p.x <= e <= |rows[p.y]|
    ensures OnGrid(rows, Pos(e, p.y)) && GridOffset(rows, Pos(e, p.y)) == GridOffset(rows, p) + e - p.x
    ensures Join(rows)[GridOffset(rows, p)..GridOffset(rows, Pos(e, p.y))] == rows[p.y][p.x..e]
  {
    hide Join, GridOffset;
    SameRowOffset(rows, p, e);
    CutAt(rows, p);
    var o, t := GridOffset(rows, p), Join(rows);
    assert t[o..][..e - p.x] == rows[p.y][p.x..e];
    assert t[o..o + e - p.x] == t[o..][..e - p.x];
  }

  lemma NewlineSlice(rows: seq<Text>, p: Pos)
    requires OnGrid(rows, p) && p.x == |rows[p.y]| && p.y + 1 < |rows|
    ensures OnGrid(rows, Pos(0, p.y + 1)) && GridOffset(rows, Pos(0, p.y + 1)) == GridOffset(rows, p) + 1
    ensures Join(rows)[GridOffset(rows, p)..GridOffset(rows, Pos(0, p.y + 1))] == [NL]
  {
    hide Join, GridOffset;
    ByteAt(rows, p);
    NextPlaceIsNextOffset(rows, p);
  }

  /** An edit that starts at a place leaves the place where it was. */
  lemma StartStays(rows: seq<Text>, rows': seq<Text>, p: Pos, doc: Doc, e: nat)
    requires rows' != [] && NlFree(rows) && NlFree(rows') && OnGrid(rows, p)
    requires doc.text == Join(rows) && ValidUtf8(doc.text)
    requires Boundary(doc.text, GridOffset(rows, p))
    requires GridOffset(rows, p) <= e <= |doc.text| && Boundary(doc.text, e)
    requires Join(rows') == EditAt(doc, GridOffset(rows, p), e, [], false, true).text
    ensures OnGrid(rows', p) && GridOffset(rows', p) == GridOffset(rows, p)
    ensures ValidUtf8(Join(rows')) && Boundary(Join(rows'), GridOffset(rows', p))
  {
    hide Join, GridOffset, EditAt, ValidUtf8;
    DeletionKeepsFront(doc, GridOffset(rows, p), e, true);
    PlaceSurvives(rows, rows', p);
  }

  /** Delete the character at the cursor, which may be a newline. */
  method DeleteCharHere(buf: Buffer)
    requires CursorOnCharacter(buf) && CursorOffset(buf) < |buf.TextOf()|
    modifies buf, buf.rows.Repr
    ensures CursorOnCharacter(buf) && fresh(buf.rows.Repr - old(buf.rows.Repr))
    ensures CursorOffset(buf) == old(CursorOffset(buf)) && buf.readOnly == old(buf.readOnly)
    ensures var o := old(CursorOffset(buf));
            var e := o + NBytes(old(buf.TextOf())[o]);
            e <= |old(buf.TextOf())| && Boundary(old(buf.TextOf()), e) &&
            buf.Model() == EditAt(old(buf.Model()), o, e, [], false, true)
  {
    hide Join, GridOffset, Rows.Valid, EditAt, ValidUtf8;
    ghost var was, doc := buf.rows.Lines, buf.Model();
    var p := buf.cursor;
    ByteAt(was, p);
    StepForwardOnGrid(was, p);
    NextBoundary(doc.text, GridOffset(was, p));
    ghost var e := GridOffset(was, p) + NBytes(doc.text[GridOffset(was, p)]);
    if p.x == buf.rows.Size(p.y) {
      NewlineSlice(was, p);
      buf.MutateDeleteChar(p, Pos(0, p.y + 1), [NL]);
    } else {
      var n := NBytes(buf.rows.CharAt(p.y, p.x));
      SliceOfRow(was, p, p.x + n);
      var tail := buf.rows.Suffix(p.y, p.x);
      assert tail[..n] == was[p.y][p.x..p.x + n];
      buf.MutateDeleteChar(p, Pos(p.x + n, p.y), tail[..n]);
    }
    EditKeepsView(doc, GridOffset(was, p), e);
    StartStays(was, buf.rows.Lines, p, doc, e);
  }

  lemma EditKeepsView(doc: Doc, o: nat, e: nat)
    requires o <= e <= |doc.text|
    ensures var d := EditAt(doc, o, e, [], false, true);
            d.cursor == doc.cursor && d.session == doc.session && d.markActive == doc.markActive
  {
  }

  method DelChar(buf: Buffer, count: int)
    requires CursorOnCharacter(buf)
    modifies buf, buf.rows.Repr
    ensures CursorOnCharacter(buf) && fresh(buf.rows.Repr - old(buf.rows.Repr))
    ensures buf.Model() == if old(buf.readOnly) then old(buf.Model())
                           else DeletedForward(old(buf.Model()).(markActive := false), old(CursorOffset(buf)),
                                               Repeat(count))
  {
    hide Join, GridOffset, Rows.Valid, EditAt, ValidUtf8;
    if buf.readOnly { return; }
    buf.markActive := false;
    var times := if count > 0 then count else 1;
    ghost var doc, o := buf.Model(), CursorOffset(buf);
    for i := 0 to times
      invariant CursorOnCharacter(buf) && fresh(buf.rows.Repr - old(buf.rows.Repr))
      invariant !buf.readOnly && CursorOffset(buf) == o
      invariant DeletedForward(buf.Model(), o, times - i) == DeletedForward(doc, o, times)
    {
      ByteAt(buf.rows.Lines, buf.cursor);
      if buf.cursor.y == buf.rows.numrows - 1 && buf.cursor.x == buf.rows.Size(buf.cursor.y) { return; }
      DeleteCharHere(buf);
    }
  }

  /** Walk back over continuation bytes to the start of the character before `x`. */
  method CharBefore(row: Text, x: nat) returns (from: nat)
    requires 0 < x <= |row| && ValidUtf8(row)
    ensures from < x && !IsCont(row[from]) && forall k | from < k < x :: IsCont(row[k])
  {
    hide ValidUtf8;
    ValidStartsCharacter(row);
    from := x - 1;
    while from > 0 && IsCont(row[from])
      invariant from < x && forall k | from < k < x :: IsCont(row[k])
    {
      from := from - 1;
    }
  }

  /** The character before a place, in the text. */
  lemma PrevInRow(rows: seq<Text>, p: Pos, from: nat)
    requires OnGrid(rows, p) && from < p.x
    requires !IsCont(rows[p.y][from]) && forall k | from < k < p.x :: IsCont(rows[p.y][k])
    ensures GridOffset(rows, p) > 0 && PrevBoundary(Join(rows), GridOffset(rows, p)) == GridOffset(rows, Pos(from, p.y))
  {
    hide Join, GridOffset;
    var o, b, t := GridOffset(rows, p), GridOffset(rows, Pos(from, p.y)), Join(rows);
    SliceOfRow(rows, Pos(from, p.y), p.x);
    assert forall k | b <= k < o :: t[k] == t[b..o][k - b];
    PrevBoundaryIs(t, o, b);
  }

  lemma PrevRowEnd(rows: seq<Text>, p: Pos)
    requires OnGrid(rows, p) && p.x == 0 && p.y > 0
    ensures var q := Pos(|rows[p.y - 1]|, p.y - 1);
            GridOffset(rows, p) == GridOffset(rows, q) + 1 &&
            PrevBoundary(Join(rows), GridOffset(rows, p)) == GridOffset(rows, q)
  {
    hide Join, GridOffset;
    var q := Pos(|rows[p.y - 1]|, p.y - 1);
    ByteAt(rows, q);
    NextPlaceIsNextOffset(rows, q);
    PrevBoundaryIs(Join(rows), GridOffset(rows, p), GridOffset(rows, q));
  }

  /** Delete the character before the cursor, which may be a newline, and step back over
      it. */
  method DeleteCharBefore(buf: Buffer)
    requires CursorOnCharacter(buf) && CursorOffset(buf) > 0
    modifies buf, buf.rows.Repr
    ensures CursorOnCharacter(buf) && fresh(buf.rows.Repr - old(buf.rows.Repr))
    ensures CursorOffset(buf) == PrevBoundary(old(buf.TextOf()), old(CursorOffset(buf)))
    ensures buf.readOnly == old(buf.readOnly)
    ensures var o := old(CursorOffset(buf));
            var b := PrevBoundary(old(buf.TextOf()), o);
            buf.Model() == EditAt(old(buf.Model()), b, o, [], false, true).(cursor := PosAt(old(buf.TextOf()), b))
  {
    hide Join, GridOffset, Rows.Valid, EditAt, ValidUtf8;
    ghost var was, doc := buf.rows.Lines, buf.Model();
    var p := buf.cursor;
    ghost var o := GridOffset(was, p);
    PrevBoundaryIsBoundary(doc.text, o);
    var q;
    if p.x > 0 {
      RowsValidIffTextValid(was);
      var row := buf.rows.Suffix(p.y, 0);
      assert row == was[p.y];
      var from := CharBefore(row, p.x);
      PrevInRow(was, p, from);
      q := Pos(from, p.y);
      SliceOfRow(was, q, p.x);
      buf.MutateDeleteChar(q, p, row[from..p.x]);
    } else {
      if p.y == 0 { FirstRowOffset(was, p); }
      PrevRowEnd(was, p);
      q := Pos(buf.rows.Size(p.y - 1), p.y - 1);
      NewlineSlice(was, q);
      buf.MutateDeleteChar(q, p, [NL]);
    }
    buf.cursor := q;
    GridIsPosAt(was, q);
    EditKeepsView(doc, GridOffset(was, q), o);
    StartStays(was, buf.rows.Lines, q, doc, o);
  }

  /** Backspace without a region, `Repeat(count)` times. */
  method BackSpaceChars(buf: Buffer, count: int)
    requires CursorOnCharacter(buf) && !buf.readOnly
    modifies buf, buf.rows.Repr
    ensures CursorOnCharacter(buf) && fresh(buf.rows.Repr - old(buf.rows.Repr))
    ensures buf.Model() == DeletedBackward(old(buf.Model()), old(CursorOffset(buf)), Repeat(count))
  {
    hide Join, GridOffset, Rows.Valid, EditAt, ValidUtf8;
    var times := if count > 0 then count else 1;
    ghost var doc, o := buf.Model(), CursorOffset(buf);
    for i := 0 to times
      invariant CursorOnCharacter(buf) && fresh(buf.rows.Repr - old(buf.rows.Repr))
      invariant !buf.readOnly
      invariant DeletedBackward(buf.Model(), CursorOffset(buf), times - i) == DeletedBackward(doc, o, times)
    {
      if buf.cursor.y == 0 { FirstRowOffset(buf.rows.Lines, buf.cursor); }
      if buf.cursor.y == 0 && buf.cursor.x == 0 { return; }
      PositiveOffset(buf.rows.Lines, buf.cursor);
      DeleteCharBefore(buf);
    }
  }

  lemma PositiveOffset(rows: seq<Text>, p: Pos)
    requires OnGrid(rows, p) && p != ORIGIN
    ensures GridOffset(rows, p) > 0
  {
    if p.y > 0 {
      RowInJoin(rows, p.y);
    }
  }

  /** The end of a range, which may lie below the last row. */
  function RangeEnd(rows: seq<Text>, e: Pos): Pos
    requires rows != []
  {
    if e.y >= |rows| then LastPlace(rows) else e
  }

  /** Delete a range given in either order and leave the cursor at its start. */
  method DeleteRange(buf: Buffer, a: Pos, b: Pos)
    requires buf.Valid() && OnGrid(buf.rows.Lines, if Before(b, a) then b else a)
    requires OnGrid(buf.rows.Lines, RangeEnd(buf.rows.Lines, if Before(b, a) then a else b))
    modifies buf, buf.rows.Repr
    ensures buf.Valid() && fresh(buf.rows.Repr - old(buf.rows.Repr))
    ensures var s, e := (if Before(b, a) then b else a), RangeEnd(old(buf.rows.Lines), if Before(b, a) then a else b);
            var o, f := old(GridOffset(buf.rows.Lines, s)), GridOffset(old(buf.rows.Lines), e);
            o <= f &&
            buf.Model() == if s == e then old(buf.Model())
                           else EditAt(old(buf.Model()), o, f, [], false, false).(cursor := s)
  {
    hide Join, GridOffset, Rows.Valid, EditAt;
    var s, e := a, b;
    if s.y > e.y || (s.y == e.y && s.x > e.x) { s, e := e, s; }
    if e.y >= buf.rows.numrows { e := Pos(buf.rows.Size(buf.rows.numrows - 1), buf.rows.numrows - 1); }
    GridOrder(buf.rows.Lines, s, e);
    if s == e { return; }
    var text := buf.rows.CollectRegionText(s, e);
    var _ := buf.MutateReplace(s, e, text, [], false);
    buf.cursor := s;
  }

  /** The mark is unset, off the rows, or where the cursor is. */
  predicate MarkInvalid(rows: seq<Text>, mark: Pos, cursor: Pos) {
    mark.x < 0 || mark.y < 0 || mark.y >= |rows| || mark.x > |rows[mark.y]| || mark == cursor
  }

  /** Is there a region to act on? */
  method HasRegion(buf: Buffer) returns (yes: bool)
    requires buf.Valid()
    ensures yes <==> buf.markActive && !MarkInvalid(buf.rows.Lines, buf.tracked.mark, buf.cursor)
  {
    hide Join;
    var m := buf.tracked.mark;
    if !buf.markActive || m.x < 0 || m.y < 0 || m.y >= buf.rows.numrows { return false; }
    yes := !(m.x > buf.rows.Size(m.y) || m == buf.cursor);
  }

  /** A byte offset of row `y` snapped forward to a character of it. */
  method SnapInRow(buf: Buffer, x: int, y: nat) returns (q: Pos)
    requires buf.Valid() && y < |buf.rows.Lines|
    ensures q == Pos(Snapped(buf.rows.Lines[y], x), y)
  {
    hide Join, Rows.Valid, Snapped;
    var row := buf.rows.Suffix(y, 0);
    assert row == buf.rows.Lines[y];
    var px := SnapToBoundary(row, x, 1);
    q := Pos(px, y);
  }

  /** Force a place onto the rows, past the end to the very end, and forward to a
      character boundary; a place without a row is left alone. */
  method ClampToBuffer(buf: Buffer, p: Pos) returns (q: Pos)
    requires buf.Valid()
    ensures q == ClampedMark(buf.rows.Lines, p)
  {
    hide Join, Rows.Valid;
    var px, py := p.x, p.y;
    if py >= buf.rows.numrows {
      py := buf.rows.numrows - 1;
      px := buf.rows.Size(py);
    } else if py >= 0 && px > buf.rows.Size(py) {
      px := buf.rows.Size(py);
    }
    q := Pos(px, py);
    if 0 <= py < buf.rows.numrows {
      q := SnapInRow(buf, px, py);
    }
  }

  /** Run after every command: cursor and mark settle on characters of the buffer. */
  method ClampPositions(buf: Buffer)
    requires buf.Valid() && 0 <= buf.cursor.y
    modifies buf
    ensures buf.Valid()
    ensures buf.Model() == Settled(old(buf.Model()))
  {
    hide Join, Rows.Valid, SplitRows;
    SplitOfJoin(buf.rows.Lines);
    var cx, cy := buf.cursor.x, buf.cursor.y;
    if cy > buf.rows.numrows - 1 { cy := buf.rows.numrows - 1; }
    if cx > buf.rows.Size(cy) { cx := buf.rows.Size(cy); }
    var c := SnapInRow(buf, cx, cy);
    buf.cursor := c;
    if buf.tracked.mark.y >= 0 {
      var m := ClampToBuffer(buf, buf.tracked.mark);
      buf.tracked := buf.tracked.(mark := m);
    }
  }
}
