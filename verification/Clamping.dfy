/** The clamp that runs after every command: cursor and mark are forced onto the rows and
    forward to the start of a character. */
module Clamping {
  import opened Text
  import opened Utf8
  import opened Lines
  import opened Points
  import opened History

  // ---- The rows of a text ----

  function SplitRows(t: Text): (rows: seq<Text>)
    ensures rows != []
  {
    if t == [] then [[]]
    else
      var above, b := SplitRows(t[..|t| - 1]), t[|t| - 1];
      if b == NL then above + [[]] else above[|above| - 1 := above[|above| - 1] + [b]]
  }

  lemma {:induction false} JoinOfSplit(t: Text)
    ensures NlFree(SplitRows(t)) && Join(SplitRows(t)) == t
  {
    if t == [] {
      JoinOfOne([]);
    } else {
      var front, b := t[..|t| - 1], t[|t| - 1];
      var above := SplitRows(front);
      JoinOfSplit(front);
      assert t == front + [b];
      hide SplitRows, Join, Ended, NlFree;
      if b == NL {
        ClosedByEmptyRow(above);
        OneRowMore(above);
      } else {
        OneByteMore(above, b);
      }
    }
  }

  lemma OneRowMore(rows: seq<Text>)
    requires NlFree(rows)
    ensures NlFree(rows + [[]])
  {
  }

  lemma OneByteMore(rows: seq<Text>, b: byte)
    requires rows != [] && NlFree(rows) && b != NL
    ensures var n := |rows| - 1;
            var rows' := rows[n := rows[n] + [b]];
            NlFree(rows') && Join(rows') == Join(rows) + [b]
  {
    var n := |rows| - 1;
    assert rows[n := rows[n] + [b]][..n] == rows[..n];
  }

  lemma SplitOfJoin(rows: seq<Text>)
    requires rows != [] && NlFree(rows)
    ensures SplitRows(Join(rows)) == rows
  {
    JoinOfSplit(Join(rows));
    JoinInjective(SplitRows(Join(rows)), rows);
  }

  // ---- The clamp ----

  function ClampedCursor(rows: seq<Text>, p: Pos): (q: Pos)
    requires rows != []
    ensures OnGrid(rows, q)
  {
    var y := if p.y < 0 then 0 else if p.y > |rows| - 1 then |rows| - 1 else p.y;
    Pos(Snapped(rows[y], p.x), y)
  }

  /** The mark is left alone when there is none, and goes to the end of the text from a
      row past it. */
  function ClampedMark(rows: seq<Text>, p: Pos): (q: Pos)
    requires rows != []
    ensures p.y >= 0 ==> OnGrid(rows, q)
  {
    if p.y < 0 then p
    else if p.y >= |rows| then LastPlace(rows)
    else Pos(Snapped(rows[p.y], p.x), p.y)
  }

  function Settled(doc: Doc): Doc {
    var rows := SplitRows(doc.text);
    doc.(cursor := ClampedCursor(rows, doc.cursor),
         tracked := doc.tracked.(mark := ClampedMark(rows, doc.tracked.mark)))
  }

  // ---- What it achieves ----

  /** A snapped place starts a character of a valid text. */
  lemma SnappedLands(rows: seq<Text>, p: Pos, utf8: bool)
    requires NlFree(rows) && OnGrid(rows, p) && (p.x == 0 || Boundary(rows[p.y], p.x))
    requires utf8 ==> ValidUtf8(Join(rows))
    ensures Lands(Join(rows), p, utf8)
  {
    hide Join, GridOffset, ValidUtf8;
    GridIsPosAt(rows, p);
    BoundaryInRow(rows, p);
    if utf8 {
      RowsValidIffTextValid(rows);
      if rows[p.y] != [] { ValidStartsCharacter(rows[p.y]); }
    }
  }

  /** Wherever a command left them, cursor and mark come to stand on places of the text,
      and on characters of it if it is valid UTF-8. */
  lemma SettledLands(doc: Doc, utf8: bool)
    requires utf8 ==> ValidUtf8(doc.text)
    ensures var d := Settled(doc);
            Lands(d.text, d.cursor, utf8) && (IsSet(d.tracked.mark) ==> Lands(d.text, d.tracked.mark, utf8)) &&
            (IsSet(d.tracked.mark) <==> doc.tracked.mark.y >= 0)
  {
    hide Join, SplitRows, ValidUtf8, Lands;
    var rows := SplitRows(doc.text);
    JoinOfSplit(doc.text);
    SnappedLands(rows, ClampedCursor(rows, doc.cursor), utf8);
    if doc.tracked.mark.y >= 0 {
      SnappedLands(rows, ClampedMark(rows, doc.tracked.mark), utf8);
    }
  }

  /** `q` is where the clamp takes `p`: on its row, or the nearest one there is, at the first
      start of a character not before its column, or at the end of the row. */
  ghost predicate FirstNotBefore(rows: seq<Text>, p: Pos, q: Pos) {
    OnGrid(rows, q) &&
    (q.y == p.y || q.y == 0 > p.y || q.y == |rows| - 1 < p.y) &&
    (q.x >= p.x || q.x == |rows[q.y]|) &&
    forall x: nat | x < q.x && (x == 0 || Boundary(rows[q.y], x)) :: x < p.x
  }

  /** Cursor and mark go forward in their rows, and no further than they must; only a mark
      below the last row goes to the end of the text, and one that is not set stays unset. */
  lemma SettledIsNearest(doc: Doc)
    ensures var rows, d, m := SplitRows(doc.text), Settled(doc), doc.tracked.mark;
            NlFree(rows) && Join(rows) == doc.text &&
            FirstNotBefore(rows, doc.cursor, d.cursor) &&
            (m.y < 0 ==> d.tracked.mark == m) &&
            (0 <= m.y < |rows| ==> FirstNotBefore(rows, m, d.tracked.mark)) &&
            (m.y >= |rows| ==> d.tracked.mark == PosAt(doc.text, |doc.text|))
  {
    hide Join, GridOffset, SplitRows;
    var rows := SplitRows(doc.text);
    JoinOfSplit(doc.text);
    GridIsPosAt(rows, LastPlace(rows));
    LastPlaceIsLast(rows);
  }

  /** A place that starts a character stays where it is. */
  lemma LandedStays(t: Text, p: Pos)
    requires Lands(t, p, true)
    ensures ClampedCursor(SplitRows(t), p) == p && ClampedMark(SplitRows(t), p) == p
  {
    hide Join, GridOffset, SplitRows;
    var rows := SplitRows(t);
    JoinOfSplit(t);
    InBoundsIsOnGrid(rows, p);
    GridIsPosAt(rows, p);
    BoundaryInRow(rows, p);
  }

  /** The clamp changes nothing exactly when cursor and mark start characters already. */
  lemma SettledIffLanded(doc: Doc)
    requires ValidUtf8(doc.text)
    ensures Settled(doc) == doc <==>
            Lands(doc.text, doc.cursor, true) && (doc.tracked.mark.y >= 0 ==> Lands(doc.text, doc.tracked.mark, true))
  {
    hide SplitRows, ValidUtf8, Lands, ClampedCursor;
    SettledLands(doc, true);
    if Lands(doc.text, doc.cursor, true) {
      LandedStays(doc.text, doc.cursor);
    }
    if doc.tracked.mark.y >= 0 && Lands(doc.text, doc.tracked.mark, true) {
      LandedStays(doc.text, doc.tracked.mark);
    }
  }

  lemma SettledKeepsInv(doc: Doc)
    requires Inv(doc)
    ensures Inv(Settled(doc))
  {
    hide Linked, SplitRows;
  }
}
