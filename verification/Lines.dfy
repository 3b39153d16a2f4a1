/** Rows and flat text.  A buffer of rows stands for the rows joined by newlines, with no
    terminator: a final newline is a final empty row. */
module Lines {
  import opened Text
  import opened Utf8

  /** Every row followed by a newline. */
  function Ended(rows: seq<Text>): Text {
    if rows == [] then [] else Ended(rows[..|rows| - 1]) + rows[|rows| - 1] + [NL]
  }

  function Join(rows: seq<Text>): Text
    requires rows != []
  {
    Ended(rows[..|rows| - 1]) + rows[|rows| - 1]
  }

  /** What follows a row: the rows below it, each preceded by its newline. */
  function Tail(rows: seq<Text>): Text {
    if rows == [] then [] else [NL] + Join(rows)
  }

  predicate NlFree(rows: seq<Text>) {
    forall i | 0 <= i < |rows| :: NL !in rows[i]
  }

  /** Column `x` of row `y` exists. */
  predicate OnGrid(rows: seq<Text>, p: Pos) {
    0 <= p.y < |rows| && 0 <= p.x <= |rows[p.y]|
  }

  lemma {:induction false} EndedConcat(a: seq<Text>, b: seq<Text>)
    ensures Ended(a + b) == Ended(a) + Ended(b)
  {
    if b == [] {
      assert a + b == a;
    } else {
      var b' := b[..|b| - 1];
      assert (a + b)[..|a + b| - 1] == a + b';
      EndedConcat(a, b');
    }
  }

  lemma EndedOfNone()
    ensures Ended([]) == []
  {
  }

  lemma EndedOne(row: Text)
    ensures Ended([row]) == row + [NL]
  {
    assert [row][..0] == [];
  }

  lemma EndedAround(rows: seq<Text>, y: nat, n: nat)
    requires y < n <= |rows|
    ensures Ended(rows[..n]) == Ended(rows[..y]) + rows[y] + [NL] + Ended(rows[y + 1..n])
  {
    hide Ended;
    var below := rows[y + 1..n];
    assert rows[..n] == rows[..y] + ([rows[y]] + below);
    EndedConcat(rows[..y], [rows[y]] + below);
    EndedConcat([rows[y]], below);
    EndedOne(rows[y]);
  }

  /** A row and what stands on either side of it. */
  lemma JoinAround(rows: seq<Text>, y: nat)
    requires y < |rows|
    ensures Join(rows) == Ended(rows[..y]) + rows[y] + Tail(rows[y + 1..])
  {
    hide Ended;
    var n := |rows| - 1;
    if y < n {
      EndedAround(rows, y, n);
      TailAfter(rows, y);
      Regroup(Ended(rows[..y]), rows[y], [NL], Ended(rows[y + 1..n]), rows[n]);
    } else {
      assert rows[y + 1..] == [];
    }
  }

  lemma TailAfter(rows: seq<Text>, y: nat)
    requires y + 1 < |rows|
    ensures Tail(rows[y + 1..]) == [NL] + (Ended(rows[y + 1..|rows| - 1]) + rows[|rows| - 1])
  {
    hide Ended;
    var below := rows[y + 1..];
    assert below[..|below| - 1] == rows[y + 1..|rows| - 1];
  }

  lemma Regroup(a: Text, b: Text, c: Text, d: Text, e: Text)
    ensures a + b + c + d + e == a + b + (c + (d + e))
  {
  }

  function GridOffset(rows: seq<Text>, p: Pos): (o: nat)
    requires OnGrid(rows, p)
    ensures o <= |Join(rows)|
  {
    JoinAround(rows, p.y);
    |Ended(rows[..p.y])| + p.x
  }

  /** The text before and after a place of the grid. */
  lemma CutAt(rows: seq<Text>, p: Pos)
    requires OnGrid(rows, p)
    ensures var o, t := GridOffset(rows, p), Join(rows);
            t[..o] == Ended(rows[..p.y]) + rows[p.y][..p.x] &&
            t[o..] == rows[p.y][p.x..] + Tail(rows[p.y + 1..])
  {
    hide Ended, Join, Tail;
    JoinAround(rows, p.y);
    CutInThree(Ended(rows[..p.y]), rows[p.y], Tail(rows[p.y + 1..]), p.x);
  }

  lemma CutInThree(a: Text, row: Text, b: Text, x: nat)
    requires x <= |row|
    ensures (a + row + b)[..|a| + x] == a + row[..x]
    ensures (a + row + b)[|a| + x..] == row[x..] + b
  {
  }

  lemma {:induction false} EndedAdvances(rows: seq<Text>)
    requires NlFree(rows)
    ensures Advance(ORIGIN, Ended(rows)) == Pos(0, |rows|)
  {
    if rows != [] {
      var n := |rows| - 1;
      var before := Ended(rows[..n]);
      EndedAdvances(rows[..n]);
      AdvanceConcat(ORIGIN, before, rows[n]);
      AdvanceAlongRow(Pos(0, n), rows[n]);
      AdvanceConcat(ORIGIN, before + rows[n], [NL]);
      assert Advance(Pos(|rows[n]|, n), [NL]) == Step(Pos(|rows[n]|, n), NL);
    }
  }

  /** Grid coordinates are the flat text's own: `GridOffset` and `PosAt` are inverse. */
  lemma GridIsPosAt(rows: seq<Text>, p: Pos)
    requires OnGrid(rows, p) && NlFree(rows)
    ensures GridOffset(rows, p) <= |Join(rows)|
    ensures PosAt(Join(rows), GridOffset(rows, p)) == p
    ensures InBounds(Join(rows), p) && OffsetOf(Join(rows), p) == GridOffset(rows, p)
  {
    var row := rows[p.y];
    CutAt(rows, p);
    EndedAdvances(rows[..p.y]);
    AdvanceConcat(ORIGIN, Ended(rows[..p.y]), row[..p.x]);
    AdvanceAlongRow(Pos(0, p.y), row[..p.x]);
    OffsetOfPosAt(Join(rows), GridOffset(rows, p));
  }

  /** Every offset is the offset of a grid place. */
  lemma {:induction false} GridCovers(rows: seq<Text>, o: nat) returns (p: Pos)
    requires rows != [] && o <= |Join(rows)|
    ensures OnGrid(rows, p) && GridOffset(rows, p) == o
  {
    var n := |rows| - 1;
    var before := |Ended(rows[..n])|;
    if o >= before {
      p := Pos(o - before, n);
    } else {
      var above := rows[..n];
      assert Ended(above) == Join(above) + [NL];
      p := GridCovers(above, o);
      assert above[..p.y] == rows[..p.y];
    }
  }

  /** In bounds means on the grid. */
  lemma InBoundsIsOnGrid(rows: seq<Text>, p: Pos)
    requires rows != [] && NlFree(rows)
    ensures InBounds(Join(rows), p) <==> OnGrid(rows, p)
  {
    if InBounds(Join(rows), p) {
      var q := GridCovers(rows, OffsetOf(Join(rows), p));
      GridIsPosAt(rows, q);
    }
    if OnGrid(rows, p) {
      GridIsPosAt(rows, p);
    }
  }

  /** The text determines the rows. */
  lemma {:induction false} JoinInjective(a: seq<Text>, b: seq<Text>)
    requires a != [] && b != [] && NlFree(a) && NlFree(b) && Join(a) == Join(b)
    ensures a == b
  {
    RowCountOfJoin(a);
    RowCountOfJoin(b);
    forall y | 0 <= y < |a| ensures a[y] == b[y] {
      SameRow(a, b, y);
    }
  }

  lemma RowCountOfJoin(rows: seq<Text>)
    requires rows != [] && NlFree(rows)
    ensures Advance(ORIGIN, Join(rows)) == Pos(|rows[|rows| - 1]|, |rows| - 1)
  {
    var n := |rows| - 1;
    EndedAdvances(rows[..n]);
    AdvanceConcat(ORIGIN, Ended(rows[..n]), rows[n]);
    AdvanceAlongRow(Pos(0, n), rows[n]);
  }

  lemma SameRow(a: seq<Text>, b: seq<Text>, y: nat)
    requires a != [] && |a| == |b| && NlFree(a) && NlFree(b) && Join(a) == Join(b) && y < |a|
    ensures a[y] == b[y]
  {
    var t := Join(a);
    InBoundsIsOnGrid(a, Pos(|a[y]|, y));
    InBoundsIsOnGrid(b, Pos(|a[y]|, y));
    InBoundsIsOnGrid(a, Pos(|b[y]|, y));
    InBoundsIsOnGrid(b, Pos(|b[y]|, y));
    GridIsPosAt(a, Pos(|a[y]|, y));
    GridIsPosAt(a, Pos(0, y));
    GridIsPosAt(b, Pos(0, y));
    CutAt(a, Pos(0, y));
    CutAt(b, Pos(0, y));
    assert t[OffsetOf(t, Pos(0, y))..][..|a[y]|] == a[y];
    assert t[OffsetOf(t, Pos(0, y))..][..|b[y]|] == b[y];
  }

  // ---- The three ways the row array is spliced ----

  /** A newline-free payload goes into one row. */
  lemma InsertInRow(rows: seq<Text>, p: Pos, d: Text)
    requires OnGrid(rows, p)
    ensures var rows' := rows[p.y := rows[p.y][..p.x] + d + rows[p.y][p.x..]];
            Join(rows') == Insert(Join(rows), GridOffset(rows, p), d)
  {
    hide Ended, Join, Tail, GridOffset;
    var rows' := rows[p.y := rows[p.y][..p.x] + d + rows[p.y][p.x..]];
    CutAt(rows, p);
    JoinAround(rows', p.y);
    assert rows'[..p.y] == rows[..p.y] && rows'[p.y + 1..] == rows[p.y + 1..];
  }

  /** A payload of several rows: the first ends the row it starts in, the last begins the
      rest of it. */
  lemma InsertRows(rows: seq<Text>, p: Pos, first: Text, middle: seq<Text>, last: Text)
    requires OnGrid(rows, p)
    ensures var row := rows[p.y];
            var rows' := rows[..p.y] + [row[..p.x] + first] + middle + [last + row[p.x..]] + rows[p.y + 1..];
            Join(rows') == Insert(Join(rows), GridOffset(rows, p), first + [NL] + Ended(middle) + last)
  {
    hide Ended, Join, Tail, GridOffset;
    var row := rows[p.y];
    var head := rows[..p.y] + ([row[..p.x] + first] + middle);
    var rows' := rows[..p.y] + [row[..p.x] + first] + middle + [last + row[p.x..]] + rows[p.y + 1..];
    assert rows' == head + [last + row[p.x..]] + rows[p.y + 1..];
    CutAt(rows, p);
    JoinAround(rows', |head|);
    assert rows'[..|head|] == head && rows'[|head| + 1..] == rows[p.y + 1..];
    EndedConcat(rows[..p.y], [row[..p.x] + first] + middle);
    EndedConcat([row[..p.x] + first], middle);
    EndedOne(row[..p.x] + first);
  }

  /** Deleting joins what is left of the first row with what is left of the last. */
  lemma DeleteRows(rows: seq<Text>, s: Pos, e: Pos)
    requires OnGrid(rows, s) && OnGrid(rows, e) && !Before(e, s)
    ensures GridOffset(rows, s) <= GridOffset(rows, e)
    ensures var rows' := rows[..s.y] + [rows[s.y][..s.x] + rows[e.y][e.x..]] + rows[e.y + 1..];
            Join(rows') == Delete(Join(rows), GridOffset(rows, s), GridOffset(rows, e))
  {
    hide Ended, Join, Tail, GridOffset;
    var rows' := rows[..s.y] + [rows[s.y][..s.x] + rows[e.y][e.x..]] + rows[e.y + 1..];
    GridOrder(rows, s, e);
    CutAt(rows, s);
    CutAt(rows, e);
    JoinAround(rows', s.y);
    assert rows'[..s.y] == rows[..s.y] && rows'[s.y + 1..] == rows[e.y + 1..];
  }

  lemma GridOrder(rows: seq<Text>, s: Pos, e: Pos)
    requires OnGrid(rows, s) && OnGrid(rows, e) && !Before(e, s)
    ensures GridOffset(rows, s) <= GridOffset(rows, e)
  {
    hide Ended, Join;
    if s.y < e.y {
      assert rows[..e.y] == rows[..s.y] + ([rows[s.y]] + rows[s.y + 1..e.y]);
      EndedConcat(rows[..s.y], [rows[s.y]] + rows[s.y + 1..e.y]);
      EndedConcat([rows[s.y]], rows[s.y + 1..e.y]);
      EndedOne(rows[s.y]);
    }
  }

  /** Validating row by row validates the text. */
  lemma {:induction false} RowsValidIffTextValid(rows: seq<Text>)
    requires rows != []
    ensures ValidUtf8(Join(rows)) <==> forall i | 0 <= i < |rows| :: ValidUtf8(rows[i])
  {
    hide CharLen, Ended;
    var n := |rows| - 1;
    if n == 0 {
      JoinOfOne(rows[0]);
      assert rows == [rows[0]];
    } else {
      var above := rows[..n];
      RowsValidIffTextValid(above);
      JoinOfMore(rows);
      NewlineThen(rows[n]);
      ConcatValid(Join(above), [NL] + rows[n]);
    }
  }

  lemma JoinOfOne(row: Text)
    ensures Join([row]) == row
  {
    assert [row][..0] == [];
  }

  lemma JoinOfMore(rows: seq<Text>)
    requires |rows| > 1
    ensures Join(rows) == Join(rows[..|rows| - 1]) + ([NL] + rows[|rows| - 1])
  {
    var above := rows[..|rows| - 1];
    assert Ended(above) == Join(above) + [NL];
  }

  // ---- Reading the text off the grid ----

  /** The byte at a place of the grid: a byte of the row, or the newline after it. */
  lemma ByteAt(rows: seq<Text>, p: Pos)
    requires OnGrid(rows, p)
    ensures p.x < |rows[p.y]| ==>
              GridOffset(rows, p) < |Join(rows)| && Join(rows)[GridOffset(rows, p)] == rows[p.y][p.x]
    ensures p.x == |rows[p.y]| && p.y + 1 < |rows| ==>
              GridOffset(rows, p) < |Join(rows)| && Join(rows)[GridOffset(rows, p)] == NL
    ensures p.x == |rows[p.y]| && p.y + 1 == |rows| ==> GridOffset(rows, p) == |Join(rows)|
  {
    hide Ended, Join, GridOffset;
    CutAt(rows, p);
    var o, t := GridOffset(rows, p), Join(rows);
    assert o < |t| ==> t[o] == t[o..][0];
  }

  /** A character boundary of a row is one of the text. */
  lemma BoundaryInRow(rows: seq<Text>, p: Pos)
    requires OnGrid(rows, p)
    ensures Boundary(Join(rows), GridOffset(rows, p)) <==> Boundary(rows[p.y], p.x)
  {
    hide Join, GridOffset;
    ByteAt(rows, p);
  }

  /** The place one byte further on. */
  function NextPlace(rows: seq<Text>, p: Pos): Pos
    requires OnGrid(rows, p)
  {
    if p.x >= |rows[p.y]| then Pos(0, p.y + 1) else Pos(p.x + 1, p.y)
  }

  lemma NextPlaceIsNextOffset(rows: seq<Text>, p: Pos)
    requires OnGrid(rows, p) && OnGrid(rows, NextPlace(rows, p))
    ensures GridOffset(rows, NextPlace(rows, p)) == GridOffset(rows, p) + 1
  {
    assert p.x >= |rows[p.y]| ==> rows[..p.y + 1][..p.y] == rows[..p.y];
  }

  /** Any pair of coordinates, forced onto the grid. */
  function ClampedToGrid(rows: seq<Text>, p: Pos): (q: Pos)
    requires rows != []
    ensures OnGrid(rows, q)
    ensures OnGrid(rows, p) ==> q == p
    ensures p.y < 0 ==> q == ORIGIN
    ensures p.y >= 0 ==> (q.y == p.y || q.y == |rows| - 1 < p.y) &&
                         (q.x == p.x || q.x == 0 > p.x || q.x == |rows[q.y]| < p.x)
  {
    if p.y < 0 then ORIGIN
    else
      var y := if p.y > |rows| - 1 then |rows| - 1 else p.y;
      Pos(if p.x < 0 then 0 else if p.x > |rows[y]| then |rows[y]| else p.x, y)
  }

  function LastPlace(rows: seq<Text>): (q: Pos)
    requires rows != []
    ensures OnGrid(rows, q)
  {
    Pos(|rows[|rows| - 1]|, |rows| - 1)
  }

  lemma LastPlaceIsLast(rows: seq<Text>)
    requires rows != []
    ensures GridOffset(rows, LastPlace(rows)) == |Join(rows)|
  {
  }

  /** One step of reading a region: the next byte, and what has been read so far. */
  lemma RegionGrows(rows: seq<Text>, s: Pos, p: Pos, e: Pos)
    requires OnGrid(rows, s) && OnGrid(rows, p) && OnGrid(rows, e) && !Before(e, p) && p != e
    requires GridOffset(rows, s) <= GridOffset(rows, p)
    ensures var q, t := NextPlace(rows, p), Join(rows);
            var b := if p.x < |rows[p.y]| then rows[p.y][p.x] else NL;
            OnGrid(rows, q) && !Before(e, q) && GridOffset(rows, q) == GridOffset(rows, p) + 1 <= GridOffset(rows, e) &&
            t[GridOffset(rows, s)..GridOffset(rows, q)] == t[GridOffset(rows, s)..GridOffset(rows, p)] + [b]
  {
    hide Ended, Join, GridOffset;
    var q := NextPlace(rows, p);
    ByteAt(rows, p);
    NextPlaceIsNextOffset(rows, p);
    GridOrder(rows, q, e);
  }

  lemma EndedUpTo(rows: seq<Text>, j: nat)
    requires j < |rows|
    ensures Ended(rows[..j + 1]) == Ended(rows[..j]) + rows[j] + [NL]
  {
    assert rows[..j + 1][..j] == rows[..j];
  }

  /** Where row `j` sits in the text. */
  lemma RowInJoin(rows: seq<Text>, j: nat)
    requires j < |rows|
    ensures var o, t := |Ended(rows[..j])|, Join(rows);
            o + |rows[j]| <= |t| && t[o..o + |rows[j]|] == rows[j] &&
            (j > 0 ==> o > 0 && t[o - 1] == NL) &&
            |Ended(rows[..j + 1])| == o + |rows[j]| + 1 &&
            (j == |rows| - 1 ==> o + |rows[j]| == |t|)
  {
    hide Ended, Join;
    JoinAround(rows, j);
    EndedUpTo(rows, j);
    if j > 0 { EndedUpTo(rows, j - 1); }
  }

  // ---- The end of the text, seen in the rows ----

  /** Empty, or ended by a newline: one empty row, or an empty last row. */
  lemma TerminatedInRows(rows: seq<Text>)
    requires rows != [] && NlFree(rows)
    ensures var t := Join(rows);
            (t == [] <==> |rows| == 1 && rows[0] == []) &&
            (t != [] ==> (t[|t| - 1] == NL <==> rows[|rows| - 1] == []))
  {
    hide Ended, Join;
    var n, t := |rows| - 1, Join(rows);
    RowInJoin(rows, n);
    if n == 0 { EndedOfNone(); assert rows[..0] == []; }
    if rows[n] != [] {
      assert rows[n][|rows[n]| - 1] in rows[n];
    }
  }

  /** The range that covers the final newline and nothing else, in rows and in bytes. */
  lemma FinalNewlineInRows(rows: seq<Text>, s: Pos, e: Pos)
    requires NlFree(rows) && OnGrid(rows, s) && OnGrid(rows, e)
    ensures var t, o, f, n := Join(rows), GridOffset(rows, s), GridOffset(rows, e), |rows|;
            (|t| >= 2 && o == |t| - 1 && f == |t| && t[o] == NL && t[o - 1] != NL)
            <==>
            (n >= 2 && rows[n - 1] == [] && rows[n - 2] != [] &&
             s == Pos(|rows[n - 2]|, n - 2) && e == Pos(0, n - 1))
  {
    hide Ended, Join, GridOffset;
    var n := |rows|;
    TerminatedInRows(rows);
    GridIsPosAt(rows, s);
    GridIsPosAt(rows, e);
    GridIsPosAt(rows, LastPlace(rows));
    ByteAt(rows, LastPlace(rows));
    if n >= 2 && rows[n - 1] == [] {
      LastTerminator(rows);
    }
  }

  /** The last newline of a terminated text, and the byte before it. */
  lemma LastTerminator(rows: seq<Text>)
    requires |rows| >= 2 && NlFree(rows) && rows[|rows| - 1] == []
    ensures var t, last := Join(rows), Pos(|rows[|rows| - 2]|, |rows| - 2);
            |t| >= 1 && GridOffset(rows, last) == |t| - 1 && PosAt(t, |t| - 1) == last && t[|t| - 1] == NL &&
            (|t| >= 2 ==> (t[|t| - 2] == NL <==> rows[|rows| - 2] == [])) &&
            (rows[|rows| - 2] != [] ==> |t| >= 2)
  {
    hide Ended, Join, GridOffset;
    var n := |rows|;
    var last := Pos(|rows[n - 2]|, n - 2);
    ByteAt(rows, LastPlace(rows));
    ByteAt(rows, last);
    NextPlaceIsNextOffset(rows, last);
    GridIsPosAt(rows, last);
    if rows[n - 2] != [] {
      var before := Pos(|rows[n - 2]| - 1, n - 2);
      ByteAt(rows, before);
      NextPlaceIsNextOffset(rows, before);
      assert rows[n - 2][|rows[n - 2]| - 1] in rows[n - 2];
    } else if n >= 3 {
      ByteAt(rows, Pos(|rows[n - 3]|, n - 3));
      NextPlaceIsNextOffset(rows, Pos(|rows[n - 3]|, n - 3));
    } else {
      FirstRowOffset(rows, last);
    }
  }

  lemma FirstRowOffset(rows: seq<Text>, p: Pos)
    requires OnGrid(rows, p) && p.y == 0
    ensures GridOffset(rows, p) == p.x
  {
    assert rows[..0] == [];
  }

  /** A place keeps its coordinates when the text up to it is kept. */
  lemma PlaceSurvives(rows: seq<Text>, rows': seq<Text>, p: Pos)
    requires rows' != [] && NlFree(rows) && NlFree(rows') && OnGrid(rows, p)
    requires var o := GridOffset(rows, p); o <= |Join(rows')| && Join(rows')[..o] == Join(rows)[..o]
    ensures OnGrid(rows', p) && GridOffset(rows', p) == GridOffset(rows, p)
  {
    hide Ended, Join, GridOffset;
    var o := GridOffset(rows, p);
    GridIsPosAt(rows, p);
    PosAtPrefix(Join(rows), Join(rows'), o);
    OffsetOfPosAt(Join(rows'), o);
    InBoundsIsOnGrid(rows', p);
    GridIsPosAt(rows', p);
  }

  /** Rows closed by one more, empty, row are the rows each ended by a newline. */
  lemma ClosedByEmptyRow(rows: seq<Text>)
    ensures Join(rows + [[]]) == Ended(rows)
  {
    assert (rows + [[]])[..|rows|] == rows;
  }
}
