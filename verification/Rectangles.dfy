/** Rectangles of columns: what killing one takes from a row, what yanking one puts back,
    and when the two undo each other.  Columns are byte offsets, snapped inwards so that
    no character is split. */
module Rectangles {
  import opened Text
  import opened Utf8
  import opened Lines

  const SPACE: byte := 0x20

  function Spaces(n: nat): (s: Text)
    ensures |s| == n && forall i | 0 <= i < n :: s[i] == SPACE
  {
    seq(n, _ => SPACE)
  }

  // ---- Snapping ------------------------------------------------------------

  /** Largest character boundary at or before `x`, within the row. */
  function SnapBack(row: Text, x: nat): (b: nat)
    ensures b <= x && b <= |row| && (b == 0 || Boundary(row, b))
    ensures x > |row| ==> b == |row|
    ensures x <= |row| ==> forall k | b < k <= x :: !Boundary(row, k)
  {
    if x > |row| then |row| else if 0 < x < |row| && IsCont(row[x]) then SnapBack(row, x - 1) else x
  }

  method RectSnapFwd(row: Text, x: int) returns (b: int)
    ensures b == if x <= 0 then 0 else SnapFwd(row, x)
  {
    if x <= 0 { return 0; }
    if x >= |row| { return x; }
    b := x;
    while b < |row| && IsCont(row[b])
      invariant x <= b <= |row| && SnapFwd(row, b) == SnapFwd(row, x)
    {
      b := b + 1;
    }
  }

  method RectSnapBack(row: Text, x: int) returns (b: int)
    ensures b == if x <= 0 then 0 else SnapBack(row, x)
  {
    if x <= 0 { return 0; }
    if x > |row| { return |row|; }
    b := x;
    while b > 0 && b < |row| && IsCont(row[b])
      invariant 0 <= b <= x && SnapBack(row, b) == SnapBack(row, x)
    {
      b := b - 1;
    }
  }

  // ---- One row ---------------------------------------------------------------

  /** Columns `left` to `right`. */
  datatype Columns = Columns(left: nat, right: nat)

  predicate Proper(c: Columns) { c.left <= c.right }

  function Start(row: Text, c: Columns): nat { SnapFwd(row, c.left) }

  /** Where the rectangle ends on a row; never before it starts. */
  function End(row: Text, c: Columns): nat {
    var e := SnapBack(row, c.right);
    if e < Start(row, c) then Start(row, c) else e
  }

  /** What the rectangle takes, padded with spaces to its width. */
  function Cell(row: Text, c: Columns): Text
    requires Proper(c)
  {
    var s, e := Start(row, c), End(row, c);
    if s >= |row| || e <= s then Spaces(c.right - c.left)
    else row[s..e] + Spaces(c.right - c.left - (e - s))
  }

  /** What stays in the row. */
  function Kept(row: Text, c: Columns): Text {
    var n := if Start(row, c) > |row| then |row| else Start(row, c);
    var e := if End(row, c) < n then n else End(row, c);
    row[..n] + if e < |row| then row[e..] else []
  }

  /** A row with a slice put in at column `x`. */
  function Yanked(row: Text, x: nat, slice: Text): Text {
    var ins := SnapFwd(row, x);
    var n := if |row| < ins then |row| else ins;
    row[..n] + Spaces(if x > n then x - n else 0) + slice + row[n..]
  }

  /** The taken part and the kept part make up the row, and the cell is the taken part and
      padding; neither splits a character. */
  lemma RowReassembles(row: Text, c: Columns)
    requires Proper(c)
    ensures |Cell(row, c)| == c.right - c.left
    ensures exists n: nat, e: nat ::
              n <= e <= |row| && n <= |Kept(row, c)| && row == Kept(row, c)[..n] + row[n..e] + Kept(row, c)[n..] &&
              (e - n <= c.right - c.left && Cell(row, c) == row[n..e] + Spaces(c.right - c.left - (e - n)))
    ensures ValidUtf8(row) ==> ValidUtf8(Kept(row, c)) && ValidUtf8(Cell(row, c))
  {
    hide ValidUtf8, SnapFwd, SnapBack, Kept, Cell;
    var n, e := Pieces(row, c);
    var pad := Spaces(c.right - c.left - (e - n));
    CutOut(row, n, e);
    assert n <= |Kept(row, c)| && row == Kept(row, c)[..n] + row[n..e] + Kept(row, c)[n..];
    if ValidUtf8(row) {
      DeleteKeepsValid(row, n, e);
      ValidSlice(row, n, e);
      SpacesValid(|pad|);
      ValidConcat(row[n..e], pad);
    }
  }

  /** The part of the row taken. */
  lemma Pieces(row: Text, c: Columns) returns (n: nat, e: nat)
    requires Proper(c)
    ensures n <= e <= |row| && e - n <= c.right - c.left
    ensures Kept(row, c) == row[..n] + row[e..] == Delete(row, n, e)
    ensures Cell(row, c) == row[n..e] + Spaces(c.right - c.left - (e - n))
    ensures ValidUtf8(row) ==> Boundary(row, n) && Boundary(row, e)
    ensures forall k | c.left <= k <= c.right && Edge(row, k) :: n <= k <= e
    ensures n < e || (exists k :: c.left <= k <= c.right && Edge(row, k)) ==>
              c.left <= n && e <= c.right && Edge(row, n) && Edge(row, e)
  {
    hide ValidUtf8;
    n := if Start(row, c) > |row| then |row| else Start(row, c);
    e := if End(row, c) < n || End(row, c) > |row| then n else End(row, c);
    if ValidUtf8(row) && row != [] { ValidStartsCharacter(row); }
  }

  /** A column where a cut splits no character. */
  predicate Edge(row: Text, k: nat) {
    k <= |row| && (k == 0 || Boundary(row, k))
  }

  /** Of `row`, exactly the whole characters within the columns went, into a cell as wide as
      the columns. */
  ghost predicate CutExactly(row: Text, c: Columns, kept: Text, cell: Text) {
    exists n: nat, e: nat | n <= e <= |row| :: TakenBetween(row, c, kept, cell, n, e)
  }

  /** The characters taken are those from `n` to `e`: from the first edge within the columns
      to the last, or none. */
  ghost predicate TakenBetween(row: Text, c: Columns, kept: Text, cell: Text, n: nat, e: nat)
    requires n <= e <= |row|
  {
    kept == row[..n] + row[e..] &&
    e - n <= c.right - c.left && cell == row[n..e] + Spaces(c.right - c.left - (e - n)) &&
    (forall k | c.left <= k <= c.right && Edge(row, k) :: n <= k <= e) &&
    (n < e || (exists k :: c.left <= k <= c.right && Edge(row, k)) ==>
       c.left <= n && e <= c.right && Edge(row, n) && Edge(row, e))
  }

  lemma CutIsExact(row: Text, c: Columns)
    requires Proper(c)
    ensures CutExactly(row, c, Kept(row, c), Cell(row, c))
  {
    hide Kept, Cell;
    var n, e := Pieces(row, c);
    assert TakenBetween(row, c, Kept(row, c), Cell(row, c), n, e);
  }

  /** `n` is the first edge from column `x` on, or the end of a shorter row. */
  predicate NextEdge(row: Text, x: nat, n: int) {
    0 <= n <= |row| && Edge(row, n) &&
    if x > |row| then n == |row| else x <= n && forall k | x <= k < n :: !Edge(row, k)
  }

  /** The slice went in at the first edge from column `x` on, or behind the row and blanks. */
  ghost predicate YankedExactly(row: Text, x: nat, slice: Text, row': Text) {
    exists n | 0 <= n <= |row| ::
      NextEdge(row, x, n) && row' == row[..n] + Spaces(if x > n then x - n else 0) + slice + row[n..]
  }

  lemma YankIsExact(row: Text, x: nat, slice: Text)
    ensures YankedExactly(row, x, slice, Yanked(row, x, slice))
  {
    var ins := SnapFwd(row, x);
    var n := if |row| < ins then |row| else ins;
    assert NextEdge(row, x, n);
  }

  lemma CutOut(row: Text, n: nat, e: nat)
    requires n <= e <= |row|
    ensures var kept := row[..n] + row[e..];
            kept[..n] == row[..n] && kept[n..] == row[e..] && row == kept[..n] + row[n..e] + kept[n..]
  {
  }

  lemma {:induction false} SpacesValid(n: nat)
    ensures ValidUtf8(Spaces(n))
  {
    if n > 0 {
      SpacesValid(n - 1);
      assert Spaces(n)[1..] == Spaces(n - 1);
    }
  }

  /** Putting a valid slice in keeps a row valid. */
  lemma YankKeepsValid(row: Text, x: nat, slice: Text)
    requires ValidUtf8(row) && ValidUtf8(slice)
    ensures ValidUtf8(Yanked(row, x, slice))
  {
    hide ValidUtf8;
    var ins := SnapFwd(row, x);
    var n := if |row| < ins then |row| else ins;
    var pad := Spaces(if x > n then x - n else 0);
    if row != [] { ValidStartsCharacter(row); }
    SpacesValid(|pad|);
    ValidConcat(pad, slice);
    InsertKeepsValid(row, n, pad + slice);
    assert Yanked(row, x, slice) == Insert(row, n, pad + slice);
  }

  /** Both columns fall on character boundaries of the row, and it reaches the right one. */
  predicate Clean(row: Text, c: Columns) {
    c.left <= c.right <= |row| &&
    (c.left == 0 || Boundary(row, c.left)) && (c.right == 0 || Boundary(row, c.right))
  }

  /** Those are the rows on which snapping moves neither column. */
  lemma CleanIsUnsnapped(row: Text, c: Columns)
    requires Proper(c)
    ensures Clean(row, c) <==>
            c.right <= |row| && SnapFwd(row, c.left) == c.left && SnapBack(row, c.right) == c.right
  {
  }

  /** Where the cursor is put on the row after a kill. */
  function CursorColumn(row: Text, x: nat): nat {
    if SnapFwd(row, x) > |row| then |row| else SnapFwd(row, x)
  }

  lemma CursorOnNextEdge(row: Text, x: nat)
    ensures NextEdge(row, x, CursorColumn(row, x))
  {
  }

  /** Killed and yanked at the same column, a row is restored exactly when it is clean. */
  lemma RowRestored(row: Text, c: Columns, x: nat)
    requires c.left < c.right
    ensures Yanked(Kept(row, c), x, Cell(row, c)) == row ==> Clean(row, c)
    ensures Clean(row, c) ==> CursorColumn(Kept(row, c), c.left) == c.left &&
                              Yanked(Kept(row, c), c.left, Cell(row, c)) == row
  {
    hide SnapFwd, SnapBack, Kept, Cell;
    YankedLength(row, c, x);
    if Clean(row, c) {
      CleanCut(row, c);
      CutOut(row, c.left, c.right);
      assert Spaces(0) == [];
    }
  }

  /** A clean rectangle takes exactly its columns and leaves a boundary where it was. */
  lemma CleanCut(row: Text, c: Columns)
    requires c.left < c.right && Clean(row, c)
    ensures Kept(row, c) == row[..c.left] + row[c.right..] && Cell(row, c) == row[c.left..c.right]
    ensures SnapFwd(Kept(row, c), c.left) == c.left
  {
    hide SnapBack;
    CleanIsUnsnapped(row, c);
    var kept := row[..c.left] + row[c.right..];
    assert Kept(row, c) == kept;
    assert c.left < |kept| ==> kept[c.left] == row[c.right];
  }

  lemma YankedLength(row: Text, c: Columns, x: nat)
    requires c.left < c.right
    ensures |Yanked(Kept(row, c), x, Cell(row, c))| == |row| ==> Clean(row, c)
  {
    hide SnapFwd, SnapBack;
    RowReassembles(row, c);
    CleanIsUnsnapped(row, c);
  }

  // ---- Many rows -------------------------------------------------------------

  /** A killed rectangle: its width, and one cell of that width for each row. */
  datatype Rect = Rect(width: nat, cells: seq<Text>)

  predicate WellMade(r: Rect) {
    forall i | 0 <= i < |r.cells| :: |r.cells[i]| == r.width && NL !in r.cells[i]
  }

  /** Rows `top` to `bottom` without the columns. */
  function KeptRows(rows: seq<Text>, c: Columns): (kept: seq<Text>)
    ensures |kept| == |rows|
  {
    seq(|rows|, y requires 0 <= y < |rows| => Kept(rows[y], c))
  }

  function CutRect(rows: seq<Text>, c: Columns): (r: Rect)
    requires Proper(c)
    ensures r.width == c.right - c.left && |r.cells| == |rows|
  {
    Rect(c.right - c.left, seq(|rows|, y requires 0 <= y < |rows| => Cell(rows[y], c)))
  }

  function YankedRows(rows: seq<Text>, x: nat, r: Rect): (new': seq<Text>)
    requires |rows| == |r.cells|
    ensures |new'| == |rows|
  {
    seq(|rows|, y requires 0 <= y < |rows| => Yanked(rows[y], x, r.cells[y]))
  }

  lemma RowsStayNlFree(rows: seq<Text>, c: Columns, x: nat, r: Rect)
    requires NlFree(rows) && Proper(c)
    ensures NlFree(KeptRows(rows, c)) && WellMade(CutRect(rows, c))
    ensures WellMade(r) && |rows| == |r.cells| ==> NlFree(YankedRows(rows, x, r))
  {
    hide Kept, Cell, Yanked;
    forall y | 0 <= y < |rows|
      ensures NL !in Kept(rows[y], c) && NL !in Cell(rows[y], c) && |Cell(rows[y], c)| == c.right - c.left
    {
      RowStaysNlFree(rows[y], c, x, []);
    }
    if WellMade(r) && |rows| == |r.cells| {
      forall y | 0 <= y < |rows| ensures NL !in Yanked(rows[y], x, r.cells[y]) {
        RowStaysNlFree(rows[y], c, x, r.cells[y]);
      }
    }
  }

  lemma YankedStaysNlFree(rows: seq<Text>, x: nat, r: Rect)
    requires NlFree(rows) && WellMade(r) && |rows| == |r.cells|
    ensures NlFree(YankedRows(rows, x, r))
  {
    RowsStayNlFree(rows, Columns(x, x), x, r);
  }

  lemma RowStaysNlFree(row: Text, c: Columns, x: nat, slice: Text)
    requires NL !in row && Proper(c) && NL !in slice
    ensures NL !in Kept(row, c) && NL !in Cell(row, c) && |Cell(row, c)| == c.right - c.left
    ensures NL !in Yanked(row, x, slice)
  {
    hide SnapFwd, SnapBack;
  }

  predicate AllClean(rows: seq<Text>, c: Columns) {
    forall y | 0 <= y < |rows| :: Clean(rows[y], c)
  }

  /** Killing a rectangle and yanking it where the cursor was left restores the rows exactly
      when both columns are boundaries of every row and every row reaches the right one. */
  lemma KillThenYankRestores(rows: seq<Text>, c: Columns)
    requires c.left < c.right && rows != []
    ensures var kept := KeptRows(rows, c);
            YankedRows(kept, CursorColumn(kept[0], c.left), CutRect(rows, c)) == rows <==>
            AllClean(rows, c)
  {
    hide SnapFwd, SnapBack, Kept, Cell, Yanked, CursorColumn, Clean;
    var kept := KeptRows(rows, c);
    var x := CursorColumn(kept[0], c.left);
    var back := YankedRows(kept, x, CutRect(rows, c));
    forall y | 0 <= y < |rows| ensures back[y] == Yanked(Kept(rows[y], c), x, Cell(rows[y], c)) {}
    forall y | 0 <= y < |rows|
      ensures back[y] == rows[y] ==> Clean(rows[y], c)
    {
      RowRestored(rows[y], c, x);
    }
    if AllClean(rows, c) {
      RowRestored(rows[0], c, x);
      assert x == c.left;
      forall y | 0 <= y < |rows| ensures back[y] == rows[y] { RowRestored(rows[y], c, x); }
    }
  }

  // ---- The loops -------------------------------------------------------------

  /** The cells of rows `top` to `bottom`. */
  method ExtractRectColumns(rows: seq<Text>, c: Columns) returns (r: Rect)
    requires Proper(c)
    ensures r == CutRect(rows, c)
  {
    hide Cell;
    var cells: seq<Text> := [];
    for y := 0 to |rows|
      invariant |cells| == y && forall i | 0 <= i < y :: cells[i] == Cell(rows[i], c)
    {
      var cell := ExtractCell(rows[y], c);
      cells := cells + [cell];
    }
    r := Rect(c.right - c.left, cells);
  }

  method ExtractCell(row: Text, c: Columns) returns (cell: Text)
    requires Proper(c)
    ensures cell == Cell(row, c)
  {
    hide SnapFwd, SnapBack;
    var s := RectSnapFwd(row, c.left);
    var e := RectSnapBack(row, c.right);
    if e < s { e := s; }
    SnapAtZero(row, c);
    cell := Spaces(c.right - c.left);
    if s < |row| && e > s {
      assert cell[e - s..] == Spaces(c.right - c.left - (e - s));
      cell := row[s..e] + cell[e - s..];
    }
  }

  lemma SnapAtZero(row: Text, c: Columns)
    ensures SnapFwd(row, 0) == 0 && SnapBack(row, 0) == 0
    ensures Start(row, c) == (if c.left <= 0 then 0 else SnapFwd(row, c.left))
  {
  }

  /** The text of rows `rows` without the columns. */
  method KillText(rows: seq<Text>, c: Columns) returns (d: Text)
    requires rows != [] && Proper(c)
    ensures d == Join(KeptRows(rows, c))
  {
    hide SnapFwd, SnapBack, Join;
    d := [];
    ghost var kept := KeptRows(rows, c);
    for y := 0 to |rows|
      invariant d == if y == 0 then [] else Join(kept[..y])
    {
      var row := rows[y];
      if y > 0 { d := d + [NL]; }
      var s := RectSnapFwd(row, c.left);
      var e := RectSnapBack(row, c.right);
      SnapAtZero(row, c);
      if e < s { e := s; }
      var n := if s > |row| then |row| else s;
      ghost var before := d;
      d := d + row[..n];
      if e < n { e := n; }
      if e < |row| { d := d + row[e..]; }
      assert d == before + Kept(row, c);
      JoinNext(kept, y);
    }
    assert kept[..|rows|] == kept;
  }

  lemma JoinNext(rows: seq<Text>, y: nat)
    requires y < |rows|
    ensures Join(rows[..y + 1]) == if y == 0 then rows[0] else Join(rows[..y]) + [NL] + rows[y]
  {
    hide Join;
    var upTo := rows[..y + 1];
    if y == 0 {
      assert upTo == [rows[0]];
      JoinOfOne(rows[0]);
    } else {
      JoinOfMore(upTo);
      assert upTo[..y] == rows[..y];
    }
  }

  /** The text of the rows with the rectangle put in at column `x`. */
  method YankText(rows: seq<Text>, x: nat, r: Rect) returns (d: Text)
    requires rows != [] && |rows| == |r.cells|
    ensures d == Join(YankedRows(rows, x, r))
  {
    hide Yanked, Join;
    d := [];
    ghost var new' := YankedRows(rows, x, r);
    for y := 0 to |rows|
      invariant d == if y == 0 then [] else Join(new'[..y])
    {
      if y > 0 { d := d + [NL]; }
      d := AppendYanked(d, rows[y], x, r.cells[y]);
      JoinNext(new', y);
    }
    assert new'[..|rows|] == new';
  }

  method AppendYanked(before: Text, row: Text, x: nat, slice: Text) returns (d: Text)
    ensures d == before + Yanked(row, x, slice)
  {
    hide SnapFwd;
    var ins := RectSnapFwd(row, x);
    SnapAtZero(row, Columns(x, x));
    var n := if |row| < ins then |row| else ins;
    d := before + row[..n];
    var pad := x - n;
    if pad > 0 { d := d + Spaces(pad); }
    d := d + slice;
    if n < |row| { d := d + row[n..]; }
    YankedPieces(before, row, x, slice, n, d);
  }

  lemma YankedPieces(before: Text, row: Text, x: nat, slice: Text, n: nat, d: Text)
    requires n == if |row| < SnapFwd(row, x) then |row| else SnapFwd(row, x)
    requires d == before + row[..n] + (if x > n then Spaces(x - n) else []) + slice +
                  (if n < |row| then row[n..] else [])
    ensures d == before + Yanked(row, x, slice)
  {
  }
}
