/** The screen lines of a whole buffer, numbered from its first to its last, and the
    walker that steps through them. */
module ScreenLines {
  import opened Text
  import opened Geometry
  import opened Wrap
  import opened Sublines

  /** What the viewport code reads: the rows, whether they wrap, and the screen. */
  datatype View = View(scr: Screen, rows: seq<Text>, wrap: bool)

  predicate Viewable(v: View) {
    v.rows != [] && (v.wrap ==> WideEnough(v.scr))
  }

  /** A row and a sub-line of it; the sub-line need not exist. */
  datatype Line = Line(row: nat, sub: nat)

  function StartsOf(v: View, row: nat): (starts: seq<Place>)
    requires Viewable(v) && row < |v.rows|
    ensures |starts| > 0 && starts[0] == START
  {
    if v.wrap then SublinesOf(v.scr, v.rows[row]) else [START]
  }

  function Count(v: View, row: nat): (n: nat)
    requires Viewable(v) && row < |v.rows|
    ensures n > 0
    ensures !v.wrap ==> n == 1
  {
    |StartsOf(v, row)|
  }

  predicate IsLine(v: View, l: Line)
    requires Viewable(v)
  {
    l.row < |v.rows| && l.sub < Count(v, l.row)
  }

  /** Screen lines above row `row`. */
  function LinesBefore(v: View, row: nat): nat
    requires Viewable(v) && row <= |v.rows|
  {
    if row == 0 then 0 else LinesBefore(v, row - 1) + Count(v, row - 1)
  }

  function Total(v: View): nat
    requires Viewable(v)
  {
    LinesBefore(v, |v.rows|)
  }

  /** Number of a line; lines that do not exist are numbered as if their row went on. */
  function IndexOf(v: View, l: Line): nat
    requires Viewable(v) && l.row < |v.rows|
  {
    LinesBefore(v, l.row) + l.sub
  }

  /** The existing line nearest to a stored one. */
  function Clamped(v: View, row: int, sub: int): (l: Line)
    requires Viewable(v)
    ensures IsLine(v, l)
    ensures 0 <= row < |v.rows| ==> l.row == row
    ensures 0 <= row < |v.rows| && 0 <= sub < Count(v, row) ==> l == Line(row, sub)
  {
    var r := if row < 0 then 0 else if row > |v.rows| - 1 then |v.rows| - 1 else row;
    Line(r, if sub < 0 then 0 else if sub >= Count(v, r) then Count(v, r) - 1 else sub)
  }

  // ---- The numbering is one to one ---------------------------------------

  lemma {:induction false} LinesBeforeGrows(v: View, a: nat, b: nat)
    requires Viewable(v) && a <= b <= |v.rows|
    ensures LinesBefore(v, a) + b - a <= LinesBefore(v, b)
    ensures a < b ==> LinesBefore(v, a) + Count(v, a) <= LinesBefore(v, b)
    ensures !v.wrap ==> LinesBefore(v, b) == LinesBefore(v, a) + b - a
  {
    hide Count;
    if a < b { LinesBeforeGrows(v, a, b - 1); }
  }

  lemma {:induction false} IndexOrder(v: View, l: Line, m: Line)
    requires Viewable(v) && IsLine(v, l) && m.row < |v.rows|
    ensures l.row < m.row ==> IndexOf(v, l) < IndexOf(v, m)
    ensures IndexOf(v, l) < Total(v)
    ensures IsLine(v, m) && IndexOf(v, l) == IndexOf(v, m) ==> l == m
  {
    hide Count, LinesBefore;
    LinesBeforeGrows(v, l.row, |v.rows|);
    if l.row < m.row { LinesBeforeGrows(v, l.row, m.row); }
    if IsLine(v, m) && m.row < l.row { LinesBeforeGrows(v, m.row, l.row); }
  }

  /** The line with number `i`. */
  function LineAt(v: View, i: nat): (l: Line)
    requires Viewable(v) && i < Total(v)
    ensures IsLine(v, l) && IndexOf(v, l) == i
  {
    LineBelow(v, |v.rows|, i)
  }

  function LineBelow(v: View, row: nat, i: nat): (l: Line)
    requires Viewable(v) && row <= |v.rows| && i < LinesBefore(v, row)
    ensures IsLine(v, l) && IndexOf(v, l) == i
  {
    if LinesBefore(v, row - 1) <= i then Line(row - 1, i - LinesBefore(v, row - 1))
    else LineBelow(v, row - 1, i)
  }

  /** Numbering a line and looking the number up gives the line back. */
  lemma LineAtIndex(v: View, l: Line)
    requires Viewable(v) && IsLine(v, l)
    ensures IndexOf(v, l) < Total(v) && LineAt(v, IndexOf(v, l)) == l
  {
    hide Count, LinesBefore, LineAt;
    IndexOrder(v, l, l);
    IndexOrder(v, l, LineAt(v, IndexOf(v, l)));
  }

  // ---- The walker --------------------------------------------------------

  class ScreenWalk {
    const v: View
    var row: nat
    var subline: nat
    var col: nat
    var byte: nat

    ghost predicate Valid()
      reads this
    {
      Viewable(v) && IsLine(v, Line(row, subline)) && Place(byte, col) == StartsOf(v, row)[subline]
    }

    /** Number of the screen line the walk stands on. */
    ghost function Index(): nat
      reads this
      requires Valid()
    {
      IndexOf(v, Line(row, subline))
    }

    constructor (v: View, row: int, subline: int)
      requires Viewable(v)
      ensures Valid() && this.v == v
      ensures Line(this.row, this.subline) == Clamped(v, row, if v.wrap then subline else 0)
    {
      this.v := v;
      this.row := if row < 0 then 0 else if row > |v.rows| - 1 then |v.rows| - 1 else row;
      this.subline, this.col, this.byte := 0, 0, 0;
      new;
      if !v.wrap || subline <= 0 { return; }
      ghost var starts := StartsOf(v, this.row);
      ghost var r := this.row;
      while this.subline < subline
        invariant this.row == r && this.subline <= subline && Valid()
        decreases subline - this.subline
      {
        var more, end := Step();
        if !more { break; }
        this.subline, this.col, this.byte := this.subline + 1, end.col, end.byte;
      }
    }

    /** One run of the breaker from the walk's place in a wrapped row. */
    method Step() returns (more: bool, end: Place)
      requires Valid() && v.wrap
      ensures more <==> subline + 1 < Count(v, row)
      ensures more ==> end == StartsOf(v, row)[subline + 1]
    {
      hide BreakFrom, CellWidth, SublinesFrom, LinesBefore;
      SublineIsBreak(v.scr, v.rows[row], START, subline);
      more, end := WordWrapBreak(v.scr, v.rows[row], Place(byte, col));
    }

    /** Step to the next screen line; false, and no step, on the last one. */
    method Next() returns (moved: bool)
      requires Valid()
      modifies this
      ensures Valid()
      ensures moved <==> old(Index()) + 1 < Total(v)
      ensures Index() == old(Index()) + if moved then 1 else 0
    {
      hide Count, LinesBefore, StartsOf;
      LinesBeforeGrows(v, row, |v.rows|);
      LinesBeforeGrows(v, row + 1, |v.rows|);
      NextRowIndex(v, row);
      if v.wrap {
        var more, end := Step();
        if more {
          subline, col, byte := subline + 1, end.col, end.byte;
          return true;
        }
      }
      if row >= |v.rows| - 1 { return false; }
      row, subline, col, byte := row + 1, 0, 0, 0;
      moved := true;
    }
  }

  lemma NextRowIndex(v: View, row: nat)
    requires Viewable(v) && row < |v.rows|
    ensures LinesBefore(v, row + 1) == LinesBefore(v, row) + Count(v, row)
  {
  }
}
