/** The sub-lines of one row, and the walkers that number them. */
module Sublines {
  import opened Text
  import opened Utf8
  import opened Geometry
  import opened Wrap

  predicate WideEnough(scr: Screen) {
    TAB_STOP <= scr.cols
  }

  /** Where each screen line of a row starts, from the one that starts at `p` on. */
  function SublinesFrom(scr: Screen, s: Text, p: Place): (starts: seq<Place>)
    requires WideEnough(scr) && p.byte <= |s|
    ensures |starts| > 0 && starts[0] == p
    decreases |s| - p.byte
  {
    SoundIffFirstFits(scr, s, p);
    var b := BreakFrom(scr, s, p);
    [p] + if b.more then SublinesFrom(scr, s, b.end) else []
  }

  function SublinesOf(scr: Screen, s: Text): (starts: seq<Place>)
    requires WideEnough(scr)
    ensures |starts| > 0 && starts[0] == START
  {
    SublinesFrom(scr, s, START)
  }

  /** First byte past the sub-line with index `k`. */
  function EndOf(s: Text, starts: seq<Place>, k: nat): nat
    requires k < |starts|
  {
    if k + 1 < |starts| then starts[k + 1].byte else |s|
  }

  /** First column past it. */
  function EndColumn(scr: Screen, s: Text, starts: seq<Place>, k: nat): nat
    requires k < |starts|
  {
    if k + 1 < |starts| then starts[k + 1].col else LineWidth(scr.wc, s)
  }

  /** The bytes of all the sub-lines, one after the other. */
  function Cover(s: Text, starts: seq<Place>): Text
    requires forall k | 0 <= k < |starts| :: starts[k].byte <= EndOf(s, starts, k) <= |s|
  {
    if starts == [] then []
    else
      assert forall k | 0 <= k < |starts| - 1 :: EndOf(s, starts[1..], k) == EndOf(s, starts, k + 1);
      s[starts[0].byte..EndOf(s, starts, 0)] + Cover(s, starts[1..])
  }

  // ---- Laws --------------------------------------------------------------

  /** Each sub-line is what the breaker says, and there is a next one just when the
      breaker says so. */
  lemma {:induction false} SublineIsBreak(scr: Screen, s: Text, p: Place, k: nat)
    requires WideEnough(scr) && p.byte <= |s| && k < |SublinesFrom(scr, s, p)|
    ensures var starts := SublinesFrom(scr, s, p);
            var b := BreakFrom(scr, s, starts[k]);
            starts[k].byte <= |s| && Reaches(scr, s, p, starts[k]) && SoundBreak(scr, s, starts[k]) &&
            (b.more <==> k + 1 < |starts|) && (b.more ==> starts[k + 1] == b.end)
    decreases |s| - p.byte
  {
    hide BreakFrom, CellWidth;
    SoundIffFirstFits(scr, s, p);
    var b := BreakFrom(scr, s, p);
    if b.more {
      if k > 0 {
        SublineIsBreak(scr, s, b.end, k - 1);
        ReachesOn(scr, s, p, b.end, SublinesFrom(scr, s, p)[k]);
      }
    }
  }

  /** Every sub-line starts at a character, in the column where the unwrapped row would
      show it, holds at least one character unless the row is empty, and is no wider than
      the screen. */
  lemma SublinesAreSound(scr: Screen, s: Text, k: nat)
    requires WideEnough(scr) && k < |SublinesOf(scr, s)|
    ensures var starts := SublinesOf(scr, s);
            (starts[k].byte < EndOf(s, starts, k) <= |s| || s == []) &&
            starts[k].col == DisplayColumn(scr.wc, s, starts[k].byte) &&
            starts[k].col <= EndColumn(scr, s, starts, k) &&
            EndColumn(scr, s, starts, k) - starts[k].col <= scr.cols &&
            EndColumn(scr, s, starts, k) == DisplayColumn(scr.wc, s, EndOf(s, starts, k)) &&
            (ValidUtf8(s) ==> starts[k].byte <= |s| && Boundary(s, starts[k].byte))
  {
    hide BreakFrom, CellWidth, ValidUtf8, SublinesFrom;
    var starts := SublinesOf(scr, s);
    SublineIsBreak(scr, s, START, k);
    ReachesIsWalk(scr, s, START, starts[k]);
    WalkSplits(scr, s, START, starts[k], |s|);
    if k + 1 < |starts| {
      SublineIsBreak(scr, s, START, k + 1);
      ReachesForward(scr, s, starts[k], starts[k + 1]);
      ReachesIsWalk(scr, s, START, starts[k + 1]);
    }
    if ValidUtf8(s) {
      if s != [] { ValidStartsCharacter(s); }
      ReachesBoundary(scr, s, START, starts[k]);
    }
    if starts[k].byte == |s| && s != [] { NonEmptySubline(scr, s, START, k); }
  }

  lemma {:induction false} NonEmptySubline(scr: Screen, s: Text, p: Place, k: nat)
    requires WideEnough(scr) && p.byte < |s| && k < |SublinesFrom(scr, s, p)|
    ensures SublinesFrom(scr, s, p)[k].byte < |s|
    decreases |s| - p.byte
  {
    hide BreakFrom, CellWidth;
    SoundIffFirstFits(scr, s, p);
    if k > 0 { NonEmptySubline(scr, s, BreakFrom(scr, s, p).end, k - 1); }
  }

  lemma {:induction false} SublinesInOrder(scr: Screen, s: Text, p: Place)
    requires WideEnough(scr) && p.byte <= |s|
    ensures var starts := SublinesFrom(scr, s, p);
            forall k | 0 <= k < |starts| :: starts[k].byte <= EndOf(s, starts, k) <= |s|
  {
    hide BreakFrom, CellWidth, SublinesFrom;
    var starts := SublinesFrom(scr, s, p);
    forall k | 0 <= k < |starts| ensures starts[k].byte <= EndOf(s, starts, k) <= |s| {
      SublineIsBreak(scr, s, p, k);
    }
  }

  /** The sub-lines partition the row. */
  lemma {:induction false} SublinesTile(scr: Screen, s: Text, p: Place)
    requires WideEnough(scr) && p.byte <= |s|
    ensures forall k | 0 <= k < |SublinesFrom(scr, s, p)| ::
              SublinesFrom(scr, s, p)[k].byte <= EndOf(s, SublinesFrom(scr, s, p), k) <= |s|
    ensures Cover(s, SublinesFrom(scr, s, p)) == s[p.byte..]
    decreases |s| - p.byte
  {
    hide BreakFrom, CellWidth;
    SublinesInOrder(scr, s, p);
    SoundIffFirstFits(scr, s, p);
    var starts, b := SublinesFrom(scr, s, p), BreakFrom(scr, s, p);
    if b.more {
      SublinesTile(scr, s, b.end);
      assert starts[1..] == SublinesFrom(scr, s, b.end);
    } else {
      assert starts[1..] == [];
    }
  }

  lemma RowIsItsSublines(scr: Screen, s: Text)
    requires WideEnough(scr)
    ensures forall k | 0 <= k < |SublinesOf(scr, s)| ::
              SublinesOf(scr, s)[k].byte <= EndOf(s, SublinesOf(scr, s), k) <= |s|
    ensures Cover(s, SublinesOf(scr, s)) == s
  {
    SublinesTile(scr, s, START);
  }

  // ---- The walkers -------------------------------------------------------

  method CountScreenLines(scr: Screen, s: Text) returns (lines: nat)
    requires WideEnough(scr)
    ensures lines == |SublinesOf(scr, s)|
  {
    hide BreakFrom, CellWidth;
    if s == [] {
      SoundIffFirstFits(scr, s, START);
      return 1;
    }
    lines := 0;
    var p := START;
    while true
      invariant p.byte < |s|
      invariant lines + |SublinesFrom(scr, s, p)| == |SublinesOf(scr, s)|
      decreases |s| - p.byte
    {
      SoundIffFirstFits(scr, s, p);
      var more, end := WordWrapBreak(scr, s, p);
      lines := lines + 1;
      if !more { break; }
      p := end;
      if p.byte >= |s| { break; }
    }
  }

  method SublineBounds(scr: Screen, s: Text, target: nat) returns (found: bool, from: nat, to: nat)
    requires WideEnough(scr)
    ensures found <==> target < |SublinesOf(scr, s)|
    ensures found ==> from == SublinesOf(scr, s)[target].byte && to == EndOf(s, SublinesOf(scr, s), target)
    ensures !found ==> from == to == |s|
  {
    hide BreakFrom, CellWidth, SublinesFrom;
    var p := START;
    for k := 0 to target
      invariant k < |SublinesOf(scr, s)| && p == SublinesOf(scr, s)[k]
    {
      SublineIsBreak(scr, s, START, k);
      var more, end := WordWrapBreak(scr, s, p);
      if !more { return false, |s|, |s|; }
      p := end;
    }
    SublineIsBreak(scr, s, START, target);
    from := p.byte;
    var more, end := WordWrapBreak(scr, s, p);
    to := if !more then |s| else end.byte;
    found := true;
  }

  /** Sub-line `k` shows column `col` of the row: the column is in it, or it is the last. */
  predicate ShowsColumn(starts: seq<Place>, k: nat, col: nat)
    requires k < |starts|
  {
    (forall j | 0 < j <= k :: starts[j].col <= col) && (k + 1 < |starts| ==> col < starts[k + 1].col)
  }

  lemma ShowsOneLine(starts: seq<Place>, j: nat, k: nat, col: nat)
    requires j < |starts| && k < |starts| && ShowsColumn(starts, j, col) && ShowsColumn(starts, k, col)
    ensures j == k
  {
  }

  method CursorScreenLine(scr: Screen, s: Text, cursorCol: nat) returns (line: nat, col: int)
    requires WideEnough(scr)
    ensures line < |SublinesOf(scr, s)| && ShowsColumn(SublinesOf(scr, s), line, cursorCol)
    ensures col == cursorCol - SublinesOf(scr, s)[line].col >= 0
  {
    hide BreakFrom, CellWidth, SublinesFrom;
    line, col := 0, 0;
    SublineIsBreak(scr, s, START, 0);
    if s == [] { return 0, cursorCol; }
    var p := START;
    while p.byte < |s|
      invariant line < |SublinesOf(scr, s)| && p == SublinesOf(scr, s)[line]
      invariant p.byte < |s| && p.col <= cursorCol
      invariant forall j | 0 < j <= line :: SublinesOf(scr, s)[j].col <= cursorCol
      decreases |s| - p.byte
    {
      SublineIsBreak(scr, s, START, line);
      var more, end := WordWrapBreak(scr, s, p);
      if cursorCol < end.col || !more { return line, cursorCol - p.col; }
      line, p := line + 1, end;
    }
  }

  /** Byte `b` is where column `target` of the sub-line between `start` and byte `to` is:
      the first place whose character would pass the column, or the sub-line's end. */
  ghost predicate Located(scr: Screen, s: Text, start: Place, to: nat, target: int, b: nat) {
    exists q: Place :: q.byte == b && Reaches(scr, s, start, q) && (q == start || q.col - start.col <= target) &&
                (b >= to || (b < |s| && Next(scr, s, q).col - start.col > target))
  }

  /** What this walk charges for a character; it differs from the rest of the program in
      giving a NUL one column. */
  function ColumnsHere(scr: Screen, s: Text, i: nat, col: nat): nat
    requires i < |s|
  {
    if s[i] == TAB then TAB_STOP - col % TAB_STOP
    else if IsControl(s[i]) then 2
    else if s[i] < 0x80 then 1
    else CharInStringWidth(scr.wc, s, i)
  }

  lemma ColumnsAgree(scr: Screen, s: Text, i: nat, col: nat)
    requires i < |s|
    ensures ColumnsHere(scr, s, i, col) == CellWidth(scr.wc, s, i, col) <==> s[i] != 0
  {
  }

  method DisplayColumnToByteOffset(scr: Screen, s: Text, line: nat, target: int) returns (b: nat)
    requires WideEnough(scr)
    ensures line >= |SublinesOf(scr, s)| ==> b == |s|
    ensures line < |SublinesOf(scr, s)| && 0 !in s ==>
              Located(scr, s, SublinesOf(scr, s)[line], EndOf(s, SublinesOf(scr, s), line), target, b)
  {
    hide BreakFrom, CellWidth, SublinesFrom, ColumnsHere;
    ghost var starts := SublinesOf(scr, s);
    if s == [] {
      SublineIsBreak(scr, s, START, 0);
      SoundIffFirstFits(scr, s, START);
      assert Reaches(scr, s, START, START);
      return 0;
    }
    var start := START;
    for k := 0 to line
      invariant k < |starts| && start == starts[k]
    {
      SublineIsBreak(scr, s, START, k);
      var more, end := WordWrapBreak(scr, s, start);
      if !more { return |s|; }
      start := end;
    }
    SublineIsBreak(scr, s, START, line);
    var more, end := WordWrapBreak(scr, s, start);
    var to := if more then end.byte else |s|;
    var p := start;
    while p.byte < to
      invariant 0 !in s ==> Reaches(scr, s, start, p) && (p == start || p.col - start.col <= target)
      decreases |s| - p.byte
    {
      var width := ColumnsHere(scr, s, p.byte, p.col);
      ColumnsAgree(scr, s, p.byte, p.col);
      if p.col - start.col + width > target { break; }
      if 0 !in s { ReachesNext(scr, s, start, p); }
      p := Place(p.byte + NBytes(s[p.byte]), p.col + width);
    }
    b := p.byte;
  }

  // ---- Locating the cursor and mapping back -------------------------------

  /** Going from a character to its screen line and column there, and from those back to
      a byte, arrives at the same display column; and at the same byte when every
      character has some width. */
  lemma LocatingRoundTrips(scr: Screen, s: Text, q: Place, line: nat, b: nat)
    requires WideEnough(scr) && Reaches(scr, s, START, q) && q.byte <= |s|
    requires line < |SublinesOf(scr, s)| && ShowsColumn(SublinesOf(scr, s), line, q.col)
    requires var starts := SublinesOf(scr, s);
             Located(scr, s, starts[line], EndOf(s, starts, line), q.col - starts[line].col, b)
    ensures DisplayColumn(scr.wc, s, b) == q.col
    ensures (forall i, col: nat | 0 <= i < |s| :: CellWidth(scr.wc, s, i, col) > 0) ==>
              b == q.byte && SublinesOf(scr, s)[line].byte <= b <= EndOf(s, SublinesOf(scr, s), line)
  {
    hide BreakFrom, CellWidth, SublinesFrom;
    var starts := SublinesOf(scr, s);
    var start, to := starts[line], EndOf(s, starts, line);
    SublineIsBreak(scr, s, START, line);
    var r: Place :| r.byte == b && Reaches(scr, s, start, r) &&
                    (r == start || r.col - start.col <= q.col - start.col) &&
             (b >= to || (b < |s| && Next(scr, s, r).col - start.col > q.col - start.col));
    ReachesOn(scr, s, START, start, r);
    if line + 1 < |starts| {
      SublineIsBreak(scr, s, START, line + 1);
    }
    SameColumn(scr, s, q, r, to, if line + 1 < |starts| then starts[line + 1] else r);
    ReachesIsWalk(scr, s, START, r);
    if forall i, col: nat | 0 <= i < |s| :: CellWidth(scr.wc, s, i, col) > 0 {
      WidthsSeparate(scr, s, q, r);
      ReachesForward(scr, s, start, r);
      if line + 1 < |starts| && r.byte > to { ReachesInOrder(scr, s, START, starts[line + 1], r); }
    }
  }

  lemma SameColumn(scr: Screen, s: Text, q: Place, r: Place, to: nat, end: Place)
    requires Reaches(scr, s, START, q) && Reaches(scr, s, START, r) && q.byte <= |s|
    requires r.col <= q.col
    requires r.byte >= to || (r.byte < |s| && Next(scr, s, r).col > q.col)
    requires to == |s| || (end.byte == to && q.col < end.col && Reaches(scr, s, START, end))
    ensures r.col == q.col
  {
    hide CellWidth;
    if q.byte <= r.byte {
      ReachesInOrder(scr, s, START, q, r);
    } else {
      ReachesInOrder(scr, s, START, r, q);
      if r.byte < to {
        ReachesForward(scr, s, Next(scr, s, r), q);
      } else if to < |s| {
        ReachesInOrder(scr, s, START, end, r);
      }
    }
  }

  lemma WidthsSeparate(scr: Screen, s: Text, q: Place, r: Place)
    requires forall i, col: nat | 0 <= i < |s| :: CellWidth(scr.wc, s, i, col) > 0
    requires Reaches(scr, s, START, q) && Reaches(scr, s, START, r) && q.col == r.col
    ensures q == r
  {
    hide CellWidth;
    var a, b := if q.byte <= r.byte then q else r, if q.byte <= r.byte then r else q;
    ReachesInOrder(scr, s, START, a, b);
    if a != b { ReachesForward(scr, s, Next(scr, s, a), b); }
  }
}
