/** The row array of a buffer (struct erow and the row primitives): rows with spare
    capacity, a terminating NUL and a cached display width, spliced in place. */
module RowStore {
  import opened Text
  import opened Geometry
  import opened Lines
  import opened Utf8

  /** One row slot.  `chars` holds `size` bytes of text, a NUL, and spare capacity. */
  datatype Erow = Erow(size: nat, chars: array?<byte>, cachedWidth: int)

  const STALE := -1

  /** The slot holds `line`: in place, NUL-terminated within capacity, and with a cached
      width that is either stale or right. */
  ghost predicate Holds(wc: WcWidth, e: Erow, line: Text)
    reads e.chars
  {
    e.chars != null && e.size == |line| && e.size < e.chars.Length &&
    e.chars[..e.size] == line && e.chars[e.size] == 0 &&
    (e.cachedWidth == STALE || e.cachedWidth == LineWidth(wc, line))
  }

  class Rows {
    ghost var Lines: seq<Text>
    ghost var Repr: set<object>
    const wc: WcWidth
    var row: array<Erow>
    var numrows: nat

    ghost predicate Shape()
      reads this, Repr
    {
      this in Repr && row in Repr && numrows == |Lines| <= row.Length &&
      (forall i | 0 <= i < numrows :: row[i].chars != null && row[i].chars in Repr) &&
      (forall i, j | 0 <= i < j < numrows :: row[i].chars != row[j].chars)
    }

    ghost predicate Valid()
      reads this, Repr
      ensures Valid() ==> this in Repr && |Lines| == numrows
    {
      Shape() && forall i | 0 <= i < numrows :: Holds(wc, row[i], Lines[i])
    }

    /** Row `y` may be in the middle of being rewritten. */
    ghost predicate ValidExcept(y: nat)
      reads this, Repr
    {
      Shape() && forall i | 0 <= i < numrows && i != y :: Holds(wc, row[i], Lines[i])
    }

    constructor (wc: WcWidth)
      ensures Valid() && fresh(Repr)
      ensures Lines == [] && this.wc == wc
    {
      this.wc := wc;
      row := new Erow[0](_ => Erow(0, null, STALE));
      numrows := 0;
      Lines := [];
      new;
      Repr := {this, row};
    }

    function Size(y: nat): (n: nat)
      requires Valid() && y < numrows
      reads this, Repr
      ensures n == |Lines[y]|
    {
      assert Holds(wc, row[y], Lines[y]);
      row[y].size
    }

    function CharAt(y: nat, x: nat): (b: byte)
      requires Valid() && y < numrows && x < |Lines[y]|
      reads this, Repr
      ensures b == Lines[y][x]
    {
      assert Holds(wc, row[y], Lines[y]);
      assert row[y].chars[..row[y].size][x] == Lines[y][x];
      row[y].chars[x]
    }

    /** Room for one more row. */
    method EnsureRowCap()
      requires Valid()
      modifies this, row
      ensures Valid() && fresh(Repr - old(Repr))
      ensures Lines == old(Lines) && numrows == old(numrows) < row.Length
    {
      if numrows < row.Length { return; }
      var newCap := if row.Length == 0 then 16 else row.Length * 2;
      var oldRow, n := row, numrows;
      var bigger := new Erow[newCap](i requires 0 <= i < newCap reads oldRow =>
                                       if i < oldRow.Length then oldRow[i] else Erow(0, null, STALE));
      row := bigger;
      Repr := Repr + {bigger};
    }

    /** A fresh slot holding `s`. */
    method NewSlot(s: Text) returns (e: Erow)
      ensures e.chars != null && fresh(e.chars) && Holds(wc, e, s)
    {
      var chars := new byte[|s| + 1];
      forall i | 0 <= i < |s| { chars[i] := s[i]; }
      chars[|s|] := 0;
      assert chars[..|s|] == s;
      e := Erow(|s|, chars, STALE);
    }

    method InsertRow(at: int, s: Text)
      requires Valid()
      modifies Repr
      ensures Valid() && fresh(Repr - old(Repr))
      ensures Lines == if 0 <= at <= |old(Lines)| then old(Lines)[..at] + [s] + old(Lines)[at..] else old(Lines)
    {
      if at < 0 || at > numrows { return; }
      EnsureRowCap();
      var slot := NewSlot(s);
      PlaceSlot(at, slot, s);
    }

    /** Shift the slots from `at` on by one and put `slot` there. */
    method PlaceSlot(at: nat, slot: Erow, ghost s: Text)
      requires Valid() && at <= numrows < row.Length
      requires Holds(wc, slot, s) && slot.chars !in Repr
      modifies this, row
      ensures Valid() && Repr == old(Repr) + {slot.chars}
      ensures Lines == old(Lines)[..at] + [s] + old(Lines)[at..]
    {
      assert slot.chars != null;
      hide Holds;
      ghost var n, lines := numrows, Lines;
      ShiftIn(row, at, numrows, slot);
      numrows := numrows + 1;
      Lines := Lines[..at] + [s] + Lines[at..];
      Repr := Repr + {slot.chars};
      assert forall i, j | 0 <= i < j <= n :: row[i].chars != row[j].chars;
      forall i | 0 <= i <= n
        ensures row[i].chars != null && row[i].chars in Repr && Holds(wc, row[i], Lines[i])
      {
        if i > at { assert old(Holds(wc, row[i - 1], Lines[i - 1])) && Lines[i] == lines[i - 1]; }
      }
    }

    static method ShiftIn(row: array<Erow>, at: nat, n: nat, slot: Erow)
      requires at <= n < row.Length
      modifies row
      ensures forall i | 0 <= i <= n ::
                row[i] == if i < at then old(row[i]) else if i == at then slot else old(row[i - 1])
    {
      forall i | at < i <= n { row[i] := row[i - 1]; }
      row[at] := slot;
    }

    method DelRow(at: int)
      requires Valid()
      modifies Repr
      ensures Valid() && fresh(Repr - old(Repr))
      ensures Lines == if 0 <= at < |old(Lines)| then old(Lines)[..at] + old(Lines)[at + 1..] else old(Lines)
    {
      if at < 0 || at >= numrows { return; }
      ghost var was := Lines;
      if at != numrows - 1 {
        forall i | at <= i < numrows - 1 { row[i] := row[i + 1]; }
      }
      numrows := numrows - 1;
      Lines := was[..at] + was[at + 1..];
    }

    /** Drop every row; only while a buffer is being loaded. */
    method Reset()
      requires Valid()
      modifies this
      ensures Valid() && Repr == old(Repr)
      ensures Lines == []
    {
      numrows := 0;
      Lines := [];
    }

    /** Put a slot in place of row `y`. */
    method SetSlot(y: nat, e: Erow, ghost line: Text)
      requires y < numrows && ValidExcept(y)
      requires Holds(wc, e, line)
      requires e.chars == row[y].chars || e.chars !in Repr
      modifies this, row
      ensures Valid() && Repr == old(Repr) + {e.chars}
      ensures Lines == old(Lines)[y := line] && row == old(row) && row[y] == e
    {
      row[y] := e;
      Lines := Lines[y := line];
      Repr := Repr + {e.chars};
    }

    /** Room for `needed` bytes in row `y`: twice the capacity, at least 16, or straight to
        `needed`. */
    method EnsureCap(y: nat, needed: nat)
      requires Valid() && y < numrows
      modifies Repr
      ensures Valid() && fresh(Repr - old(Repr))
      ensures Lines == old(Lines) && numrows == old(numrows) && row == old(row)
      ensures row[y].chars != null && row[y].chars.Length >= needed
    {
      var e := row[y];
      assert Holds(wc, e, Lines[y]);
      if needed <= e.chars.Length { return; }
      var newCap := if e.chars.Length < 16 then 16 else e.chars.Length * 2;
      if newCap < needed { newCap := needed; }
      var chars := new byte[newCap];
      var oldChars := e.chars;
      forall i | 0 <= i < oldChars.Length { chars[i] := oldChars[i]; }
      assert chars[..e.size] == oldChars[..e.size];
      SetSlot(y, Erow(e.size, chars, e.cachedWidth), Lines[y]);
      assert Lines == old(Lines);
    }

    /** memmove within one allocation. */
    static method MoveBytes(chars: array<byte>, to: nat, from: nat, n: nat)
      requires to + n <= chars.Length && from + n <= chars.Length
      modifies chars
      ensures forall j | 0 <= j < chars.Length ::
                chars[j] == old(if to <= j < to + n then chars[from + (j - to)] else chars[j])
    {
      forall i | 0 <= i < n { chars[to + i] := chars[from + i]; }
    }

    static method CopyBytes(chars: array<byte>, to: nat, data: Text)
      requires to + |data| <= chars.Length
      modifies chars
      ensures forall j | 0 <= j < chars.Length ::
                chars[j] == if to <= j < to + |data| then data[j - to] else old(chars[j])
    {
      forall i | 0 <= i < |data| { chars[to + i] := data[i]; }
    }

    /** Open a gap at byte `x` of row `y`, its NUL moving too, and copy `data` into it. */
    method InsertBytes(y: nat, x: nat, data: Text)
      requires Valid() && y < numrows && x <= |Lines[y]|
      modifies Repr
      ensures Valid() && fresh(Repr - old(Repr))
      ensures Lines == old(Lines)[y := old(Lines)[y][..x] + data + old(Lines)[y][x..]]
    {
      EnsureCap(y, Size(y) + |data| + 1);
      var e := row[y];
      assert Holds(wc, e, Lines[y]);
      FillGap(e, x, data, Lines[y]);
      SetSlot(y, Erow(e.size + |data|, e.chars, STALE), Lines[y][..x] + data + Lines[y][x..]);
    }

    method FillGap(e: Erow, x: nat, data: Text, ghost line: Text)
      requires Holds(wc, e, line) && x <= e.size && e.size + |data| < e.chars.Length
      modifies e.chars
      ensures Holds(wc, Erow(e.size + |data|, e.chars, STALE), line[..x] + data + line[x..])
    {
      assert forall k | 0 <= k < e.size :: e.chars[k] == e.chars[..e.size][k];
      MoveBytes(e.chars, x + |data|, x, e.size - x + 1);
      CopyBytes(e.chars, x, data);
      assert e.chars[..e.size + |data|] == line[..x] + data + line[x..];
    }

    /** Move the tail of row `y` and its NUL left over the bytes from `x` to `end`. */
    method DeleteBytes(y: nat, x: nat, end: nat)
      requires Valid() && y < numrows && x <= end <= |Lines[y]|
      modifies Repr
      ensures Valid() && fresh(Repr - old(Repr))
      ensures Lines == old(Lines)[y := old(Lines)[y][..x] + old(Lines)[y][end..]]
    {
      var e := row[y];
      assert Holds(wc, e, Lines[y]);
      CloseGap(e, x, end, Lines[y]);
      SetSlot(y, Erow(e.size - (end - x), e.chars, STALE), Lines[y][..x] + Lines[y][end..]);
    }

    method CloseGap(e: Erow, x: nat, end: nat, ghost line: Text)
      requires Holds(wc, e, line) && x <= end <= e.size
      modifies e.chars
      ensures Holds(wc, Erow(e.size - (end - x), e.chars, STALE), line[..x] + line[end..])
    {
      assert forall k | 0 <= k < e.size :: e.chars[k] == e.chars[..e.size][k];
      MoveBytes(e.chars, x, end, e.size - end + 1);
      assert e.chars[..e.size - (end - x)] == line[..x] + line[end..];
    }

    /** Cut row `y` at `x` and end it with `tail`, in a buffer of exactly that size. */
    method Rewrite(y: nat, x: nat, tail: Text)
      requires Valid() && y < numrows && x <= |Lines[y]|
      modifies Repr
      ensures Valid() && fresh(Repr - old(Repr))
      ensures Lines == old(Lines)[y := old(Lines)[y][..x] + tail]
    {
      var e := row[y];
      assert Holds(wc, e, Lines[y]);
      var slot := NewSlot(e.chars[..x] + tail);
      SetSlot(y, slot, Lines[y][..x] + tail);
    }

    /** The bytes of row `y` from `x` on. */
    method Suffix(y: nat, x: nat) returns (s: Text)
      requires Valid() && y < numrows && x <= |Lines[y]|
      ensures s == Lines[y][x..]
    {
      assert Holds(wc, row[y], Lines[y]);
      s := row[y].chars[x..row[y].size];
    }

    // ---- Measuring and reading (nothing is changed but the width cache) ----

    /** Total display width of a row, cached. */
    method CalculateLineWidth(y: nat) returns (w: int)
      requires Valid() && y < numrows
      modifies Repr
      ensures Valid() && Repr == old(Repr) && Lines == old(Lines)
      ensures w == LineWidth(wc, Lines[y])
    {
      var e := row[y];
      assert Holds(wc, e, Lines[y]);
      if e.cachedWidth >= 0 { return e.cachedWidth; }
      w := WalkLineWidth(e.chars[..e.size]);
      SetSlot(y, e.(cachedWidth := w), Lines[y]);
      assert Lines == old(Lines);
    }

    /** Display column of a byte offset; at or past the end it is the cached row width. */
    method CharsToDisplayColumn(y: nat, pos: int) returns (col: nat)
      requires Valid() && y < numrows
      modifies Repr
      ensures Valid() && Repr == old(Repr) && Lines == old(Lines)
      ensures col == DisplayColumn(wc, Lines[y], pos)
    {
      hide Walk;
      if pos < 0 { return 0; }
      if pos >= Size(y) {
        var w := CalculateLineWidth(y);
        WalkStopsAtTheEnd(wc, Lines[y], 0, 0, pos);
        return w;
      }
      var line := Suffix(y, 0);
      assert line == Lines[y];
      col := WalkToColumn(wc, line, pos);
    }

    method WalkLineWidth(line: Text) returns (w: nat)
      ensures w == LineWidth(wc, line)
    {
      hide CellWidth, NBytes;
      w := 0;
      var i := 0;
      while i < |line|
        invariant Walk(wc, line, i, w, |line|) == LineWidth(wc, line)
        decreases |line| - i
      {
        w, i := w + CellWidth(wc, line, i, w), i + NBytes(line[i]);
      }
    }

    method BufTextLen() returns (total: nat)
      requires Valid() && numrows >= 1
      ensures total == |Join(Lines)|
    {
      total := 0;
      for i := 0 to numrows
        invariant total + i == |Ended(Lines[..i])|
      {
        total := total + Size(i);
        assert Lines[..i + 1][..i] == Lines[..i];
      }
      assert Lines[..numrows] == Lines;
      if numrows > 1 { total := total + numrows - 1; }
    }

    method BufOffset(p: Pos) returns (off: nat)
      requires Valid() && numrows >= 1
      ensures off == GridOffset(Lines, ClampedToGrid(Lines, p))
    {
      var cx, cy := p.x, p.y;
      if cy < 0 { return 0; }
      if cy > numrows - 1 { cy := numrows - 1; }
      off := 0;
      for i := 0 to cy
        invariant off == |Ended(Lines[..i])|
      {
        off := off + Size(i) + 1;
        assert Lines[..i + 1][..i] == Lines[..i];
      }
      if cx < 0 { cx := 0; }
      if cx > Size(cy) { cx := Size(cy); }
      off := off + cx;
    }

    /** The inverse of `BufOffset`; past the end it is the last place. */
    method BufPos(off: nat) returns (p: Pos)
      requires Valid() && numrows >= 1
      ensures OnGrid(Lines, p)
      ensures if off <= |Join(Lines)| then GridOffset(Lines, p) == off else p == LastPlace(Lines)
    {
      var walked := 0;
      for i := 0 to numrows
        invariant walked == |Ended(Lines[..i])| <= off
      {
        var rowlen := Size(i);
        if off <= walked + rowlen {
          p := Pos(off - walked, i);
          assert GridOffset(Lines, p) == off;
          return;
        }
        walked := walked + rowlen + 1;
        assert Lines[..i + 1][..i] == Lines[..i];
      }
      assert Lines[..numrows] == Lines;
      p := Pos(Size(numrows - 1), numrows - 1);
    }

    /** The text between two places, newlines included. */
    method CollectRegionText(s: Pos, e: Pos) returns (d: Text)
      requires Valid() && OnGrid(Lines, s) && OnGrid(Lines, e) && !Before(e, s)
      ensures GridOffset(Lines, s) <= GridOffset(Lines, e)
      ensures d == Join(Lines)[GridOffset(Lines, s)..GridOffset(Lines, e)]
    {
      hide Join, GridOffset;
      GridOrder(Lines, s, e);
      var p := s;
      d := [];
      while p != e
        invariant OnGrid(Lines, p) && !Before(e, p)
        invariant GridOffset(Lines, s) <= GridOffset(Lines, p) <= GridOffset(Lines, e)
        invariant d == Join(Lines)[GridOffset(Lines, s)..GridOffset(Lines, p)]
        decreases GridOffset(Lines, e) - GridOffset(Lines, p)
      {
        if p.y > e.y || p.y >= numrows { break; }
        RegionGrows(Lines, s, p, e);
        if p.x >= Size(p.y) {
          d := d + [NL];
          p := Pos(0, p.y + 1);
        } else {
          d := d + [CharAt(p.y, p.x)];
          p := Pos(p.x + 1, p.y);
        }
      }
    }

    /** The buffer as one NUL-terminated string. */
    method RowsToString() returns (buf: array<byte>, len: nat)
      requires Valid() && numrows >= 1
      ensures fresh(buf) && buf.Length == len + 1 && buf[len] == 0
      ensures buf[..len] == Join(Lines)
    {
      hide Join, Ended;
      len := BufTextLen();
      buf := new byte[len + 1];
      var p: nat := 0;
      for j := 0 to numrows
        invariant Emitted(buf[..], p, j)
        modifies buf
      {
        p := EmitRow(buf, p, j);
      }
      RowInJoin(Lines, numrows - 1);
      assert Lines[..numrows] == Lines;
      buf[p] := 0;
    }

    /** The first `j` rows, with a newline before each but the first, are in place. */
    ghost predicate Emitted(buf: Text, p: nat, j: nat)
      requires Lines != [] && j <= |Lines|
      reads this
    {
      p <= |buf| && p <= |Join(Lines)| && buf[..p] == Join(Lines)[..p] &&
      p == if j == 0 then 0 else |Ended(Lines[..j])| - 1
    }

    method EmitRow(buf: array<byte>, at: nat, j: nat) returns (p: nat)
      requires Valid() && j < numrows && buf !in Repr && buf.Length == |Join(Lines)| + 1
      requires Emitted(buf[..], at, j)
      modifies buf
      ensures Emitted(buf[..], p, j + 1)
    {
      hide Join, Ended;
      RowInJoin(Lines, j);
      EndedOfNone();
      p := at;
      ghost var t := Join(Lines);
      assert buf[..p] == t[..p];
      if j > 0 {
        AppendBytes(buf, p, [NL], t);
        p := p + 1;
      }
      var line := Suffix(j, 0);
      AppendBytes(buf, p, line, t);
      p := p + |line|;
    }

    /** Copy the next stretch of `t` behind the part of it already there. */
    static method AppendBytes(buf: array<byte>, p: nat, data: Text, ghost t: Text)
      requires p + |data| <= |t| && p + |data| <= buf.Length
      requires buf[..p] == t[..p] && data == t[p..p + |data|]
      modifies buf
      ensures buf[..p + |data|] == t[..p + |data|]
    {
      assert forall k | 0 <= k < p :: buf[k] == buf[..p][k];
      CopyBytes(buf, p, data);
    }
  }
}
