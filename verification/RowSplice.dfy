/** The row-array part of an insertion and of a deletion (the two bulk operations of the
    undo engine), proved to insert into and delete from the flat text. */
module RowSplice {
  import opened Text
  import opened Lines
  import opened RowStore

  /** A row array that stands for a text: at least one row, none with a newline in it. */
  ghost predicate Standing(rows: Rows)
    reads rows, rows.Repr
  {
    rows.Valid() && rows.Lines != [] && NlFree(rows.Lines)
  }

  method IndexOfNewline(data: Text, from: nat) returns (i: int)
    requires from <= |data|
    ensures i == -1 ==> NL !in data[from..]
    ensures i != -1 ==> from <= i < |data| && data[i] == NL && NL !in data[from..i]
  {
    i := from;
    while i < |data|
      invariant from <= i <= |data|
      invariant NL !in data[from..i]
    {
      if data[i] == NL { return; }
      i := i + 1;
    }
    i := -1;
  }

  /** Insert `data` at (s.x, s.y): one memmove within a row, or new rows. */
  method InsertText(rows: Rows, s: Pos, data: Text)
    requires Standing(rows) && OnGrid(rows.Lines, s)
    modifies rows.Repr
    ensures Standing(rows) && fresh(rows.Repr - old(rows.Repr))
    ensures Join(rows.Lines) == Insert(old(Join(rows.Lines)), old(GridOffset(rows.Lines, s)), data)
  {
    hide Join, GridOffset, Rows.Valid;
    if |data| == 0 {
      assert Insert(Join(rows.Lines), GridOffset(rows.Lines, s), data) == Join(rows.Lines);
      return;
    }
    if s.y >= rows.numrows { return; }
    var firstNl := IndexOfNewline(data, 0);
    if firstNl == -1 {
      InsertInRow(rows.Lines, s, data);
      rows.InsertBytes(s.y, s.x, data);
    } else {
      InsertSeveralRows(rows, s, data, firstNl);
    }
  }

  method InsertSeveralRows(rows: Rows, s: Pos, data: Text, firstNl: nat)
    requires Standing(rows) && OnGrid(rows.Lines, s)
    requires firstNl < |data| && data[firstNl] == NL && NL !in data[0..firstNl]
    modifies rows.Repr
    ensures Standing(rows) && fresh(rows.Repr - old(rows.Repr))
    ensures Join(rows.Lines) == Insert(old(Join(rows.Lines)), old(GridOffset(rows.Lines, s)), data)
  {
    hide Join, Ended, GridOffset, Rows.Valid;
    ghost var was := rows.Lines;
    ghost var p, middle := PlaceRows(rows, s, data, firstNl);
    PlacedRows(was, s, data, firstNl, p, middle);
  }

  /** The rows after a payload of several rows went in at `s`. */
  ghost function Placed(was: seq<Text>, s: Pos, data: Text, firstNl: nat, p: nat, middle: seq<Text>): seq<Text>
    requires OnGrid(was, s) && firstNl < p <= |data|
  {
    var row := was[s.y];
    was[..s.y] + [row[..s.x] + data[..firstNl]] + middle + [data[p..] + row[s.x..]] + was[s.y + 1..]
  }

  method PlaceRows(rows: Rows, s: Pos, data: Text, firstNl: nat) returns (ghost p: nat, ghost middle: seq<Text>)
    requires rows.Valid() && OnGrid(rows.Lines, s) && firstNl < |data|
    modifies rows.Repr
    ensures rows.Valid() && fresh(rows.Repr - old(rows.Repr))
    ensures firstNl < p <= |data| && NlFree(middle)
    ensures data[firstNl + 1..p] == Ended(middle) && NL !in data[p..]
    ensures rows.Lines == Placed(old(rows.Lines), s, data, firstNl, p, middle)
  {
    hide Ended, Rows.Valid;
    ghost var row := rows.Lines[s.y];
    var suffix := rows.Suffix(s.y, s.x);
    ghost var was := rows.Lines;
    rows.Rewrite(s.y, s.x, data[..firstNl]);
    var insertAt, q, m := InsertWholeRows(rows, s.y + 1, data, firstNl + 1);
    rows.InsertRow(insertAt, data[q..] + suffix);
    RowsAssembled(was, s.y, row[..s.x] + data[..firstNl], m, data[q..] + suffix);
    p, middle := q, m;
  }

  lemma PlacedRows(was: seq<Text>, s: Pos, data: Text, firstNl: nat, p: nat, middle: seq<Text>)
    requires OnGrid(was, s) && NlFree(was) && firstNl < p <= |data| && data[firstNl] == NL && NL !in data[0..firstNl]
    requires NlFree(middle) && data[firstNl + 1..p] == Ended(middle) && NL !in data[p..]
    ensures var rows := Placed(was, s, data, firstNl, p, middle);
            NlFree(rows) && Join(rows) == Insert(Join(was), GridOffset(was, s), data)
  {
    hide Join, Ended, GridOffset;
    InsertRows(was, s, data[..firstNl], middle, data[p..]);
    PayloadInParts(data, firstNl, p);
    NoNewlineInPieces(was[s.y], s.x, data, firstNl, p);
  }

  lemma PayloadInParts(data: Text, firstNl: nat, p: nat)
    requires firstNl < p <= |data| && data[firstNl] == NL
    ensures data == data[..firstNl] + [NL] + data[firstNl + 1..p] + data[p..]
  {
  }

  /** Rewriting a row, then inserting the middle rows and the last one below it. */
  lemma RowsAssembled(was: seq<Text>, y: nat, head: Text, middle: seq<Text>, last: Text)
    requires y < |was|
    ensures var rewritten := was[y := head];
            var filled := rewritten[..y + 1] + middle + rewritten[y + 1..];
            filled[..y + 1 + |middle|] + [last] + filled[y + 1 + |middle|..]
            == was[..y] + [head] + middle + [last] + was[y + 1..]
  {
  }

  lemma NoNewlineInPieces(row: Text, x: nat, data: Text, firstNl: nat, p: nat)
    requires x <= |row| && NL !in row && firstNl < p <= |data| && NL !in data[0..firstNl] && NL !in data[p..]
    ensures NL !in row[..x] + data[..firstNl] && NL !in data[p..] + row[x..]
  {
    assert data[..firstNl] == data[0..firstNl];
  }

  /** Insert the newline-terminated rows of `data[from..]` at row `at`. */
  method InsertWholeRows(rows: Rows, at: nat, data: Text, from: nat)
    returns (insertAt: nat, p: nat, ghost middle: seq<Text>)
    requires rows.Valid() && at <= |rows.Lines| && from <= |data|
    modifies rows.Repr
    ensures rows.Valid() && fresh(rows.Repr - old(rows.Repr))
    ensures rows.Lines == old(rows.Lines)[..at] + middle + old(rows.Lines)[at..]
    ensures insertAt == at + |middle| && NlFree(middle)
    ensures from <= p <= |data| && data[from..p] == Ended(middle) && NL !in data[p..]
  {
    hide Ended, Rows.Valid;
    ghost var was := rows.Lines;
    insertAt, p, middle := at, from, [];
    EndedOfNone();
    while p < |data|
      invariant from <= p <= |data|
      invariant rows.Valid() && fresh(rows.Repr - old(rows.Repr))
      invariant insertAt == at + |middle| && NlFree(middle)
      invariant data[from..p] == Ended(middle)
      invariant rows.Lines == was[..at] + middle + was[at..]
    {
      var nl := IndexOfNewline(data, p);
      if nl == -1 { break; }
      var line := data[p..nl];
      rows.InsertRow(insertAt, line);
      OneMoreRow(was, at, middle, line);
      OneMoreLine(data, from, p, nl, middle);
      middle := middle + [line];
      insertAt := insertAt + 1;
      p := nl + 1;
    }
  }

  lemma OneMoreRow(was: seq<Text>, at: nat, middle: seq<Text>, line: Text)
    requires at <= |was|
    ensures var filled, k := was[..at] + middle + was[at..], at + |middle|;
            filled[..k] + [line] + filled[k..] == was[..at] + (middle + [line]) + was[at..]
  {
  }

  lemma OneMoreLine(data: Text, from: nat, p: nat, nl: nat, middle: seq<Text>)
    requires from <= p <= nl < |data| && data[nl] == NL && data[from..p] == Ended(middle)
    ensures data[from..nl + 1] == Ended(middle + [data[p..nl]])
  {
    hide Ended;
    EndedConcat(middle, [data[p..nl]]);
    EndedOne(data[p..nl]);
    assert data[from..nl + 1] == data[from..p] + (data[p..nl] + [NL]);
  }

  /** Delete from `s` to `e`: one memmove within a row, or the rows between go and what is
      left of the last joins what is left of the first. */
  method DeleteText(rows: Rows, s: Pos, e: Pos)
    requires Standing(rows) && OnGrid(rows.Lines, s) && OnGrid(rows.Lines, e) && !Before(e, s)
    modifies rows.Repr
    ensures Standing(rows) && fresh(rows.Repr - old(rows.Repr))
    ensures old(GridOffset(rows.Lines, s)) <= old(GridOffset(rows.Lines, e)) <= |old(Join(rows.Lines))|
    ensures Join(rows.Lines) ==
            Delete(old(Join(rows.Lines)), old(GridOffset(rows.Lines, s)), old(GridOffset(rows.Lines, e)))
  {
    hide Join, GridOffset, Rows.Valid;
    DeleteRows(rows.Lines, s, e);
    CutOut(rows, s, e);
  }

  method CutOut(rows: Rows, s: Pos, e: Pos)
    requires Standing(rows) && OnGrid(rows.Lines, s) && OnGrid(rows.Lines, e) && !Before(e, s)
    modifies rows.Repr
    ensures Standing(rows) && fresh(rows.Repr - old(rows.Repr))
    ensures rows.Lines == old(rows.Lines[..s.y] + [rows.Lines[s.y][..s.x] + rows.Lines[e.y][e.x..]] +
                              rows.Lines[e.y + 1..])
  {
    hide Rows.Valid;
    if s.y == e.y {
      ghost var row := rows.Lines[s.y];
      rows.DeleteBytes(s.y, s.x, e.x);
      assert NL !in row[..s.x] + row[e.x..];
    } else {
      MergeRows(rows, s, e);
    }
  }

  method MergeRows(rows: Rows, s: Pos, e: Pos)
    requires Standing(rows) && OnGrid(rows.Lines, s) && OnGrid(rows.Lines, e) && s.y < e.y
    modifies rows.Repr
    ensures Standing(rows) && fresh(rows.Repr - old(rows.Repr))
    ensures rows.Lines == old(rows.Lines[..s.y] + [rows.Lines[s.y][..s.x] + rows.Lines[e.y][e.x..]] +
                              rows.Lines[e.y + 1..])
  {
    hide Rows.Valid;
    MergedRows(rows.Lines, s, e);
    DeleteRowsAfter(rows, s.y, e.y - s.y - 1);
    MergeWithNext(rows, s.y, s.x, e.x);
  }

  /** The front of row `y` and the end of the row below become one row. */
  method MergeWithNext(rows: Rows, y: nat, x: nat, x': nat)
    requires rows.Valid() && y + 1 < |rows.Lines| && x <= |rows.Lines[y]| && x' <= |rows.Lines[y + 1]|
    modifies rows.Repr
    ensures rows.Valid() && fresh(rows.Repr - old(rows.Repr))
    ensures var was := old(rows.Lines);
            var merged := was[y := was[y][..x] + was[y + 1][x'..]];
            rows.Lines == merged[..y + 1] + merged[y + 2..]
  {
    hide Rows.Valid;
    var suffix := rows.Suffix(y + 1, x');
    rows.Rewrite(y, x, suffix);
    rows.DelRow(y + 1);
  }

  /** Dropping the rows between, rewriting the first row and dropping the last. */
  lemma MergedRows(was: seq<Text>, s: Pos, e: Pos)
    requires NlFree(was) && OnGrid(was, s) && OnGrid(was, e) && s.y < e.y
    ensures var dropped := was[..s.y + 1] + was[e.y..];
            var rewritten := dropped[s.y := dropped[s.y][..s.x] + dropped[s.y + 1][e.x..]];
            var merged := was[..s.y] + [was[s.y][..s.x] + was[e.y][e.x..]] + was[e.y + 1..];
            dropped[s.y] == was[s.y] && dropped[s.y + 1] == was[e.y] &&
            rewritten[..s.y + 1] + rewritten[s.y + 2..] == merged && NlFree(merged)
  {
    assert NL !in was[s.y][..s.x] + was[e.y][e.x..];
  }

  /** Delete the `n` rows below row `y`. */
  method DeleteRowsAfter(rows: Rows, y: nat, n: nat)
    requires rows.Valid() && y + n < |rows.Lines|
    modifies rows.Repr
    ensures rows.Valid() && fresh(rows.Repr - old(rows.Repr))
    ensures rows.Lines == old(rows.Lines)[..y + 1] + old(rows.Lines)[y + 1 + n..]
  {
    hide Rows.Valid;
    ghost var was := rows.Lines;
    for i := 0 to n
      invariant rows.Valid() && fresh(rows.Repr - old(rows.Repr))
      invariant rows.Lines == was[..y + 1] + was[y + 1 + i..]
    {
      rows.DelRow(y + 1);
    }
  }
}
