/** Tracked points: the mark, the mark ring, the saved cursors of unfocused windows and
    the point registers.  They hold (column, row) pairs, so every edit has to move them.
    The theorems here say that the coordinate arithmetic of `AdjustPoint` is exactly the
    shift of a flat offset. */
module Points {
  import opened Text
  import opened Utf8

  /** Where a point went, and whether it had been inside the deleted text. */
  datatype Adjusted = Adjusted(at: Pos, swallowed: bool)

  /** One point, after the text from `s` to `e` was deleted, or inserted. */
  function AdjustPoint(p: Pos, s: Pos, e: Pos, isDelete: bool): Adjusted {
    var rows := e.y - s.y;
    if isDelete then
      if p.y < s.y || (p.y == s.y && p.x <= s.x) then Adjusted(p, false)
      else if p.y < e.y || (p.y == e.y && p.x <= e.x) then Adjusted(s, true)
      else if p.y == e.y then Adjusted(Pos(s.x + (p.x - e.x), s.y), false)
      else Adjusted(Pos(p.x, p.y - rows), false)
    else
      if p.y < s.y || (p.y == s.y && p.x < s.x) then Adjusted(p, false)
      else if p.y == s.y then
        if rows == 0 then Adjusted(Pos(p.x + (e.x - s.x), p.y), false)
        else Adjusted(Pos(e.x + (p.x - s.x), p.y + rows), false)
      else Adjusted(Pos(p.x, p.y + rows), false)
  }

  // ---- What the same edit does to an offset ----

  function OffsetAfterInsert(q: nat, o: nat, n: nat): nat {
    if q < o then q else q + n
  }

  function OffsetAfterDelete(q: nat, o: nat, e: nat): nat
    requires o <= e
  {
    if q <= o then q else if q <= e then o else q - (e - o)
  }

  /** Inserting `d` at offset `o` sends the point at offset `q` to the place whose
      offset is `q`, or `q + |d|` from `o` on. */
  lemma InsertMovesPoint(t: Text, o: nat, d: Text, q: nat)
    requires o <= |t| && q <= |t|
    ensures var t' := Insert(t, o, d);
            var q' := OffsetAfterInsert(q, o, |d|);
            q' <= |t'| &&
            AdjustPoint(PosAt(t, q), PosAt(t, o), Advance(PosAt(t, o), d), false)
              == Adjusted(PosAt(t', q'), false)
  {
    hide Advance;
    var t' := Insert(t, o, d);
    if q < o {
      PosAtOrder(t, q, o);
      assert t'[..q] == t[..q];
    } else {
      var s, e, rest := PosAt(t, o), Advance(PosAt(t, o), d), t[o..q];
      EndOfSlice(t, o, q);
      EndOfInsert(t, o, d);
      EndOfSlice(t', o + |d|, q + |d|);
      assert t'[o + |d|..q + |d|] == rest;
      AdvanceShift(e, s, rest);
      AdvanceShift(s, s, d);
      AdvanceEndsInRow(s, d);
    }
  }

  /** If laying down `d` crosses no row, it moves the column by |d|. */
  lemma AdvanceEndsInRow(p: Pos, d: Text)
    ensures Advance(p, d).y == p.y ==> Advance(p, d).x == p.x + |d|
  {
    AdvanceShift(p, p, d);
  }

  /** Deleting from offset `o` to `e` sends the point at `q` to `q`, to `o`, or back by
      the length deleted; it reports "swallowed" exactly when `o < q <= e`. */
  lemma DeleteMovesPoint(t: Text, o: nat, e: nat, q: nat)
    requires o <= e <= |t| && q <= |t|
    ensures var t' := Delete(t, o, e);
            var q' := OffsetAfterDelete(q, o, e);
            q' <= |t'| &&
            AdjustPoint(PosAt(t, q), PosAt(t, o), PosAt(t, e), true)
              == Adjusted(PosAt(t', q'), o < q <= e)
  {
    var t' := Delete(t, o, e);
    assert t'[..o] == t[..o];
    if q <= o {
      if q < o { PosAtOrder(t, q, o); }
      assert t'[..q] == t[..q];
    } else if q <= e {
      PosAtOrder(t, o, q);
      if q < e { PosAtOrder(t, q, e); }
    } else {
      var rest := t[e..q];
      PosAtOrder(t, o, q);
      PosAtOrder(t, e, q);
      EndOfSlice(t, e, q);
      EndOfSlice(t', o, q - (e - o));
      assert t'[o..q - (e - o)] == rest;
      AdvanceShift(PosAt(t', o), PosAt(t, e), rest);
    }
  }

  /** In-bounds points stay in bounds and keep their order under an insertion. */
  lemma InsertKeepsOrder(t: Text, o: nat, d: Text, p: Pos, q: Pos)
    requires o <= |t| && InBounds(t, p) && InBounds(t, q)
    ensures var s := PosAt(t, o);
            var e := Advance(s, d);
            var p', q' := AdjustPoint(p, s, e, false).at, AdjustPoint(q, s, e, false).at;
            InBounds(Insert(t, o, d), p') && InBounds(Insert(t, o, d), q') &&
            (Before(p, q) <==> Before(p', q'))
  {
    var t', i, j := Insert(t, o, d), OffsetOf(t, p), OffsetOf(t, q);
    InsertMovesPoint(t, o, d, i);
    InsertMovesPoint(t, o, d, j);
    OrderIsOffsetOrder(t, p, q);
    OffsetOfPosAt(t', OffsetAfterInsert(i, o, |d|));
    OffsetOfPosAt(t', OffsetAfterInsert(j, o, |d|));
    OrderIsOffsetOrder(t', PosAt(t', OffsetAfterInsert(i, o, |d|)), PosAt(t', OffsetAfterInsert(j, o, |d|)));
  }

  /** A deletion may bring two points together, but never swaps them. */
  lemma DeleteKeepsOrder(t: Text, o: nat, e: nat, p: Pos, q: Pos)
    requires o <= e <= |t| && InBounds(t, p) && InBounds(t, q)
    ensures var s, f := PosAt(t, o), PosAt(t, e);
            var p', q' := AdjustPoint(p, s, f, true).at, AdjustPoint(q, s, f, true).at;
            InBounds(Delete(t, o, e), p') && InBounds(Delete(t, o, e), q') &&
            (Before(p', q') ==> Before(p, q))
  {
    var t', i, j := Delete(t, o, e), OffsetOf(t, p), OffsetOf(t, q);
    DeleteMovesPoint(t, o, e, i);
    DeleteMovesPoint(t, o, e, j);
    OrderIsOffsetOrder(t, p, q);
    OffsetOfPosAt(t', OffsetAfterDelete(i, o, e));
    OffsetOfPosAt(t', OffsetAfterDelete(j, o, e));
    OrderIsOffsetOrder(t', PosAt(t', OffsetAfterDelete(i, o, e)), PosAt(t', OffsetAfterDelete(j, o, e)));
  }

  /** Undoing an insertion puts every point back exactly. */
  lemma UndoingInsertRestoresPoint(t: Text, o: nat, d: Text, p: Pos)
    requires o <= |t| && InBounds(t, p)
    ensures var s := PosAt(t, o);
            var e := Advance(s, d);
            AdjustPoint(AdjustPoint(p, s, e, false).at, s, e, true).at == p
  {
    var t', q := Insert(t, o, d), OffsetOf(t, p);
    InsertMovesPoint(t, o, d, q);
    EndOfInsert(t, o, d);
    DeleteMovesPoint(t', o, o + |d|, OffsetAfterInsert(q, o, |d|));
    DeleteUndoesInsert(t, o, d);
  }

  /** Undoing a deletion puts back exactly the points outside `[o, e)`; those inside,
      the start included, land at the end of the text that came back. */
  lemma UndoingDeleteRestoresPoint(t: Text, o: nat, e: nat, p: Pos)
    requires o <= e <= |t| && InBounds(t, p)
    ensures var s, f := PosAt(t, o), PosAt(t, e);
            var back := AdjustPoint(AdjustPoint(p, s, f, true).at, s, f, false).at;
            back == (if o <= OffsetOf(t, p) < e then f else p) &&
            (back == p <==> !(o <= OffsetOf(t, p) < e))
  {
    var t', q := Delete(t, o, e), OffsetOf(t, p);
    DeleteMovesPoint(t, o, e, q);
    EndOfSlice(t, o, e);
    assert t'[..o] == t[..o];
    InsertMovesPoint(t', o, t[o..e], OffsetAfterDelete(q, o, e));
    InsertUndoesDelete(t, o, e);
    if o <= q < e { PosAtOrder(t, q, e); }
  }

  // ---- Viewport tops: a row index and a sub-line count ----

  datatype Top = Top(row: int, skip: int)

  function AdjustTop(top: Top, s: Pos, e: Pos, isDelete: bool): Top {
    var rows := e.y - s.y;
    if rows == 0 then top
    else if isDelete then
      if top.row <= s.y then top
      else if top.row <= e.y then Top(s.y, 0)
      else top.(row := top.row - rows)
    else
      if top.row > s.y then top.(row := top.row + rows) else top
  }

  function RowCount(t: Text): nat
    ensures RowCount(t) >= 1
  {
    AdvanceShift(ORIGIN, ORIGIN, t);
    Advance(ORIGIN, t).y + 1
  }

  lemma EndIsLastRow(t: Text)
    ensures PosAt(t, |t|) == Advance(ORIGIN, t)
    ensures PosAt(t, |t|).y == RowCount(t) - 1
  {
    assert t[..|t|] == t;
  }

  /** A top that names a row of the buffer still does after an insertion; the row is the
      one its text moved to, and its sub-line survives. */
  lemma InsertKeepsTop(t: Text, o: nat, d: Text, top: Top)
    requires o <= |t| && 0 <= top.row < RowCount(t)
    ensures var s := PosAt(t, o);
            var top' := AdjustTop(top, s, Advance(s, d), false);
            0 <= top'.row < RowCount(Insert(t, o, d)) && top'.skip == top.skip &&
            (top.row == s.y ==> top'.row == s.y) &&
            (top.row != s.y ==> top'.row == AdjustPoint(Pos(0, top.row), s, Advance(s, d), false).at.y)
  {
    var t' := Insert(t, o, d);
    InsertMovesPoint(t, o, d, |t|);
    EndIsLastRow(t);
    EndIsLastRow(t');
    AdvanceShift(PosAt(t, o), PosAt(t, o), d);
    if o < |t| { PosAtOrder(t, o, |t|); }
  }

  /** After a deletion the top is the row its text joined, and its sub-line is kept
      exactly when the row's own start was not deleted. */
  lemma DeleteKeepsTop(t: Text, o: nat, e: nat, top: Top)
    requires o <= e <= |t| && 0 <= top.row < RowCount(t)
    ensures var s, f := PosAt(t, o), PosAt(t, e);
            var top' := AdjustTop(top, s, f, true);
            0 <= top'.row < RowCount(Delete(t, o, e)) &&
            top'.row == AdjustPoint(Pos(0, top.row), s, f, true).at.y &&
            (top'.skip == if s.y < top.row <= f.y then 0 else top.skip)
  {
    var t' := Delete(t, o, e);
    DeleteMovesPoint(t, o, e, |t|);
    EndIsLastRow(t);
    EndIsLastRow(t');
    AdvanceShift(ORIGIN, ORIGIN, t[..o]);
    if o < e { PosAtOrder(t, o, e); }
    if e < |t| { PosAtOrder(t, e, |t|); }
  }

  // ---- Everything that is tracked for one buffer ----

  /** A window: whether it shows this buffer, whether it is the focused one, the cursor
      it saved, and its top. */
  datatype Window = Window(showsBuffer: bool, focused: bool, at: Pos, top: Top)

  /** A register: a point in this buffer, or something else. */
  datatype Register = PointHere(at: Pos) | Elsewhere

  /** Appending the final newline moves exactly the points at the very end of the text;
      mutate.c says it moves none. */
  lemma AppendedNewlineMovesTheEnd(t: Text, q: nat)
    requires q <= |t|
    ensures var end := PosAt(t, |t|);
            AdjustPoint(PosAt(t, q), end, Advance(end, [NL]), false).at == PosAt(t, q) <==> q != |t|
  {
    InsertMovesPoint(t, |t|, [NL], q);
    var t' := Insert(t, |t|, [NL]);
    assert t'[..q] == t[..q];
    PosAtPrefix(t, t', q);
    if q == |t| { PosAtOrder(t', q, q + 1); }
  }

  /** The mark, the occupied entries of the mark ring, all windows, all registers. */
  datatype Tracked = Tracked(mark: Pos, ring: seq<Pos>, windows: seq<Window>, registers: seq<Register>)

  predicate IsSet(p: Pos) {
    p.x >= 0 && p.y >= 0
  }

  function AdjustMark(p: Pos, s: Pos, e: Pos, isDelete: bool): Pos {
    if IsSet(p) then AdjustPoint(p, s, e, isDelete).at else p
  }

  /** The focused window's cursor is the command's business; its top is not. */
  function AdjustWindow(w: Window, s: Pos, e: Pos, isDelete: bool): Window {
    if !w.showsBuffer then w
    else
      w.(at := if w.focused then w.at else AdjustPoint(w.at, s, e, isDelete).at,
         top := AdjustTop(w.top, s, e, isDelete))
  }

  function AdjustRegister(r: Register, s: Pos, e: Pos, isDelete: bool): Register {
    if r.PointHere? then PointHere(AdjustPoint(r.at, s, e, isDelete).at) else r
  }

  function AdjustAll(k: Tracked, s: Pos, e: Pos, isDelete: bool): (k': Tracked)
    ensures |k'.ring| == |k.ring| && |k'.windows| == |k.windows| && |k'.registers| == |k.registers|
  {
    if s == e then k
    else
      Tracked(
        AdjustMark(k.mark, s, e, isDelete),
        seq(|k.ring|, i requires 0 <= i < |k.ring| => AdjustMark(k.ring[i], s, e, isDelete)),
        seq(|k.windows|, i requires 0 <= i < |k.windows| => AdjustWindow(k.windows[i], s, e, isDelete)),
        seq(|k.registers|, i requires 0 <= i < |k.registers| => AdjustRegister(k.registers[i], s, e, isDelete)))
  }

  // ---- In bounds, and on character boundaries ----

  /** What is demanded of a single place; `utf8` adds that it starts a character. */
  ghost predicate Lands(t: Text, p: Pos, utf8: bool) {
    InBounds(t, p) && (utf8 ==> Boundary(t, OffsetOf(t, p)))
  }

  ghost predicate WindowLands(t: Text, w: Window, utf8: bool) {
    w.showsBuffer ==> (w.focused || Lands(t, w.at, utf8)) && 0 <= w.top.row < RowCount(t)
  }

  ghost predicate AllLand(t: Text, k: Tracked, utf8: bool) {
    (IsSet(k.mark) ==> Lands(t, k.mark, utf8)) &&
    (forall i | 0 <= i < |k.ring| :: IsSet(k.ring[i]) ==> Lands(t, k.ring[i], utf8)) &&
    (forall i | 0 <= i < |k.windows| :: WindowLands(t, k.windows[i], utf8)) &&
    (forall i | 0 <= i < |k.registers| :: k.registers[i].PointHere? ==> Lands(t, k.registers[i].at, utf8))
  }

  lemma PointLandsAfterInsert(t: Text, o: nat, d: Text, p: Pos, utf8: bool)
    requires o <= |t| && Lands(t, p, utf8)
    requires utf8 ==> Boundary(t, o) && (d == [] || !IsCont(d[0]))
    ensures Lands(Insert(t, o, d), AdjustPoint(p, PosAt(t, o), Advance(PosAt(t, o), d), false).at, utf8)
  {
    var q := OffsetOf(t, p);
    InsertMovesPoint(t, o, d, q);
    OffsetOfPosAt(Insert(t, o, d), OffsetAfterInsert(q, o, |d|));
  }

  lemma PointLandsAfterDelete(t: Text, o: nat, e: nat, p: Pos, utf8: bool)
    requires o <= e <= |t| && Lands(t, p, utf8)
    requires utf8 ==> Boundary(t, o) && Boundary(t, e)
    ensures Lands(Delete(t, o, e), AdjustPoint(p, PosAt(t, o), PosAt(t, e), true).at, utf8)
  {
    var q := OffsetOf(t, p);
    DeleteMovesPoint(t, o, e, q);
    OffsetOfPosAt(Delete(t, o, e), OffsetAfterDelete(q, o, e));
  }

  /** After an insertion every tracked place is a place of the new text. */
  lemma AllLandAfterInsert(t: Text, o: nat, d: Text, k: Tracked, utf8: bool)
    requires o <= |t| && AllLand(t, k, utf8)
    requires utf8 ==> Boundary(t, o) && (d == [] || !IsCont(d[0]))
    ensures AllLand(Insert(t, o, d), AdjustAll(k, PosAt(t, o), Advance(PosAt(t, o), d), false), utf8)
  {
    var s, e, t' := PosAt(t, o), Advance(PosAt(t, o), d), Insert(t, o, d);
    forall p | Lands(t, p, utf8) ensures Lands(t', AdjustPoint(p, s, e, false).at, utf8) {
      PointLandsAfterInsert(t, o, d, p, utf8);
    }
    forall top: Top | 0 <= top.row < RowCount(t) ensures 0 <= AdjustTop(top, s, e, false).row < RowCount(t') {
      InsertKeepsTop(t, o, d, top);
    }
    if s == e {
      if d != [] { AdvanceForward(s, d); }
      assert t' == t;
    }
  }

  lemma AllLandAfterDelete(t: Text, o: nat, e: nat, k: Tracked, utf8: bool)
    requires o <= e <= |t| && AllLand(t, k, utf8)
    requires utf8 ==> Boundary(t, o) && Boundary(t, e)
    ensures AllLand(Delete(t, o, e), AdjustAll(k, PosAt(t, o), PosAt(t, e), true), utf8)
  {
    var s, f, t' := PosAt(t, o), PosAt(t, e), Delete(t, o, e);
    forall p | Lands(t, p, utf8) ensures Lands(t', AdjustPoint(p, s, f, true).at, utf8) {
      PointLandsAfterDelete(t, o, e, p, utf8);
    }
    forall top: Top | 0 <= top.row < RowCount(t) ensures 0 <= AdjustTop(top, s, f, true).row < RowCount(t') {
      DeleteKeepsTop(t, o, e, top);
    }
    if s == f {
      PosAtInjective(t, o, e);
      assert t' == t;
    }
  }
}
