/** Where an edit leaves everything that is tracked: every place keeps its place in the text,
    whichever kind of thing remembers it. */
module Following {
  import opened Text
  import opened Points
  import opened Records
  import opened History

  // ---- Moves --------------------------------------------------------------------

  /** Offset by offset, where the places of one text are in another. */
  type Move = seq<nat>

  ghost predicate IsMove(t: Text, t': Text, m: Move) {
    |m| == |t| + 1 && forall q | 0 <= q <= |t| :: m[q] <= |t'|
  }

  /** A place that is one of `t` is moved along; anything else is where it was. */
  ghost predicate Moved(t: Text, p: Pos, t': Text, p': Pos, m: Move)
    requires IsMove(t, t', m)
  {
    (forall q: nat | q <= |t| && p == PosAt(t, q) :: p' == PosAt(t', m[q])) && (!IsSet(p) ==> p' == p)
  }

  ghost predicate WindowMoved(t: Text, w: Window, t': Text, w': Window, m: Move)
    requires IsMove(t, t', m)
  {
    w'.showsBuffer == w.showsBuffer && w'.focused == w.focused &&
    if !w.showsBuffer then w' == w
    else if w.focused then w'.at == w.at
    else forall q: nat | q <= |t| && w.at == PosAt(t, q) :: w'.at == PosAt(t', m[q])
  }

  ghost predicate RegisterMoved(t: Text, r: Register, t': Text, r': Register, m: Move)
    requires IsMove(t, t', m)
  {
    if r.Elsewhere? then r' == r
    else r'.PointHere? && forall q: nat | q <= |t| && r.at == PosAt(t, q) :: r'.at == PosAt(t', m[q])
  }

  /** Mark, mark ring, saved cursors and point registers are moved along. */
  ghost predicate AllMoved(t: Text, k: Tracked, t': Text, k': Tracked, m: Move)
    requires IsMove(t, t', m)
  {
    |k'.ring| == |k.ring| && |k'.windows| == |k.windows| && |k'.registers| == |k.registers| &&
    Moved(t, k.mark, t', k'.mark, m) &&
    (forall i | 0 <= i < |k.ring| :: Moved(t, k.ring[i], t', k'.ring[i], m)) &&
    (forall i | 0 <= i < |k.windows| :: WindowMoved(t, k.windows[i], t', k'.windows[i], m)) &&
    (forall i | 0 <= i < |k.registers| :: RegisterMoved(t, k.registers[i], t', k'.registers[i], m))
  }

  // ---- One splice -----------------------------------------------------------------

  function DeleteMove(t: Text, o: nat, e: nat): Move
    requires o <= e <= |t|
  {
    seq(|t| + 1, q requires 0 <= q <= |t| => OffsetAfterDelete(q, o, e))
  }

  function InsertMove(t: Text, o: nat, n: nat): Move {
    seq(|t| + 1, q requires 0 <= q <= |t| => OffsetAfterInsert(q, o, n))
  }

  function SpliceMove(t: Text, o: nat, e: nat, n: nat): Move
    requires o <= e <= |t|
  {
    seq(|t| + 1, q requires 0 <= q <= |t| => OffsetAfterEdit(q, o, e, n))
  }

  function NoMove(t: Text): Move {
    seq(|t| + 1, q requires 0 <= q <= |t| => q)
  }

  /** If the coordinate arithmetic moves every place along, it does so for all that is
      tracked. */
  lemma AdjustedMoves(t: Text, t': Text, k: Tracked, s: Pos, f: Pos, isDelete: bool, m: Move)
    requires s != f && IsMove(t, t', m)
    requires forall q: nat | q <= |t| ::
               IsSet(PosAt(t, q)) && AdjustPoint(PosAt(t, q), s, f, isDelete).at == PosAt(t', m[q])
    ensures AllMoved(t, k, t', AdjustAll(k, s, f, isDelete), m)
  {
    hide PosAt, AdjustPoint, AdjustTop;
  }

  lemma DeleteMovesAll(t: Text, o: nat, e: nat, k: Tracked)
    requires o < e <= |t|
    ensures IsMove(t, Delete(t, o, e), DeleteMove(t, o, e))
    ensures AllMoved(t, k, Delete(t, o, e), AdjustAll(k, PosAt(t, o), PosAt(t, e), true), DeleteMove(t, o, e))
  {
    hide Advance, AdjustPoint, AdjustTop, AdjustAll;
    var s, f, t' := PosAt(t, o), PosAt(t, e), Delete(t, o, e);
    PosAtOrder(t, o, e);
    forall q: nat | q <= |t|
      ensures IsSet(PosAt(t, q)) && AdjustPoint(PosAt(t, q), s, f, true).at == PosAt(t', OffsetAfterDelete(q, o, e))
    {
      PlaceIsSet(t, q);
      DeleteMovesPoint(t, o, e, q);
    }
    DeletedLength(t, o, e);
    hide AllMoved;
    AdjustedMoves(t, t', k, s, f, true, DeleteMove(t, o, e));
  }

  lemma InsertMovesAll(t: Text, o: nat, c: Text, k: Tracked)
    requires o <= |t| && c != []
    ensures IsMove(t, Insert(t, o, c), InsertMove(t, o, |c|))
    ensures AllMoved(t, k, Insert(t, o, c), AdjustAll(k, PosAt(t, o), Advance(PosAt(t, o), c), false),
                     InsertMove(t, o, |c|))
  {
    hide Advance, AdjustPoint, AdjustTop, AdjustAll;
    var s, f, t' := PosAt(t, o), Advance(PosAt(t, o), c), Insert(t, o, c);
    AdvanceForward(s, c);
    forall q: nat | q <= |t|
      ensures IsSet(PosAt(t, q)) && AdjustPoint(PosAt(t, q), s, f, false).at == PosAt(t', OffsetAfterInsert(q, o, |c|))
    {
      PlaceIsSet(t, q);
      InsertMovesPoint(t, o, c, q);
    }
    hide AllMoved;
    AdjustedMoves(t, t', k, s, f, false, InsertMove(t, o, |c|));
  }

  lemma NothingMoves(t: Text, k: Tracked)
    ensures IsMove(t, t, NoMove(t)) && AllMoved(t, k, t, k, NoMove(t))
  {
    hide Advance;
  }

  /** One move after another. */
  lemma MovesCompose(t: Text, k: Tracked, t1: Text, k1: Tracked, t2: Text, k2: Tracked, m1: Move, m2: Move, m: Move)
    requires IsMove(t, t1, m1) && IsMove(t1, t2, m2)
    requires AllMoved(t, k, t1, k1, m1) && AllMoved(t1, k1, t2, k2, m2)
    requires |m| == |t| + 1 && forall q | 0 <= q <= |t| :: m[q] == m2[m1[q]]
    ensures IsMove(t, t2, m) && AllMoved(t, k, t2, k2, m)
  {
    hide Advance;
    forall q: nat | q <= |t| ensures IsSet(PosAt(t, q)) { PlaceIsSet(t, q); }
  }

  // ---- A whole edit -----------------------------------------------------------------

  /** The places after an edit: those the edit itself makes, but that the end of a file that
      lost its newline is behind the newline put back. */
  function EditMove(t: Text, o: nat, e: nat, repl: Text, isFile: bool): Move
    requires o <= e <= |t|
  {
    var spliced := t[..o] + repl + t[e..];
    var len := |WithFinalNewline(spliced, isFile)|;
    seq(|t| + 1, q requires 0 <= q <= |t| =>
      var q' := OffsetAfterEdit(q, o, e, |repl|);
      if q' == |spliced| then len else q')
  }

  lemma SplicedMovesAll(doc: Doc, o: nat, e: nat, repl: Text, chain: bool, coalesce: bool)
    requires o <= e <= |doc.text|
    ensures var d := Spliced(doc, o, e, repl, chain, coalesce);
            var m := SpliceMove(doc.text, o, e, |repl|);
            d.text == doc.text[..o] + repl + doc.text[e..] && d.session == doc.session &&
            IsMove(doc.text, d.text, m) && AllMoved(doc.text, doc.tracked, d.text, d.tracked, m)
  {
    hide Advance, Push, AdjustAll, AllMoved, Insert, Delete;
    var t, k := doc.text, doc.tracked;
    var m := SpliceMove(t, o, e, |repl|);
    SpliceInTwoSteps(t, o, e, repl);
    var t1, k1, m1 := t, k, NoMove(t);
    NothingMoves(t, k);
    if o < e {
      DeleteMovesAll(t, o, e, k);
      t1, k1, m1 := Delete(t, o, e), AdjustAll(k, PosAt(t, o), PosAt(t, e), true), DeleteMove(t, o, e);
    }
    if repl != [] {
      DeletedLength(t, o, e);
      InsertMovesAll(t1, o, repl, k1);
      MovesCompose(t, k, t1, k1, Insert(t1, o, repl), AdjustAll(k1, PosAt(t1, o), Advance(PosAt(t1, o), repl), false),
                   m1, InsertMove(t1, o, |repl|), m);
    } else {
      assert m == m1;
    }
  }

  lemma DeletedLength(t: Text, o: nat, e: nat)
    requires o <= e <= |t|
    ensures |Delete(t, o, e)| == |t| - (e - o)
  {
  }

  /** After any accepted edit everything tracked is where its place in the text is. */
  lemma EditMovesAll(doc: Doc, o: nat, e: nat, repl: Text, chain: bool, coalesce: bool)
    requires o <= e <= |doc.text| && !Refused(doc, o, e, repl)
    ensures var d, m := EditAt(doc, o, e, repl, chain, coalesce), EditMove(doc.text, o, e, repl, doc.session.isFile);
            IsMove(doc.text, d.text, m) && AllMoved(doc.text, doc.tracked, d.text, d.tracked, m)
  {
    hide Advance, Push, AdjustAll, AllMoved, Insert, Spliced, DeletesOnlyFinalNewline;
    var t := doc.text;
    var d := Spliced(doc.(redo := []), o, e, repl, chain, coalesce);
    var m1 := SpliceMove(t, o, e, |repl|);
    var m := EditMove(t, o, e, repl, doc.session.isFile);
    SplicedMovesAll(doc.(redo := []), o, e, repl, chain, coalesce);
    if doc.session.isFile && !Terminated(d.text) {
      InsertMovesAll(d.text, |d.text|, [NL], d.tracked);
      NewlineAppended(d.text);
      var s := PosAt(d.text, |d.text|);
      MovesCompose(t, doc.tracked, d.text, d.tracked, Insert(d.text, |d.text|, [NL]),
                   AdjustAll(d.tracked, s, Advance(s, [NL]), false), m1, InsertMove(d.text, |d.text|, 1), m);
    } else {
      assert m == m1;
    }
  }

  /** Rows appended below move what stands at the very end of the text. */
  lemma ExtensionMovesAll(doc: Doc, rows: nat)
    requires !doc.session.readOnly && rows > 0
    ensures var d, m := Extended(doc, rows), InsertMove(doc.text, |doc.text|, rows);
            IsMove(doc.text, d.text, m) && AllMoved(doc.text, doc.tracked, d.text, d.tracked, m)
  {
    hide Advance, Push, AdjustAll, AllMoved, Insert;
    InsertMovesAll(doc.text, |doc.text|, Newlines(rows), doc.tracked);
  }

  // ---- The tops of windows ----------------------------------------------------------

  function Breaks(t: Text): nat {
    if t == [] then 0 else Breaks(t[..|t| - 1]) + if t[|t| - 1] == NL then 1 else 0
  }

  lemma {:induction false} AdvanceBreaks(p: Pos, t: Text)
    ensures Advance(p, t).y == p.y + Breaks(t)
  {
    if t != [] { AdvanceBreaks(p, t[..|t| - 1]); }
  }

  /** The top of a window after the edit: the same row of text, counted by newlines; a row
      that began inside the text replaced gives way to the row where that text began. */
  function TopAfterEdit(t: Text, o: nat, e: nat, repl: Text, top: Top): Top
    requires o <= e <= |t|
  {
    var row, gone, come := Breaks(t[..o]), Breaks(t[o..e]), Breaks(repl);
    if top.row <= row then top
    else if top.row <= row + gone then Top(row, 0)
    else top.(row := top.row - gone + come)
  }

  lemma TopSpliced(t: Text, o: nat, e: nat, repl: Text, top: Top)
    requires o <= e <= |t|
    ensures var s, f := PosAt(t, o), PosAt(t, e);
            AdjustTop(AdjustTop(top, s, f, true), s, Advance(s, repl), false) == TopAfterEdit(t, o, e, repl, top)
  {
    hide Advance, Breaks;
    AdvanceBreaks(ORIGIN, t[..o]);
    EndOfSlice(t, o, e);
    AdvanceBreaks(PosAt(t, o), t[o..e]);
    AdvanceBreaks(PosAt(t, o), repl);
  }

  /** Nothing inserted at the end moves a top that names a row. */
  lemma TopAtEndStays(t: Text, c: Text, top: Top)
    requires top.row < RowCount(t)
    ensures AdjustTop(top, PosAt(t, |t|), Advance(PosAt(t, |t|), c), false) == top
  {
    hide Advance;
    EndIsLastRow(t);
  }

  lemma TopOfAll(k: Tracked, s: Pos, e: Pos, isDelete: bool, i: nat)
    requires i < |k.windows| && k.windows[i].showsBuffer
    ensures var k' := AdjustAll(k, s, e, isDelete);
            k'.windows[i].showsBuffer && k'.windows[i].top == AdjustTop(k.windows[i].top, s, e, isDelete)
  {
  }

  lemma SplicedMovesTop(doc: Doc, o: nat, e: nat, repl: Text, chain: bool, coalesce: bool, i: nat)
    requires o <= e <= |doc.text| && i < |doc.tracked.windows| && doc.tracked.windows[i].showsBuffer
    ensures var d := Spliced(doc, o, e, repl, chain, coalesce);
            i < |d.tracked.windows| && d.tracked.windows[i].showsBuffer &&
            d.tracked.windows[i].top == TopAfterEdit(doc.text, o, e, repl, doc.tracked.windows[i].top)
  {
    hide Advance, Push, AdjustAll, AdjustTop, TopAfterEdit, Insert, Delete;
    var t, k, top := doc.text, doc.tracked, doc.tracked.windows[i].top;
    var s, f := PosAt(t, o), PosAt(t, e);
    TopSpliced(t, o, e, repl, top);
    TopOfAll(k, s, f, true, i);
    NothingBetween(top, s);
    DeletedStart(t, o, e);
    var k1 := if o < e then AdjustAll(k, s, f, true) else k;
    TopOfAll(k1, s, Advance(s, repl), false, i);
    NothingBetween(k1.windows[i].top, s);
    NoAdvance(s);
  }

  lemma NothingBetween(top: Top, s: Pos)
    ensures AdjustTop(top, s, s, true) == top && AdjustTop(top, s, s, false) == top
  {
  }

  lemma NoAdvance(s: Pos)
    ensures Advance(s, []) == s
  {
  }

  lemma DeletedStart(t: Text, o: nat, e: nat)
    requires o <= e <= |t|
    ensures o <= |Delete(t, o, e)| && PosAt(Delete(t, o, e), o) == PosAt(t, o)
  {
    PosAtPrefix(t, Delete(t, o, e), o);
  }

  /** After any accepted edit the window has the same row of text at its top. */
  lemma EditMovesTops(doc: Doc, o: nat, e: nat, repl: Text, chain: bool, coalesce: bool, i: nat)
    requires o <= e <= |doc.text| && !Refused(doc, o, e, repl)
    requires i < |doc.tracked.windows| && doc.tracked.windows[i].showsBuffer
    requires 0 <= doc.tracked.windows[i].top.row < RowCount(doc.text)
    ensures var d := EditAt(doc, o, e, repl, chain, coalesce);
            i < |d.tracked.windows| &&
            d.tracked.windows[i].top == TopAfterEdit(doc.text, o, e, repl, doc.tracked.windows[i].top)
  {
    hide Advance, Push, AdjustAll, AdjustTop, TopAfterEdit, Insert, Spliced, DeletesOnlyFinalNewline;
    var d := Spliced(doc.(redo := []), o, e, repl, chain, coalesce);
    SplicedMovesTop(doc.(redo := []), o, e, repl, chain, coalesce, i);
    SplicedText(doc, o, e, repl, chain, coalesce);
    TopStaysARow(doc.text, o, e, repl, doc.tracked.windows[i].top);
    if doc.session.isFile && !Terminated(d.text) {
      var s := PosAt(d.text, |d.text|);
      TopOfAll(d.tracked, s, Advance(s, [NL]), false, i);
      TopAtEndStays(d.text, [NL], d.tracked.windows[i].top);
    }
  }

  lemma {:induction false} BreaksOfBoth(a: Text, b: Text)
    ensures Breaks(a + b) == Breaks(a) + Breaks(b)
  {
    AdvanceConcat(ORIGIN, a, b);
    AdvanceBreaks(ORIGIN, a);
    AdvanceBreaks(Advance(ORIGIN, a), b);
    AdvanceBreaks(ORIGIN, a + b);
  }

  lemma TopStaysARow(t: Text, o: nat, e: nat, repl: Text, top: Top)
    requires o <= e <= |t| && 0 <= top.row < RowCount(t)
    ensures 0 <= TopAfterEdit(t, o, e, repl, top).row < RowCount(t[..o] + repl + t[e..])
  {
    hide Advance, Breaks;
    assert t == t[..o] + t[o..e] + t[e..];
    BreaksOfBoth(t[..o], t[o..e]);
    BreaksOfBoth(t[..o] + t[o..e], t[e..]);
    BreaksOfBoth(t[..o], repl);
    BreaksOfBoth(t[..o] + repl, t[e..]);
    AdvanceBreaks(ORIGIN, t);
    AdvanceBreaks(ORIGIN, t[..o] + repl + t[e..]);
  }
}
