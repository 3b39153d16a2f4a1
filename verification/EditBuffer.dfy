/** One buffer, as the editor keeps it: the row array, the cursor, everything tracked,
    the two record lists and the flags.  Every method is proved to do to `Model()` what
    the specification functions of History and Undoing say. */
module EditBuffer {
  import opened Text
  import opened Lines
  import opened Points
  import opened Records
  import opened History
  import opened Undoing
  import opened Geometry
  import opened RowStore
  import opened RowSplice

  /** What an edit tells its caller: where the inserted text ends, or that it was refused
      and nothing may be read from the result. */
  datatype EditEnd = Refusal | EndsAt(at: Pos)

  /** Where a range starts and ends once what the rows do not hold is cut off it. */
  function RangeFrom(rows: seq<Text>, s: Pos): (from: Pos)
    requires 0 <= s.x && 0 <= s.y < |rows|
    ensures OnGrid(rows, from) && (OnGrid(rows, s) ==> from == s)
  {
    Pos(if s.x > |rows[s.y]| then |rows[s.y]| else s.x, s.y)
  }

  function RangeTo(rows: seq<Text>, s: Pos, e: Pos): (to: Pos)
    requires 0 <= s.x && 0 <= s.y < |rows| && s.y <= e.y && 0 <= e.x
    ensures OnGrid(rows, to) && !Before(to, RangeFrom(rows, s))
    ensures OnGrid(rows, s) && OnGrid(rows, e) && !Before(e, s) ==> to == e
  {
    var y := if e.y >= |rows| then |rows| - 1 else e.y;
    var x := if e.x > |rows[y]| then |rows[y]| else e.x;
    Pos(if y == s.y && x < RangeFrom(rows, s).x then RangeFrom(rows, s).x else x, y)
  }

  /** The cut keeps what is there: places after the start are those after `s`, and of these
      the range takes the ones up to `e`, an end below the rows counting as in the last. */
  lemma RangeIsWhatIsThere(rows: seq<Text>, s: Pos, e: Pos, p: Pos)
    requires 0 <= s.x && 0 <= s.y < |rows| && s.y <= e.y && 0 <= e.x && OnGrid(rows, p)
    ensures var from, to := RangeFrom(rows, s), RangeTo(rows, s, e);
            var last := if e.y < |rows| then e else Pos(e.x, |rows| - 1);
            (Before(from, p) <==> Before(s, p)) &&
            (Before(from, p) ==> (Before(to, p) <==> Before(last, p)))
  {
  }

  class Buffer {
    const rows: Rows
    const isFile: bool
    var cursor: Pos
    var markActive: bool
    var tracked: Tracked
    var undo: seq<Record>
    var redo: seq<Record>
    var dirty: bool
    var readOnly: bool
    var internalMod: bool
    ghost var base: Text
    ghost var disk: Text

    ghost predicate Valid()
      reads this, rows, rows.Repr
    {
      Standing(rows) && this !in rows.Repr
    }

    ghost function TextOf(): Text
      requires Valid()
      reads this, rows, rows.Repr
    {
      Join(rows.Lines)
    }

    ghost function Model(): Doc
      requires Valid()
      reads this, rows, rows.Repr
    {
      Doc(TextOf(), undo, redo, tracked, cursor, markActive, dirty,
          Session(isFile, readOnly, internalMod, base, disk))
    }

    /** The empty buffer: one empty row. */
    constructor (wc: WcWidth, isFile: bool)
      ensures Valid() && fresh(rows.Repr)
      ensures TextOf() == [] && undo == [] && redo == [] && !dirty && !readOnly && !internalMod
      ensures this.isFile == isFile && base == [] && disk == [] && tracked == Tracked(Pos(-1, -1), [], [], [])
    {
      rows := new Rows(wc);
      this.isFile := isFile;
      cursor, markActive := ORIGIN, false;
      tracked := Tracked(Pos(-1, -1), [], [], []);
      undo, redo := [], [];
      dirty, readOnly, internalMod := false, false, false;
      base, disk := [], [];
      new;
      rows.InsertRow(0, []);
      JoinOfOne([]);
    }

    // ---- Splicing the row array ----

    static method ComputeInsertEnd(text: Text, start: Pos) returns (end: Pos)
      ensures end == Advance(start, text)
    {
      var ex, ey := start.x, start.y;
      for i := 0 to |text|
        invariant Pos(ex, ey) == Advance(start, text[..i])
      {
        assert text[..i + 1][..i] == text[..i];
        if text[i] == NL {
          ey := ey + 1;
          ex := 0;
        } else {
          ex := ex + 1;
        }
      }
      assert text[..|text|] == text;
      end := Pos(ex, ey);
    }

    /** Move the mark, the saved cursors and tops of all windows, the mark ring and the
        point registers. */
    method AdjustAllPoints(s: Pos, e: Pos, isDelete: bool)
      modifies `tracked
      ensures tracked == AdjustAll(old(tracked), s, e, isDelete)
    {
      if s == e { return; }
      var k := tracked;
      k := k.(mark := AdjustMark(k.mark, s, e, isDelete));
      var windows := AdjustWindows(k.windows, s, e, isDelete);
      var ring := AdjustRing(k.ring, s, e, isDelete);
      var registers := AdjustRegisters(k.registers, s, e, isDelete);
      tracked := k.(windows := windows, ring := ring, registers := registers);
    }

    static method AdjustWindows(ws: seq<Window>, s: Pos, e: Pos, isDelete: bool) returns (r: seq<Window>)
      ensures r == seq(|ws|, i requires 0 <= i < |ws| => AdjustWindow(ws[i], s, e, isDelete))
    {
      r := ws;
      for i := 0 to |ws|
        invariant |r| == |ws| && r[i..] == ws[i..]
        invariant forall j | 0 <= j < i :: r[j] == AdjustWindow(ws[j], s, e, isDelete)
      {
        if !r[i].showsBuffer { continue; }
        if !r[i].focused {
          r := r[i := r[i].(at := AdjustPoint(r[i].at, s, e, isDelete).at)];
        }
        r := r[i := r[i].(top := AdjustTop(r[i].top, s, e, isDelete))];
      }
    }

    static method AdjustRing(ring: seq<Pos>, s: Pos, e: Pos, isDelete: bool) returns (r: seq<Pos>)
      ensures r == seq(|ring|, i requires 0 <= i < |ring| => AdjustMark(ring[i], s, e, isDelete))
    {
      r := ring;
      for i := 0 to |ring|
        invariant |r| == |ring| && r[i..] == ring[i..]
        invariant forall j | 0 <= j < i :: r[j] == AdjustMark(ring[j], s, e, isDelete)
      {
        if IsSet(r[i]) {
          r := r[i := AdjustPoint(r[i], s, e, isDelete).at];
        }
      }
    }

    static method AdjustRegisters(regs: seq<Register>, s: Pos, e: Pos, isDelete: bool) returns (r: seq<Register>)
      ensures r == seq(|regs|, i requires 0 <= i < |regs| => AdjustRegister(regs[i], s, e, isDelete))
    {
      r := regs;
      for i := 0 to |regs|
        invariant |r| == |regs| && r[i..] == regs[i..]
        invariant forall j | 0 <= j < i :: r[j] == AdjustRegister(regs[j], s, e, isDelete)
      {
        if r[i].PointHere? {
          r := r[i := PointHere(AdjustPoint(r[i].at, s, e, isDelete).at)];
        }
      }
    }

    /** Insert without recording. */
    method BulkInsert(s: Pos, data: Text)
      requires Valid() && OnGrid(rows.Lines, s) && data != []
      modifies this, rows.Repr
      ensures Valid() && fresh(rows.Repr - old(rows.Repr))
      ensures Model() == InsertAt(old(Model()), old(GridOffset(rows.Lines, s)), data)
    {
      hide Join, GridOffset, Rows.Valid, AdjustAll;
      if |data| == 0 { return; }
      GridIsPosAt(rows.Lines, s);
      var end := ComputeInsertEnd(data, s);
      InsertText(rows, s, data);
      dirty := true;
      AdjustAllPoints(s, end, false);
    }

    /** Cut a range down to what the rows hold. */
    method ClampRange(s: Pos, e: Pos) returns (from: Pos, to: Pos)
      requires Valid() && 0 <= s.x && 0 <= s.y < |rows.Lines| && s.y <= e.y && 0 <= e.x
      ensures from == RangeFrom(rows.Lines, s) && to == RangeTo(rows.Lines, s, e)
    {
      hide Join, Rows.Valid;
      var startx, endx, endy := s.x, e.x, e.y;
      if endy >= rows.numrows { endy := rows.numrows - 1; }
      if startx > rows.Size(s.y) { startx := rows.Size(s.y); }
      if endx > rows.Size(endy) { endx := rows.Size(endy); }
      if s.y == endy && endx < startx { endx := startx; }
      from, to := Pos(startx, s.y), Pos(endx, endy);
    }

    /** Delete without recording.  What lies outside the rows is cut off the range first:
        commands pass ranges that leaves alone, and a stray record could not do worse than
        delete to the end of a row. */
    method BulkDelete(s: Pos, e: Pos)
      requires Valid() && 0 <= s.x && 0 <= s.y <= e.y && 0 <= e.x
      modifies this, rows.Repr
      ensures Valid() && fresh(rows.Repr - old(rows.Repr))
      ensures s.y >= |old(rows.Lines)| ==> Model() == old(Model())
      ensures s.y < |old(rows.Lines)| ==>
                var from, to := RangeFrom(old(rows.Lines), s), RangeTo(old(rows.Lines), s, e);
                var o, f := GridOffset(old(rows.Lines), from), GridOffset(old(rows.Lines), to);
                o <= f <= |old(TextOf())| && Model() == DeleteAt(old(Model()), o, f)
    {
      hide Join, GridOffset, Rows.Valid, AdjustAll;
      if s.y >= rows.numrows { return; }
      var from, to := ClampRange(s, e);
      GridIsPosAt(rows.Lines, from);
      GridIsPosAt(rows.Lines, to);
      GridOrder(rows.Lines, from, to);
      AdjustAllPoints(from, to, true);
      DeleteText(rows, from, to);
      dirty := true;
    }

    // ---- The record lists ----

    /** Try to fold `next` into `prev`. */
    static method UndoMerge(prev: Record, next: Record) returns (merged: bool, r: Record)
      ensures merged == CanMerge(prev, next)
      ensures merged ==> r == Merge(prev, next)
    {
      merged, r := false, prev;
      if !prev.append { return; }
      if prev.isDelete != next.isDelete { return; }
      if prev.paired || next.paired { return; }
      if prev.merges >= MERGE_LIMIT { return; }
      if |next.data| <= 0 { return; }
      var prepend := false;
      if !next.isDelete {
        if prev.end != next.start { return; }
      } else if prev.start == next.start {
      } else if prev.start == next.end {
        prepend := true;
      } else {
        return;
      }
      if prepend {
        r := r.(data := next.data + prev.data, start := next.start);
      } else {
        r := r.(data := prev.data + next.data);
      }
      r := r.(merges := r.merges + 1);
      var end := ComputeInsertEnd(r.data, r.start);
      r := r.(end := end);
      merged := true;
    }

    method PushUndo(r: Record)
      modifies `undo
      ensures undo == Push(old(undo), r)
    {
      if r.append && |undo| > 0 {
        var merged, joined := UndoMerge(undo[0], r);
        if merged {
          undo := [joined] + undo[1..];
          return;
        }
      }
      UndoCloseRun();
      undo := [r] + undo;
    }

    method UndoCloseRun()
      modifies `undo
      ensures undo == Closed(old(undo))
    {
      if |undo| > 0 {
        undo := [undo[0].(append := false)] + undo[1..];
      }
    }

    method ClearRedos()
      modifies `redo
      ensures redo == []
    {
      redo := [];
    }

    // ---- The mutation layer ----

    /** Record a deletion and carry it out. */
    method RecordDelete(s: Pos, e: Pos, oldText: Text, append: bool, paired: bool)
      requires Valid() && OnGrid(rows.Lines, s) && OnGrid(rows.Lines, e) && Before(s, e)
      requires GridOffset(rows.Lines, s) <= GridOffset(rows.Lines, e)
      requires oldText == TextOf()[GridOffset(rows.Lines, s)..GridOffset(rows.Lines, e)]
      modifies this, rows.Repr
      ensures Valid() && fresh(rows.Repr - old(rows.Repr))
      ensures old(GridOffset(rows.Lines, s)) < old(GridOffset(rows.Lines, e)) <= |old(TextOf())|
      ensures Model() == RecordedDelete(old(Model()), old(GridOffset(rows.Lines, s)), old(GridOffset(rows.Lines, e)),
                                        append, paired)
    {
      hide Join, GridOffset, Rows.Valid, AdjustAll, Push;
      GridIsPosAt(rows.Lines, s);
      GridIsPosAt(rows.Lines, e);
      PushUndo(Record(s, e, oldText, true, append, paired, 0));
      BulkDelete(s, e);
    }

    /** Record an insertion and carry it out. */
    method RecordInsert(s: Pos, data: Text, append: bool, paired: bool) returns (end: Pos)
      requires Valid() && OnGrid(rows.Lines, s) && data != []
      modifies this, rows.Repr
      ensures Valid() && fresh(rows.Repr - old(rows.Repr))
      ensures end == Advance(s, data)
      ensures Model() == RecordedInsert(old(Model()), old(GridOffset(rows.Lines, s)), data, append, paired)
    {
      hide Join, GridOffset, Rows.Valid, AdjustAll, Push;
      GridIsPosAt(rows.Lines, s);
      end := ComputeInsertEnd(data, s);
      PushUndo(Record(s, end, data, false, append, paired, 0));
      BulkInsert(s, data);
    }

    method DeletesOnlyFinalNewline(s: Pos, e: Pos, oldLen: nat, replLen: nat) returns (b: bool)
      requires Valid() && OnGrid(rows.Lines, s) && OnGrid(rows.Lines, e)
      requires GridOffset(rows.Lines, e) == GridOffset(rows.Lines, s) + oldLen
      ensures b == (replLen == 0 &&
                    History.DeletesOnlyFinalNewline(TextOf(), GridOffset(rows.Lines, s), GridOffset(rows.Lines, e), []))
    {
      hide Join, GridOffset, Rows.Valid;
      FinalNewlineInRows(rows.Lines, s, e);
      if oldLen <= 0 || replLen > 0 { return false; }
      if rows.numrows < 2 { return false; }
      if rows.Size(rows.numrows - 1) != 0 { return false; }
      if rows.Size(rows.numrows - 2) == 0 { return false; }
      b := s.y == rows.numrows - 2 && s.x == rows.Size(rows.numrows - 2) &&
           e.y == rows.numrows - 1 && e.x == 0;
    }

    /** Put the final newline back if a file buffer has lost it. */
    method RestoreFinalNewline()
      requires Valid()
      modifies this, rows.Repr
      ensures Valid() && fresh(rows.Repr - old(rows.Repr))
      ensures Model() == Repaired(old(Model()))
    {
      hide Join, GridOffset, Rows.Valid, RecordedInsert;
      TerminatedInRows(rows.Lines);
      if !isFile || (rows.numrows == 1 && rows.Size(0) == 0) { return; }
      if rows.Size(rows.numrows - 1) == 0 { return; }
      var at := Pos(rows.Size(rows.numrows - 1), rows.numrows - 1);
      ByteAt(rows.Lines, at);
      var _ := RecordInsert(at, [NL], false, true);
    }

    /** Every edit of a buffer: replace the text from `s` to `e`, which is `oldText`, by
        `repl`, and record it. */
    method MutateReplaceEx(s: Pos, e: Pos, oldText: Text, repl: Text, chain: bool, coalesce: bool)
      returns (end: EditEnd)
      requires Valid() && OnGrid(rows.Lines, s) && OnGrid(rows.Lines, e) && !Before(e, s)
      requires GridOffset(rows.Lines, s) <= GridOffset(rows.Lines, e)
      requires oldText == TextOf()[GridOffset(rows.Lines, s)..GridOffset(rows.Lines, e)]
      modifies this, rows.Repr
      ensures Valid() && fresh(rows.Repr - old(rows.Repr))
      ensures Model() == EditAt(old(Model()), old(GridOffset(rows.Lines, s)), old(GridOffset(rows.Lines, e)),
                                repl, chain, coalesce)
      ensures end == if Refused(old(Model()), old(GridOffset(rows.Lines, s)), old(GridOffset(rows.Lines, e)), repl)
                     then Refusal else EndsAt(Advance(s, repl))
    {
      hide Join, GridOffset, Rows.Valid, Repaired, Spliced;
      if readOnly { return Refusal; }
      if isFile {
        var only := DeletesOnlyFinalNewline(s, e, |oldText|, |repl|);
        if only { return Refusal; }
      }
      ClearRedos();
      var iend := SpliceRecorded(s, e, oldText, repl, chain, coalesce);
      RestoreFinalNewline();
      dirty := true;
      end := EndsAt(iend);
    }

    method SpliceRecorded(s: Pos, e: Pos, oldText: Text, repl: Text, chain: bool, coalesce: bool)
      returns (iend: Pos)
      requires Valid() && OnGrid(rows.Lines, s) && OnGrid(rows.Lines, e) && !Before(e, s)
      requires GridOffset(rows.Lines, s) <= GridOffset(rows.Lines, e)
      requires oldText == TextOf()[GridOffset(rows.Lines, s)..GridOffset(rows.Lines, e)]
      modifies this, rows.Repr
      ensures Valid() && fresh(rows.Repr - old(rows.Repr))
      ensures Model() == Spliced(old(Model()), old(GridOffset(rows.Lines, s)), old(GridOffset(rows.Lines, e)),
                                 repl, chain, coalesce)
      ensures iend == Advance(s, repl)
    {
      hide Join, GridOffset, Rows.Valid, RecordedDelete, RecordedInsert;
      GridIsPosAt(rows.Lines, s);
      GridIsPosAt(rows.Lines, e);
      var isReplace := |oldText| > 0 && |repl| > 0;
      var join := coalesce;
      if isReplace || chain { join := false; }
      if |oldText| > 0 {
        ghost var was := rows.Lines;
        RecordDelete(s, e, oldText, join, chain);
        RecordedDeleteText(old(Model()), GridOffset(was, s), GridOffset(was, e), join, chain);
        PlaceSurvives(was, rows.Lines, s);
      }
      iend := s;
      if |repl| > 0 {
        iend := RecordInsert(s, repl, join, isReplace || chain);
      }
    }

    lemma RecordedDeleteText(doc: Doc, o: nat, e: nat, append: bool, paired: bool)
      requires o < e <= |doc.text|
      ensures RecordedDelete(doc, o, e, append, paired).text == Delete(doc.text, o, e)
      ensures Delete(doc.text, o, e)[..o] == doc.text[..o]
    {
    }

    method MutateReplace(s: Pos, e: Pos, oldText: Text, repl: Text, chain: bool) returns (end: EditEnd)
      requires Valid() && OnGrid(rows.Lines, s) && OnGrid(rows.Lines, e) && !Before(e, s)
      requires GridOffset(rows.Lines, s) <= GridOffset(rows.Lines, e)
      requires oldText == TextOf()[GridOffset(rows.Lines, s)..GridOffset(rows.Lines, e)]
      modifies this, rows.Repr
      ensures Valid() && fresh(rows.Repr - old(rows.Repr))
      ensures Model() == EditAt(old(Model()), old(GridOffset(rows.Lines, s)), old(GridOffset(rows.Lines, e)),
                                repl, chain, false)
      ensures end == if Refused(old(Model()), old(GridOffset(rows.Lines, s)), old(GridOffset(rows.Lines, e)), repl)
                     then Refusal else EndsAt(Advance(s, repl))
    {
      hide Join, GridOffset, Rows.Valid, EditAt;
      end := MutateReplaceEx(s, e, oldText, repl, chain, false);
    }

    /** One keystroke's worth of text. */
    method MutateInsertChar(s: Pos, text: Text) returns (end: EditEnd)
      requires Valid() && OnGrid(rows.Lines, s)
      modifies this, rows.Repr
      ensures Valid() && fresh(rows.Repr - old(rows.Repr))
      ensures Model() == EditAt(old(Model()), old(GridOffset(rows.Lines, s)), old(GridOffset(rows.Lines, s)),
                                text, false, true)
      ensures end == if Refused(old(Model()), old(GridOffset(rows.Lines, s)), old(GridOffset(rows.Lines, s)), text)
                     then Refusal else EndsAt(Advance(s, text))
    {
      hide Join, GridOffset, Rows.Valid, EditAt;
      end := MutateReplaceEx(s, s, [], text, false, true);
    }

    method MutateDeleteChar(s: Pos, e: Pos, oldText: Text)
      requires Valid() && OnGrid(rows.Lines, s) && OnGrid(rows.Lines, e) && !Before(e, s)
      requires GridOffset(rows.Lines, s) <= GridOffset(rows.Lines, e)
      requires oldText == TextOf()[GridOffset(rows.Lines, s)..GridOffset(rows.Lines, e)]
      modifies this, rows.Repr
      ensures Valid() && fresh(rows.Repr - old(rows.Repr))
      ensures Model() == EditAt(old(Model()), old(GridOffset(rows.Lines, s)), old(GridOffset(rows.Lines, e)),
                                [], false, true)
    {
      hide Join, GridOffset, Rows.Valid, EditAt;
      var _ := MutateReplaceEx(s, e, oldText, [], false, true);
    }

    /** Append `n` empty rows, recorded as one insertion of newlines at the end. */
    method MutateExtendRows(fromRow: nat, n: int)
      requires Valid() && fromRow == rows.numrows
      modifies this, rows.Repr
      ensures Valid() && fresh(rows.Repr - old(rows.Repr))
      ensures Model() == Extended(old(Model()), if n > 0 then n else 0)
    {
      if readOnly { return; }
      if n <= 0 { return; }
      ClearRedos();
      ExtendRecorded(n);
    }

    method ExtendRecorded(n: nat)
      requires Valid() && n > 0
      modifies this, rows.Repr
      ensures Valid() && fresh(rows.Repr - old(rows.Repr))
      ensures Model() == RecordedInsert(old(Model()), |old(TextOf())|, Newlines(n), false, false)
    {
      hide Join, GridOffset, Rows.Valid, AdjustAll, Push, Newlines, Advance;
      ghost var t := TextOf();
      AppendIsInsert(t, Newlines(n));
      var s := Pos(rows.Size(rows.numrows - 1), rows.numrows - 1);
      ByteAt(rows.Lines, s);
      GridIsPosAt(rows.Lines, s);
      AppendEmptyRows(n);
      dirty := true;
      var end := Pos(0, rows.numrows - 1);
      NewlinesAdvance(s, n);
      PushUndo(Record(s, end, Newlines(n), false, false, false, 0));
      AdjustAllPoints(s, end, false);
    }

    lemma AppendIsInsert(t: Text, d: Text)
      ensures Insert(t, |t|, d) == t + d
    {
      assert t[..|t|] == t;
    }

    method AppendEmptyRows(n: nat)
      requires Valid()
      modifies rows.Repr
      ensures Valid() && fresh(rows.Repr - old(rows.Repr))
      ensures rows.numrows == old(rows.numrows) + n
      ensures TextOf() == old(TextOf()) + Newlines(n)
    {
      hide Join, Rows.Valid;
      ghost var t := TextOf();
      for i := 0 to n
        invariant Valid() && fresh(rows.Repr - old(rows.Repr))
        invariant rows.numrows == old(rows.numrows) + i
        invariant TextOf() == t + Newlines(i)
      {
        ghost var was := rows.Lines;
        rows.InsertRow(rows.numrows, []);
        assert rows.Lines[..|was|] == was;
        JoinOfMore(rows.Lines);
        assert Newlines(i + 1) == Newlines(i) + [NL];
      }
    }

    lemma NewlinesAdvance(p: Pos, n: nat)
      requires n > 0
      ensures Advance(p, Newlines(n)) == Pos(0, p.y + n)
    {
      var s: Text := Newlines(n);
      if n > 1 {
        NewlinesAdvance(p, n - 1);
      }
      assert s[..n - 1] == Newlines(n - 1);
    }

    // ---- Undo and redo ----

    /** The coordinates of a record that can be undone here are on the grid. */
    lemma RecordOnGrid(r: Record)
      requires Valid() && Reverts(TextOf(), r)
      ensures OnGrid(rows.Lines, r.start) && GridOffset(rows.Lines, r.start) == OffsetOf(TextOf(), r.start)
      ensures !r.isDelete ==>
                OnGrid(rows.Lines, r.end) && !Before(r.end, r.start) &&
                GridOffset(rows.Lines, r.end) == OffsetOf(TextOf(), r.start) + |r.data|
    {
      hide Join, GridOffset, Rows.Valid, Advance;
      InBoundsIsOnGrid(rows.Lines, r.start);
      GridIsPosAt(rows.Lines, r.start);
      if !r.isDelete {
        RecordSpan(TextOf(), r);
        InBoundsIsOnGrid(rows.Lines, r.end);
        GridIsPosAt(rows.Lines, r.end);
        OrderIsOffsetOrder(TextOf(), r.end, r.start);
      }
    }

    /** Carry out what undoing `r` means, and leave the cursor there. */
    method Unapply(r: Record)
      requires Valid() && Reverts(TextOf(), r)
      modifies this, rows.Repr
      ensures Valid() && fresh(rows.Repr - old(rows.Repr))
      ensures Model() == Unapplied(old(Model()), r)
    {
      hide Join, GridOffset, Rows.Valid, Advance, AdjustAll;
      RecordOnGrid(r);
      if r.isDelete {
        BulkInsert(r.start, r.data);
        cursor := r.end;
      } else {
        BulkDelete(r.start, r.end);
        cursor := r.start;
      }
    }

    /** Replay the record at the head of one list and move it to the other. */
    method UndoStep(redoing: bool)
      requires Valid()
      requires if redoing then redo != [] && Replays(TextOf(), redo[0]) else undo != [] && Reverts(TextOf(), undo[0])
      modifies this, rows.Repr
      ensures Valid() && fresh(rows.Repr - old(rows.Repr))
      ensures Model() == if redoing then RedoneOnce(old(Model())) else UndoneOnce(old(Model()))
    {
      hide Join, Rows.Valid, Unapplied, Reverts;
      var node := if redoing then redo[0] else undo[0];
      Unapply(if redoing then Inverse(node) else node);
      UnappliedKeepsLists(old(Model()), if redoing then Inverse(node) else node);
      if redoing {
        undo, redo := [node] + undo, redo[1..];
      } else {
        undo, redo := undo[1..], [node] + redo;
      }
      UndoCloseRun();
    }

    lemma UnappliedKeepsLists(doc: Doc, r: Record)
      requires Reverts(doc.text, r)
      ensures Unapplied(doc, r).undo == doc.undo && Unapplied(doc, r).redo == doc.redo
    {
    }

    method DoUndo(count: int)
      requires Valid() && (readOnly || MidReplay(ReplayStart(Model())))
      modifies this, rows.Repr
      ensures Valid() && fresh(rows.Repr - old(rows.Repr))
      ensures Model() == if old(readOnly) then old(Model())
                         else UndoneMany(ReplayStart(old(Model())), Repeat(count))
      decreases |undo|, 1
    {
      hide Join, Rows.Valid, MidReplay, UndoneChain;
      if readOnly { return; }
      markActive := false;
      UndoCloseRun();
      ghost var start, n := Model(), |undo|;
      var times := if count > 0 then count else 1;
      for j := 0 to times
        invariant Valid() && fresh(rows.Repr - old(rows.Repr)) && !readOnly && !markActive
        invariant MidReplay(Model()) && |undo| <= n
        invariant UndoneMany(Model(), times - j) == UndoneMany(start, times)
      {
        if |undo| == 0 {
          if !internalMod { dirty := false; }
          return;
        }
        UndoThroughPairs();
      }
    }

    /** Undo one record, and if it was paired the command once more. */
    method UndoThroughPairs()
      requires Valid() && !readOnly && !markActive && MidReplay(Model()) && undo != []
      modifies this, rows.Repr
      ensures Valid() && fresh(rows.Repr - old(rows.Repr))
      ensures Model() == UndoneChain(old(Model()))
      decreases |undo|, 0
    {
      hide Join, Rows.Valid, MidReplay, UndoneOnce, Reverts;
      ghost var before := Model();
      UndoneOnceKeeps(before);
      UndoIsPossible(before);
      var paired := undo[0].paired;
      UndoStep(false);
      if paired {
        AlreadyStarted(Model());
        ChainContinues(before);
        DoUndo(1);
      }
    }

    method DoRedo(count: int)
      requires Valid() && (readOnly || (MidReplay(ReplayStart(Model())) && (AtRest(Model()) || undo != [])))
      modifies this, rows.Repr
      ensures Valid() && fresh(rows.Repr - old(rows.Repr))
      ensures Model() == if old(readOnly) then old(Model())
                         else RedoneMany(ReplayStart(old(Model())), Repeat(count))
      decreases |redo|, 1
    {
      hide Join, Rows.Valid, MidReplay, RedoneChain;
      if readOnly { return; }
      markActive := false;
      UndoCloseRun();
      ghost var start, n := Model(), |redo|;
      var times := if count > 0 then count else 1;
      for j := 0 to times
        invariant Valid() && fresh(rows.Repr - old(rows.Repr)) && !readOnly && !markActive
        invariant MidReplay(Model()) && |redo| <= n
        invariant AtRest(Model()) || undo != []
        invariant RedoneMany(Model(), times - j) == RedoneMany(start, times)
      {
        if |redo| == 0 { return; }
        RedoThroughPairs();
      }
    }

    /** Redo one record, and if a paired one follows the command once more. */
    method RedoThroughPairs()
      requires Valid() && !readOnly && !markActive && MidReplay(Model()) && redo != []
      requires AtRest(Model()) || undo != []
      modifies this, rows.Repr
      ensures Valid() && fresh(rows.Repr - old(rows.Repr))
      ensures Model() == RedoneChain(old(Model()))
      decreases |redo|, 0
    {
      hide Join, Rows.Valid, MidReplay, RedoneOnce, Replays;
      ghost var before := Model();
      RedoneOnceKeeps(before);
      RedoIsPossible(before);
      UndoStep(true);
      if |redo| > 0 && redo[0].paired {
        AlreadyStarted(Model());
        DoRedo(1);
      }
    }
  }

  lemma UndoIsPossible(doc: Doc)
    requires MidReplay(doc) && doc.undo != []
    ensures Reverts(doc.text, doc.undo[0])
  {
  }

  lemma RedoIsPossible(doc: Doc)
    requires MidReplay(doc) && doc.redo != []
    ensures Replays(doc.text, doc.redo[0])
  {
  }

  /** A paired record is not the last one, and the command it triggers undoes the rest of
      its chain. */
  lemma ChainContinues(doc: Doc)
    requires MidReplay(doc) && doc.undo != [] && doc.undo[0].paired
    requires MidReplay(UndoneOnce(doc)) && UndoneOnce(doc).undo == doc.undo[1..]
    ensures UndoneOnce(doc).undo != []
    ensures UndoneMany(UndoneOnce(doc), 1) == UndoneChain(doc)
  {
    assert BottomUnpaired(doc.undo);
    assert UndoneMany(UndoneOnce(doc), 1) == UndoneMany(UndoneChain(UndoneOnce(doc)), 0);
  }
}
