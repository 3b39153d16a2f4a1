/** Tracked points and character boundaries, over the same machine.  `Sound(doc, false)`
    says that every tracked point names a place of the text.  `Sound(doc, true)` says in
    addition that the text, and every text the undo and redo lists lead to, is valid
    UTF-8, and that every tracked point starts a character. */
module Landing {
  import opened Text
  import opened Utf8
  import opened Points
  import opened Records
  import opened History
  import opened Undoing

  /** Undoing `r` in `t` cuts no character apart and splices in whole ones. */
  ghost predicate CutsCleanly(t: Text, r: Record)
    requires Reverts(t, r)
  {
    var o := OffsetOf(t, r.start);
    ValidUtf8(r.data) && Boundary(t, o) && (!r.isDelete ==> Boundary(t, o + |r.data|))
  }

  ghost predicate CleanPast(t: Text, undo: seq<Record>)
    decreases |undo|
  {
    ValidUtf8(t) &&
    (undo != [] ==> Reverts(t, undo[0]) && CutsCleanly(t, undo[0]) && CleanPast(Reverted(t, undo[0]), undo[1..]))
  }

  ghost predicate CleanFuture(t: Text, redo: seq<Record>)
    decreases |redo|
  {
    ValidUtf8(t) &&
    (redo != [] ==> Replays(t, redo[0]) && CutsCleanly(t, Inverse(redo[0])) &&
                    CleanFuture(Replayed(t, redo[0]), redo[1..]))
  }

  ghost predicate Sound(doc: Doc, utf8: bool) {
    AllLand(doc.text, doc.tracked, utf8) &&
    (utf8 ==> CleanPast(doc.text, doc.undo) && CleanFuture(doc.text, doc.redo))
  }

  // ---- One record ----

  lemma RevertedIsValid(t: Text, r: Record)
    requires Reverts(t, r) && ValidUtf8(t) && CutsCleanly(t, r)
    ensures ValidUtf8(Reverted(t, r))
  {
    hide Advance, CharLen;
    var o := OffsetOf(t, r.start);
    if r.isDelete {
      InsertKeepsValid(t, o, r.data);
    } else {
      DeleteKeepsValid(t, o, o + |r.data|);
    }
  }

  /** If undoing cuts cleanly, so does redoing. */
  lemma RevertedCutsCleanly(t: Text, r: Record)
    requires Reverts(t, r) && ValidUtf8(t) && CutsCleanly(t, r)
    ensures Replays(Reverted(t, r), r) && CutsCleanly(Reverted(t, r), Inverse(r))
  {
    hide Advance, CharLen;
    var o, t' := OffsetOf(t, r.start), Reverted(t, r);
    RedoUndoesUndo(t, r);
    PosAtPrefix(t, t', o);
    OffsetOfPosAt(t', o);
    ValidStartsCharacter(r.data);
  }

  lemma MergedCutsCleanly(t: Text, prev: Record, next: Record)
    requires Reverts(t, next) && Reverts(Reverted(t, next), prev) && CanMerge(prev, next)
    requires CutsCleanly(t, next) && CutsCleanly(Reverted(t, next), prev)
    ensures Reverts(t, Merge(prev, next)) && CutsCleanly(t, Merge(prev, next))
  {
    hide Advance, CharLen;
    MergeUndoesBoth(t, prev, next);
    ValidConcat(prev.data, next.data);
    ValidConcat(next.data, prev.data);
    if !next.isDelete {
      var t1 := Reverted(t, next);
      var o := OffsetOf(t1, prev.start);
      TypingMeets(t, prev, next);
      PosAtPrefix(t, t1, o);
      OffsetOfPosAt(t, o);
    }
  }

  lemma {:induction false} ClosingKeepsClean(t: Text, undo: seq<Record>)
    requires CleanPast(t, undo)
    ensures CleanPast(t, Closed(undo))
  {
    hide Advance, CharLen, ValidUtf8;
    if undo != [] {
      assert Closed(undo)[1..] == undo[1..];
    }
  }

  lemma {:induction false} PushKeepsClean(t: Text, t': Text, undo: seq<Record>, r: Record)
    requires CleanPast(t, undo) && ValidUtf8(t')
    requires Reverts(t', r) && Reverted(t', r) == t && CutsCleanly(t', r)
    ensures CleanPast(t', Push(undo, r))
  {
    hide Advance, CharLen, ValidUtf8;
    var pushed := Push(undo, r);
    if r.append && undo != [] && CanMerge(undo[0], r) {
      MergeUndoesBoth(t', undo[0], r);
      MergedCutsCleanly(t', undo[0], r);
      assert pushed[1..] == undo[1..];
    } else {
      ClosingKeepsClean(t, undo);
      assert pushed[1..] == Closed(undo);
    }
  }

  // ---- Edits ----

  lemma RecordedDeleteSound(doc: Doc, o: nat, e: nat, append: bool, paired: bool, utf8: bool)
    requires Sound(doc, utf8) && doc.redo == [] && o < e <= |doc.text|
    requires utf8 ==> Boundary(doc.text, o) && Boundary(doc.text, e)
    ensures Sound(RecordedDelete(doc, o, e, append, paired), utf8)
  {
    hide Advance, CharLen, ValidUtf8, AllLand, AdjustAll, Push;
    var t, t' := doc.text, Delete(doc.text, o, e);
    var r := Record(PosAt(t, o), PosAt(t, e), t[o..e], true, append, paired, 0);
    AllLandAfterDelete(t, o, e, doc.tracked, utf8);
    if utf8 {
      DeleteIsRecorded(t, o, e, append, paired);
      DeleteKeepsValid(t, o, e);
      ValidSlice(t, o, e);
      PosAtPrefix(t, t', o);
      OffsetOfPosAt(t', o);
      PushKeepsClean(t, t', doc.undo, r);
    }
  }

  lemma RecordedInsertSound(doc: Doc, o: nat, d: Text, append: bool, paired: bool, utf8: bool)
    requires Sound(doc, utf8) && doc.redo == [] && o <= |doc.text| && d != []
    requires utf8 ==> Boundary(doc.text, o) && ValidUtf8(d)
    ensures Sound(RecordedInsert(doc, o, d, append, paired), utf8)
  {
    hide Advance, CharLen, ValidUtf8, AllLand, AdjustAll, Push, CleanPast, Insert;
    if utf8 {
      ValidStartsCharacter(d);
      InsertedPastIsClean(doc, o, d, append, paired);
    }
    AllLandAfterInsert(doc.text, o, d, doc.tracked, utf8);
    if utf8 { NoFutureIsClean(Insert(doc.text, o, d)); }
  }

  /** Undoing an insertion at a boundary cuts it out cleanly again. */
  lemma InsertedPastIsClean(doc: Doc, o: nat, d: Text, append: bool, paired: bool)
    requires CleanPast(doc.text, doc.undo) && o <= |doc.text| && d != []
    requires Boundary(doc.text, o) && ValidUtf8(d)
    ensures ValidUtf8(Insert(doc.text, o, d))
    ensures CleanPast(Insert(doc.text, o, d), RecordedInsert(doc, o, d, append, paired).undo)
  {
    hide Advance, CharLen, ValidUtf8, AdjustAll, Push;
    var t, t' := doc.text, Insert(doc.text, o, d);
    var r := Record(PosAt(t, o), Advance(PosAt(t, o), d), d, false, append, paired, 0);
    InsertIsRecorded(t, o, d, append, paired);
    InsertKeepsValid(t, o, d);
    InsertCutsCleanly(t, o, d, r);
    PushKeepsClean(t, t', doc.undo, r);
  }

  lemma InsertCutsCleanly(t: Text, o: nat, d: Text, r: Record)
    requires o <= |t| && d != [] && Boundary(t, o) && ValidUtf8(d)
    requires r.start == PosAt(t, o) && r.data == d && !r.isDelete && Reverts(Insert(t, o, d), r)
    ensures CutsCleanly(Insert(t, o, d), r)
  {
    hide Advance, CharLen, ValidUtf8;
    ValidStartsCharacter(d);
    EndOfInsert(t, o, d);
    OffsetOfPosAt(Insert(t, o, d), o);
  }

  lemma NoFutureIsClean(t: Text)
    requires ValidUtf8(t)
    ensures CleanFuture(t, [])
  {
  }

  /** Edits on character boundaries with valid payloads keep everything sound; with
      `utf8` off, so do arbitrary in-bounds edits. */
  lemma EditSound(doc: Doc, o: nat, e: nat, repl: Text, chain: bool, coalesce: bool, utf8: bool)
    requires Sound(doc, utf8) && o <= e <= |doc.text|
    requires utf8 ==> Boundary(doc.text, o) && Boundary(doc.text, e) && ValidUtf8(repl)
    ensures Sound(EditAt(doc, o, e, repl, chain, coalesce), utf8)
  {
    hide Advance, CharLen, ValidUtf8, AllLand, RecordedDelete, RecordedInsert;
    if !Refused(doc, o, e, repl) {
      var d := doc.(redo := []);
      SplicedSound(d, o, e, repl, chain, coalesce, utf8);
      RepairedSound(Spliced(d, o, e, repl, chain, coalesce), utf8);
    }
  }

  lemma SplicedSound(doc: Doc, o: nat, e: nat, repl: Text, chain: bool, coalesce: bool, utf8: bool)
    requires Sound(doc, utf8) && doc.redo == [] && o <= e <= |doc.text|
    requires utf8 ==> Boundary(doc.text, o) && Boundary(doc.text, e) && ValidUtf8(repl)
    ensures Sound(Spliced(doc, o, e, repl, chain, coalesce), utf8)
    ensures Spliced(doc, o, e, repl, chain, coalesce).redo == []
  {
    hide Advance, CharLen, ValidUtf8, AllLand, AdjustAll, Push, CleanPast;
    var both := o < e && repl != [];
    var join := coalesce && !both && !chain;
    var d := doc;
    if o < e {
      RecordedDeleteSound(doc, o, e, join, chain, utf8);
      d := RecordedDelete(doc, o, e, join, chain);
    }
    if repl != [] {
      RecordedInsertSound(d, o, repl, join, both || chain, utf8);
    }
  }

  lemma RepairedSound(doc: Doc, utf8: bool)
    requires Sound(doc, utf8) && doc.redo == []
    ensures Sound(Repaired(doc), utf8)
  {
    hide Advance, CharLen, ValidUtf8, AllLand, RecordedInsert;
    if doc.session.isFile && !Terminated(doc.text) {
      NewlineIsValid(1);
      assert Newlines(1) == [NL];
      RecordedInsertSound(doc, |doc.text|, [NL], false, true, utf8);
    }
  }

  lemma ExtendedSound(doc: Doc, rows: nat, utf8: bool)
    requires Sound(doc, utf8)
    ensures Sound(Extended(doc, rows), utf8)
  {
    hide Advance, CharLen, ValidUtf8, AllLand, RecordedInsert;
    if !doc.session.readOnly && rows != 0 {
      NewlineIsValid(rows);
      RecordedInsertSound(doc.(redo := []), |doc.text|, Newlines(rows), false, false, utf8);
    }
  }

  // ---- Undo and redo ----

  lemma UnappliedSound(doc: Doc, r: Record, utf8: bool)
    requires Reverts(doc.text, r) && AllLand(doc.text, doc.tracked, utf8)
    requires utf8 ==> ValidUtf8(doc.text) && CutsCleanly(doc.text, r)
    ensures var d := Unapplied(doc, r);
            d.text == Reverted(doc.text, r) && AllLand(d.text, d.tracked, utf8) && Lands(d.text, d.cursor, utf8)
  {
    hide Advance, CharLen, ValidUtf8, AllLand, AdjustAll;
    var t, o, t' := doc.text, OffsetOf(doc.text, r.start), Reverted(doc.text, r);
    if r.isDelete {
      if utf8 { ValidStartsCharacter(r.data); }
      AllLandAfterInsert(t, o, r.data, doc.tracked, utf8);
      EndOfInsert(t, o, r.data);
      OffsetOfPosAt(t', o + |r.data|);
    } else {
      EndOfSlice(t, o, o + |r.data|);
      AllLandAfterDelete(t, o, o + |r.data|, doc.tracked, utf8);
      PosAtPrefix(t, t', o);
      OffsetOfPosAt(t', o);
    }
  }

  lemma UndoneOnceSound(doc: Doc, utf8: bool)
    requires MidReplay(doc) && Sound(doc, utf8) && doc.undo != []
    ensures Sound(UndoneOnce(doc), utf8) && Lands(UndoneOnce(doc).text, UndoneOnce(doc).cursor, utf8)
  {
    hide Advance, CharLen, ValidUtf8, AllLand;
    var r, d := doc.undo[0], UndoneOnce(doc);
    UndoneOnceKeeps(doc);
    UnappliedSound(doc, r, utf8);
    if utf8 {
      RevertedIsValid(doc.text, r);
      RevertedCutsCleanly(doc.text, r);
      RedoUndoesUndo(doc.text, r);
      assert d.redo[1..] == doc.redo;
    }
  }

  lemma RedoneOnceSound(doc: Doc, utf8: bool)
    requires MidReplay(doc) && Sound(doc, utf8) && doc.redo != []
    requires doc.redo[0].paired ==> doc.undo != []
    ensures Sound(RedoneOnce(doc), utf8) && Lands(RedoneOnce(doc).text, RedoneOnce(doc).cursor, utf8)
  {
    hide Advance, CharLen, ValidUtf8, AllLand;
    var r, d := doc.redo[0], RedoneOnce(doc);
    RedoneOnceKeeps(doc);
    UnappliedSound(doc, Inverse(r), utf8);
    if utf8 {
      RevertedIsValid(doc.text, Inverse(r));
      RevertedCutsCleanly(doc.text, Inverse(r));
      UndoUndoesRedo(doc.text, r);
      assert Inverse(Inverse(r)) == r;
      assert d.undo[1..] == doc.undo;
    }
  }

  lemma {:induction false} UndoneChainSound(doc: Doc, utf8: bool)
    requires MidReplay(doc) && Sound(doc, utf8) && doc.undo != []
    ensures Sound(UndoneChain(doc), utf8) && Lands(UndoneChain(doc).text, UndoneChain(doc).cursor, utf8)
    decreases |doc.undo|
  {
    hide Sound, Lands;
    UndoneOnceKeeps(doc);
    UndoneOnceSound(doc, utf8);
    if doc.undo[0].paired {
      UndoneChainSound(UndoneOnce(doc), utf8);
    }
  }

  lemma {:induction false} RedoneChainSound(doc: Doc, utf8: bool)
    requires MidReplay(doc) && Sound(doc, utf8) && doc.redo != []
    requires doc.redo[0].paired ==> doc.undo != []
    ensures Sound(RedoneChain(doc), utf8) && Lands(RedoneChain(doc).text, RedoneChain(doc).cursor, utf8)
    decreases |doc.redo|
  {
    hide Sound, Lands;
    RedoneOnceKeeps(doc);
    RedoneOnceSound(doc, utf8);
    var d := RedoneOnce(doc);
    if d.redo != [] && d.redo[0].paired {
      RedoneChainSound(d, utf8);
    }
  }

  lemma {:induction false} UndoneManySound(doc: Doc, times: nat, utf8: bool)
    requires MidReplay(doc) && AtRest(doc) && Sound(doc, utf8)
    ensures var d := UndoneMany(doc, times);
            Sound(d, utf8) &&
            (Lands(doc.text, doc.cursor, utf8) || (times > 0 && doc.undo != []) ==> Lands(d.text, d.cursor, utf8))
    decreases times
  {
    hide Lands, MidReplay, UndoneChain;
    if times > 0 && doc.undo != [] {
      UndoneChainSound(doc, utf8);
      UndoneManySound(UndoneChain(doc), times - 1, utf8);
    }
  }

  lemma {:induction false} RedoneManySound(doc: Doc, times: nat, utf8: bool)
    requires MidReplay(doc) && AtRest(doc) && Sound(doc, utf8)
    ensures var d := RedoneMany(doc, times);
            Sound(d, utf8) &&
            (Lands(doc.text, doc.cursor, utf8) || (times > 0 && doc.redo != []) ==> Lands(d.text, d.cursor, utf8))
    decreases times
  {
    hide Lands, MidReplay, RedoneChain;
    if times > 0 && doc.redo != [] {
      RedoneChainSound(doc, utf8);
      RedoneManySound(RedoneChain(doc), times - 1, utf8);
    }
  }

  /** Undo and redo keep all of it.  They leave the cursor on a place if anything was
      replayed, or if it stood on one before. */
  lemma ReplaySound(doc: Doc, count: int, utf8: bool)
    requires Inv(doc) && Sound(doc, utf8)
    ensures var u := Undo(doc, count);
            Sound(u, utf8) &&
            (Lands(doc.text, doc.cursor, utf8) || (!doc.session.readOnly && doc.undo != []) ==>
               Lands(u.text, u.cursor, utf8))
    ensures var r := Redo(doc, count);
            Sound(r, utf8) &&
            (Lands(doc.text, doc.cursor, utf8) || (!doc.session.readOnly && doc.redo != []) ==>
               Lands(r.text, r.cursor, utf8))
  {
    hide Lands, MidReplay, UndoneMany, RedoneMany, AllLand, CleanPast, CleanFuture;
    ReplayStartKeeps(doc);
    if utf8 { ClosingKeepsClean(doc.text, doc.undo); }
    UndoneManySound(ReplayStart(doc), Repeat(count), utf8);
    RedoneManySound(ReplayStart(doc), Repeat(count), utf8);
  }
}
