/** One undo takes back one command, however many records the command pushed. */
module SingleUndo {
  import opened Text
  import opened Records
  import opened History
  import opened Undoing

  /** Reverting the records `rs`, newest first, leads from `t` to `before`. */
  ghost predicate LeadsBack(t: Text, rs: seq<Record>, before: Text)
    decreases |rs|
  {
    if rs == [] then t == before
    else Reverts(t, rs[0]) && LeadsBack(Reverted(t, rs[0]), rs[1..], before)
  }

  /** The records of one step: every one but the oldest is tied to the one below it. */
  predicate OneStep(rs: seq<Record>) {
    rs != [] && !rs[|rs| - 1].paired && forall i | 0 <= i < |rs| - 1 :: rs[i].paired
  }

  /** On top of `below`, the step `rs` was recorded, and it leads back to `before`. */
  ghost predicate Recorded(doc: Doc, rs: seq<Record>, below: seq<Record>, before: Text) {
    doc.undo == (if rs == [] then below else rs + Closed(below)) &&
    LeadsBack(doc.text, rs, before) && (rs != [] ==> !rs[0].append)
  }

  lemma {:induction false} ChainTakesOneStep(doc: Doc, rs: seq<Record>, below: seq<Record>, before: Text)
    requires MidReplay(doc) && doc.undo == rs + below && LeadsBack(doc.text, rs, before) && OneStep(rs)
    ensures UndoneChain(doc).text == before && UndoneChain(doc).undo == below
    decreases |rs|
  {
    hide MidReplay, Reverts, Reverted;
    UndoneOnceKeeps(doc);
    assert doc.undo[0] == rs[0] && doc.undo[1..] == rs[1..] + below;
    if rs[0].paired {
      ChainTakesOneStep(UndoneOnce(doc), rs[1..], below, before);
    } else {
      assert rs[1..] == [];
    }
  }

  /** One undo right after a recorded step restores what was there before it. */
  lemma {:induction false} UndoTakesOneStep(doc: Doc, rs: seq<Record>, below: seq<Record>, before: Text)
    requires Inv(doc) && !doc.session.readOnly && Recorded(doc, rs, below, before) && OneStep(rs)
    ensures Undo(doc, 1).text == before && Undo(doc, 1).undo == Closed(below)
  {
    hide Inv, MidReplay, UndoneChain, LeadsBack, Closed, OneStep;
    ReplayStartKeeps(doc);
    var d := ReplayStart(doc);
    ClosedStep(doc.undo, rs, below);
    ChainTakesOneStep(d, rs, Closed(below), before);
    assert d.undo != [] by { assert rs != [] by { StepIsSome(rs); } }
    assert UndoneMany(d, 1) == UndoneMany(UndoneChain(d), 0);
  }

  lemma StepIsSome(rs: seq<Record>)
    requires OneStep(rs)
    ensures rs != []
  {
  }

  // ---- What an edit records ------------------------------------------------

  /** `d` is `doc` after one more record was put on the step. */
  ghost predicate OneMore(doc: Doc, d: Doc, paired: bool, rs: seq<Record>, below: seq<Record>, before: Text) {
    d.session == doc.session && d.undo != [] && Recorded(d, [d.undo[0]] + rs, below, before) &&
    ((if paired then OneStep(rs) else rs == []) ==> OneStep([d.undo[0]] + rs))
  }

  lemma {:induction false} DeleteRecords(doc: Doc, o: nat, e: nat, paired: bool,
                                         rs: seq<Record>, below: seq<Record>, before: Text)
    requires o < e <= |doc.text| && Recorded(doc, rs, below, before)
    ensures OneMore(doc, RecordedDelete(doc, o, e, false, paired), paired, rs, below, before)
  {
    hide Reverts, Reverted, Recorded, OneMore;
    DeleteIsRecorded(doc.text, o, e, false, paired);
    PushOnStep(doc, rs, below, before, RecordedDelete(doc, o, e, false, paired));
  }

  lemma {:induction false} InsertRecords(doc: Doc, o: nat, t: Text, paired: bool,
                                         rs: seq<Record>, below: seq<Record>, before: Text)
    requires o <= |doc.text| && t != [] && Recorded(doc, rs, below, before)
    ensures OneMore(doc, RecordedInsert(doc, o, t, false, paired), paired, rs, below, before)
  {
    hide Reverts, Reverted, Recorded, OneMore;
    InsertIsRecorded(doc.text, o, t, false, paired);
    PushOnStep(doc, rs, below, before, RecordedInsert(doc, o, t, false, paired));
  }

  /** A record that does not ask to join is simply put on top. */
  lemma {:induction false} PushOnStep(doc: Doc, rs: seq<Record>, below: seq<Record>, before: Text, d: Doc)
    requires Recorded(doc, rs, below, before) && d.session == doc.session
    requires d.undo != [] && d.undo == [d.undo[0]] + Closed(doc.undo) && !d.undo[0].append
    requires Reverts(d.text, d.undo[0]) && Reverted(d.text, d.undo[0]) == doc.text
    ensures OneMore(doc, d, d.undo[0].paired, rs, below, before)
  {
    hide Reverts, Reverted, LeadsBack, Closed;
    LeadsBackOneMore(d.text, d.undo[0], rs, before);
    ClosedStep(doc.undo, rs, below);
    OnTop(d.undo[0], rs, Closed(below));
  }

  lemma {:induction false} LeadsBackOneMore(t: Text, r: Record, rs: seq<Record>, before: Text)
    requires Reverts(t, r) && LeadsBack(Reverted(t, r), rs, before)
    ensures LeadsBack(t, [r] + rs, before)
  {
    hide Reverts, Reverted;
    assert ([r] + rs)[1..] == rs;
  }

  lemma OnTop(r: Record, rs: seq<Record>, below: seq<Record>)
    ensures [r] + (rs + below) == [r] + rs + below
    ensures forall i | 0 < i <= |rs| :: ([r] + rs)[i] == rs[i - 1]
  {
  }

  lemma ClosedStep(undo: seq<Record>, rs: seq<Record>, below: seq<Record>)
    requires undo == (if rs == [] then below else rs + Closed(below)) && (rs != [] ==> !rs[0].append)
    ensures Closed(undo) == rs + Closed(below)
  {
    if rs != [] {
      assert undo == [undo[0]] + undo[1..];
    }
  }

  /** The records of a splice, put on the step `rs`. */
  lemma SpliceRecords(doc: Doc, o: nat, e: nat, repl: Text, chain: bool,
                      rs: seq<Record>, below: seq<Record>, before: Text)
    returns (all: seq<Record>)
    requires o <= e <= |doc.text| && Recorded(doc, rs, below, before)
    requires if chain then OneStep(rs) else rs == []
    ensures var d := Spliced(doc, o, e, repl, chain, false);
            d.session == doc.session && Recorded(d, all, below, before) &&
            if chain || o < e || repl != [] then OneStep(all) else all == [] && d == doc
  {
    hide Recorded, RecordedDelete, RecordedInsert, OneStep;
    var d := doc;
    all := rs;
    if o < e {
      DeleteRecords(doc, o, e, chain, rs, below, before);
      d := RecordedDelete(doc, o, e, false, chain);
      all := [d.undo[0]] + rs;
      DeleteKeepsStart(doc, o, e, false, chain);
    }
    if repl != [] {
      var paired := o < e || chain;
      InsertRecords(d, o, repl, paired, all, below, before);
      d := RecordedInsert(d, o, repl, false, paired);
      all := [d.undo[0]] + all;
    }
    assert d == Spliced(doc, o, e, repl, chain, false);
  }

  lemma DeleteKeepsStart(doc: Doc, o: nat, e: nat, append: bool, paired: bool)
    requires o < e <= |doc.text|
    ensures o <= |RecordedDelete(doc, o, e, append, paired).text|
  {
  }

  /** The records of an edit lead back to the text before it.  `rs` is the step it was
      chained to, if any. */
  lemma EditRecords(doc: Doc, o: nat, e: nat, repl: Text, chain: bool,
                    rs: seq<Record>, below: seq<Record>, before: Text)
    returns (all: seq<Record>)
    requires o <= e <= |doc.text| && !Refused(doc, o, e, repl)
    requires doc.session.isFile ==> Terminated(doc.text)
    requires Recorded(doc, rs, below, before)
    requires if chain then OneStep(rs) else rs == []
    ensures Recorded(EditAt(doc, o, e, repl, chain, false), all, below, before)
    ensures chain || o < e || repl != [] ==> OneStep(all)
  {
    hide Recorded, Spliced, RecordedInsert, Refused, OneStep;
    SameRecorded(doc, doc.(redo := []), rs, below, before);
    all := SpliceRecords(doc.(redo := []), o, e, repl, chain, rs, below, before);
    var d := Spliced(doc.(redo := []), o, e, repl, chain, false);
    if doc.session.isFile && !Terminated(d.text) {
      InsertRecords(d, |d.text|, [NL], true, all, below, before);
      d := RecordedInsert(d, |d.text|, [NL], false, true);
      all := [d.undo[0]] + all;
    }
    SameRecorded(d, d.(dirty := true), all, below, before);
  }

  lemma SameRecorded(doc: Doc, d: Doc, rs: seq<Record>, below: seq<Record>, before: Text)
    requires Recorded(doc, rs, below, before) && d.text == doc.text && d.undo == doc.undo
    ensures Recorded(d, rs, below, before)
  {
  }

  /** `after` is `doc` but for where the cursor is and whether a selection is shown. */
  predicate SameButView(doc: Doc, after: Doc) {
    after == doc.(cursor := after.cursor, markActive := after.markActive)
  }

  lemma ViewKeepsInv(doc: Doc, after: Doc)
    requires Inv(doc) && SameButView(doc, after)
    ensures Inv(after)
  {
    assert Linked(after.text, after.undo, after.redo, after.session.base, after.session.isFile);
  }

  /** One undo takes back an edit that did not join an open run: the text and, but for the
      closed head, the records are those before it. */
  lemma UndoTakesBackAnEdit(doc: Doc, o: nat, e: nat, repl: Text, after: Doc)
    requires Inv(doc) && o <= e <= |doc.text| && !Refused(doc, o, e, repl) && (o < e || repl != [])
    requires SameButView(EditAt(doc, o, e, repl, false, false), after)
    ensures Inv(after) && Undo(after, 1).text == doc.text && Undo(after, 1).undo == Closed(doc.undo)
  {
    hide Inv, Undo, EditAt;
    EditKeepsInv(doc, o, e, repl, false, false);
    TerminatedAtRest(doc);
    assert LeadsBack(doc.text, [], doc.text);
    var rs := EditRecords(doc, o, e, repl, false, [], doc.undo, doc.text);
    EditKeepsSession(doc, o, e, repl, false, false);
    ViewKeepsInv(EditAt(doc, o, e, repl, false, false), after);
    UndoTakesOneStep(after, rs, doc.undo, doc.text);
  }

  /** The same for an edit chained to rows appended just before it. */
  lemma UndoTakesBackAnExtendedEdit(doc: Doc, rows: nat, o: nat, e: nat, repl: Text, after: Doc)
    requires Inv(doc) && rows > 0 && !doc.session.readOnly
    requires o <= e <= |Extended(doc, rows).text| && !Refused(Extended(doc, rows), o, e, repl)
    requires SameButView(EditAt(Extended(doc, rows), o, e, repl, true, false), after)
    ensures Inv(after) && Undo(after, 1).text == doc.text && Undo(after, 1).undo == Closed(doc.undo)
  {
    hide Inv, Undo, EditAt, RecordedInsert;
    var ext := Extended(doc, rows);
    ExtendedKeepsInv(doc, rows);
    TerminatedAtRest(ext);
    assert LeadsBack(doc.text, [], doc.text);
    InsertRecords(doc.(redo := []), |doc.text|, Newlines(rows), false, [], doc.undo, doc.text);
    EditKeepsInv(ext, o, e, repl, true, false);
    var rs := EditRecords(ext, o, e, repl, true, [ext.undo[0]] + [], doc.undo, doc.text);
    EditKeepsSession(ext, o, e, repl, true, false);
    ViewKeepsInv(EditAt(ext, o, e, repl, true, false), after);
    UndoTakesOneStep(after, rs, doc.undo, doc.text);
  }

  lemma TerminatedAtRest(doc: Doc)
    requires Inv(doc)
    ensures doc.session.isFile ==> Terminated(doc.text)
  {
    if doc.session.isFile { RestIsTerminated(doc); }
  }
}
