/** The edit and undo engine as a state machine over flat text.

    `Doc` is everything about one buffer that an edit, an undo, a redo or a save can
    change.  The functions say what each of them does to it; the class in EditBuffer is
    proved to do exactly that on the row array.  The lemmas are about every run. */
module History {
  import opened Text
  import opened Points
  import opened Records

  /** What no edit changes. */
  datatype Session = Session(
    isFile: bool,      // not the minibuffer: wants a final newline
    readOnly: bool,
    everSaved: bool,   // saved since it was loaded
    base: Text,        // the text as loaded
    disk: Text         // the text as last loaded or saved
  )

  datatype Doc = Doc(
    text: Text,
    undo: seq<Record>,
    redo: seq<Record>,
    tracked: Tracked,
    cursor: Pos,
    markActive: bool,
    dirty: bool,
    session: Session
  )

  /** Empty, or ended by a newline. */
  predicate Terminated(t: Text) {
    t == [] || t[|t| - 1] == NL
  }

  /** The text of a file with its final newline; any other text as it is. */
  function WithFinalNewline(t: Text, isFile: bool): Text {
    if isFile && !Terminated(t) then t + [NL] else t
  }

  // ---- Splicing the text ----

  function InsertAt(doc: Doc, o: nat, d: Text): Doc
    requires o <= |doc.text|
  {
    var s := PosAt(doc.text, o);
    doc.(text := Insert(doc.text, o, d),
         tracked := AdjustAll(doc.tracked, s, Advance(s, d), false),
         dirty := true)
  }

  function DeleteAt(doc: Doc, o: nat, e: nat): Doc
    requires o <= e <= |doc.text|
  {
    doc.(text := Delete(doc.text, o, e),
         tracked := AdjustAll(doc.tracked, PosAt(doc.text, o), PosAt(doc.text, e), true),
         dirty := true)
  }

  // ---- Edits ----

  function RecordedDelete(doc: Doc, o: nat, e: nat, append: bool, paired: bool): Doc
    requires o < e <= |doc.text|
  {
    var r := Record(PosAt(doc.text, o), PosAt(doc.text, e), doc.text[o..e], true, append, paired, 0);
    DeleteAt(doc.(undo := Push(doc.undo, r)), o, e)
  }

  function RecordedInsert(doc: Doc, o: nat, d: Text, append: bool, paired: bool): Doc
    requires o <= |doc.text| && d != []
  {
    var s := PosAt(doc.text, o);
    var r := Record(s, Advance(s, d), d, false, append, paired, 0);
    InsertAt(doc.(undo := Push(doc.undo, r)), o, d)
  }

  /** Put the final newline back, as part of the same undo step. */
  function Repaired(doc: Doc): Doc {
    if !doc.session.isFile || Terminated(doc.text) then doc
    else RecordedInsert(doc, |doc.text|, [NL], false, true)
  }

  /** A request to delete the final newline of a non-blank last line and nothing else. */
  predicate DeletesOnlyFinalNewline(t: Text, o: nat, e: nat, repl: Text)
    requires o <= e <= |t|
  {
    repl == [] && |t| >= 2 && o == |t| - 1 && e == |t| && t[o] == NL && t[o - 1] != NL
  }

  predicate Refused(doc: Doc, o: nat, e: nat, repl: Text)
    requires o <= e <= |doc.text|
  {
    doc.session.readOnly || (doc.session.isFile && DeletesOnlyFinalNewline(doc.text, o, e, repl))
  }

  /** The one or two recorded splices of an edit. */
  function Spliced(doc: Doc, o: nat, e: nat, repl: Text, chain: bool, coalesce: bool): Doc
    requires o <= e <= |doc.text|
  {
    var both := o < e && repl != [];
    var join := coalesce && !both && !chain;
    var d := if o < e then RecordedDelete(doc, o, e, join, chain) else doc;
    if repl != [] then RecordedInsert(d, o, repl, join, both || chain) else d
  }

  /** Replace the text between two offsets.  `chain` ties the edit to the one before;
      `coalesce` offers a one-record edit to the open run. */
  function EditAt(doc: Doc, o: nat, e: nat, repl: Text, chain: bool, coalesce: bool): Doc
    requires o <= e <= |doc.text|
  {
    if Refused(doc, o, e, repl) then doc
    else Repaired(Spliced(doc.(redo := []), o, e, repl, chain, coalesce)).(dirty := true)
  }

  /** Blank rows appended at the end, as the head of a chain. */
  function Extended(doc: Doc, rows: nat): Doc {
    if doc.session.readOnly || rows == 0 then doc
    else RecordedInsert(doc.(redo := []), |doc.text|, Newlines(rows), false, false)
  }

  function Saved(doc: Doc): Doc {
    doc.(dirty := false, session := doc.session.(everSaved := true, disk := doc.text))
  }

  // ---- The history is replayable ----

  /** Undoing `undo` from `t`, newest first, leads to `base`, and every text reached
      between two undo steps is terminated. */
  ghost predicate Past(t: Text, undo: seq<Record>, base: Text, isFile: bool)
    decreases |undo|
  {
    if undo == [] then t == base
    else
      Reverts(t, undo[0]) &&
      (isFile && !undo[0].paired ==> Terminated(Reverted(t, undo[0]))) &&
      Past(Reverted(t, undo[0]), undo[1..], base, isFile)
  }

  ghost predicate Future(t: Text, redo: seq<Record>, isFile: bool)
    decreases |redo|
  {
    if redo == [] then isFile ==> Terminated(t)
    else
      Replays(t, redo[0]) &&
      (isFile && !redo[0].paired ==> Terminated(t)) &&
      Future(Replayed(t, redo[0]), redo[1..], isFile)
  }

  /** Only records of at most 21 keystrokes can be replayed, so a list that leads back to
      the loaded text holds no other. */
  lemma {:induction false} PastIsBounded(t: Text, undo: seq<Record>, base: Text, isFile: bool)
    requires Past(t, undo, base, isFile)
    ensures Bounded(undo)
    decreases |undo|
  {
    hide Reverts, Reverted, Bounded;
    if undo == [] {
      BoundedNone();
    } else {
      PastIsBounded(Reverted(t, undo[0]), undo[1..], base, isFile);
      BoundedOneMore(t, undo);
    }
  }

  lemma {:induction false} FutureIsBounded(t: Text, redo: seq<Record>, isFile: bool)
    requires Future(t, redo, isFile)
    ensures Bounded(redo)
    decreases |redo|
  {
    hide Replays, Replayed, Bounded;
    if redo == [] {
      BoundedNone();
    } else {
      FutureIsBounded(Replayed(t, redo[0]), redo[1..], isFile);
      BoundedOneMore(t, redo);
    }
  }

  lemma BoundedNone()
    ensures Bounded([])
  {
  }

  lemma BoundedOneMore(t: Text, undo: seq<Record>)
    requires undo != [] && Bounded(undo[1..]) && (Reverts(t, undo[0]) || Replays(t, undo[0]))
    ensures Bounded(undo)
  {
    hide Advance, InBounds;
    forall i | 0 <= i < |undo|
      ensures undo[i].merges <= MERGE_LIMIT && undo[i].end == Advance(undo[i].start, undo[i].data)
    {
      assert i > 0 ==> undo[i] == undo[1..][i - 1];
    }
  }

  /** Only the newest record may still be open. */
  predicate OnlyHeadOpen(undo: seq<Record>) {
    forall i | 1 <= i < |undo| :: !undo[i].append
  }

  predicate AllClosed(redo: seq<Record>) {
    forall i | 0 <= i < |redo| :: !redo[i].append
  }

  /** The oldest record starts a chain. */
  predicate BottomUnpaired(undo: seq<Record>) {
    undo != [] ==> !undo[|undo| - 1].paired
  }

  ghost predicate Linked(t: Text, undo: seq<Record>, redo: seq<Record>, base: Text, isFile: bool) {
    Past(t, undo, base, isFile) && Future(t, redo, isFile) &&
    OnlyHeadOpen(undo) && AllClosed(redo) && BottomUnpaired(undo)
  }

  /** Holds between any two replayed records, mid-chain included. */
  ghost predicate Replayable(doc: Doc) {
    Linked(doc.text, doc.undo, doc.redo, doc.session.base, doc.session.isFile)
  }

  /** The redo list starts a chain, so the text is not a mid-chain one. */
  predicate AtRest(doc: Doc) {
    doc.redo != [] ==> !doc.redo[0].paired
  }

  /** What every command keeps. */
  ghost predicate Inv(doc: Doc) {
    Replayable(doc) && AtRest(doc) &&
    (!doc.dirty ==> doc.text == doc.session.disk) &&
    (!doc.session.everSaved ==> doc.session.disk == doc.session.base)
  }

  lemma RestIsTerminated(doc: Doc)
    requires Replayable(doc) && AtRest(doc) && doc.session.isFile
    ensures Terminated(doc.text)
  {
  }

  lemma {:induction false} PastIgnoresOpenness(t: Text, undo: seq<Record>, base: Text, isFile: bool)
    requires Past(t, undo, base, isFile)
    ensures Past(t, Closed(undo), base, isFile)
  {
    hide Advance;
    if undo != [] {
      assert Closed(undo)[1..] == undo[1..];
    }
  }

  /** Recording the edit that leads from `t` to `t'` extends the past by it, merged or
      not. */
  lemma {:induction false} PushExtendsPast(t: Text, t': Text, undo: seq<Record>, r: Record, base: Text, isFile: bool)
    requires Past(t, undo, base, isFile)
    requires Reverts(t', r) && Reverted(t', r) == t
    requires isFile && !r.paired ==> Terminated(t)
    ensures Past(t', Push(undo, r), base, isFile)
  {
    var pushed := Push(undo, r);
    if r.append && undo != [] && CanMerge(undo[0], r) {
      MergeUndoesBoth(t', undo[0], r);
      assert pushed[1..] == undo[1..];
    } else {
      PastIgnoresOpenness(t, undo, base, isFile);
      assert pushed[1..] == Closed(undo);
    }
  }

  lemma {:induction false} PushKeepsShape(undo: seq<Record>, r: Record)
    requires OnlyHeadOpen(undo) && BottomUnpaired(undo)
    requires r.paired ==> undo != []
    ensures OnlyHeadOpen(Push(undo, r)) && BottomUnpaired(Push(undo, r))
  {
    hide Advance, Aligned;
    if r.append && undo != [] && CanMerge(undo[0], r) {
      assert Push(undo, r) == [Merge(undo[0], r)] + undo[1..];
    } else {
      ClosedShape(undo);
      hide CanMerge, Closed;
      assert Push(undo, r) == [r] + Closed(undo);
    }
  }

  lemma ClosedAt(undo: seq<Record>, i: nat)
    requires i < |undo|
    ensures |Closed(undo)| == |undo|
    ensures Closed(undo)[i] == if i == 0 then undo[0].(append := false) else undo[i]
  {
  }

  lemma {:induction false} ClosedShape(undo: seq<Record>)
    requires OnlyHeadOpen(undo)
    ensures |Closed(undo)| == |undo| && AllClosed(Closed(undo))
    ensures forall i | 0 <= i < |undo| :: Closed(undo)[i].paired == undo[i].paired
  {
    if undo != [] { ClosedAt(undo, 0); }
    hide Closed;
    forall i | 0 <= i < |undo| ensures !Closed(undo)[i].append && Closed(undo)[i].paired == undo[i].paired {
      ClosedAt(undo, i);
    }
  }

  // ---- Edits keep it ----

  /** The state in the middle of an edit: no redo list, terminated or not. */
  ghost predicate MidEdit(doc: Doc) {
    Past(doc.text, doc.undo, doc.session.base, doc.session.isFile) && doc.redo == [] &&
    OnlyHeadOpen(doc.undo) && BottomUnpaired(doc.undo) &&
    (!doc.session.everSaved ==> doc.session.disk == doc.session.base)
  }

  lemma RecordedDeleteKeeps(doc: Doc, o: nat, e: nat, append: bool, paired: bool)
    requires MidEdit(doc) && o < e <= |doc.text|
    requires doc.session.isFile && !paired ==> Terminated(doc.text)
    requires paired ==> doc.undo != []
    ensures MidEdit(RecordedDelete(doc, o, e, append, paired))
  {
    var t := doc.text;
    var r := Record(PosAt(t, o), PosAt(t, e), t[o..e], true, append, paired, 0);
    DeleteIsRecorded(t, o, e, append, paired);
    PushExtendsPast(t, Delete(t, o, e), doc.undo, r, doc.session.base, doc.session.isFile);
    PushKeepsShape(doc.undo, r);
  }

  lemma RecordedInsertKeeps(doc: Doc, o: nat, d: Text, append: bool, paired: bool)
    requires MidEdit(doc) && o <= |doc.text| && d != []
    requires doc.session.isFile && !paired ==> Terminated(doc.text)
    requires paired ==> doc.undo != []
    ensures MidEdit(RecordedInsert(doc, o, d, append, paired))
  {
    var t := doc.text;
    var r := Record(PosAt(t, o), Advance(PosAt(t, o), d), d, false, append, paired, 0);
    InsertIsRecorded(t, o, d, append, paired);
    PushExtendsPast(t, Insert(t, o, d), doc.undo, r, doc.session.base, doc.session.isFile);
    PushKeepsShape(doc.undo, r);
  }

  lemma RepairedKeeps(doc: Doc)
    requires MidEdit(doc)
    requires doc.session.isFile ==> doc.undo != [] || Terminated(doc.text)
    ensures MidEdit(Repaired(doc))
    ensures Repaired(doc).session == doc.session && (doc.session.isFile ==> Terminated(Repaired(doc).text))
  {
    if doc.session.isFile && !Terminated(doc.text) {
      RecordedInsertKeeps(doc, |doc.text|, [NL], false, true);
    }
  }

  lemma SplicedKeeps(doc: Doc, o: nat, e: nat, repl: Text, chain: bool, coalesce: bool)
    requires MidEdit(doc) && o <= e <= |doc.text|
    requires doc.session.isFile ==> Terminated(doc.text)
    requires chain ==> doc.undo != []
    ensures var d := Spliced(doc, o, e, repl, chain, coalesce);
            MidEdit(d) && d.session == doc.session && (doc.session.isFile ==> d.undo != [] || Terminated(d.text))
  {
    var both := o < e && repl != [];
    var join := coalesce && !both && !chain;
    var d := doc;
    if o < e {
      RecordedDeleteKeeps(doc, o, e, join, chain);
      d := RecordedDelete(doc, o, e, join, chain);
    }
    if repl != [] {
      RecordedInsertKeeps(d, o, repl, join, both || chain);
    }
  }

  lemma EditKeepsInv(doc: Doc, o: nat, e: nat, repl: Text, chain: bool, coalesce: bool)
    requires Inv(doc) && o <= e <= |doc.text|
    requires chain ==> doc.undo != []
    ensures Inv(EditAt(doc, o, e, repl, chain, coalesce))
  {
    hide Advance, Linked, Spliced, Repaired, DeletesOnlyFinalNewline;
    if !Refused(doc, o, e, repl) {
      if doc.session.isFile { RestIsTerminated(doc); }
      var d := Spliced(doc.(redo := []), o, e, repl, chain, coalesce);
      RestIsMidEdit(doc);
      SplicedKeeps(doc.(redo := []), o, e, repl, chain, coalesce);
      RepairedKeeps(d);
      TerminatedMidEditIsRest(Repaired(d));
    }
  }

  lemma RestIsMidEdit(doc: Doc)
    requires Inv(doc)
    ensures MidEdit(doc.(redo := []))
  {
    hide Past, Future;
  }

  lemma TerminatedMidEditIsRest(doc: Doc)
    requires MidEdit(doc)
    requires doc.session.isFile ==> Terminated(doc.text)
    ensures Inv(doc.(dirty := true))
  {
  }

  lemma ExtendedKeepsInv(doc: Doc, rows: nat)
    requires Inv(doc)
    ensures Inv(Extended(doc, rows))
  {
    if !doc.session.readOnly && rows != 0 {
      RecordedInsertKeeps(doc.(redo := []), |doc.text|, Newlines(rows), false, false);
    }
  }

  /** A pure deletion is refused exactly when carrying it out and repairing the final
      newline would give the same text back. */
  lemma RefusalIsExact(t: Text, o: nat, e: nat)
    requires Terminated(t) && o < e <= |t|
    ensures DeletesOnlyFinalNewline(t, o, e, []) <==>
            WithFinalNewline(Delete(t, o, e), true) == t
  {
    var t' := Delete(t, o, e);
    assert |t'| == |t| - (e - o);
    if !Terminated(t') && t' + [NL] == t {
      var last := if o < |t'| then |t| - 1 else |t'| - 1;
      assert t'[|t'| - 1] == t[last];
    }
    if DeletesOnlyFinalNewline(t, o, e, []) {
      assert t' == t[..|t| - 1];
      assert t == t[..|t| - 1] + [NL];
    }
  }

  /** A refusal changes nothing at all. */
  lemma RefusalChangesNothing(doc: Doc, o: nat, e: nat, repl: Text, chain: bool, coalesce: bool)
    requires o <= e <= |doc.text| && Refused(doc, o, e, repl)
    ensures EditAt(doc, o, e, repl, chain, coalesce) == doc
  {
  }

  /** What an accepted edit leaves behind: the spliced text, with a newline if it lost
      its last one. */
  lemma EditedText(doc: Doc, o: nat, e: nat, repl: Text, chain: bool, coalesce: bool)
    requires o <= e <= |doc.text| && !Refused(doc, o, e, repl)
    ensures var t := doc.text[..o] + repl + doc.text[e..];
            var doc' := EditAt(doc, o, e, repl, chain, coalesce);
            doc'.text == WithFinalNewline(t, doc.session.isFile) &&
            doc'.dirty && doc'.redo == []
  {
    var d := Spliced(doc.(redo := []), o, e, repl, chain, coalesce);
    SplicedText(doc, o, e, repl, chain, coalesce);
    assert Insert(d.text, |d.text|, [NL]) == d.text + [NL];
  }

  lemma SplicedText(doc: Doc, o: nat, e: nat, repl: Text, chain: bool, coalesce: bool)
    requires o <= e <= |doc.text|
    ensures var d := Spliced(doc.(redo := []), o, e, repl, chain, coalesce);
            d.text == doc.text[..o] + repl + doc.text[e..] && d.redo == [] && d.session.isFile == doc.session.isFile
  {
    SpliceInTwoSteps(doc.text, o, e, repl);
  }

  lemma SpliceInTwoSteps(t: Text, o: nat, e: nat, repl: Text)
    requires o <= e <= |t|
    ensures Insert(Delete(t, o, e), o, repl) == t[..o] + repl + t[e..]
    ensures o == e ==> Delete(t, o, e) == t
    ensures repl == [] ==> Delete(t, o, e) == t[..o] + repl + t[e..]
  {
    assert Delete(t, o, e)[..o] == t[..o];
    assert Delete(t, o, e)[o..] == t[e..];
  }

  /** An edit leaves the session, the cursor and the selection alone. */
  lemma EditKeepsSession(doc: Doc, o: nat, e: nat, repl: Text, chain: bool, coalesce: bool)
    requires o <= e <= |doc.text|
    ensures var d := EditAt(doc, o, e, repl, chain, coalesce);
            d.session == doc.session && d.cursor == doc.cursor && d.markActive == doc.markActive
  {
    hide Advance, AdjustAll, Push, Terminated, DeletesOnlyFinalNewline, Insert, Delete, PosAt, Repaired;
    RepairKeepsSession(Spliced(doc.(redo := []), o, e, repl, chain, coalesce));
  }

  lemma RepairKeepsSession(doc: Doc)
    ensures var d := Repaired(doc);
            d.session == doc.session && d.cursor == doc.cursor && d.markActive == doc.markActive
  {
    hide Advance, AdjustAll, Push, Terminated, Insert, PosAt;
  }

  /** What any request to edit leaves behind, taken or refused: the text it asks for with the
      final newline of a file, or in a read-only buffer nothing at all.  The cursor and the
      selection are its caller's. */
  lemma EditGives(doc: Doc, o: nat, e: nat, repl: Text, chain: bool, coalesce: bool)
    requires o <= e <= |doc.text| && (doc.session.isFile ==> Terminated(doc.text))
    ensures var d := EditAt(doc, o, e, repl, chain, coalesce);
            (doc.session.readOnly ==> d == doc) &&
            (!doc.session.readOnly ==>
               d.text == WithFinalNewline(doc.text[..o] + repl + doc.text[e..], doc.session.isFile)) &&
            d.cursor == doc.cursor && d.markActive == doc.markActive && d.session == doc.session
  {
    hide Terminated, DeletesOnlyFinalNewline, Insert;
    EditKeepsSession(doc, o, e, repl, chain, coalesce);
    if !Refused(doc, o, e, repl) {
      EditedText(doc, o, e, repl, chain, coalesce);
    } else {
      RefusalChangesNothing(doc, o, e, repl, chain, coalesce);
      if !doc.session.readOnly { RefusedDeletion(doc.text, o, e, repl); }
    }
  }

  lemma RefusedDeletion(t: Text, o: nat, e: nat, repl: Text)
    requires o <= e <= |t| && DeletesOnlyFinalNewline(t, o, e, repl)
    ensures WithFinalNewline(t[..o] + repl + t[e..], true) == t
  {
    RefusalIsExact(t, o, e);
    assert t[..o] + repl + t[e..] == Delete(t, o, e);
  }

  /** The next edit may join this one's record exactly if this one offered to coalesce, is
      tied to no other, is one splice, and left the final newline in place. */
  lemma OpenAfterEdit(doc: Doc, o: nat, e: nat, repl: Text, chain: bool, coalesce: bool)
    requires o <= e <= |doc.text| && (o < e || repl != []) && !Refused(doc, o, e, repl)
    ensures var d, t := EditAt(doc, o, e, repl, chain, coalesce), doc.text[..o] + repl + doc.text[e..];
            d.undo != [] &&
            (d.undo[0].append <==>
               coalesce && !chain && (o == e || repl == []) && (doc.session.isFile ==> Terminated(t)))
  {
    hide Advance, AdjustAll, Push, Terminated, DeletesOnlyFinalNewline, Insert, Delete, PosAt;
    forall undo: seq<Record>, r: Record ensures Push(undo, r)[0].append == r.append { PushedIsOpen(undo, r); }
    SplicedText(doc, o, e, repl, chain, coalesce);
  }

  lemma PushedIsOpen(undo: seq<Record>, r: Record)
    ensures Push(undo, r)[0].append == r.append
  {
  }

  // ---- The mark and the repaired newline ----

  lemma PlaceIsSet(t: Text, o: nat)
    requires o <= |t|
    ensures IsSet(PosAt(t, o))
  {
    AdvanceShift(ORIGIN, ORIGIN, t[..o]);
  }

  lemma DeletedMark(t: Text, o: nat, e: nat, q: nat, k: Tracked)
    requires o < e <= |t| && q <= |t| && k.mark == PosAt(t, q)
    ensures var q' := OffsetAfterDelete(q, o, e);
            o <= |Delete(t, o, e)| && q' <= |Delete(t, o, e)| &&
            AdjustAll(k, PosAt(t, o), PosAt(t, e), true).mark == PosAt(Delete(t, o, e), q')
  {
    hide Advance, AdjustPoint;
    PlaceIsSet(t, q);
    PosAtOrder(t, o, e);
    DeleteMovesPoint(t, o, e, q);
  }

  lemma InsertedMark(t: Text, o: nat, c: Text, q: nat, k: Tracked)
    requires o <= |t| && c != [] && q <= |t| && k.mark == PosAt(t, q)
    ensures var q' := OffsetAfterInsert(q, o, |c|);
            q' <= |Insert(t, o, c)| &&
            AdjustAll(k, PosAt(t, o), Advance(PosAt(t, o), c), false).mark == PosAt(Insert(t, o, c), q')
  {
    hide Advance, AdjustPoint;
    PlaceIsSet(t, q);
    AdvanceForward(PosAt(t, o), c);
    InsertMovesPoint(t, o, c, q);
  }

  /** Where the text from `o` to `e` is replaced by `n` bytes, the place of a point. */
  function OffsetAfterEdit(q: nat, o: nat, e: nat, n: nat): nat
    requires o <= e
  {
    OffsetAfterInsert(OffsetAfterDelete(q, o, e), o, n)
  }

  lemma SplicedMark(doc: Doc, o: nat, e: nat, repl: Text, q: nat, chain: bool, coalesce: bool)
    requires o <= e <= |doc.text| && q <= |doc.text| && doc.tracked.mark == PosAt(doc.text, q)
    ensures var d := Spliced(doc.(redo := []), o, e, repl, chain, coalesce);
            var q' := OffsetAfterEdit(q, o, e, |repl|);
            d.text == doc.text[..o] + repl + doc.text[e..] && d.session == doc.session &&
            q' <= |d.text| && d.tracked.mark == PosAt(d.text, q')
  {
    hide Advance, Push, AdjustAll, Insert, Delete;
    SpliceInTwoSteps(doc.text, o, e, repl);
    if o < e { DeletedMark(doc.text, o, e, q, doc.tracked); }
    if repl != [] {
      var k := if o < e then AdjustAll(doc.tracked, PosAt(doc.text, o), PosAt(doc.text, e), true) else doc.tracked;
      InsertedMark(Delete(doc.text, o, e), o, repl, OffsetAfterDelete(q, o, e), k);
    }
  }

  /** What an accepted edit makes of the mark: it keeps its place in the text, but for one
      that ends up at the end of a file that lost its newline; that one goes with the newline
      put back. */
  lemma EditMovesTheMark(doc: Doc, o: nat, e: nat, repl: Text, q: nat, chain: bool, coalesce: bool)
    requires o <= e <= |doc.text| && q <= |doc.text| && doc.tracked.mark == PosAt(doc.text, q)
    requires !Refused(doc, o, e, repl)
    ensures var t := doc.text[..o] + repl + doc.text[e..];
            var d, q' := EditAt(doc, o, e, repl, chain, coalesce), OffsetAfterEdit(q, o, e, |repl|);
            q' <= |t| <= |d.text| && d.text == WithFinalNewline(t, doc.session.isFile) &&
            d.tracked.mark == PosAt(d.text, if q' == |t| then |d.text| else q')
  {
    hide Advance, Push, AdjustAll, Insert, Delete, Spliced, DeletesOnlyFinalNewline, OffsetAfterEdit;
    var d, q' := Spliced(doc.(redo := []), o, e, repl, chain, coalesce), OffsetAfterEdit(q, o, e, |repl|);
    SplicedMark(doc, o, e, repl, q, chain, coalesce);
    if doc.session.isFile && !Terminated(d.text) {
      InsertedMark(d.text, |d.text|, [NL], q', d.tracked);
      NewlineAppended(d.text);
    }
  }

  lemma NewlineAppended(t: Text)
    ensures Insert(t, |t|, [NL]) == t + [NL] && |t + [NL]| == |t| + 1
  {
  }

  /** When an edit makes a file lose its final newline, the mark is carried to the blank last
      row if and only if it was at the end of the text, or in a stretch replaced up to the
      end; any other mark is moved by the edit alone. */
  lemma RepairCarriesTheMark(doc: Doc, o: nat, e: nat, repl: Text, q: nat, chain: bool, coalesce: bool)
    requires o <= e <= |doc.text| && q <= |doc.text| && doc.tracked.mark == PosAt(doc.text, q)
    requires doc.session.isFile && !Refused(doc, o, e, repl)
    requires !Terminated(doc.text[..o] + repl + doc.text[e..])
    ensures var t := doc.text[..o] + repl + doc.text[e..];
            var d, q' := EditAt(doc, o, e, repl, chain, coalesce), OffsetAfterEdit(q, o, e, |repl|);
            d.text == t + [NL] && q' <= |t| &&
            (d.tracked.mark == Pos(0, PosAt(t, |t|).y + 1) <==> q == |doc.text| || (e == |doc.text| && o <= q)) &&
            (d.tracked.mark != Pos(0, PosAt(t, |t|).y + 1) ==> d.tracked.mark == PosAt(t, q'))
  {
    hide Advance, EditAt, DeletesOnlyFinalNewline, Terminated;
    var t, q' := doc.text[..o] + repl + doc.text[e..], OffsetAfterEdit(q, o, e, |repl|);
    EditMovesTheMark(doc, o, e, repl, q, chain, coalesce);
    LastRowIsBlank(t);
    assert q' == |t| <==> q == |doc.text| || (e == |doc.text| && o <= q);
    if q' < |t| {
      assert (t + [NL])[..q'] == t[..q'];
      PosAtOrder(t + [NL], q', |t| + 1);
    }
  }

  lemma LastRowIsBlank(t: Text)
    ensures PosAt(t + [NL], |t| + 1) == Pos(0, PosAt(t, |t|).y + 1)
  {
    EndOfInsert(t, |t|, [NL]);
    assert Insert(t, |t|, [NL]) == t + [NL];
    assert Advance(PosAt(t, |t|), [NL]) == Step(Advance(PosAt(t, |t|), []), NL);
  }

  /** Two concrete cases: "b" and the final newline deleted from a file "ab" with the mark
      behind the "b", and "b" typed at the end of a file "a" with the mark there. */
  lemma RepairCarriesAMark(doc: Doc)
    requires doc.session.isFile && !doc.session.readOnly
    ensures doc.text == [97, 98, NL] && doc.tracked.mark == Pos(2, 0) ==>
              var d := EditAt(doc, 1, 3, [], false, false); d.text == [97, NL] && d.tracked.mark == Pos(0, 1)
    ensures doc.text == [97, NL] && doc.tracked.mark == Pos(0, 1) ==>
              var d := EditAt(doc, 2, 2, [98], false, true); d.text == [97, NL, 98, NL] && d.tracked.mark == Pos(0, 2)
  {
    hide AdjustAll, Push, EditAt;
    if doc.text == [97, 98, NL] && doc.tracked.mark == Pos(2, 0) {
      AdvanceAlongRow(ORIGIN, doc.text[..2]);
      AdvanceAlongRow(ORIGIN, doc.text[..1]);
      assert doc.text[..1] + [] + doc.text[3..] == [97];
      RepairCarriesTheMark(doc, 1, 3, [], 2, false, false);
      PosAtPrefix(doc.text, [97], 1);
    }
    if doc.text == [97, NL] && doc.tracked.mark == Pos(0, 1) {
      SecondRow();
      assert doc.text[..2] + [98] + doc.text[2..] == [97, NL, 98];
      RepairCarriesTheMark(doc, 2, 2, [98], 2, false, true);
    }
  }

  lemma SecondRow()
    ensures PosAt([97, NL], 2) == Pos(0, 1) && PosAt([97, NL, 98], 3) == Pos(1, 1)
  {
    var t: Text := [97, NL, 98];
    AdvanceAlongRow(ORIGIN, [97]);
    AdvanceConcat(ORIGIN, [97], [NL]);
    assert Advance(Pos(1, 0), [NL]) == Step(Advance(Pos(1, 0), []), NL);
    assert [97] + [NL] == [97, NL] == t[..2] && [97, NL] + [98] == t == t[..3] && [97, NL][..2] == [97, NL];
    AdvanceConcat(ORIGIN, [97, NL], [98]);
    AdvanceAlongRow(Pos(0, 1), [98]);
  }
}
