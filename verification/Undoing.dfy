/** Undo and redo over `Doc`, and what holds of every run of edits, undos, redos and
    saves. */
module Undoing {
  import opened Text
  import opened Records
  import opened History

  // ---- One record ----

  /** The splice that undoes `r`, with the cursor left where it happened. */
  ghost function Unapplied(doc: Doc, r: Record): Doc
    requires Reverts(doc.text, r)
  {
    var o := OffsetOf(doc.text, r.start);
    if r.isDelete then InsertAt(doc, o, r.data).(cursor := r.end)
    else DeleteAt(doc, o, o + |r.data|).(cursor := r.start)
  }

  ghost function UndoneOnce(doc: Doc): Doc
    requires doc.undo != [] && Reverts(doc.text, doc.undo[0])
  {
    Unapplied(doc, doc.undo[0]).(undo := Closed(doc.undo[1..]), redo := [doc.undo[0]] + doc.redo)
  }

  ghost function RedoneOnce(doc: Doc): Doc
    requires doc.redo != [] && Replays(doc.text, doc.redo[0])
  {
    Unapplied(doc, Inverse(doc.redo[0])).(undo := Closed([doc.redo[0]] + doc.undo), redo := doc.redo[1..])
  }

  /** Holds throughout an undo or redo command, mid-chain included. */
  ghost predicate MidReplay(doc: Doc) {
    Replayable(doc) && AllClosed(doc.undo) &&
    (!doc.dirty ==> doc.text == doc.session.disk) &&
    (!doc.session.everSaved ==> doc.session.disk == doc.session.base)
  }

  /** What undo and redo never touch. */
  predicate SameSession(doc: Doc, doc': Doc) {
    doc'.session == doc.session && doc'.markActive == doc.markActive
  }

  lemma ClosedListIsItself(undo: seq<Record>)
    requires HeadClosed(undo)
    ensures Closed(undo) == undo
  {
    if undo != [] {
      assert undo == [undo[0]] + undo[1..];
    }
  }

  lemma UnappliedText(doc: Doc, r: Record)
    requires Reverts(doc.text, r)
    ensures var d := Unapplied(doc, r);
            d.text == Reverted(doc.text, r) && d.dirty && SameSession(doc, d)
  {
  }

  lemma {:induction false} LinkedStepsBack(t: Text, undo: seq<Record>, redo: seq<Record>, base: Text, isFile: bool)
    requires Linked(t, undo, redo, base, isFile) && AllClosed(undo) && undo != []
    ensures Linked(Reverted(t, undo[0]), undo[1..], [undo[0]] + redo, base, isFile)
    ensures AllClosed(undo[1..]) && Closed(undo[1..]) == undo[1..]
  {
    ClosedListIsItself(undo[1..]);
    RedoUndoesUndo(t, undo[0]);
    assert ([undo[0]] + redo)[1..] == redo;
  }

  lemma {:induction false} LinkedStepsForward(t: Text, undo: seq<Record>, redo: seq<Record>, base: Text, isFile: bool)
    requires Linked(t, undo, redo, base, isFile) && AllClosed(undo) && redo != []
    requires redo[0].paired ==> undo != []
    ensures Linked(Replayed(t, redo[0]), [redo[0]] + undo, redo[1..], base, isFile)
    ensures AllClosed([redo[0]] + undo) && Closed([redo[0]] + undo) == [redo[0]] + undo
  {
    ClosedListIsItself([redo[0]] + undo);
    UndoUndoesRedo(t, redo[0]);
    assert ([redo[0]] + undo)[1..] == undo;
  }

  lemma UndoneOnceKeeps(doc: Doc)
    requires MidReplay(doc) && doc.undo != []
    ensures MidReplay(UndoneOnce(doc)) && SameSession(doc, UndoneOnce(doc))
    ensures UndoneOnce(doc).text == Reverted(doc.text, doc.undo[0])
    ensures UndoneOnce(doc).undo == doc.undo[1..] && UndoneOnce(doc).redo == [doc.undo[0]] + doc.redo
  {
    UnappliedText(doc, doc.undo[0]);
    LinkedStepsBack(doc.text, doc.undo, doc.redo, doc.session.base, doc.session.isFile);
    var d := UndoneOnce(doc);
    assert d.undo == doc.undo[1..];
    assert Linked(d.text, d.undo, d.redo, d.session.base, d.session.isFile);
  }

  lemma RedoneOnceKeeps(doc: Doc)
    requires MidReplay(doc) && doc.redo != []
    requires doc.redo[0].paired ==> doc.undo != []
    ensures MidReplay(RedoneOnce(doc)) && SameSession(doc, RedoneOnce(doc))
    ensures RedoneOnce(doc).text == Replayed(doc.text, doc.redo[0])
    ensures RedoneOnce(doc).undo == [doc.redo[0]] + doc.undo && RedoneOnce(doc).redo == doc.redo[1..]
  {
    UnappliedText(doc, Inverse(doc.redo[0]));
    LinkedStepsForward(doc.text, doc.undo, doc.redo, doc.session.base, doc.session.isFile);
    var d := RedoneOnce(doc);
    assert d.undo == [doc.redo[0]] + doc.undo;
    assert Linked(d.text, d.undo, d.redo, d.session.base, d.session.isFile);
  }

  // ---- A chain of paired records ----

  /** Undo one record and, as long as the record undone was paired, the one below. */
  ghost function UndoneChain(doc: Doc): (d: Doc)
    requires MidReplay(doc) && doc.undo != []
    ensures MidReplay(d) && AtRest(d) && SameSession(doc, d) && |d.undo| < |doc.undo|
    decreases |doc.undo|
  {
    UndoneOnceKeeps(doc);
    if doc.undo[0].paired then UndoneChain(UndoneOnce(doc)) else UndoneOnce(doc)
  }

  /** Redo one record and every paired one that follows it. */
  ghost function RedoneChain(doc: Doc): (d: Doc)
    requires MidReplay(doc) && doc.redo != []
    requires doc.redo[0].paired ==> doc.undo != []
    ensures MidReplay(d) && AtRest(d) && SameSession(doc, d) && |d.redo| < |doc.redo|
    decreases |doc.redo|
  {
    RedoneOnceKeeps(doc);
    var d := RedoneOnce(doc);
    if d.redo != [] && d.redo[0].paired then RedoneChain(d) else d
  }

  // ---- The commands ----

  /** Nothing left to undo: the text is the loaded one, so the buffer is clean again
      unless something else has been saved since. */
  function BottomReached(doc: Doc): Doc {
    if doc.session.everSaved then doc else doc.(dirty := false)
  }

  ghost function UndoneMany(doc: Doc, times: nat): (d: Doc)
    requires MidReplay(doc)
    ensures MidReplay(d) && SameSession(doc, d) && (AtRest(doc) ==> AtRest(d))
    decreases times
  {
    if times == 0 then doc
    else if doc.undo == [] then BottomReached(doc)
    else UndoneMany(UndoneChain(doc), times - 1)
  }

  ghost function RedoneMany(doc: Doc, times: nat): (d: Doc)
    requires MidReplay(doc)
    requires AtRest(doc) || doc.undo != []
    ensures MidReplay(d) && SameSession(doc, d) && (AtRest(doc) ==> AtRest(d))
    decreases times
  {
    if times == 0 || doc.redo == [] then doc
    else RedoneMany(RedoneChain(doc), times - 1)
  }

  function Repeat(count: int): nat {
    if count > 0 then count else 1
  }

  /** Both commands drop the selection and close the open run first. */
  function ReplayStart(doc: Doc): Doc {
    doc.(markActive := false, undo := Closed(doc.undo))
  }

  lemma {:induction false} ReplayStartKeeps(doc: Doc)
    requires Inv(doc)
    ensures MidReplay(ReplayStart(doc)) && AtRest(ReplayStart(doc))
  {
    PastIgnoresOpenness(doc.text, doc.undo, doc.session.base, doc.session.isFile);
    var d := ReplayStart(doc);
    assert Linked(d.text, d.undo, d.redo, d.session.base, d.session.isFile);
  }

  ghost function Undo(doc: Doc, count: int): (d: Doc)
    requires Inv(doc)
    ensures Inv(d)
  {
    ReplayStartKeeps(doc);
    if doc.session.readOnly then doc else UndoneMany(ReplayStart(doc), Repeat(count))
  }

  ghost function Redo(doc: Doc, count: int): (d: Doc)
    requires Inv(doc)
    ensures Inv(d)
  {
    ReplayStartKeeps(doc);
    if doc.session.readOnly then doc else RedoneMany(ReplayStart(doc), Repeat(count))
  }

  lemma UndoKeepsSession(doc: Doc, count: int)
    requires Inv(doc)
    ensures Undo(doc, count).session == doc.session
  {
    ReplayStartKeeps(doc);
  }

  // ---- Undo reaches the loaded text ----

  /** Two texts with one list of records that lead to one text are the same. */
  lemma {:induction false} PastDeterminesText(t: Text, t': Text, undo: seq<Record>, base: Text, isFile: bool)
    requires Past(t, undo, base, isFile) && Past(t', undo, base, isFile)
    ensures t == t'
    decreases |undo|
  {
    hide Reverts, Reverted, Replays, Replayed;
    if undo != [] {
      RedoUndoesUndo(t, undo[0]);
      RedoUndoesUndo(t', undo[0]);
      PastDeterminesText(Reverted(t, undo[0]), Reverted(t', undo[0]), undo[1..], base, isFile);
    }
  }

  /** The undo list alone, with what was loaded, says what the text is: states that share it
      share the text, however they were reached. */
  lemma HistoryDeterminesText(a: Doc, b: Doc)
    requires Inv(a) && Inv(b) && a.undo == b.undo && a.session.base == b.session.base
    requires a.session.isFile == b.session.isFile
    ensures a.text == b.text
  {
    hide Past;
    PastDeterminesText(a.text, b.text, a.undo, a.session.base, a.session.isFile);
  }

  /** Undoing as many times as there are records, or more, leaves no record and the text
      that was loaded, whatever was merged, paired or repaired on the way. */
  lemma {:induction false} UndoneManyReachesBase(doc: Doc, times: nat)
    requires MidReplay(doc) && AtRest(doc) && times >= |doc.undo|
    ensures UndoneMany(doc, times).undo == [] && UndoneMany(doc, times).text == doc.session.base
    decreases times
  {
    hide UndoneChain, MidReplay;
    if doc.undo == [] {
      NothingUndone(doc);
    } else {
      UndoneManyReachesBase(UndoneChain(doc), times - 1);
    }
  }

  lemma NothingUndone(doc: Doc)
    requires MidReplay(doc) && doc.undo == []
    ensures doc.text == doc.session.base
  {
  }

  lemma UndoRestoresLoadedText(doc: Doc, count: int)
    requires Inv(doc) && !doc.session.readOnly && Repeat(count) >= |doc.undo|
    ensures Undo(doc, count).undo == [] && Undo(doc, count).text == doc.session.base
  {
    ReplayStartKeeps(doc);
    UndoneManyReachesBase(ReplayStart(doc), Repeat(count));
  }

  // ---- Redo is the inverse of undo ----

  predicate SameHistory(a: Doc, b: Doc) {
    a.text == b.text && a.undo == b.undo && a.redo == b.redo && a.session == b.session
  }

  lemma {:induction false} RedoneChainDependsOnHistory(a: Doc, b: Doc)
    requires MidReplay(a) && MidReplay(b) && SameHistory(a, b) && a.redo != []
    requires a.redo[0].paired ==> a.undo != []
    ensures SameHistory(RedoneChain(a), RedoneChain(b))
    decreases |a.redo|
  {
    RedoneOnceKeeps(a);
    RedoneOnceKeeps(b);
    var d := RedoneOnce(a);
    if d.redo != [] && d.redo[0].paired {
      RedoneChainDependsOnHistory(d, RedoneOnce(b));
    }
  }

  lemma {:induction false} UndoneChainDependsOnHistory(a: Doc, b: Doc)
    requires MidReplay(a) && MidReplay(b) && SameHistory(a, b) && a.undo != []
    ensures SameHistory(UndoneChain(a), UndoneChain(b))
    decreases |a.undo|
  {
    UndoneOnceKeeps(a);
    UndoneOnceKeeps(b);
    if a.undo[0].paired {
      UndoneChainDependsOnHistory(UndoneOnce(a), UndoneOnce(b));
    }
  }

  /** `d` is what undoing the newest record of `doc` leaves of its history. */
  ghost predicate OneBack(doc: Doc, d: Doc) {
    doc.undo != [] && Reverts(doc.text, doc.undo[0]) &&
    d.text == Reverted(doc.text, doc.undo[0]) &&
    d.undo == doc.undo[1..] && d.redo == [doc.undo[0]] + doc.redo &&
    SameSession(doc, d)
  }

  lemma RedoneOnceReturns(doc: Doc, d: Doc)
    requires MidReplay(doc) && MidReplay(d) && OneBack(doc, d)
    ensures d.redo != [] && (d.redo[0].paired ==> d.undo != [])
    ensures Replays(d.text, d.redo[0]) && SameHistory(RedoneOnce(d), doc) && MidReplay(RedoneOnce(d))
  {
    RedoUndoesUndo(doc.text, doc.undo[0]);
    assert BottomUnpaired(doc.undo);
    RedoneOnceKeeps(d);
    assert doc.undo == [doc.undo[0]] + doc.undo[1..];
  }

  /** Conversely, redoing one record is a state from which undoing it steps back. */
  lemma UndoneOnceReturns(doc: Doc, d: Doc)
    requires MidReplay(doc) && MidReplay(d) && doc.redo != [] && SameSession(doc, d)
    requires Replays(doc.text, doc.redo[0]) && d.text == Replayed(doc.text, doc.redo[0])
    requires d.undo == [doc.redo[0]] + doc.undo && d.redo == doc.redo[1..]
    ensures Reverts(d.text, d.undo[0]) && SameHistory(UndoneOnce(d), doc) && MidReplay(UndoneOnce(d))
  {
    UndoUndoesRedo(doc.text, doc.redo[0]);
    UndoneOnceKeeps(d);
    assert doc.redo == [doc.redo[0]] + doc.redo[1..];
  }

  /** Redo everything that is still chained to what was redone last. */
  ghost function RestOfRedoChain(doc: Doc): Doc
    requires MidReplay(doc)
  {
    if doc.redo != [] && doc.redo[0].paired && doc.undo != [] then RedoneChain(doc) else doc
  }

  lemma {:induction false} RedoneChainAfterUndoneChain(doc: Doc)
    requires MidReplay(doc) && doc.undo != []
    ensures UndoneChain(doc).redo != [] && SameHistory(RedoneChain(UndoneChain(doc)), RestOfRedoChain(doc))
    decreases |doc.undo|
  {
    var d := UndoneOnce(doc);
    UndoneOnceKeeps(doc);
    RedoneOnceReturns(doc, d);
    if doc.undo[0].paired {
      RedoneChainAfterUndoneChain(d);
    }
    var back := RedoneOnce(d);
    if back.redo != [] && back.redo[0].paired {
      RedoneChainDependsOnHistory(back, doc);
    }
  }

  /** Undo the rest of a chain whose later part is on the redo list. */
  ghost function RestOfUndoChain(doc: Doc): Doc
    requires MidReplay(doc)
  {
    if doc.redo != [] && doc.redo[0].paired && doc.undo != [] then UndoneChain(doc) else doc
  }

  lemma {:induction false} UndoneChainAfterRedoneChain(doc: Doc)
    requires MidReplay(doc) && doc.redo != []
    requires doc.redo[0].paired ==> doc.undo != []
    ensures RedoneChain(doc).undo != [] && SameHistory(UndoneChain(RedoneChain(doc)), RestOfUndoChain(doc))
    decreases |doc.redo|
  {
    var d := RedoneOnce(doc);
    RedoneOnceKeeps(doc);
    UndoneOnceReturns(doc, d);
    if d.redo != [] && d.redo[0].paired {
      UndoneChainAfterRedoneChain(d);
    }
    if doc.redo[0].paired {
      UndoneChainDependsOnHistory(UndoneOnce(d), doc);
    }
  }

  lemma {:induction false} RedoneManyDependsOnHistory(a: Doc, b: Doc, times: nat)
    requires MidReplay(a) && MidReplay(b) && AtRest(a) && AtRest(b) && SameHistory(a, b)
    ensures SameHistory(RedoneMany(a, times), RedoneMany(b, times))
    decreases times
  {
    hide RedoneChain, MidReplay;
    if times > 0 && a.redo != [] {
      RedoneChainDependsOnHistory(a, b);
      var a', b' := RedoneChain(a), RedoneChain(b);
      RedoneManyDependsOnHistory(a', b', times - 1);
    }
  }

  lemma {:induction false} RedoneManyLast(doc: Doc, times: nat)
    requires MidReplay(doc) && AtRest(doc) && times > 0
    ensures RedoneMany(doc, times) == RedoneMany(RedoneMany(doc, times - 1), 1)
    decreases times
  {
    if times > 1 && doc.redo != [] {
      RedoneManyLast(RedoneChain(doc), times - 1);
    }
  }

  /** How many undo commands a list of records answers to. */
  function Chains(undo: seq<Record>): nat {
    if undo == [] then 0 else (if undo[0].paired then 0 else 1) + Chains(undo[1..])
  }

  lemma {:induction false} UndoneChainIsOne(doc: Doc)
    requires MidReplay(doc) && doc.undo != []
    ensures Chains(UndoneChain(doc).undo) == Chains(doc.undo) - 1
    decreases |doc.undo|
  {
    UndoneOnceKeeps(doc);
    if doc.undo[0].paired {
      UndoneChainIsOne(UndoneOnce(doc));
    }
  }

  /** What is left of `n` after `m` of them. */
  function Beyond(n: nat, m: nat): nat {
    if n > m then n - m else 0
  }

  /** Undoing stops at the bottom, redoing afterwards does not: what the undo could not
      take back is redone beyond where the document was. */
  lemma {:induction false} RedoneManyAfterUndoneMany(doc: Doc, times: nat)
    requires MidReplay(doc) && AtRest(doc)
    ensures SameHistory(RedoneMany(UndoneMany(doc, times), times), RedoneMany(doc, Beyond(times, Chains(doc.undo))))
    decreases times
  {
    hide MidReplay, UndoneChain, RedoneChain;
    var over := Beyond(times, Chains(doc.undo));
    if times == 0 {
    } else if doc.undo == [] {
      BottomKeepsHistory(doc);
      RedoneManyDependsOnHistory(BottomReached(doc), doc, times);
    } else {
      var d := UndoneChain(doc);
      UndoneChainIsOne(doc);
      RedoneManyAfterUndoneMany(d, times - 1);
      var v := UndoneMany(d, times - 1);
      RedoneManyLast(v, times);
      RedoneManyLast(d, over + 1);
      RedoneManyDependsOnHistory(RedoneMany(v, times - 1), RedoneMany(d, over), 1);
      RedoneChainAfterUndoneChain(doc);
      RedoneManyDependsOnHistory(RedoneChain(d), doc, over);
    }
  }

  lemma BottomKeepsHistory(doc: Doc)
    requires MidReplay(doc) && doc.undo == []
    ensures MidReplay(BottomReached(doc)) && SameHistory(BottomReached(doc), doc)
  {
    assert UndoneMany(doc, 1) == BottomReached(doc);
  }

  /** Every redo shortens the list. */
  lemma {:induction false} RedoneManyShortens(doc: Doc, times: nat)
    requires MidReplay(doc) && AtRest(doc)
    ensures if times == 0 || doc.redo == [] then RedoneMany(doc, times) == doc
            else |RedoneMany(doc, times).redo| < |doc.redo|
    decreases times
  {
    hide MidReplay, RedoneChain;
    if times > 0 && doc.redo != [] {
      RedoneManyShortens(RedoneChain(doc), times - 1);
    }
  }

  /** Undoing and redoing equally often gives back the text and both lists exactly, but
      for the newest record being closed, if and only if there was that much to undo or
      nothing else to redo. */
  lemma RedoInvertsUndo(doc: Doc, count: int)
    requires Inv(doc)
    ensures doc.session.readOnly ==> Redo(Undo(doc, count), count) == doc
    ensures !doc.session.readOnly ==>
              (SameHistory(Redo(Undo(doc, count), count), ReplayStart(doc)) <==>
               Repeat(count) <= Chains(doc.undo) || doc.redo == [])
  {
    hide MidReplay, UndoneMany, RedoneMany;
    if !doc.session.readOnly {
      var start, n := ReplayStart(doc), Repeat(count);
      ReplayStartKeeps(doc);
      ClosingKeepsChains(doc.undo);
      RedoneManyAfterUndoneMany(start, n);
      RedoneManyShortens(start, Beyond(n, Chains(doc.undo)));
      AlreadyStarted(Undo(doc, count));
    }
  }

  /** In the middle of undo and redo commands there is no run left to close. */
  lemma AlreadyStarted(doc: Doc)
    requires MidReplay(doc) && !doc.markActive
    ensures ReplayStart(doc) == doc
  {
    ClosedListIsItself(doc.undo);
  }

  lemma ClosingKeepsChains(undo: seq<Record>)
    ensures Chains(Closed(undo)) == Chains(undo)
  {
    if undo != [] {
      assert Closed(undo)[1..] == undo[1..];
    }
  }

  lemma {:induction false} UndoneManyDependsOnHistory(a: Doc, b: Doc, times: nat)
    requires MidReplay(a) && MidReplay(b) && SameHistory(a, b)
    ensures SameHistory(UndoneMany(a, times), UndoneMany(b, times))
    decreases times
  {
    hide UndoneChain, MidReplay;
    if times > 0 && a.undo != [] {
      UndoneChainDependsOnHistory(a, b);
      UndoneManyDependsOnHistory(UndoneChain(a), UndoneChain(b), times - 1);
    }
  }

  lemma {:induction false} UndoneManyLast(doc: Doc, times: nat)
    requires MidReplay(doc) && times > 0
    ensures UndoneMany(doc, times) == UndoneMany(UndoneMany(doc, times - 1), 1)
    decreases times
  {
    hide UndoneChain, MidReplay;
    if doc.undo == [] {
      BottomKeepsHistory(doc);
    } else if times > 1 {
      UndoneManyLast(UndoneChain(doc), times - 1);
    }
  }

  /** Every undo shortens the list. */
  lemma {:induction false} UndoneManyShortens(doc: Doc, times: nat)
    requires MidReplay(doc)
    ensures if times == 0 || doc.undo == [] then SameHistory(UndoneMany(doc, times), doc)
            else |UndoneMany(doc, times).undo| < |doc.undo|
    decreases times
  {
    hide MidReplay, UndoneChain;
    if times > 0 && doc.undo != [] {
      UndoneManyShortens(UndoneChain(doc), times - 1);
    }
  }

  lemma {:induction false} RedoneChainIsOne(doc: Doc)
    requires MidReplay(doc) && doc.redo != []
    requires doc.redo[0].paired ==> doc.undo != []
    ensures Chains(RedoneChain(doc).redo) == Chains(doc.redo) - if doc.redo[0].paired then 0 else 1
    decreases |doc.redo|
  {
    RedoneOnceKeeps(doc);
    var d := RedoneOnce(doc);
    if d.redo != [] && d.redo[0].paired { RedoneChainIsOne(d); }
  }

  lemma {:induction false} UndoneManyAfterRedoneMany(doc: Doc, times: nat)
    requires MidReplay(doc) && AtRest(doc)
    ensures SameHistory(UndoneMany(RedoneMany(doc, times), times), UndoneMany(doc, Beyond(times, Chains(doc.redo))))
    decreases times
  {
    hide MidReplay, RedoneChain, UndoneChain;
    var over := Beyond(times, Chains(doc.redo));
    if times > 0 && doc.redo != [] {
      var d := RedoneChain(doc);
      RedoneChainIsOne(doc);
      UndoneManyAfterRedoneMany(d, times - 1);
      var v := RedoneMany(d, times - 1);
      UndoneManyLast(v, times);
      UndoneManyLast(d, over + 1);
      UndoneManyDependsOnHistory(UndoneMany(v, times - 1), UndoneMany(d, over), 1);
      UndoneChainAfterRedoneChain(doc);
      UndoneManyDependsOnHistory(UndoneChain(d), doc, over);
    }
  }

  /** Redoing and undoing equally often likewise, if and only if there was that much to
      redo or nothing else to undo. */
  lemma UndoInvertsRedo(doc: Doc, count: int)
    requires Inv(doc)
    ensures doc.session.readOnly ==> Undo(Redo(doc, count), count) == doc
    ensures !doc.session.readOnly ==>
              (SameHistory(Undo(Redo(doc, count), count), ReplayStart(doc)) <==>
               Repeat(count) <= Chains(doc.redo) || doc.undo == [])
  {
    hide MidReplay, UndoneMany, RedoneMany;
    if !doc.session.readOnly {
      var start, n := ReplayStart(doc), Repeat(count);
      ReplayStartKeeps(doc);
      UndoneManyAfterRedoneMany(start, n);
      UndoneManyShortens(start, Beyond(n, Chains(doc.redo)));
      AlreadyStarted(Redo(doc, count));
    }
  }

  // ---- Cursor, selection and the clean flag --------------------------------------

  /** The cursor stands where the record undone last has been: behind the text that came
      back, or where the text that went away began. */
  ghost predicate CursorAfterUndo(doc: Doc) {
    doc.redo != [] && Replays(doc.text, doc.redo[0]) &&
    var r := doc.redo[0];
    var o := OffsetOf(doc.text, r.start);
    if r.isDelete then
      o + |r.data| <= |doc.text| && doc.text[o..o + |r.data|] == r.data && doc.cursor == PosAt(doc.text, o + |r.data|)
    else
      doc.cursor == PosAt(doc.text, o)
  }

  /** The same after a redo. */
  ghost predicate CursorAfterRedo(doc: Doc) {
    doc.undo != [] && Reverts(doc.text, doc.undo[0]) &&
    var r := doc.undo[0];
    var o := OffsetOf(doc.text, r.start);
    if r.isDelete then
      doc.cursor == PosAt(doc.text, o)
    else
      o + |r.data| <= |doc.text| && doc.text[o..o + |r.data|] == r.data && doc.cursor == PosAt(doc.text, o + |r.data|)
  }

  lemma UndoneOnceCursor(doc: Doc)
    requires MidReplay(doc) && doc.undo != []
    ensures CursorAfterUndo(UndoneOnce(doc)) && UndoneOnce(doc).dirty
  {
    hide Advance;
    var r, d := doc.undo[0], UndoneOnce(doc);
    UndoneOnceKeeps(doc);
    RedoUndoesUndo(doc.text, r);
    if r.isDelete { RecordSpan(d.text, Inverse(r)); }
  }

  lemma RedoneOnceCursor(doc: Doc)
    requires MidReplay(doc) && doc.redo != []
    requires doc.redo[0].paired ==> doc.undo != []
    ensures CursorAfterRedo(RedoneOnce(doc)) && RedoneOnce(doc).dirty
  {
    hide Advance, Past, InBounds, CursorAfterRedo;
    var r, d := doc.redo[0], RedoneOnce(doc);
    RedoneOnceKeeps(doc);
    UndoUndoesRedo(doc.text, r);
    CursorAtRecord(d, r);
  }

  lemma CursorAtRecord(d: Doc, r: Record)
    requires d.undo != [] && d.undo[0] == r && Reverts(d.text, r) && d.cursor == if r.isDelete then r.start else r.end
    ensures CursorAfterRedo(d)
  {
    hide Advance;
    if !r.isDelete { RecordSpan(d.text, r); }
  }

  lemma {:induction false} UndoneChainCursor(doc: Doc)
    requires MidReplay(doc) && doc.undo != []
    ensures CursorAfterUndo(UndoneChain(doc)) && UndoneChain(doc).dirty
    decreases |doc.undo|
  {
    hide CursorAfterUndo;
    UndoneOnceKeeps(doc);
    UndoneOnceCursor(doc);
    if doc.undo[0].paired { UndoneChainCursor(UndoneOnce(doc)); }
  }

  lemma {:induction false} RedoneChainCursor(doc: Doc)
    requires MidReplay(doc) && doc.redo != []
    requires doc.redo[0].paired ==> doc.undo != []
    ensures CursorAfterRedo(RedoneChain(doc)) && RedoneChain(doc).dirty
    decreases |doc.redo|
  {
    hide CursorAfterRedo;
    RedoneOnceKeeps(doc);
    RedoneOnceCursor(doc);
    var d := RedoneOnce(doc);
    if d.redo != [] && d.redo[0].paired { RedoneChainCursor(d); }
  }

  lemma {:induction false} UndoneManyCursor(doc: Doc, times: nat)
    requires MidReplay(doc) && (CursorAfterUndo(doc) || (times > 0 && doc.undo != []))
    ensures CursorAfterUndo(UndoneMany(doc, times))
    decreases times
  {
    hide MidReplay, UndoneChain, Replays;
    if times > 0 && doc.undo != [] {
      UndoneChainCursor(doc);
      UndoneManyCursor(UndoneChain(doc), times - 1);
    }
  }

  lemma {:induction false} RedoneManyCursor(doc: Doc, times: nat)
    requires MidReplay(doc) && AtRest(doc) && (CursorAfterRedo(doc) || (times > 0 && doc.redo != []))
    ensures CursorAfterRedo(RedoneMany(doc, times))
    decreases times
  {
    hide MidReplay, RedoneChain, Reverts;
    if times > 0 && doc.redo != [] {
      RedoneChainCursor(doc);
      RedoneManyCursor(RedoneChain(doc), times - 1);
    }
  }

  lemma {:induction false} UndoneManyDirty(doc: Doc, times: nat)
    requires MidReplay(doc) && AtRest(doc)
    ensures UndoneMany(doc, times).dirty <==>
            if times == 0 then doc.dirty
            else if doc.undo == [] then doc.dirty && doc.session.everSaved
            else times <= Chains(doc.undo) || doc.session.everSaved
    decreases times
  {
    hide MidReplay, UndoneChain, CursorAfterUndo;
    if times > 0 && doc.undo != [] {
      UndoneChainCursor(doc);
      UndoneChainIsOne(doc);
      var d := UndoneChain(doc);
      UndoneManyDirty(d, times - 1);
      if d.undo != [] { ChainToUndo(d); } else { NoChain(); }
    }
  }

  lemma NoChain()
    ensures Chains([]) == 0
  {
  }

  lemma ChainToUndo(doc: Doc)
    requires MidReplay(doc) && doc.undo != []
    ensures Chains(doc.undo) > 0
  {
    UndoneChainIsOne(doc);
  }

  lemma {:induction false} RedoneManyDirty(doc: Doc, times: nat)
    requires MidReplay(doc) && AtRest(doc)
    ensures RedoneMany(doc, times).dirty <==> doc.dirty || (times > 0 && doc.redo != [])
    decreases times
  {
    hide MidReplay, RedoneChain, CursorAfterRedo;
    if times > 0 && doc.redo != [] {
      RedoneChainCursor(doc);
      RedoneManyDirty(RedoneChain(doc), times - 1);
    }
  }

  /** After an undo the selection is gone and, if anything was undone, the cursor is where
      the last record was.  The buffer is clean again only once an undo has found nothing
      left: the undo that takes back the last edit still leaves it dirty. */
  lemma UndoLeaves(doc: Doc, count: int)
    requires Inv(doc) && !doc.session.readOnly
    ensures var u := Undo(doc, count);
            !u.markActive &&
            (doc.undo != [] ==> CursorAfterUndo(u)) && (doc.undo == [] ==> u.cursor == doc.cursor) &&
            (u.dirty <==> if doc.undo == [] then doc.dirty && doc.session.everSaved
                          else Repeat(count) <= Chains(doc.undo) || doc.session.everSaved)
  {
    hide MidReplay, UndoneMany, CursorAfterUndo;
    var start, n := ReplayStart(doc), Repeat(count);
    ReplayStartKeeps(doc);
    ClosingKeepsChains(doc.undo);
    UndoneManyDirty(start, n);
    if doc.undo != [] { UndoneManyCursor(start, n); } else { NothingToUndo(start, n); }
  }

  lemma NothingToUndo(doc: Doc, times: nat)
    requires MidReplay(doc) && doc.undo == []
    ensures UndoneMany(doc, times).cursor == doc.cursor
  {
  }

  lemma RedoLeaves(doc: Doc, count: int)
    requires Inv(doc) && !doc.session.readOnly
    ensures var r := Redo(doc, count);
            !r.markActive &&
            (doc.redo != [] ==> CursorAfterRedo(r)) && (doc.redo == [] ==> r.cursor == doc.cursor) &&
            (r.dirty <==> doc.dirty || doc.redo != [])
  {
    hide MidReplay, CursorAfterRedo;
    var start, n := ReplayStart(doc), Repeat(count);
    ReplayStartKeeps(doc);
    RedoneManyDirty(start, n);
    if doc.redo != [] { RedoneManyCursor(start, n); }
  }

  // ---- Counts ------------------------------------------------------------------

  lemma {:induction false} UndoneInSteps(doc: Doc, a: nat, b: nat)
    requires MidReplay(doc)
    ensures UndoneMany(doc, a + b) == UndoneMany(UndoneMany(doc, a), b)
    decreases a
  {
    hide MidReplay, UndoneChain;
    if a > 0 {
      if doc.undo == [] {
        BottomTwice(doc, b);
      } else {
        UndoneInSteps(UndoneChain(doc), a - 1, b);
      }
    }
  }

  lemma BottomTwice(doc: Doc, times: nat)
    requires MidReplay(doc) && doc.undo == []
    ensures MidReplay(BottomReached(doc)) && UndoneMany(BottomReached(doc), times) == BottomReached(doc)
  {
    NothingUndone(doc);
  }

  lemma {:induction false} RedoneInSteps(doc: Doc, a: nat, b: nat)
    requires MidReplay(doc) && AtRest(doc)
    ensures RedoneMany(doc, a + b) == RedoneMany(RedoneMany(doc, a), b)
    decreases a
  {
    hide MidReplay, RedoneChain;
    if a > 0 && doc.redo != [] { RedoneInSteps(RedoneChain(doc), a - 1, b); }
  }

  /** A repeat count is that many single undos, and one below 1 is one. */
  lemma UndoInSteps(doc: Doc, a: nat, b: nat, count: int)
    requires Inv(doc) && a > 0 && b > 0
    ensures Undo(doc, a + b) == Undo(Undo(doc, a), b)
    ensures count <= 1 ==> Undo(doc, count) == Undo(doc, 1)
  {
    hide Inv, UndoneMany;
    if !doc.session.readOnly {
      ReplayStartKeeps(doc);
      var d := UndoneMany(ReplayStart(doc), a);
      UndoneInSteps(ReplayStart(doc), a, b);
      AlreadyStarted(d);
    }
  }

  lemma RedoInSteps(doc: Doc, a: nat, b: nat, count: int)
    requires Inv(doc) && a > 0 && b > 0
    ensures Redo(doc, a + b) == Redo(Redo(doc, a), b)
    ensures count <= 1 ==> Redo(doc, count) == Redo(doc, 1)
  {
    hide Inv, RedoneMany;
    if !doc.session.readOnly {
      ReplayStartKeeps(doc);
      var d := RedoneMany(ReplayStart(doc), a);
      RedoneInSteps(ReplayStart(doc), a, b);
      AlreadyStarted(d);
    }
  }
}
