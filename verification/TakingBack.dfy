/** What an undo makes of the tracked points.  Insertions are taken back with every point
    that moved, however they were merged into records and whether or not a final newline was
    repaired; a replacement is, but for the points inside the text it replaced. */
module TakingBack {
  import opened Text
  import opened Points
  import opened Records
  import opened History
  import opened Undoing
  import opened SingleUndo
  import opened Typing

  // ---- One insertion and one deletion --------------------------------------

  /** Cutting an insertion out again, and with it what stands between `o` and where it went
      in, moves a point as cutting out the latter alone would have. */
  lemma CutOutMovesPoint(t: Text, o: nat, at: nat, c: Text, p: Pos)
    requires o <= at <= |t| && InBounds(t, p)
    ensures var start, s := PosAt(t, o), PosAt(t, at);
            var e := Advance(s, c);
            AdjustPoint(AdjustPoint(p, s, e, false).at, start, e, true).at == AdjustPoint(p, start, s, true).at
    ensures IsSet(p) && IsSet(AdjustPoint(p, PosAt(t, at), Advance(PosAt(t, at), c), false).at)
  {
    hide Advance, AdjustPoint;
    var t', q := Insert(t, at, c), OffsetOf(t, p);
    var q' := OffsetAfterInsert(q, at, |c|);
    InsertMovesPoint(t, at, c, q);
    EndOfInsert(t, at, c);
    assert t'[..o] == t[..o];
    DeleteMovesPoint(t', o, at + |c|, q');
    DeleteMovesPoint(t, o, at, q);
    assert Delete(t', o, at + |c|) == Delete(t, o, at);
    PlaceIsSet(t, q);
    PlaceIsSet(t', q');
  }

  lemma CutOutMovesTop(top: Top, start: Pos, s: Pos, e: Pos)
    requires start.y <= s.y <= e.y
    ensures AdjustTop(AdjustTop(top, s, e, false), start, e, true) == AdjustTop(top, start, s, true)
  {
  }

  lemma CutOutMovesAll(t: Text, o: nat, at: nat, c: Text, k: Tracked)
    requires o <= at <= |t| && c != [] && AllLand(t, k, false)
    ensures var start, s := PosAt(t, o), PosAt(t, at);
            var e := Advance(s, c);
            AdjustAll(AdjustAll(k, s, e, false), start, e, true) == AdjustAll(k, start, s, true)
  {
    hide Advance, AdjustPoint, AdjustTop, RowCount;
    var start, s := PosAt(t, o), PosAt(t, at);
    var e := Advance(s, c);
    AdvanceForward(s, c);
    if o < at { PosAtOrder(t, o, at); }
    forall p | InBounds(t, p)
      ensures AdjustPoint(AdjustPoint(p, s, e, false).at, start, e, true).at == AdjustPoint(p, start, s, true).at
      ensures IsSet(p) && IsSet(AdjustPoint(p, s, e, false).at)
    {
      CutOutMovesPoint(t, o, at, c, p);
    }
    forall top ensures AdjustTop(AdjustTop(top, s, e, false), start, e, true) == AdjustTop(top, start, s, true) {
      CutOutMovesTop(top, start, s, e);
    }
    var k1 := AdjustAll(k, s, e, false);
    var k2 := AdjustAll(k1, start, e, true);
    if start == s {
      forall p ensures AdjustPoint(p, s, s, true).at == p { NothingCut(p, s); }
      forall top ensures AdjustTop(top, s, s, true) == top { NoRowsCut(top, s); }
      assert k2.ring == k.ring && k2.windows == k.windows && k2.registers == k.registers;
    }
  }

  lemma NothingCut(p: Pos, s: Pos)
    ensures AdjustPoint(p, s, s, true).at == p
  {
  }

  lemma NoRowsCut(top: Top, s: Pos)
    ensures AdjustTop(top, s, s, true) == top
  {
  }

  // ---- What insertions leave behind --------------------------------------------

  /** What undoing the records `rs`, newest first, makes of the tracked points. */
  function Rewound(k: Tracked, rs: seq<Record>): Tracked
    decreases |rs|
  {
    if rs == [] then k else Rewound(AdjustAll(k, rs[0].start, rs[0].end, !rs[0].isDelete), rs[1..])
  }

  /** What an undo leaves of the tracked points, and where it leaves the cursor. */
  datatype Back = Back(points: Tracked, cursor: Pos)

  function CursorOf(r: Record): Pos {
    if r.isDelete then r.end else r.start
  }

  /** `doc` is `was` after edits that are recorded as `rs`; undoing those leads back to its
      text and leaves `back`. */
  ghost predicate Grown(was: Doc, doc: Doc, rs: seq<Record>, back: Back) {
    HeadClosed(was.undo) && doc.session == was.session && BottomUnpaired(rs) &&
    doc.undo == rs + was.undo &&
    LeadsBack(doc.text, rs, was.text) && Rewound(doc.tracked, rs) == back.points &&
    (rs != [] ==> CursorOf(rs[|rs| - 1]) == back.cursor) &&
    AllLand(doc.text, doc.tracked, false)
  }

  lemma GrownByNothing(doc: Doc, cursor: Pos)
    requires HeadClosed(doc.undo) && AllLand(doc.text, doc.tracked, false)
    ensures Grown(doc, doc, [], Back(doc.tracked, cursor))
  {
  }

  /** Closing the newest record changes neither where the list leads nor its chains. */
  lemma {:induction false} ClosingKeepsGrown(was: Doc, doc: Doc, rs: seq<Record>, back: Back, d: Doc)
    requires Grown(was, doc, rs, back) && d == doc.(undo := Closed(doc.undo))
    ensures Grown(was, d, Closed(rs), back) && Chains(Closed(rs)) == Chains(rs)
  {
    hide AllLand, AdjustAll, Advance, Reverts, Reverted;
    ClosingKeepsChains(rs);
    if rs == [] {
      ClosedListIsItself(was.undo);
    } else {
      var rs' := Closed(rs);
      assert rs'[1..] == rs[1..] && rs' == [rs[0].(append := false)] + rs[1..];
      SameReverted(doc.text, rs[0], rs'[0]);
      assert d.undo == rs' + was.undo;
      BottomOfClosed(rs);
    }
  }

  lemma BottomOfClosed(rs: seq<Record>)
    requires rs != []
    ensures |Closed(rs)| == |rs| && Closed(rs)[|rs| - 1].paired == rs[|rs| - 1].paired
    ensures CursorOf(Closed(rs)[|rs| - 1]) == CursorOf(rs[|rs| - 1])
  {
    ClosedAt(rs, |rs| - 1);
  }

  lemma SameReverted(t: Text, r: Record, r': Record)
    requires Reverts(t, r) && r' == r.(append := false)
    ensures Reverts(t, r') && Reverted(t, r') == Reverted(t, r)
  {
    hide Advance;
  }

  // ---- One more insertion -----------------------------------------------------

  /** The record pushed stands alone. */
  lemma {:induction false} GrownByPush(was: Doc, doc: Doc, rs: seq<Record>, back: Back,
                                       at: nat, c: Text, append: bool, paired: bool)
    returns (more: seq<Record>)
    requires Grown(was, doc, rs, back) && at <= |doc.text| && c != [] && (paired ==> rs != [])
    requires rs == [] ==> PosAt(doc.text, at) == back.cursor
    requires var r := Record(PosAt(doc.text, at), Advance(PosAt(doc.text, at), c), c, false, append, paired, 0);
             Push(doc.undo, r) == [r] + Closed(doc.undo)
    ensures Grown(was, RecordedInsert(doc, at, c, append, paired), more, back)
    ensures more != [] && Chains(more) == Chains(rs) + (if paired then 0 else 1)
  {
    hide AllLand, AdjustAll, Advance, Push, Closed, Insert, Reverts, Reverted, Grown;
    var t, d := doc.text, RecordedInsert(doc, at, c, append, paired);
    var r := Record(PosAt(t, at), Advance(PosAt(t, at), c), c, false, append, paired, 0);
    var closed := doc.(undo := Closed(doc.undo));
    ClosingKeepsGrown(was, doc, rs, back, closed);
    ClosedLength(rs);
    more := [r] + Closed(rs);
    InsertIsRecorded(t, at, c, append, paired);
    GrownLands(was, doc, rs, back);
    AllLandAfterInsert(t, at, c, doc.tracked, false);
    CutOutMovesAll(t, at, at, c, doc.tracked);
    NothingAdjusted(doc.tracked, PosAt(t, at));
    GrownOneMore(was, closed, Closed(rs), back, d, r);
  }

  lemma ClosedLength(rs: seq<Record>)
    ensures |Closed(rs)| == |rs|
  {
  }

  lemma GrownLands(was: Doc, doc: Doc, rs: seq<Record>, back: Back)
    requires Grown(was, doc, rs, back)
    ensures AllLand(doc.text, doc.tracked, false)
  {
  }

  lemma NothingAdjusted(k: Tracked, s: Pos)
    ensures AdjustAll(k, s, s, true) == k
  {
  }

  lemma {:induction false} GrownOneMore(was: Doc, doc: Doc, rs: seq<Record>, back: Back, d: Doc, r: Record)
    requires Grown(was, doc, rs, back) && d.session == doc.session && d.undo == [r] + doc.undo
    requires (r.paired ==> rs != []) && (rs == [] ==> CursorOf(r) == back.cursor)
    requires Reverts(d.text, r) && Reverted(d.text, r) == doc.text
    requires AdjustAll(d.tracked, r.start, r.end, !r.isDelete) == doc.tracked && AllLand(d.text, d.tracked, false)
    ensures Grown(was, d, [r] + rs, back) && Chains([r] + rs) == Chains(rs) + (if r.paired then 0 else 1)
  {
    hide AllLand, AdjustAll, Advance, Reverts, Reverted;
    var more := [r] + rs;
    assert more[1..] == rs;
    assert d.undo == more + was.undo;
    LeadsBackOneMore(d.text, r, rs, was.text);
    if rs != [] { assert more[|more| - 1] == rs[|rs| - 1]; }
  }

  /** The record joins the one before it. */
  lemma {:induction false} GrownByMerge(was: Doc, doc: Doc, rs: seq<Record>, back: Back, at: nat, c: Text)
    returns (more: seq<Record>)
    requires Grown(was, doc, rs, back) && at <= |doc.text| && c != [] && doc.undo != []
    requires var r := Record(PosAt(doc.text, at), Advance(PosAt(doc.text, at), c), c, false, true, false, 0);
             CanMerge(doc.undo[0], r)
    ensures Grown(was, RecordedInsert(doc, at, c, true, false), more, back)
    ensures more != [] && Chains(more) == Chains(rs)
  {
    hide AllLand, AdjustAll, Advance, Insert, LeadsBack;
    var t, d := doc.text, RecordedInsert(doc, at, c, true, false);
    var r := Record(PosAt(t, at), Advance(PosAt(t, at), c), c, false, true, false, 0);
    var prev := doc.undo[0];
    assert rs != [] && rs[0] == prev;
    var merged := Merge(prev, r);
    more := [merged] + rs[1..];
    assert more[1..] == rs[1..];
    LeadsBackOne(t, rs, was.text);
    InsertIsRecorded(t, at, c, true, false);
    MergeUndoesBoth(d.text, prev, r);
    LeadsBackOneMore(d.text, merged, rs[1..], was.text);
    MergedRewinds(t, at, c, prev, r, doc.tracked);
    AllLandAfterInsert(t, at, c, doc.tracked, false);
    assert doc.undo[1..] == rs[1..] + was.undo;
    assert d.undo == more + was.undo;
    MergedKeepsBottom(rs, merged);
  }

  lemma LeadsBackOne(t: Text, rs: seq<Record>, before: Text)
    requires rs != [] && LeadsBack(t, rs, before)
    ensures Reverts(t, rs[0]) && LeadsBack(Reverted(t, rs[0]), rs[1..], before)
  {
  }

  lemma {:induction false} MergedKeepsBottom(rs: seq<Record>, merged: Record)
    requires rs != [] && BottomUnpaired(rs) && merged.paired == rs[0].paired && CursorOf(merged) == CursorOf(rs[0])
    ensures var more := [merged] + rs[1..]; BottomUnpaired(more) && CursorOf(more[|more| - 1]) == CursorOf(rs[|rs| - 1])
    ensures Chains([merged] + rs[1..]) == Chains(rs)
  {
    var more := [merged] + rs[1..];
    assert more[1..] == rs[1..] && |more| == |rs|;
    assert forall i | 1 <= i < |rs| :: more[i] == rs[i];
  }

  /** The merged record rewinds the points as the two would have. */
  lemma MergedRewinds(t: Text, at: nat, c: Text, prev: Record, r: Record, k: Tracked)
    requires at <= |t| && c != [] && Reverts(t, prev) && !prev.isDelete && CanMerge(prev, r) && AllLand(t, k, false)
    requires r == Record(PosAt(t, at), Advance(PosAt(t, at), c), c, false, true, false, 0)
    ensures var m := Merge(prev, r);
            AdjustAll(AdjustAll(k, r.start, r.end, false), m.start, m.end, true) ==
            AdjustAll(k, prev.start, prev.end, true)
  {
    hide AllLand, AdjustAll, Advance;
    var o := OffsetOf(t, prev.start);
    RecordSpan(t, prev);
    PosAtInjective(t, at, o + |prev.data|);
    AdvanceConcat(prev.start, prev.data, c);
    CutOutMovesAll(t, o, at, c, k);
  }

  lemma {:induction false} GrownByInsert(was: Doc, doc: Doc, rs: seq<Record>, back: Back,
                                       at: nat, c: Text, append: bool, paired: bool)
    returns (more: seq<Record>)
    requires Grown(was, doc, rs, back) && at <= |doc.text| && c != [] && (paired ==> rs != [])
    requires rs == [] ==> PosAt(doc.text, at) == back.cursor
    ensures Grown(was, RecordedInsert(doc, at, c, append, paired), more, back)
    ensures more != [] && Chains(rs) <= Chains(more) <= Chains(rs) + (if paired then 0 else 1)
  {
    hide AllLand, AdjustAll, Advance, Insert, Grown, RecordedInsert, Aligned;
    var r := Record(PosAt(doc.text, at), Advance(PosAt(doc.text, at), c), c, false, append, paired, 0);
    if append && doc.undo != [] && CanMerge(doc.undo[0], r) {
      more := GrownByMerge(was, doc, rs, back, at, c);
    } else {
      more := GrownByPush(was, doc, rs, back, at, c, append, paired);
    }
  }

  /** The repair of the final newline is part of the step. */
  lemma {:induction false} GrownByRepair(was: Doc, doc: Doc, rs: seq<Record>, back: Back)
    returns (more: seq<Record>)
    requires Grown(was, doc, rs, back) && rs != []
    ensures Grown(was, Repaired(doc).(dirty := true), more, back) && more != []
    ensures Chains(rs) == Chains(more)
  {
    hide AllLand, AdjustAll, Advance, Insert, Grown, RecordedInsert;
    more := rs;
    if doc.session.isFile && !Terminated(doc.text) {
      more := GrownByInsert(was, doc, rs, back, |doc.text|, [NL], false, true);
    }
    SameGrown(was, Repaired(doc), more, back, Repaired(doc).(dirty := true));
  }

  /** An insertion as a recorded edit. */
  lemma {:induction false} GrownByEdit(was: Doc, doc: Doc, rs: seq<Record>, back: Back,
                                       at: nat, c: Text, coalesce: bool)
    returns (more: seq<Record>)
    requires Grown(was, doc, rs, back) && at <= |doc.text| && c != [] && !doc.session.readOnly
    requires rs == [] ==> PosAt(doc.text, at) == back.cursor
    ensures Grown(was, EditAt(doc, at, at, c, false, coalesce), more, back)
    ensures more != [] && Chains(rs) <= Chains(more) <= Chains(rs) + 1
  {
    hide AllLand, AdjustAll, Advance, Insert, Grown, RecordedInsert, Repaired;
    SameGrown(was, doc, rs, back, doc.(redo := []));
    more := GrownByInsert(was, doc.(redo := []), rs, back, at, c, coalesce, false);
    more := GrownByRepair(was, RecordedInsert(doc.(redo := []), at, c, coalesce, false), more, back);
  }

  /** What undoing a replacement of the text from `o` to `e` makes of the tracked points, as
      if it were cut out and put back; the cursor goes behind it. */
  function CutAndPutBack(t: Text, o: nat, e: nat, k: Tracked): Tracked
    requires o <= e <= |t|
  {
    AdjustAll(AdjustAll(k, PosAt(t, o), PosAt(t, e), true), PosAt(t, o), PosAt(t, e), false)
  }

  function BackFrom(doc: Doc, o: nat, e: nat): Back
    requires o <= e <= |doc.text|
  {
    Back(CutAndPutBack(doc.text, o, e, doc.tracked), PosAt(doc.text, e))
  }

  lemma {:induction false} GrownByDeletion(doc: Doc, o: nat, e: nat, append: bool) returns (rs: seq<Record>)
    requires HeadClosed(doc.undo) && AllLand(doc.text, doc.tracked, false) && o < e <= |doc.text|
    ensures Grown(doc, RecordedDelete(doc, o, e, append, false), rs, BackFrom(doc, o, e))
    ensures rs != [] && Chains(rs) == 1
  {
    hide AllLand, AdjustAll, Advance, Delete, Reverts, Reverted, LeadsBack;
    var t, d := doc.text, RecordedDelete(doc, o, e, append, false);
    var r := Record(PosAt(t, o), PosAt(t, e), t[o..e], true, append, false, 0);
    ClosedListIsItself(doc.undo);
    DeleteIsRecorded(t, o, e, append, false);
    AllLandAfterDelete(t, o, e, doc.tracked, false);
    rs := [r];
    assert LeadsBack(t, [], t) by { NowhereBack(t); }
    LeadsBackOneMore(d.text, r, [], t);
    assert [r] + [] == rs && rs[1..] == [];
    NoChain();
    assert d.undo == rs + doc.undo;
    assert Rewound(d.tracked, rs) == AdjustAll(d.tracked, r.start, r.end, false);
  }

  lemma NowhereBack(t: Text)
    ensures LeadsBack(t, [], t)
  {
  }

  /** A replacement as a recorded edit. */
  lemma {:induction false} GrownByReplacement(doc: Doc, o: nat, e: nat, repl: Text, coalesce: bool)
    returns (rs: seq<Record>)
    requires HeadClosed(doc.undo) && AllLand(doc.text, doc.tracked, false)
    requires o <= e <= |doc.text| && (o < e || repl != []) && !Refused(doc, o, e, repl)
    ensures Grown(doc, EditAt(doc, o, e, repl, false, coalesce), rs, BackFrom(doc, o, e))
    ensures rs != [] && Chains(rs) == 1
  {
    hide AllLand, AdjustAll, Advance, Insert, Grown, RecordedInsert, RecordedDelete, Repaired, Chains, CutAndPutBack,
         DeletesOnlyFinalNewline;
    var back := BackFrom(doc, o, e);
    if o == e {
      NoChain();
      NothingCutOut(doc.text, o, doc.tracked);
      GrownByNothing(doc, PosAt(doc.text, o));
      rs := GrownByEdit(doc, doc, [], back, o, repl, coalesce);
      OneChain(doc, EditAt(doc, o, e, repl, false, coalesce), rs, back);
    } else {
      var start, join := doc.(redo := []), coalesce && repl == [];
      rs := GrownByDeletion(start, o, e, join);
      var d := RecordedDelete(start, o, e, join, false);
      if repl != [] {
        DeleteKeepsStart(start, o, e, join, false);
        rs := GrownByInsert(start, d, rs, back, o, repl, false, true);
        d := RecordedInsert(d, o, repl, false, true);
      }
      rs := GrownByRepair(start, d, rs, back);
      SameOrigin(doc, EditAt(doc, o, e, repl, false, coalesce), rs, back);
    }
  }

  lemma NothingCutOut(t: Text, o: nat, k: Tracked)
    requires o <= |t|
    ensures CutAndPutBack(t, o, o, k) == k
  {
  }

  lemma SameOrigin(doc: Doc, d: Doc, rs: seq<Record>, back: Back)
    requires Grown(doc.(redo := []), d, rs, back)
    ensures Grown(doc, d, rs, back)
  {
  }

  lemma OneChain(was: Doc, doc: Doc, rs: seq<Record>, back: Back)
    requires Grown(was, doc, rs, back) && rs != [] && Chains(rs) <= 1
    ensures Chains(rs) == 1
  {
    SomeChain(rs);
  }

  lemma SameGrown(was: Doc, doc: Doc, rs: seq<Record>, back: Back, d: Doc)
    requires Grown(was, doc, rs, back) && d.text == doc.text && d.undo == doc.undo
    requires d.tracked == doc.tracked && d.session == doc.session
    ensures Grown(was, d, rs, back)
  {
  }

  // ---- Taking it back -----------------------------------------------------------

  /** Undoing one record. */
  lemma RecordUndone(doc: Doc)
    requires MidReplay(doc) && doc.undo != []
    ensures var r := doc.undo[0];
            UndoneOnce(doc).tracked == AdjustAll(doc.tracked, r.start, r.end, !r.isDelete) &&
            UndoneOnce(doc).cursor == CursorOf(r)
  {
    hide AdjustAll, Advance;
    if !doc.undo[0].isDelete { RecordSpan(doc.text, doc.undo[0]); }
  }

  lemma {:induction false} ManyTakeBack(doc: Doc, rs: seq<Record>, below: seq<Record>, before: Text)
    requires MidReplay(doc) && doc.undo == rs + below && LeadsBack(doc.text, rs, before) && BottomUnpaired(rs)
    ensures var u := UndoneMany(doc, Chains(rs));
            u.text == before && u.undo == below && u.tracked == Rewound(doc.tracked, rs) &&
            u.cursor == if rs == [] then doc.cursor else CursorOf(rs[|rs| - 1])
    decreases |rs|
  {
    hide MidReplay, Reverts, Reverted, AdjustAll, UndoneOnce;
    if rs == [] {
      assert doc.undo == below;
    } else {
      var d, rest := UndoneOnce(doc), rs[1..];
      UndoneOnceKeeps(doc);
      RecordUndone(doc);
      assert doc.undo[0] == rs[0] && doc.undo[1..] == rest + below;
      if rest != [] { assert rest[|rest| - 1] == rs[|rs| - 1]; }
      ManyTakeBack(d, rest, below, before);
      if rs[0].paired {
        SomeChain(rest);
        assert UndoneMany(d, Chains(rest)) == UndoneMany(UndoneChain(d), Chains(rest) - 1);
      }
    }
  }

  lemma {:induction false} SomeChain(rs: seq<Record>)
    requires rs != [] && BottomUnpaired(rs)
    ensures Chains(rs) > 0
  {
    if |rs| > 1 { SomeChain(rs[1..]); }
  }

  lemma {:induction false} ChainsOfBoth(a: seq<Record>, b: seq<Record>)
    ensures Chains(a + b) == Chains(a) + Chains(b)
    decreases |a|
  {
    if a == [] {
      assert a + b == b;
    } else {
      assert (a + b)[1..] == a[1..] + b;
      ChainsOfBoth(a[1..], b);
    }
  }

  /** As many undos as there are chains more. */
  lemma {:induction false} GrownIsTakenBack(was: Doc, doc: Doc, rs: seq<Record>, back: Back)
    requires Grown(was, doc, rs, back) && rs != [] && Inv(doc) && !doc.session.readOnly
    ensures Chains(rs) > 0 && Chains(doc.undo) == Chains(was.undo) + Chains(rs)
    ensures var u := Undo(doc, Chains(rs));
            u.text == was.text && u.undo == was.undo && Back(u.tracked, u.cursor) == back
  {
    hide Inv, MidReplay, UndoneMany, Chains, LeadsBack, AllLand, Rewound, Closed;
    ReplayStartKeeps(doc);
    SomeChain(rs);
    ChainsOfBoth(rs, was.undo);
    var start := doc.(undo := Closed(doc.undo));
    ClosingKeepsGrown(was, doc, rs, back, start);
    ClosedLength(rs);
    ManyTakeBack(ReplayStart(doc), Closed(rs), was.undo, was.text);
  }

  // ---- The theorems -------------------------------------------------------------

  /** An edit that does not ask to join closes the open run first. */
  lemma ClosesTheRun(doc: Doc, o: nat, e: nat, repl: Text)
    requires o <= e <= |doc.text| && (o < e || repl != []) && !Refused(doc, o, e, repl)
    ensures EditAt(doc, o, e, repl, false, false) == EditAt(doc.(undo := Closed(doc.undo)), o, e, repl, false, false)
  {
    hide Repaired, AdjustAll, Advance, Closed, DeletesOnlyFinalNewline, Insert, Delete;
    ClosedTwice(doc.undo);
  }

  lemma ClosedTwice(undo: seq<Record>)
    ensures HeadClosed(Closed(undo)) && Closed(Closed(undo)) == Closed(undo)
  {
    ClosedListIsItself(Closed(undo));
  }

  /** One undo takes back any edit that is a step of its own; the tracked points are as if
      the text replaced had been cut out and put back, so an insertion moves none; the cursor
      is left behind the text that came back. */
  lemma UndoTakesBackAReplacement(doc: Doc, o: nat, e: nat, repl: Text, coalesce: bool)
    requires Inv(doc) && AllLand(doc.text, doc.tracked, false) && (HeadClosed(doc.undo) || !coalesce)
    requires o <= e <= |doc.text| && (o < e || repl != []) && !Refused(doc, o, e, repl)
    ensures var d := EditAt(doc, o, e, repl, false, coalesce);
            Inv(d) &&
            var u := Undo(d, 1);
            u.text == doc.text && u.undo == Closed(doc.undo) &&
            u.tracked == CutAndPutBack(doc.text, o, e, doc.tracked) && (o == e ==> u.tracked == doc.tracked) &&
            u.cursor == PosAt(doc.text, e)
  {
    hide Inv, Undo, EditAt, AllLand, Grown, DeletesOnlyFinalNewline, CutAndPutBack;
    var was := doc.(undo := Closed(doc.undo));
    if HeadClosed(doc.undo) { ClosedListIsItself(doc.undo); } else { ClosesTheRun(doc, o, e, repl); }
    ClosedTwice(doc.undo);
    var rs := GrownByReplacement(was, o, e, repl, coalesce);
    EditKeepsInv(doc, o, e, repl, false, coalesce);
    EditKeepsSession(doc, o, e, repl, false, coalesce);
    NothingCutOut(doc.text, o, doc.tracked);
    GrownIsTakenBack(was, EditAt(doc, o, e, repl, false, coalesce), rs, BackFrom(was, o, e));
  }

  /** The mark, say, comes back exactly if it was not inside the text replaced, its start
      included; otherwise it ends up behind that text. */
  lemma UndoPutsTheMarkBack(doc: Doc, o: nat, e: nat, repl: Text, coalesce: bool)
    requires Inv(doc) && AllLand(doc.text, doc.tracked, false) && (HeadClosed(doc.undo) || !coalesce)
    requires o <= e <= |doc.text| && (o < e || repl != []) && !Refused(doc, o, e, repl)
    requires IsSet(doc.tracked.mark)
    ensures var d := EditAt(doc, o, e, repl, false, coalesce);
            Inv(d) &&
            var u, q := Undo(d, 1), OffsetOf(doc.text, doc.tracked.mark);
            u.tracked.mark == (if o <= q < e then PosAt(doc.text, e) else doc.tracked.mark) &&
            (u.tracked.mark == doc.tracked.mark <==> !(o <= q < e))
  {
    hide Inv, Undo, EditAt, Advance, DeletesOnlyFinalNewline, AdjustPoint;
    UndoTakesBackAReplacement(doc, o, e, repl, coalesce);
    MarkCutAndPutBack(doc.text, o, e, doc.tracked);
  }

  lemma MarkCutAndPutBack(t: Text, o: nat, e: nat, k: Tracked)
    requires o <= e <= |t| && IsSet(k.mark) && InBounds(t, k.mark)
    ensures var back, q := CutAndPutBack(t, o, e, k).mark, OffsetOf(t, k.mark);
            back == (if o <= q < e then PosAt(t, e) else k.mark) && (back == k.mark <==> !(o <= q < e))
  {
    hide Advance, AdjustPoint;
    var q := OffsetOf(t, k.mark);
    UndoingDeleteRestoresPoint(t, o, e, k.mark);
    DeleteMovesPoint(t, o, e, q);
    PlaceIsSet(Delete(t, o, e), OffsetAfterDelete(q, o, e));
    if o < e { PosAtOrder(t, o, e); }
  }

  /** `u` has the text, the records and the tracked points of `was`, and its cursor at
      offset `at`. */
  predicate Restores(was: Doc, u: Doc, at: nat)
    requires at <= |was.text|
  {
    u.text == was.text && u.undo == was.undo && u.tracked == was.tracked && u.cursor == PosAt(was.text, at)
  }

  /** A piece of text put in at an offset; `coalesce` offers it to the open run. */
  datatype Insertion = Insertion(at: nat, data: Text, coalesce: bool)

  predicate CanInsert(doc: Doc, es: seq<Insertion>)
    decreases |es|
  {
    es != [] ==>
      es[0].data != [] && es[0].at <= |doc.text| &&
      CanInsert(EditAt(doc, es[0].at, es[0].at, es[0].data, false, es[0].coalesce), es[1..])
  }

  function Inserted(doc: Doc, es: seq<Insertion>): Doc
    requires CanInsert(doc, es)
    decreases |es|
  {
    if es == [] then doc
    else Inserted(EditAt(doc, es[0].at, es[0].at, es[0].data, false, es[0].coalesce), es[1..])
  }

  lemma {:induction false} InsertedIsGrown(was: Doc, doc: Doc, rs: seq<Record>, back: Back, es: seq<Insertion>)
    returns (all: seq<Record>)
    requires Grown(was, doc, rs, back) && Inv(doc) && !doc.session.readOnly && CanInsert(doc, es)
    requires rs == [] && es != [] ==> PosAt(doc.text, es[0].at) == back.cursor
    ensures Grown(was, Inserted(doc, es), all, back) && Inv(Inserted(doc, es))
    ensures Inserted(doc, es).session == doc.session && (rs != [] || es != [] ==> all != [])
    decreases |es|
  {
    hide Inv, EditAt, Grown;
    all := rs;
    if es != [] {
      var e := es[0];
      var more := GrownByEdit(was, doc, rs, back, e.at, e.data, e.coalesce);
      EditKeepsInv(doc, e.at, e.at, e.data, false, e.coalesce);
      EditKeepsSession(doc, e.at, e.at, e.data, false, e.coalesce);
      all := InsertedIsGrown(was, EditAt(doc, e.at, e.at, e.data, false, e.coalesce), more, back, es[1..]);
    }
  }

  /** Any insertions at any places, merged or not: undoing as many chains as they added
      takes all of them back, and every tracked point with them. */
  lemma UndoTakesBackInsertions(doc: Doc, es: seq<Insertion>)
    requires Inv(doc) && AllLand(doc.text, doc.tracked, false) && !doc.session.readOnly && HeadClosed(doc.undo)
    requires es != [] && CanInsert(doc, es)
    ensures var d := Inserted(doc, es);
            Inv(d) && Chains(d.undo) > Chains(doc.undo) &&
            Restores(doc, Undo(d, Chains(d.undo) - Chains(doc.undo)), es[0].at)
  {
    hide Inv, Undo, AllLand, Grown, Inserted, EditAt, Chains;
    var back := Back(doc.tracked, PosAt(doc.text, es[0].at));
    GrownByNothing(doc, back.cursor);
    var rs := InsertedIsGrown(doc, doc, [], back, es);
    GrownIsTakenBack(doc, Inserted(doc, es), rs, back);
  }

  lemma {:induction false} TypedIsGrown(doc: Doc, o: nat, cs: seq<Text>) returns (rs: seq<Record>)
    requires Inv(doc) && AllLand(doc.text, doc.tracked, false) && !doc.session.readOnly && HeadClosed(doc.undo)
    requires o <= |doc.text| && Pieces(cs)
    ensures var d := Typed(doc, o, cs);
            Grown(doc, d, rs, Back(doc.tracked, PosAt(doc.text, o))) && Inv(d) && d.session == doc.session &&
            (cs != [] ==> rs != [])
    decreases |cs|
  {
    hide Inv, EditAt, AllLand, Grown;
    if cs == [] {
      GrownByNothing(doc, PosAt(doc.text, o));
      rs := [];
    } else {
      var last := |cs| - 1;
      rs := TypedIsGrown(doc, o, cs[..last]);
      var before, at := Typed(doc, o, cs[..last]), o + |Concat(cs[..last])|;
      if at <= |before.text| {
        rs := GrownByEdit(doc, before, rs, Back(doc.tracked, PosAt(doc.text, o)), at, cs[last], true);
        EditKeepsInv(before, at, at, cs[last], false, true);
        EditKeepsSession(before, at, at, cs[last], false, true);
      }
    }
  }

  /** One undo for every 21 keystrokes takes a run of typing back, tracked points and all. */
  lemma {:induction false} UndoTakesBackTyping(doc: Doc, o: nat, cs: seq<Text>)
    requires Inv(doc) && AllLand(doc.text, doc.tracked, false) && HeadClosed(doc.undo)
    requires PlainTyping(doc, o, cs) && cs != []
    ensures var d := Typed(doc, o, cs);
            Inv(d) && Restores(doc, Undo(d, (|cs| + 20) / 21), o)
  {
    hide Inv, Undo, AllLand, Grown, Typed, Terminated, Chains;
    TypingIsOneRun(doc, o, cs);
    var rs := TypedIsGrown(doc, o, cs);
    TypedTakenBack(doc, Typed(doc, o, cs), rs, (|cs| + 20) / 21, o);
  }

  /** So does that many, and one more run, for typing at the end of a file. */
  lemma {:induction false} UndoTakesBackTypingAtTheEnd(doc: Doc, a: seq<Text>, c: Text, b: seq<Text>)
    requires Inv(doc) && AllLand(doc.text, doc.tracked, false) && HeadClosed(doc.undo)
    requires !doc.session.readOnly && doc.session.isFile
    requires EndRows(a) && c != [] && c[|c| - 1] != NL && Pieces(b)
    ensures var d := Typed(doc, |doc.text|, a + [c] + b);
            Inv(d) && Restores(doc, Undo(d, |a| / 21 + 1 + (|b| + 20) / 21), |doc.text|)
  {
    hide Inv, Undo, AllLand, Grown, Typed, Chains;
    TerminatedAtRest(doc);
    TypingAtTheEnd(doc, a, c, b);
    var rs := TypedIsGrown(doc, |doc.text|, a + [c] + b);
    TypedTakenBack(doc, Typed(doc, |doc.text|, a + [c] + b), rs, |a| / 21 + 1 + (|b| + 20) / 21,
                   |doc.text|);
  }

  lemma TypedTakenBack(was: Doc, doc: Doc, rs: seq<Record>, n: nat, at: nat)
    requires at <= |was.text| && Grown(was, doc, rs, Back(was.tracked, PosAt(was.text, at)))
    requires Inv(doc) && !doc.session.readOnly
    requires n > 0 && Chains(doc.undo) == Chains(was.undo) + n
    ensures Restores(was, Undo(doc, n), at)
  {
    hide Inv, Undo, Chains;
    assert rs == [] ==> doc.undo == was.undo;
    GrownIsTakenBack(was, doc, rs, Back(was.tracked, PosAt(was.text, at)));
  }

  // ---- And redoing it ------------------------------------------------------------

  /** The newest record of an edit ends, or if it is a deletion starts, where the edit
      happened last, merged or not. */
  ghost predicate HeadAt(doc: Doc, at: nat)
    requires at <= |doc.text|
  {
    doc.undo != [] && PosAt(doc.text, at) == if doc.undo[0].isDelete then doc.undo[0].start else doc.undo[0].end
  }

  lemma InsertHeadAt(doc: Doc, o: nat, c: Text, append: bool, paired: bool)
    requires o <= |doc.text| && c != [] && Bounded(doc.undo)
    ensures var d := RecordedInsert(doc, o, c, append, paired); o + |c| <= |d.text| && HeadAt(d, o + |c|)
  {
    hide Advance, AdjustAll;
    var s := PosAt(doc.text, o);
    var r := Record(s, Advance(s, c), c, false, append, paired, 0);
    EndOfInsert(doc.text, o, c);
    if append && doc.undo != [] && CanMerge(doc.undo[0], r) {
      AdvanceConcat(doc.undo[0].start, doc.undo[0].data, c);
    }
  }

  lemma DeleteHeadAt(doc: Doc, o: nat, e: nat, append: bool, paired: bool)
    requires o < e <= |doc.text|
    ensures var d := RecordedDelete(doc, o, e, append, paired); o <= |d.text| && HeadAt(d, o)
  {
    hide Advance, AdjustAll;
    assert Delete(doc.text, o, e)[..o] == doc.text[..o];
  }

  lemma BoundedAfterDelete(doc: Doc, o: nat, e: nat, append: bool, paired: bool)
    requires o < e <= |doc.text| && Bounded(doc.undo)
    ensures Bounded(RecordedDelete(doc, o, e, append, paired).undo)
  {
    hide Advance, Push, Bounded;
    EndOfSlice(doc.text, o, e);
    var s, f := PosAt(doc.text, o), PosAt(doc.text, e);
    PushCountsEveryEdit(doc.undo, Record(s, f, doc.text[o..e], true, append, paired, 0));
  }

  lemma BoundedAfterInsert(doc: Doc, o: nat, c: Text, append: bool, paired: bool)
    requires o <= |doc.text| && c != [] && Bounded(doc.undo)
    ensures Bounded(RecordedInsert(doc, o, c, append, paired).undo)
  {
    hide Advance, Push, Bounded;
    var s := PosAt(doc.text, o);
    PushCountsEveryEdit(doc.undo, Record(s, Advance(s, c), c, false, append, paired, 0));
  }

  lemma SplicedHeadAt(doc: Doc, o: nat, e: nat, repl: Text, chain: bool, coalesce: bool)
    requires o <= e <= |doc.text| && (o < e || repl != []) && Bounded(doc.undo)
    ensures var d := Spliced(doc, o, e, repl, chain, coalesce);
            o + |repl| <= |d.text| && HeadAt(d, o + |repl|) && Bounded(d.undo)
  {
    hide RecordedInsert, RecordedDelete, Bounded, HeadAt;
    var both := o < e && repl != [];
    var join := coalesce && !both && !chain;
    var d := doc;
    if o < e {
      DeleteHeadAt(doc, o, e, join, chain);
      BoundedAfterDelete(doc, o, e, join, chain);
      d := RecordedDelete(doc, o, e, join, chain);
    }
    if repl != [] {
      InsertHeadAt(d, o, repl, join, both || chain);
      BoundedAfterInsert(d, o, repl, join, both || chain);
    }
  }

  /** Where the last change of an edit ends: at the newline put back, or behind what was put
      in. */
  function LastChange(doc: Doc, o: nat, e: nat, repl: Text): nat
    requires o <= e <= |doc.text|
  {
    var t := doc.text[..o] + repl + doc.text[e..];
    if doc.session.isFile && !Terminated(t) then |t| + 1 else o + |repl|
  }

  lemma EditHeadAt(doc: Doc, o: nat, e: nat, repl: Text, chain: bool, coalesce: bool)
    requires o <= e <= |doc.text| && (o < e || repl != []) && !Refused(doc, o, e, repl) && Bounded(doc.undo)
    ensures var d, at := EditAt(doc, o, e, repl, chain, coalesce), LastChange(doc, o, e, repl);
            at <= |d.text| && HeadAt(d, at)
  {
    hide RecordedInsert, Spliced, Bounded, HeadAt, DeletesOnlyFinalNewline, Terminated;
    var start := doc.(redo := []);
    var d := Spliced(start, o, e, repl, chain, coalesce);
    SplicedHeadAt(start, o, e, repl, chain, coalesce);
    SplicedText(doc, o, e, repl, chain, coalesce);
    if doc.session.isFile && !Terminated(d.text) {
      InsertHeadAt(d, |d.text|, [NL], false, true);
    }
    SameHeadAt(Repaired(d), Repaired(d).(dirty := true), LastChange(doc, o, e, repl));
  }

  lemma SameHeadAt(doc: Doc, d: Doc, at: nat)
    requires at <= |doc.text| && HeadAt(doc, at) && d.text == doc.text && d.undo == doc.undo
    ensures HeadAt(d, at)
  {
  }

  /** Undoing any edit, merged or chained or not, and redoing it gives its text again and
      leaves the cursor where its last change ends. */
  lemma RedoBringsBackAnEdit(doc: Doc, o: nat, e: nat, repl: Text, chain: bool, coalesce: bool)
    requires Inv(doc) && o <= e <= |doc.text| && (o < e || repl != []) && !Refused(doc, o, e, repl)
    requires chain ==> doc.undo != []
    ensures var d, at := EditAt(doc, o, e, repl, chain, coalesce), LastChange(doc, o, e, repl);
            Inv(d) && at <= |d.text| &&
            var r := Redo(Undo(d, 1), 1);
            r.text == d.text && r.undo == Closed(d.undo) && r.redo == [] && r.cursor == PosAt(d.text, at)
  {
    hide Undo, Redo, EditAt, LastChange, DeletesOnlyFinalNewline, Bounded;
    var d, at := EditAt(doc, o, e, repl, chain, coalesce), LastChange(doc, o, e, repl);
    EditKeepsInv(doc, o, e, repl, chain, coalesce);
    EditKeepsSession(doc, o, e, repl, chain, coalesce);
    EditedText(doc, o, e, repl, chain, coalesce);
    PastIsBounded(doc.text, doc.undo, doc.session.base, doc.session.isFile);
    EditHeadAt(doc, o, e, repl, chain, coalesce);
    hide Inv;
    UndoneAndRedone(d, at);
  }

  lemma UndoneAndRedone(doc: Doc, at: nat)
    requires Inv(doc) && !doc.session.readOnly && at <= |doc.text| && HeadAt(doc, at)
    ensures var r := Redo(Undo(doc, 1), 1);
            r.text == doc.text && r.undo == Closed(doc.undo) && r.redo == doc.redo && r.cursor == PosAt(doc.text, at)
  {
    hide Undo, Redo, Linked;
    var u := Undo(doc, 1);
    ChainOnTop(doc);
    RedoInvertsUndo(doc, 1);
    UndoLeaves(doc, 1);
    UndoKeepsSession(doc, 1);
    RedoLeaves(u, 1);
    CursorIsHead(Redo(u, 1), at, doc);
  }

  lemma ChainOnTop(doc: Doc)
    requires Inv(doc) && doc.undo != []
    ensures Chains(doc.undo) >= 1
  {
    SomeChain(doc.undo);
  }

  lemma CursorIsHead(r: Doc, at: nat, doc: Doc)
    requires at <= |doc.text| && HeadAt(doc, at) && CursorAfterRedo(r)
    requires r.text == doc.text && r.undo == Closed(doc.undo)
    ensures r.cursor == PosAt(doc.text, at)
  {
    hide Advance;
    var h := r.undo[0];
    if !h.isDelete { RecordSpan(r.text, h); }
  }
}
