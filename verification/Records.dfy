/** Undo records.  A record says that `data` was inserted, or deleted, at `start`; `end`
    is always where the payload ends.  Records are undone and redone against a text; the
    lemmas here say that the two are inverse and that folding one record into another
    changes neither direction. */
module Records {
  import opened Text

  /** Most operations one record may absorb after its first. */
  const MERGE_LIMIT := 20

  datatype Record = Record(
    start: Pos,
    end: Pos,
    data: Text,
    isDelete: bool,
    append: bool,   // open: the next keystroke may still join it
    paired: bool,   // undone together with the record below it
    merges: nat     // operations folded in so far
  )

  predicate WellFormed(r: Record) {
    r.data != [] && r.end == Advance(r.start, r.data) && r.merges <= MERGE_LIMIT
  }

  // ---- Replaying ----

  /** `r` can be undone in `t`: its start is a place of `t`, and what it claims to have
      inserted is there. */
  ghost predicate Reverts(t: Text, r: Record) {
    WellFormed(r) && InBounds(t, r.start) &&
    (!r.isDelete ==>
       var o := OffsetOf(t, r.start);
       o + |r.data| <= |t| && t[o..o + |r.data|] == r.data)
  }

  ghost function Reverted(t: Text, r: Record): Text
    requires Reverts(t, r)
  {
    var o := OffsetOf(t, r.start);
    if r.isDelete then Insert(t, o, r.data) else Delete(t, o, o + |r.data|)
  }

  /** The record of the opposite edit. */
  function Inverse(r: Record): Record {
    r.(isDelete := !r.isDelete)
  }

  /** Redoing a record is undoing its inverse. */
  ghost predicate Replays(t: Text, r: Record) {
    Reverts(t, Inverse(r))
  }

  ghost function Replayed(t: Text, r: Record): Text
    requires Replays(t, r)
  {
    Reverted(t, Inverse(r))
  }

  lemma RedoUndoesUndo(t: Text, r: Record)
    requires Reverts(t, r)
    ensures Replays(Reverted(t, r), r) && Replayed(Reverted(t, r), r) == t
  {
    var o, t' := OffsetOf(t, r.start), Reverted(t, r);
    assert t'[..o] == t[..o];
    OffsetOfPosAt(t', o);
    if r.isDelete {
      DeleteUndoesInsert(t, o, r.data);
    } else {
      InsertUndoesDelete(t, o, o + |r.data|);
    }
  }

  lemma UndoUndoesRedo(t: Text, r: Record)
    requires Replays(t, r)
    ensures Reverts(Replayed(t, r), r) && Reverted(Replayed(t, r), r) == t
  {
    RedoUndoesUndo(t, Inverse(r));
    assert Inverse(Inverse(r)) == r;
  }

  /** The coordinates a replay works with: where the record starts and ends in `t`. */
  lemma RecordSpan(t: Text, r: Record)
    requires Reverts(t, r) && !r.isDelete
    ensures InBounds(t, r.end) && OffsetOf(t, r.end) == OffsetOf(t, r.start) + |r.data|
  {
    var o := OffsetOf(t, r.start);
    EndOfSlice(t, o, o + |r.data|);
    OffsetOfPosAt(t, o + |r.data|);
  }

  /** The record an insertion of `d` at offset `o` leaves behind is undone by it. */
  lemma InsertIsRecorded(t: Text, o: nat, d: Text, append: bool, paired: bool)
    requires o <= |t| && d != []
    ensures var r := Record(PosAt(t, o), Advance(PosAt(t, o), d), d, false, append, paired, 0);
            Reverts(Insert(t, o, d), r) && Reverted(Insert(t, o, d), r) == t
  {
    EndOfInsert(t, o, d);
    OffsetOfPosAt(Insert(t, o, d), o);
    DeleteUndoesInsert(t, o, d);
  }

  lemma DeleteIsRecorded(t: Text, o: nat, e: nat, append: bool, paired: bool)
    requires o < e <= |t|
    ensures var r := Record(PosAt(t, o), PosAt(t, e), t[o..e], true, append, paired, 0);
            Reverts(Delete(t, o, e), r) && Reverted(Delete(t, o, e), r) == t
  {
    var t' := Delete(t, o, e);
    EndOfSlice(t, o, e);
    assert t'[..o] == t[..o];
    OffsetOfPosAt(t', o);
    InsertUndoesDelete(t, o, e);
  }

  // ---- Merging ----

  /** The next edit carries on where the old one left off: typing at its end, deleting
      forward from its start, or deleting backward up to its start. */
  predicate Aligned(prev: Record, next: Record) {
    if !next.isDelete then prev.end == next.start
    else prev.start == next.start || prev.start == next.end
  }

  predicate CanMerge(prev: Record, next: Record) {
    prev.append && prev.isDelete == next.isDelete && !prev.paired && !next.paired &&
    prev.merges < MERGE_LIMIT && next.data != [] && Aligned(prev, next)
  }

  function Merge(prev: Record, next: Record): Record
    requires CanMerge(prev, next)
  {
    var grown := if next.isDelete && prev.start != next.start
                 then prev.(data := next.data + prev.data, start := next.start)
                 else prev.(data := prev.data + next.data);
    grown.(merges := prev.merges + 1, end := Advance(grown.start, grown.data))
  }

  /** Undoing a merged record is undoing its two parts, last one first. */
  lemma MergeUndoesBoth(t: Text, prev: Record, next: Record)
    requires Reverts(t, next) && Reverts(Reverted(t, next), prev) && CanMerge(prev, next)
    ensures Reverts(t, Merge(prev, next))
    ensures Reverted(t, Merge(prev, next)) == Reverted(Reverted(t, next), prev)
  {
    if !next.isDelete {
      MergedTypingUndoes(t, prev, next);
    } else {
      MergedDeletionUndoes(t, prev, next);
    }
  }

  /** Two slices next to each other come out one after the other or together. */
  lemma DeleteInTwoSteps(t: Text, o: nat, n: nat, m: nat)
    requires o + n + m <= |t|
    ensures var t1 := Delete(t, o + n, o + n + m);
            t1[..o] == t[..o] && t1[o..o + n] + t[o + n..o + n + m] == t[o..o + n + m] &&
            Delete(t1, o, o + n) == Delete(t, o, o + n + m)
  {
  }

  /** Typing that carries on does so where the earlier insertion ends. */
  lemma TypingMeets(t: Text, prev: Record, next: Record)
    requires Reverts(t, next) && Reverts(Reverted(t, next), prev) && CanMerge(prev, next)
    requires !next.isDelete
    ensures OffsetOf(t, next.start) == OffsetOf(Reverted(t, next), prev.start) + |prev.data|
  {
    var t1, mid := Reverted(t, next), OffsetOf(t, next.start);
    RecordSpan(t1, prev);
    PosAtPrefix(t, t1, mid);
    OffsetOfPosAt(t1, mid);
  }

  lemma MergedTypingUndoes(t: Text, prev: Record, next: Record)
    requires Reverts(t, next) && Reverts(Reverted(t, next), prev) && CanMerge(prev, next)
    requires !next.isDelete
    ensures Reverts(t, Merge(prev, next))
    ensures Reverted(t, Merge(prev, next)) == Reverted(Reverted(t, next), prev)
  {
    hide Advance, Insert, Delete;
    var t1 := Reverted(t, next);
    var o := OffsetOf(t1, prev.start);
    TypingMeets(t, prev, next);
    DeleteInTwoSteps(t, o, |prev.data|, |next.data|);
    PosAtPrefix(t, t1, o);
    InsertionReverts(t, Merge(prev, next), o);
  }

  /** What it takes to undo an insertion at offset `o`, and what that does. */
  lemma InsertionReverts(t: Text, r: Record, o: nat)
    requires WellFormed(r) && !r.isDelete && o + |r.data| <= |t|
    requires r.start == PosAt(t, o) && t[o..o + |r.data|] == r.data
    ensures Reverts(t, r) && Reverted(t, r) == Delete(t, o, o + |r.data|)
  {
    hide Advance, Delete;
    OffsetOfPosAt(t, o);
  }

  lemma DeletionReverts(t: Text, r: Record, o: nat)
    requires WellFormed(r) && r.isDelete && o <= |t| && r.start == PosAt(t, o)
    ensures Reverts(t, r) && Reverted(t, r) == Insert(t, o, r.data)
  {
    hide Advance, Insert;
    OffsetOfPosAt(t, o);
  }

  lemma MergedDeletionUndoes(t: Text, prev: Record, next: Record)
    requires Reverts(t, next) && Reverts(Reverted(t, next), prev) && CanMerge(prev, next)
    requires next.isDelete
    ensures Reverts(t, Merge(prev, next))
    ensures Reverted(t, Merge(prev, next)) == Reverted(Reverted(t, next), prev)
  {
    hide Advance, Insert;
    var t1, o := Reverted(t, next), OffsetOf(t, next.start);
    EndOfInsert(t, o, next.data);
    DeletionReverts(t, Merge(prev, next), o);
    if prev.start == next.start {
      InsertInTwoSteps(t, o, prev.data, next.data);
      DeletionReverts(t1, prev, o);
    } else {
      InsertInTwoSteps(t, o, next.data, prev.data);
      DeletionReverts(t1, prev, o + |next.data|);
    }
  }

  /** Two payloads next to each other go in one after the other or together. */
  lemma InsertInTwoSteps(t: Text, o: nat, a: Text, b: Text)
    requires o <= |t|
    ensures o + |a| <= |Insert(t, o, a)| && o <= |Insert(t, o, b)|
    ensures Insert(Insert(t, o, a), o + |a|, b) == Insert(t, o, a + b)
    ensures Insert(Insert(t, o, b), o, a) == Insert(t, o, a + b)
  {
  }

  /** Redoing a merged record is redoing its two parts, first one first. */
  lemma MergeRedoesBoth(t: Text, prev: Record, next: Record)
    requires Replays(t, prev) && Replays(Replayed(t, prev), next) && CanMerge(prev, next)
    ensures Replays(t, Merge(prev, next))
    ensures Replayed(t, Merge(prev, next)) == Replayed(Replayed(t, prev), next)
  {
    var t1 := Replayed(t, prev);
    var t2 := Replayed(t1, next);
    UndoUndoesRedo(t, prev);
    UndoUndoesRedo(t1, next);
    MergeUndoesBoth(t2, prev, next);
    RedoUndoesUndo(t2, Merge(prev, next));
  }

  // ---- The list of records, newest first ----

  predicate HeadClosed(undo: seq<Record>) {
    undo == [] || !undo[0].append
  }

  function Closed(undo: seq<Record>): seq<Record> {
    if undo == [] then [] else [undo[0].(append := false)] + undo[1..]
  }

  /** A record joins the open run at the head if it asks to and can; otherwise it closes
      that run and becomes the new head. */
  function Push(undo: seq<Record>, r: Record): (pushed: seq<Record>)
    ensures pushed != []
  {
    if r.append && undo != [] && CanMerge(undo[0], r) then [Merge(undo[0], r)] + undo[1..]
    else [r] + Closed(undo)
  }

  /** How many edits a list of records stands for. */
  function Operations(undo: seq<Record>): nat {
    if undo == [] then 0 else undo[0].merges + 1 + Operations(undo[1..])
  }

  /** Every record ends where its data does, and stands for at most 21 edits. */
  predicate Bounded(undo: seq<Record>) {
    forall i | 0 <= i < |undo| ::
      undo[i].merges <= MERGE_LIMIT && undo[i].end == Advance(undo[i].start, undo[i].data)
  }

  /** Nothing is lost in a merge, and no push makes a record that hides more than 21
      edits. */
  lemma PushCountsEveryEdit(undo: seq<Record>, r: Record)
    requires r.merges == 0
    ensures Operations(Push(undo, r)) == Operations(undo) + 1
    ensures Bounded(undo) && r.end == Advance(r.start, r.data) ==> Bounded(Push(undo, r))
  {
    hide Advance;
    if undo != [] {
      assert Closed(undo)[1..] == undo[1..];
    }
    assert ([r] + Closed(undo))[1..] == Closed(undo);
  }

  lemma {:induction false} RunsAreBounded(undo: seq<Record>)
    requires Bounded(undo)
    ensures Operations(undo) <= (MERGE_LIMIT + 1) * |undo|
  {
    hide Advance;
    if undo != [] {
      RunsAreBounded(undo[1..]);
    }
  }
}
