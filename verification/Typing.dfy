/** The commands that edit one character at a time, as functions on `Doc`: typing, forward
    delete and backspace, repeated.  What they delete is always one whole character, and a
    run of typing costs one undo for every 21 characters. */
module Typing {
  import opened Text
  import opened Utf8
  import opened Points
  import opened Records
  import opened History
  import opened Undoing

  // ---- Deleting characters ----

  /** The text an edit leaves in front of its own start, and that it is still valid. */
  lemma {:induction false} DeletionKeepsFront(doc: Doc, o: nat, e: nat, coalesce: bool)
    requires o <= e <= |doc.text| && ValidUtf8(doc.text) && Boundary(doc.text, o) && Boundary(doc.text, e)
    ensures var t := EditAt(doc, o, e, [], false, coalesce).text;
            o <= |t| && t[..o] == doc.text[..o] && ValidUtf8(t) && Boundary(t, o)
  {
    hide ValidUtf8, EditAt, Refused, Terminated;
    if Refused(doc, o, e, []) {
      RefusalChangesNothing(doc, o, e, [], false, coalesce);
    } else {
      EditedText(doc, o, e, [], false, coalesce);
      var t := doc.text[..o] + [] + doc.text[e..];
      assert t == Delete(doc.text, o, e);
      DeleteKeepsValid(doc.text, o, e);
      NewlineIsValid(1);
      assert Newlines(1) == [NL];
      ValidConcat(t, [NL]);
    }
  }

  /** Delete the character after offset `o`, `times` times. */
  function DeletedForward(doc: Doc, o: nat, times: nat): Doc
    requires o <= |doc.text| && ValidUtf8(doc.text) && Boundary(doc.text, o)
    decreases times
  {
    if times == 0 || o == |doc.text| then doc
    else
      NextBoundary(doc.text, o);
      var e := o + NBytes(doc.text[o]);
      DeletionKeepsFront(doc, o, e, true);
      DeletedForward(EditAt(doc, o, e, [], false, true), o, times - 1)
  }

  /** The start of the character before `o`. */
  function PrevBoundary(t: Text, o: nat): (p: nat)
    requires 0 < o <= |t|
    ensures p < o && forall k | p < k < o :: IsCont(t[k])
    ensures p == 0 || !IsCont(t[p])
  {
    if o == 1 || !IsCont(t[o - 1]) then o - 1 else PrevBoundary(t, o - 1)
  }

  lemma PrevBoundaryIsBoundary(t: Text, o: nat)
    requires 0 < o <= |t| && ValidUtf8(t)
    ensures Boundary(t, PrevBoundary(t, o))
  {
    ValidStartsCharacter(t);
  }

  /** Delete the character before offset `o`, `times` times; the cursor ends in front of
      where the last one was, even if the deletion itself was refused. */
  function DeletedBackward(doc: Doc, o: nat, times: nat): Doc
    requires o <= |doc.text| && ValidUtf8(doc.text) && Boundary(doc.text, o)
    decreases times
  {
    if times == 0 || o == 0 then doc
    else
      var p := PrevBoundary(doc.text, o);
      PrevBoundaryIsBoundary(doc.text, o);
      DeletionKeepsFront(doc, p, o, true);
      DeletedBackward(EditAt(doc, p, o, [], false, true).(cursor := PosAt(doc.text, p)), p, times - 1)
  }

  /** A character put in is the one before the place behind it. */
  lemma TypedIsPrevious(t: Text, o: nat, c: Text)
    requires o <= |t| && ValidUtf8(t) && Boundary(t, o)
    requires c != [] && ValidUtf8(c) && NBytes(c[0]) == |c|
    ensures PrevBoundary(Insert(t, o, c), o + |c|) == o
    ensures Delete(Insert(t, o, c), o, o + |c|) == t
  {
    hide ValidUtf8;
    var t' := Insert(t, o, c);
    FrontCharacter(c);
    ValidStartsCharacter(c);
    assert forall k | o <= k < o + |c| :: t'[k] == c[k - o];
    PrevBoundaryIs(t', o + |c|, o);
    DeleteUndoesInsert(t, o, c);
  }

  /** One character, typed where a character may start. */
  predicate Keystroke(doc: Doc, o: nat, c: Text) {
    o <= |doc.text| && ValidUtf8(doc.text) && Boundary(doc.text, o) && !doc.session.readOnly &&
    (doc.session.isFile ==> Terminated(doc.text)) &&
    c != [] && ValidUtf8(c) && NBytes(c[0]) == |c|
  }

  lemma CharacterEndsRow(c: Text)
    requires c != [] && ValidUtf8(c) && NBytes(c[0]) == |c|
    ensures c[|c| - 1] == NL <==> c == [NL]
  {
    hide ValidUtf8;
    FrontCharacter(c);
    if |c| > 1 { assert IsCont(c[|c| - 1]); }
  }

  lemma TypingKeepsValid(doc: Doc, o: nat, c: Text)
    requires Keystroke(doc, o, c)
    ensures var t := EditAt(doc, o, o, c, false, true).text;
            t == WithFinalNewline(Insert(doc.text, o, c), doc.session.isFile) && o + |c| <= |t| &&
            t[..o + |c|] == Insert(doc.text, o, c)[..o + |c|] &&
            ValidUtf8(t) && Boundary(t, o + |c|) && Boundary(t, o)
  {
    hide ValidUtf8, EditAt;
    EditedText(doc, o, o, c, false, true);
    var t := Insert(doc.text, o, c);
    InsertKeepsValid(doc.text, o, c);
    NewlineIsValid(1);
    assert Newlines(1) == [NL];
    ValidConcat(t, [NL]);
    ValidStartsCharacter(c);
    InsertedBytes(doc.text, o, c);
  }

  lemma InsertedBytes(t: Text, o: nat, c: Text)
    requires o <= |t| && c != []
    ensures Insert(t, o, c)[o] == c[0] && (o < |t| ==> Insert(t, o, c)[o + |c|] == t[o])
    ensures t[..o] + c + t[o..] == Insert(t, o, c)
  {
  }

  /** A character typed at `o` and taken back with a backspace. */
  function TypedAndBackspaced(doc: Doc, o: nat, c: Text): Doc
    requires Keystroke(doc, o, c)
  {
    TypingKeepsValid(doc, o, c);
    DeletedBackward(EditAt(doc, o, o, c, false, true), o + |c|, 1)
  }

  /** Backspace after typing a character takes exactly that character away again, unless a
      file was typed at its end: then the newline its last row was given stays behind. */
  lemma {:induction false} BackspaceUndoesTyping(doc: Doc, o: nat, c: Text)
    requires Keystroke(doc, o, c)
    ensures var back := TypedAndBackspaced(doc, o, c).text;
            (back == doc.text <==> !doc.session.isFile || o < |doc.text| || c == [NL]) &&
            (back != doc.text ==> back == doc.text + [NL])
  {
    hide ValidUtf8, EditAt, Terminated, WithFinalNewline, NBytes, TypedAndBackspaced, Insert, Delete,
         DeletesOnlyFinalNewline;
    var d := EditAt(doc, o, o, c, false, true);
    TypingKeepsValid(doc, o, c);
    EditKeepsSession(doc, o, o, c, false, true);
    BackspaceDeletes(doc, o, c);
    CharacterEndsRow(c);
    Backspaced(doc.text, o, c, doc.session.isFile, d.text);
    EditedText(d, o, o + |c|, [], false, true);
    DeleteIsSplice(d.text, o, o + |c|);
    assert |doc.text + [NL]| == |doc.text| + 1;
    assert TypedAndBackspaced(doc, o, c).text ==
           if doc.session.isFile && o == |doc.text| && c != [NL] then doc.text + [NL] else doc.text by {
      ClosingUnlessFile(Delete(d.text, o, o + |c|));
    }
  }

  lemma ClosingUnlessFile(t: Text)
    ensures WithFinalNewline(t, true) == (if !Terminated(t) then t + [NL] else t) && WithFinalNewline(t, false) == t
  {
  }

  lemma BackspaceDeletes(doc: Doc, o: nat, c: Text)
    requires Keystroke(doc, o, c)
    ensures var d := EditAt(doc, o, o, c, false, true);
            o + |c| <= |d.text| &&
            TypedAndBackspaced(doc, o, c).text == EditAt(d, o, o + |c|, [], false, true).text
  {
    hide ValidUtf8, EditAt, NBytes, Terminated, WithFinalNewline;
    var d := EditAt(doc, o, o, c, false, true);
    TypingKeepsValid(doc, o, c);
    TypedIsPrevious(doc.text, o, c);
    PrevBoundaryOfPrefix(d.text, Insert(doc.text, o, c), o + |c|);
    BackspacedOnce(d, o, o + |c|);
  }

  lemma DeleteIsSplice(t: Text, o: nat, e: nat)
    requires o <= e <= |t|
    ensures t[..o] + [] + t[e..] == Delete(t, o, e)
  {
  }

  lemma BackspacedOnce(doc: Doc, p: nat, o: nat)
    requires p < o <= |doc.text| && ValidUtf8(doc.text) && Boundary(doc.text, o) && PrevBoundary(doc.text, o) == p
    ensures DeletedBackward(doc, o, 1).text == EditAt(doc, p, o, [], false, true).text
  {
    hide EditAt, ValidUtf8;
    PrevBoundaryIsBoundary(doc.text, o);
    DeletionKeepsFront(doc, p, o, true);
    var d := EditAt(doc, p, o, [], false, true).(cursor := PosAt(doc.text, p));
    assert DeletedBackward(d, p, 0) == d;
  }

  lemma DeleteBeforeNewline(t: Text, c: Text)
    ensures Delete(t + c + [NL], |t|, |t + c|) == t + [NL]
  {
  }

  /** Cutting out what was just typed: never a deletion of the final newline alone. */
  lemma {:induction false} Backspaced(t: Text, o: nat, c: Text, isFile: bool, t': Text)
    requires o <= |t| && c != [] && (c[|c| - 1] == NL <==> c == [NL]) && (isFile ==> Terminated(t))
    requires t' == WithFinalNewline(Insert(t, o, c), isFile)
    ensures o + |c| <= |t'|
    ensures isFile ==> !DeletesOnlyFinalNewline(t', o, o + |c|, [])
    ensures var u := if isFile && o == |t| && c != [NL] then t + [NL] else t;
            Delete(t', o, o + |c|) == u && WithFinalNewline(u, isFile) == u
  {
    var u := Insert(t, o, c);
    DeleteUndoesInsert(t, o, c);
    if o < |t| {
      assert u[|u| - 1] == t[|t| - 1];
    } else {
      InsertAtEnd(t, c);
      assert u[|u| - 1] == c[|c| - 1];
      hide Insert;
      if isFile && c != [NL] { DeleteBeforeNewline(t, c); }
    }
  }

  lemma {:induction false} PrevBoundaryOfPrefix(t: Text, t': Text, o: nat)
    requires 0 < o <= |t| && o <= |t'| && t[..o] == t'[..o]
    ensures PrevBoundary(t, o) == PrevBoundary(t', o)
  {
    assert t[o - 1] == t[..o][o - 1] && t'[o - 1] == t'[..o][o - 1];
    if o > 1 {
      assert t[..o - 1] == t[..o][..o - 1] && t'[..o - 1] == t'[..o][..o - 1];
      PrevBoundaryOfPrefix(t, t', o - 1);
    }
  }

  lemma {:induction false} PrevBoundaryIs(t: Text, o: nat, p: nat)
    requires p < o <= |t| && !IsCont(t[p]) && forall k | p < k < o :: IsCont(t[k])
    ensures PrevBoundary(t, o) == p
  {
    if p < o - 1 { PrevBoundaryIs(t, o - 1, p); }
  }

  // ---- A run of typing ----

  /** Type the pieces of `cs`, one keystroke each, from offset `o` on. */
  function Typed(doc: Doc, o: nat, cs: seq<Text>): Doc
    requires o <= |doc.text|
    decreases |cs|
  {
    if cs == [] then doc
    else
      var last := |cs| - 1;
      var before := Typed(doc, o, cs[..last]);
      var at := o + |Concat(cs[..last])|;
      if at <= |before.text| then EditAt(before, at, at, cs[last], false, true) else before
  }

  function Concat(cs: seq<Text>): Text {
    if cs == [] then [] else Concat(cs[..|cs| - 1]) + cs[|cs| - 1]
  }

  /** What an open run of typing looks like: `n` keystrokes on top of the list `from`, in
      records of 21, the newest still open and ending where the next keystroke lands. */
  predicate OpenRun(undo: seq<Record>, from: seq<Record>, end: Pos, n: nat) {
    n > 0 && undo != [] &&
    undo[0].append && !undo[0].isDelete && !undo[0].paired &&
    undo[0].merges == (n - 1) % (MERGE_LIMIT + 1) &&
    undo[0].end == end == Advance(undo[0].start, undo[0].data) &&
    Chains(undo) == Chains(from) + (n - 1) / (MERGE_LIMIT + 1) + 1
  }

  /** Pieces that each end a row. */
  predicate EndRows(cs: seq<Text>) {
    forall i | 0 <= i < |cs| :: cs[i] != [] && cs[i][|cs[i]| - 1] == NL
  }

  predicate Pieces(cs: seq<Text>) {
    forall i | 0 <= i < |cs| :: cs[i] != []
  }

  /** No keystroke is refused or needs the final newline repaired: what is typed goes in
      front of the end of a file, or ends in a newline each time. */
  predicate PlainTyping(doc: Doc, o: nat, cs: seq<Text>) {
    !doc.session.readOnly && o <= |doc.text| && Pieces(cs) &&
    (doc.session.isFile ==> Terminated(doc.text) && (o < |doc.text| || EndRows(cs)))
  }

  /** Typing inserts exactly what was typed, and takes one undo for every 21 keystrokes. */
  lemma {:induction false} TypingIsOneRun(doc: Doc, o: nat, cs: seq<Text>)
    requires PlainTyping(doc, o, cs)
    requires HeadClosed(doc.undo)
    ensures var d := Typed(doc, o, cs);
            d.text == Insert(doc.text, o, Concat(cs)) && d.session == doc.session &&
            (cs == [] ==> d == doc) &&
            (cs != [] ==> OpenRun(d.undo, doc.undo, PosAt(d.text, o + |Concat(cs)|), |cs|))
    decreases |cs|
  {
    hide EditAt, OpenRun, Insert, Push, Terminated;
    if cs == [] {
      InsertNothing(doc.text, o);
    } else {
      var last := |cs| - 1;
      TypingIsOneRun(doc, o, cs[..last]);
      var a, c := Concat(cs[..last]), cs[last];
      var before, at := Typed(doc, o, cs[..last]), o + |a|;
      InsertInTwoSteps(doc.text, o, a, c);
      if doc.session.isFile {
        TypingStaysTerminated(doc.text, o, cs[..last]);
        TypingStaysTerminated(doc.text, o, cs);
      }
      assert at <= |before.text|;
      OneKeystroke(before, at, c);
      EndOfInsert(before.text, at, c);
      RunGrows(doc.undo, before.undo, PosAt(before.text, at), c, last);
    }
  }

  lemma InsertNothing(t: Text, o: nat)
    requires o <= |t|
    ensures Insert(t, o, []) == t
  {
  }

  lemma TypingStaysTerminated(t: Text, o: nat, cs: seq<Text>)
    requires o <= |t| && Terminated(t) && (o < |t| || EndRows(cs))
    ensures Terminated(Insert(t, o, Concat(cs)))
  {
    var a := Concat(cs);
    if cs != [] && o == |t| {
      var n := |cs| - 1;
      assert a[|a| - 1] == cs[n][|cs[n]| - 1];
    }
  }

  /** One keystroke that needs no repair: the text, and the record pushed. */
  lemma {:induction false} OneKeystroke(doc: Doc, at: nat, c: Text)
    requires !doc.session.readOnly && at <= |doc.text| && c != []
    requires doc.session.isFile ==> Terminated(Insert(doc.text, at, c))
    ensures var d := EditAt(doc, at, at, c, false, true);
            d.text == Insert(doc.text, at, c) && d.session == doc.session &&
            d.undo == Push(doc.undo, Record(PosAt(doc.text, at), Advance(PosAt(doc.text, at), c), c,
                                            false, true, false, 0))
  {
    hide Advance, AdjustAll, Push;
  }

  lemma RunGrows(from: seq<Record>, undo: seq<Record>, p: Pos, c: Text, n: nat)
    requires c != []
    requires if n == 0 then undo == from && (undo == [] || !undo[0].append) else OpenRun(undo, from, p, n)
    ensures OpenRun(Push(undo, Record(p, Advance(p, c), c, false, true, false, 0)), from, Advance(p, c), n + 1)
  {
    hide Advance;
    var r := Record(p, Advance(p, c), c, false, true, false, 0);
    RunCounts(n);
    if n > 0 && undo[0].merges < MERGE_LIMIT {
      AdvanceConcat(undo[0].start, undo[0].data, c);
      assert Push(undo, r)[1..] == undo[1..];
    } else {
      ClosingKeepsChains(undo);
      assert Push(undo, r)[1..] == Closed(undo);
    }
  }

  lemma RunCounts(n: nat)
    ensures n > 0 && (n - 1) % 21 < 20 ==> n % 21 == (n - 1) % 21 + 1 && n / 21 == (n - 1) / 21
    ensures n > 0 && (n - 1) % 21 == 20 ==> n % 21 == 0 && n / 21 == (n - 1) / 21 + 1
  {
  }

  // ---- Typing at the end of a file ----

  lemma {:induction false} ConcatOfBoth(a: seq<Text>, b: seq<Text>)
    ensures Concat(a + b) == Concat(a) + Concat(b)
    decreases |b|
  {
    if b == [] {
      assert a + b == a;
    } else {
      var b' := b[..|b| - 1];
      assert (a + b)[..|a + b| - 1] == a + b';
      ConcatOfBoth(a, b');
    }
  }

  lemma {:induction false} TypedInTwo(doc: Doc, o: nat, a: seq<Text>, b: seq<Text>)
    requires o <= |doc.text| && o + |Concat(a)| <= |Typed(doc, o, a).text|
    ensures Typed(doc, o, a + b) == Typed(Typed(doc, o, a), o + |Concat(a)|, b)
    decreases |b|
  {
    hide EditAt;
    if b == [] {
      assert a + b == a;
    } else {
      var b' := b[..|b| - 1];
      assert (a + b)[..|a + b| - 1] == a + b';
      TypedInTwo(doc, o, a, b');
      ConcatOfBoth(a, b');
    }
  }

  /** A keystroke at the end of a file that does not end its row: the newline that is put
      back is a record of its own, tied to it, and the run is over. */
  lemma {:induction false} LastRowKeystroke(doc: Doc, c: Text)
    requires !doc.session.readOnly && doc.session.isFile && c != [] && c[|c| - 1] != NL
    ensures var t, d := doc.text, EditAt(doc, |doc.text|, |doc.text|, c, false, true);
            var r := Record(PosAt(t, |t|), Advance(PosAt(t, |t|), c), c, false, true, false, 0);
            d.text == t + c + [NL] && d.session == doc.session &&
            d.undo != [] && !d.undo[0].append && d.undo[0].paired && d.undo[1..] == Closed(Push(doc.undo, r))
  {
    hide Advance, Push, Closed, EditAt, Spliced, Repaired, Insert;
    KeystrokeSpliced(doc, c);
    KeystrokeAccepted(doc, c);
    InsertAtEnd(doc.text, c);
    var d := Spliced(doc.(redo := []), |doc.text|, |doc.text|, c, false, true);
    assert d.text[|d.text| - 1] == c[|c| - 1];
    RepairedRow(d);
  }

  lemma KeystrokeAccepted(doc: Doc, c: Text)
    requires !doc.session.readOnly && c != []
    ensures var o := |doc.text|;
            EditAt(doc, o, o, c, false, true) ==
            Repaired(Spliced(doc.(redo := []), o, o, c, false, true)).(dirty := true)
  {
    hide Spliced, Repaired;
  }

  /** The record a keystroke at the end pushes. */
  lemma {:induction false} KeystrokeSpliced(doc: Doc, c: Text)
    requires c != []
    ensures var t, d := doc.text, Spliced(doc.(redo := []), |doc.text|, |doc.text|, c, false, true);
            var r := Record(PosAt(t, |t|), Advance(PosAt(t, |t|), c), c, false, true, false, 0);
            d.text == Insert(t, |t|, c) && d.session == doc.session && d.undo == Push(doc.undo, r)
  {
    hide Advance, AdjustAll, Push, Insert;
  }

  lemma RepairedRow(doc: Doc)
    requires doc.session.isFile && !Terminated(doc.text)
    ensures var d := Repaired(doc);
            d.text == doc.text + [NL] && d.session == doc.session &&
            d.undo != [] && !d.undo[0].append && d.undo[0].paired && d.undo[1..] == Closed(doc.undo)
  {
    hide Advance, AdjustAll;
    InsertAtEnd(doc.text, [NL]);
  }

  /** Typing at the end of a file, an empty one included: the rows ended first and the
      first piece that ends none are one run; the newline put back closes it, and what
      follows is a run of its own.  The file gets its final newline once. */
  lemma {:induction false} TypingAtTheEnd(doc: Doc, a: seq<Text>, c: Text, b: seq<Text>)
    requires !doc.session.readOnly && doc.session.isFile && Terminated(doc.text)
    requires HeadClosed(doc.undo)
    requires EndRows(a) && c != [] && c[|c| - 1] != NL && Pieces(b)
    ensures var d := Typed(doc, |doc.text|, a + [c] + b);
            d.text == doc.text + Concat(a + [c] + b) + [NL] &&
            Chains(d.undo) == Chains(doc.undo) + (|a| / 21 + 1) + (|b| + 20) / 21
  {
    hide EditAt, Chains, Terminated, Concat, Typed, EndRows, Pieces;
    var front := UpToTheLastRow(doc, a, c);
    var d := Typed(doc, |doc.text|, a + [c]);
    TypedInTwo(doc, |doc.text|, a + [c], b);
    InFrontOfTheNewline(d, front, b);
    ConcatOfBoth(a + [c], b);
    assert doc.text + (Concat(a + [c]) + Concat(b)) == front + Concat(b);
  }

  lemma {:induction false} InFrontOfTheNewline(doc: Doc, front: Text, cs: seq<Text>)
    requires doc.text == front + [NL] && !doc.session.readOnly && Pieces(cs)
    requires HeadClosed(doc.undo)
    ensures var d := Typed(doc, |front|, cs);
            d.text == front + Concat(cs) + [NL] &&
            Chains(d.undo) == Chains(doc.undo) + (|cs| + 20) / 21
  {
    hide EditAt, Chains, Terminated, OpenRun, Concat, Typed, Insert, PlainTyping, Pieces, Advance;
    PlainInFront(doc, front, cs);
    TypingIsOneRun(doc, |front|, cs);
    InsertBeforeLast(front, Concat(cs));
    RunChains(doc, cs, |front|);
  }

  lemma PlainInFront(doc: Doc, front: Text, cs: seq<Text>)
    requires doc.text == front + [NL] && !doc.session.readOnly && Pieces(cs)
    ensures PlainTyping(doc, |front|, cs)
  {
  }

  /** The run at the end of the file, up to the newline that closes it. */
  lemma {:induction false} UpToTheLastRow(doc: Doc, a: seq<Text>, c: Text) returns (front: Text)
    requires !doc.session.readOnly && doc.session.isFile && Terminated(doc.text)
    requires HeadClosed(doc.undo)
    requires EndRows(a) && c != [] && c[|c| - 1] != NL
    ensures var d := Typed(doc, |doc.text|, a + [c]);
            front == doc.text + Concat(a + [c]) && d.text == front + [NL] && d.session == doc.session &&
            d.undo != [] && !d.undo[0].append && Chains(d.undo) == Chains(doc.undo) + |a| / 21 + 1
  {
    hide EditAt, Push, Terminated, OpenRun, Concat, Typed, Insert;
    var t, o := doc.text, |doc.text|;
    TypingIsOneRun(doc, o, a);
    var d1, ca := Typed(doc, o, a), Concat(a);
    InsertAtEnd(t, ca);
    TypedInTwo(doc, o, a, [c]);
    TypedOne(d1, c);
    LastRowKeystroke(d1, c);
    RunThenNewline(doc, d1, a, c);
    ConcatOfBoth(a, [c]);
    ConcatOne(c);
    front := t + (ca + c);
    assert t + ca + c == front;
  }

  lemma InsertAtEnd(t: Text, a: Text)
    ensures Insert(t, |t|, a) == t + a
  {
  }

  lemma InsertBeforeLast(t: Text, a: Text)
    ensures Insert(t + [NL], |t|, a) == t + a + [NL]
  {
  }

  lemma ConcatOne(c: Text)
    ensures Concat([c]) == c
  {
    assert [c][..0] == [];
  }

  lemma {:induction false} TypedOne(doc: Doc, c: Text)
    ensures Typed(doc, |doc.text|, [c]) == EditAt(doc, |doc.text|, |doc.text|, c, false, true)
  {
    hide EditAt;
    assert [c][..0] == [];
    assert Typed(doc, |doc.text|, []) == doc && Concat([]) == [];
  }

  lemma {:induction false} RunThenNewline(doc: Doc, d1: Doc, a: seq<Text>, c: Text)
    requires HeadClosed(doc.undo)
    requires c != [] && d1.text == doc.text + Concat(a)
    requires if a == [] then d1 == doc else OpenRun(d1.undo, doc.undo, PosAt(d1.text, |doc.text| + |Concat(a)|), |a|)
    ensures var p := PosAt(d1.text, |d1.text|);
            Chains(Closed(Push(d1.undo, Record(p, Advance(p, c), c, false, true, false, 0)))) ==
            Chains(doc.undo) + |a| / 21 + 1
  {
    hide Push, Chains, Advance;
    var p := PosAt(d1.text, |d1.text|);
    RunGrows(doc.undo, d1.undo, p, c, |a|);
    ClosingKeepsChains(Push(d1.undo, Record(p, Advance(p, c), c, false, true, false, 0)));
  }

  lemma {:induction false} RunChains(doc: Doc, cs: seq<Text>, o: nat)
    requires o <= |doc.text|
    requires var d := Typed(doc, o, cs);
             if cs == [] then d == doc
             else o + |Concat(cs)| <= |d.text| &&
                  OpenRun(d.undo, doc.undo, PosAt(d.text, o + |Concat(cs)|), |cs|)
    ensures Chains(Typed(doc, o, cs).undo) == Chains(doc.undo) + (|cs| + 20) / 21
  {
    hide Typed, Chains, Concat, Advance;
  }
}
