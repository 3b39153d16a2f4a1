/** Deleting several characters at once, with a repeat count or key by key: what is gone is
    the next, or the previous, so many characters, and one undo answers to each 21 of them. */
module Erasing {
  import opened Text
  import opened Utf8
  import opened Points
  import opened Records
  import opened History
  import opened Undoing
  import opened Typing

  // ---- Counting characters ----

  /** Characters of a text: its bytes that continue none. */
  function CharCount(s: Text): (n: nat)
    ensures n <= |s|
  {
    if s == [] then 0 else CharCount(s[..|s| - 1]) + (if IsCont(s[|s| - 1]) then 0 else 1)
  }

  lemma {:induction false} CharCountOfBoth(a: Text, b: Text)
    ensures CharCount(a + b) == CharCount(a) + CharCount(b)
    decreases |b|
  {
    if b == [] {
      assert a + b == a;
    } else {
      assert (a + b)[..|a + b| - 1] == a + b[..|b| - 1];
      CharCountOfBoth(a, b[..|b| - 1]);
    }
  }

  lemma {:induction false} OneCharacter(s: Text)
    requires s != [] && !IsCont(s[0]) && forall k | 0 < k < |s| :: IsCont(s[k])
    ensures CharCount(s) == 1
  {
    if |s| > 1 { OneCharacter(s[..|s| - 1]); }
  }

  /** Length of the first `n` characters of `s`, or of all of them. */
  function FirstChars(s: Text, n: nat): (k: nat)
    requires ValidUtf8(s)
    ensures k <= |s|
    decreases n
  {
    if n == 0 || s == [] then 0
    else
      FirstAndRest(s);
      NBytes(s[0]) + FirstChars(s[NBytes(s[0])..], n - 1)
  }

  /** It ends on a character boundary, with `n` characters in front of it unless there are no
      more. */
  lemma {:induction false} FirstCharsCount(s: Text, n: nat)
    requires ValidUtf8(s)
    ensures var k := FirstChars(s, n);
            Boundary(s, k) && CharCount(s[..k]) <= n && (k < |s| ==> CharCount(s[..k]) == n)
    decreases n
  {
    hide ValidUtf8, CharCount, FirstChars, NBytes;
    FirstUnfolds(s, n);
    if n == 0 || s == [] {
      if s != [] { ValidStartsCharacter(s); }
      NoCharacters();
    } else {
      var c := NBytes(s[0]);
      FirstAndRest(s);
      FirstCharsCount(s[c..], n - 1);
      FirstCounted(s, FirstChars(s[c..], n - 1));
    }
  }

  lemma NoCharacters()
    ensures CharCount([]) == 0
  {
  }

  lemma FirstUnfolds(s: Text, n: nat)
    requires ValidUtf8(s)
    ensures n == 0 || s == [] ==> FirstChars(s, n) == 0
    ensures n > 0 && s != [] ==>
              var c := NBytes(s[0]);
              c <= |s| && ValidUtf8(s[c..]) && FirstChars(s, n) == c + FirstChars(s[c..], n - 1)
  {
    hide ValidUtf8, NBytes, CharCount;
    if s != [] { FirstAndRest(s); }
  }

  lemma FirstAndRest(s: Text)
    requires ValidUtf8(s) && s != []
    ensures var c := NBytes(s[0]); c <= |s| && ValidUtf8(s[c..]) && CharCount(s[..c]) == 1
  {
    hide ValidUtf8;
    FrontCharacter(s);
    ValidStartsCharacter(s);
    OneCharacter(s[..NBytes(s[0])]);
    ValidPieces(s, NBytes(s[0]));
  }

  lemma FirstCounted(s: Text, k: nat)
    requires s != [] && NBytes(s[0]) + k <= |s| && CharCount(s[..NBytes(s[0])]) == 1
    ensures var c := NBytes(s[0]); CharCount(s[..c + k]) == 1 + CharCount(s[c..][..k])
  {
    var c := NBytes(s[0]);
    assert s[..c + k] == s[..c] + s[c..][..k];
    CharCountOfBoth(s[..c], s[c..][..k]);
  }

  /** Where the last `n` characters of `s` start. */
  function LastChars(s: Text, n: nat): (b: nat)
    requires ValidUtf8(s)
    ensures b <= |s|
    decreases n
  {
    if n == 0 || s == [] then |s|
    else
      LastAndRest(s);
      LastChars(s[..PrevBoundary(s, |s|)], n - 1)
  }

  lemma {:induction false} LastCharsCount(s: Text, n: nat)
    requires ValidUtf8(s)
    ensures var b := LastChars(s, n);
            Boundary(s, b) && CharCount(s[b..]) <= n && (0 < b ==> CharCount(s[b..]) == n)
    decreases n
  {
    hide ValidUtf8, CharCount, PrevBoundary;
    if n == 0 || s == [] {
      NoCharacters();
    } else {
      var p := PrevBoundary(s, |s|);
      LastAndRest(s);
      LastCharsCount(s[..p], n - 1);
      LastCounted(s, p, LastChars(s[..p], n - 1));
    }
  }

  lemma LastAndRest(s: Text)
    requires ValidUtf8(s) && s != []
    ensures var p := PrevBoundary(s, |s|); ValidUtf8(s[..p]) && Boundary(s, p) && CharCount(s[p..]) == 1
  {
    hide ValidUtf8;
    var p := PrevBoundary(s, |s|);
    PrevBoundaryIsBoundary(s, |s|);
    ValidPieces(s, p);
    OneCharacter(s[p..]);
  }

  lemma LastCounted(s: Text, p: nat, b: nat)
    requires b <= p < |s| && !IsCont(s[p]) && CharCount(s[p..]) == 1 && Boundary(s[..p], b)
    ensures CharCount(s[b..]) == CharCount(s[..p][b..]) + 1 && Boundary(s, b)
  {
    assert s[b..] == s[..p][b..] + s[p..];
    CharCountOfBoth(s[..p][b..], s[p..]);
  }

  // ---- The text that is left ----

  /** A deletion that is refused would have given the same text once repaired. */
  lemma DeletedText(doc: Doc, o: nat, e: nat)
    requires o < e <= |doc.text| && !doc.session.readOnly && (doc.session.isFile ==> Terminated(doc.text))
    ensures var d := EditAt(doc, o, e, [], false, true);
            d.text == WithFinalNewline(Delete(doc.text, o, e), doc.session.isFile) && d.session == doc.session
  {
    hide EditAt, Delete, Terminated, DeletesOnlyFinalNewline;
    EditKeepsSession(doc, o, e, [], false, true);
    DeleteIsSplice(doc.text, o, e);
    if Refused(doc, o, e, []) {
      RefusalChangesNothing(doc, o, e, [], false, true);
      RefusalIsExact(doc.text, o, e);
    } else {
      EditedText(doc, o, e, [], false, true);
    }
  }

  /** Forward deletion takes exactly the next `times` characters, or all there are; a file
      keeps its final newline. */
  lemma {:induction false} ForwardDeletes(doc: Doc, o: nat, times: nat)
    requires o <= |doc.text| && ValidUtf8(doc.text) && Boundary(doc.text, o)
    requires !doc.session.readOnly && (doc.session.isFile ==> Terminated(doc.text))
    ensures var t := doc.text;
            ValidUtf8(t[o..]) &&
            DeletedForward(doc, o, times).text ==
            WithFinalNewline(Delete(t, o, o + FirstChars(t[o..], times)), doc.session.isFile)
    decreases times
  {
    hide EditAt, ValidUtf8, Terminated, Delete, FirstChars, WithFinalNewline, NBytes, CharCount, DeletedForward;
    var t := doc.text;
    ValidPieces(t, o);
    if times == 0 || o == |t| {
      NothingDeleted(doc, o, times);
    } else {
      var d := ForwardOnce(doc, o, times);
      ForwardDeletes(d, o, times - 1);
      TwoCuts(t, o, d.text, times, doc.session.isFile);
    }
  }

  lemma NothingDeleted(doc: Doc, o: nat, times: nat)
    requires o <= |doc.text| && ValidUtf8(doc.text) && Boundary(doc.text, o)
    requires times == 0 || o == |doc.text|
    requires ValidUtf8(doc.text[o..]) && (doc.session.isFile ==> Terminated(doc.text))
    ensures var t := doc.text;
            DeletedForward(doc, o, times) == doc &&
            t == WithFinalNewline(Delete(t, o, o + FirstChars(t[o..], times)), doc.session.isFile)
  {
    FirstUnfolds(doc.text[o..], times);
    CutNothing(doc.text, o);
  }

  /** The first of several deletions. */
  lemma {:induction false} ForwardOnce(doc: Doc, o: nat, times: nat) returns (d: Doc)
    requires o < |doc.text| && ValidUtf8(doc.text) && Boundary(doc.text, o) && times > 0
    requires !doc.session.readOnly && (doc.session.isFile ==> Terminated(doc.text))
    ensures var c := NBytes(doc.text[o]);
            o + c <= |doc.text| && Boundary(doc.text, o + c) && d == EditAt(doc, o, o + c, [], false, true) &&
            d.text == WithFinalNewline(Delete(doc.text, o, o + c), doc.session.isFile)
    ensures o <= |d.text| && ValidUtf8(d.text) && Boundary(d.text, o) && d.session == doc.session
    ensures doc.session.isFile ==> Terminated(d.text)
    ensures DeletedForward(doc, o, times) == DeletedForward(d, o, times - 1)
  {
    hide EditAt, ValidUtf8, Terminated, Delete, WithFinalNewline, NBytes;
    NextBoundary(doc.text, o);
    var c := NBytes(doc.text[o]);
    d := EditAt(doc, o, o + c, [], false, true);
    DeletionKeepsFront(doc, o, o + c, true);
    DeletedText(doc, o, o + c);
    FinalNewlineTerminates(Delete(doc.text, o, o + c), doc.session.isFile);
  }

  /** Cutting out a character and then more is cutting them out together. */
  lemma TwoCuts(t: Text, o: nat, t': Text, times: nat, isFile: bool)
    requires o < |t| && ValidUtf8(t[o..]) && times > 0 && (isFile ==> Terminated(t))
    requires var c := NBytes(t[o]);
             o + c <= |t| && t' == WithFinalNewline(Delete(t, o, o + c), isFile) && o <= |t'| && ValidUtf8(t'[o..])
    ensures WithFinalNewline(Delete(t', o, o + FirstChars(t'[o..], times - 1)), isFile) ==
            WithFinalNewline(Delete(t, o, o + FirstChars(t[o..], times)), isFile)
  {
    hide FirstChars, ValidUtf8, Terminated, NBytes, CharCount, Delete;
    var c := NBytes(t[o]);
    FirstUnfolds(t[o..], times);
    assert t[o..][c..] == t[o + c..];
    FinalNewlineTerminates(Delete(t, o, o + c), isFile);
    if t' == Delete(t, o, o + c) {
      CutsTogether(t, o, c, FirstChars(t[o + c..], times - 1));
    } else {
      CutTheLastRow(t, o, c, times - 1);
    }
  }

  lemma CutNothing(t: Text, o: nat)
    requires o <= |t|
    ensures Delete(t, o, o) == t
  {
  }

  lemma CutsTogether(t: Text, o: nat, c: nat, k: nat)
    requires o + c + k <= |t|
    ensures var d := Delete(t, o, o + c);
            d[o..] == t[o + c..] && Delete(d, o, o + k) == Delete(t, o, o + c + k)
  {
  }

  lemma LastByteStays(t: Text, o: nat, e: nat)
    requires o <= e <= |t|
    ensures e < |t| && Terminated(t) ==> Terminated(Delete(t, o, e))
  {
    assert e < |t| ==> t[e..][|t[e..]| - 1] == t[|t| - 1];
  }

  /** Nothing but the newline put back is left behind `o`, and it stays. */
  lemma {:induction false} CutTheLastRow(t: Text, o: nat, c: nat, times: nat)
    requires o + c <= |t| && Terminated(t) && !Terminated(Delete(t, o, o + c))
    ensures t[o + c..] == [] && ValidUtf8([NL]) && ValidUtf8([]) && FirstChars([], times) == 0
    ensures var d := Delete(t, o, o + c) + [NL];
            d[o..] == [NL] &&
            WithFinalNewline(Delete(d, o, o + FirstChars([NL], times)), true) == d
  {
    var cut := Delete(t, o, o + c);
    LastByteStays(t, o, o + c);
    assert cut == t[..o];
    assert (cut + [NL])[..o] == cut;
    NewlineIsValid(1);
    assert Newlines(1) == [NL];
    hide CharCount;
    assert [NL][1..] == [];
    assert FirstChars([NL], times) <= 1;
    CutNothing(cut + [NL], o);
    assert Delete(cut + [NL], o, o + 1) == cut;
  }

  lemma FinalNewlineTerminates(t: Text, isFile: bool)
    ensures isFile ==> Terminated(WithFinalNewline(t, isFile))
    ensures WithFinalNewline(t, isFile) in {t, t + [NL]}
  {
  }

  /** The first of several deletions backward. */
  lemma {:induction false} BackwardOnce(doc: Doc, o: nat, times: nat) returns (d: Doc, p: nat)
    requires 0 < o <= |doc.text| && ValidUtf8(doc.text) && Boundary(doc.text, o) && times > 0
    requires !doc.session.readOnly && (doc.session.isFile ==> Terminated(doc.text))
    ensures p < o && p == PrevBoundary(doc.text, o) && Boundary(doc.text, p) && p <= |d.text|
    ensures d == EditAt(doc, p, o, [], false, true).(cursor := PosAt(doc.text, p))
    ensures d.text == WithFinalNewline(Delete(doc.text, p, o), doc.session.isFile)
    ensures d.text[..p] == doc.text[..p] && ValidUtf8(d.text) && Boundary(d.text, p) && d.session == doc.session
    ensures doc.session.isFile ==> Terminated(d.text)
    ensures DeletedBackward(doc, o, times) == DeletedBackward(d, p, times - 1)
  {
    hide EditAt, ValidUtf8, Terminated, Delete, WithFinalNewline, PrevBoundary;
    PrevBoundaryIsBoundary(doc.text, o);
    p := PrevBoundary(doc.text, o);
    d := EditAt(doc, p, o, [], false, true).(cursor := PosAt(doc.text, p));
    DeletionKeepsFront(doc, p, o, true);
    DeletedText(doc, p, o);
    FinalNewlineTerminates(Delete(doc.text, p, o), doc.session.isFile);
  }

  lemma LastUnfolds(t: Text, o: nat, n: nat)
    requires o <= |t| && ValidUtf8(t[..o])
    ensures n == 0 || o == 0 ==> LastChars(t[..o], n) == o
    ensures n > 0 && o > 0 ==>
              var p := PrevBoundary(t, o);
              ValidUtf8(t[..p]) && LastChars(t[..o], n) == LastChars(t[..p], n - 1)
  {
    hide ValidUtf8, PrevBoundary, CharCount;
    if o > 0 {
      LastAndRest(t[..o]);
      PrevBoundaryOfPrefix(t, t[..o], o);
      assert t[..o][..PrevBoundary(t, o)] == t[..PrevBoundary(t, o)];
    }
  }

  /** Where the cursor is after deleting backward from `o`. */
  function CursorBack(doc: Doc, o: nat, times: nat, b: nat): Pos
    requires b <= o <= |doc.text|
  {
    if times == 0 || o == 0 then doc.cursor else PosAt(doc.text, b)
  }

  lemma NothingDeletedBack(doc: Doc, o: nat, times: nat)
    requires o <= |doc.text| && ValidUtf8(doc.text) && Boundary(doc.text, o)
    requires times == 0 || o == 0
    ensures DeletedBackward(doc, o, times) == doc && CursorBack(doc, o, times, o) == doc.cursor
  {
  }

  lemma CursorGoesBack(doc: Doc, d: Doc, o: nat, p: nat, times: nat, b: nat)
    requires b <= p < o <= |doc.text| && p <= |d.text| && times > 0 && d.text[..p] == doc.text[..p]
    requires d.cursor == PosAt(doc.text, p) && (times == 1 || p == 0 ==> b == p)
    ensures CursorBack(d, p, times - 1, b) == CursorBack(doc, o, times, b)
  {
    assert d.text[..b] == d.text[..p][..b] == doc.text[..b];
  }

  /** Backward deletion takes exactly the `times` characters in front of the cursor, or all
      there are, and leaves the cursor where they were. */
  lemma {:induction false} BackwardDeletes(doc: Doc, o: nat, times: nat)
    requires o <= |doc.text| && ValidUtf8(doc.text) && Boundary(doc.text, o) && !doc.session.readOnly
    requires doc.session.isFile ==> Terminated(doc.text) && o < |doc.text|
    ensures ValidUtf8(doc.text[..o])
    ensures var b, d := LastChars(doc.text[..o], times), DeletedBackward(doc, o, times);
            d.text == Delete(doc.text, b, o) && d.cursor == CursorBack(doc, o, times, b)
    decreases times
  {
    hide EditAt, ValidUtf8, Terminated, Delete, WithFinalNewline, DeletedBackward, PrevBoundary, LastChars, CursorBack,
         CharCount;
    var t := doc.text;
    ValidPieces(t, o);
    LastUnfolds(t, o, times);
    if times == 0 || o == 0 {
      NothingDeletedBack(doc, o, times);
      CutNothing(t, o);
    } else {
      var d, p := BackwardOnce(doc, o, times);
      var b := LastChars(t[..o], times);
      LastByteStays(t, p, o);
      ClosingUnlessFile(Delete(t, p, o));
      StillInFront(t, p, o);
      BackwardDeletes(d, p, times - 1);
      CutsTogetherBack(t, b, p, o);
      LastUnfolds(t, p, times - 1);
      CursorGoesBack(doc, d, o, p, times, b);
    }
  }

  lemma StillInFront(t: Text, p: nat, o: nat)
    requires p <= o <= |t|
    ensures o < |t| ==> p < |Delete(t, p, o)|
  {
  }

  lemma CutsTogetherBack(t: Text, b: nat, p: nat, o: nat)
    requires b <= p <= o <= |t|
    ensures p <= |Delete(t, p, o)| && Delete(Delete(t, p, o), b, p) == Delete(t, b, o)
  {
  }

  predicate AllNewlines(s: Text) {
    forall i | 0 <= i < |s| :: s[i] == NL
  }

  /** What deleting everything behind `b` leaves of a file: blank rows at its end go, and
      the last row with text on it keeps its newline. */
  function FileCutAt(t: Text, b: nat): Text
    requires b <= |t|
  {
    if Terminated(t[..b]) && AllNewlines(t[b..]) then t[..b] else t[..b] + [NL]
  }

  /** Backward deletion from the end of a file. */
  lemma {:induction false} BackwardFromTheEnd(doc: Doc, times: nat)
    requires ValidUtf8(doc.text) && !doc.session.readOnly && doc.session.isFile && Terminated(doc.text)
    ensures var o := |doc.text|;
            var b, d := LastChars(doc.text, times), DeletedBackward(doc, o, times);
            d.text == FileCutAt(doc.text, b) && d.cursor == CursorBack(doc, o, times, b)
    decreases times
  {
    hide EditAt, ValidUtf8, Terminated, Delete, WithFinalNewline, DeletedBackward, PrevBoundary, LastChars, CursorBack,
         CharCount, FileCutAt;
    var t, o := doc.text, |doc.text|;
    assert t[..o] == t;
    LastUnfolds(t, o, times);
    if times == 0 || o == 0 {
      NothingDeletedBack(doc, o, times);
      NothingOfTheFileCut(t);
    } else {
      var d, p := BackwardOnce(doc, o, times);
      var b := LastChars(t, times);
      LastRowPeeled(t, p, b);
      LastUnfolds(t, p, times - 1);
      if Terminated(t[..p]) {
        assert d.text[..|d.text|] == d.text;
        BackwardFromTheEnd(d, times - 1);
      } else {
        BackwardDeletes(d, p, times - 1);
      }
      CursorGoesBack(doc, d, o, p, times, b);
    }
  }

  lemma NothingOfTheFileCut(t: Text)
    requires Terminated(t)
    ensures FileCutAt(t, |t|) == t
  {
    assert t[..|t|] == t;
  }

  /** Cutting a file at `b` when its last character starts at `p`. */
  lemma LastRowPeeled(t: Text, p: nat, b: nat)
    requires b <= p < |t| && Terminated(t) && p == PrevBoundary(t, |t|)
    ensures var cut := WithFinalNewline(Delete(t, p, |t|), true);
            if Terminated(t[..p]) then cut == t[..p] && FileCutAt(t, b) == FileCutAt(t[..p], b)
            else cut == t && p < |t| && FileCutAt(t, b) == Delete(t, b, p)
  {
    hide PrevBoundary, AllNewlines, Terminated;
    LastByteIsNewline(t, p);
    BackToLastNewline(t, p, b);
    ClosingUnlessFile(t[..p]);
  }

  lemma LastByteIsNewline(t: Text, p: nat)
    requires t != [] && Terminated(t) && p == PrevBoundary(t, |t|)
    ensures p == |t| - 1 && t[p] == NL && t == t[..p] + [NL] && Delete(t, p, |t|) == t[..p]
  {
    PrevBoundaryIs(t, |t|, |t| - 1);
  }

  lemma BackToLastNewline(t: Text, p: nat, b: nat)
    requires b <= p == |t| - 1 && t[p] == NL
    ensures t[..p][..b] == t[..b] && Delete(t, b, p) == t[..b] + [NL]
    ensures AllNewlines(t[b..]) <==> AllNewlines(t[..p][b..])
    ensures !Terminated(t[..p]) ==> !(Terminated(t[..b]) && AllNewlines(t[b..]))
  {
    var front, behind := t[..p][b..], t[b..];
    assert behind == front + [NL];
    assert b < p ==> t[..p][p - 1] == behind[p - 1 - b];
  }

  // ---- Records of a run of deletions ----

  /** `n` deletions in one go on top of the list `from`: records of 21, none tied to
      another, the newest still open and starting where the last deletion happened. */
  predicate DeletionRun(undo: seq<Record>, from: seq<Record>, at: Pos, n: nat) {
    |undo| == |from| + (n + 20) / 21 && undo[(n + 20) / 21..] == from &&
    (forall i | 0 <= i < (n + 20) / 21 :: !undo[i].paired) &&
    (n > 0 ==> undo[0].append && undo[0].isDelete && undo[0].start == at && undo[0].merges == (n - 1) % 21)
  }

  lemma {:induction false} DeletionRunGrows(from: seq<Record>, undo: seq<Record>, at: Pos, n: nat, r: Record)
    requires HeadClosed(from) && DeletionRun(undo, from, at, n)
    requires r.isDelete && r.append && !r.paired && r.merges == 0 && r.data != [] && at in {r.start, r.end}
    ensures DeletionRun(Push(undo, r), from, r.start, n + 1)
  {
    hide Advance;
    RunCounts(n);
    var k := (n + 20) / 21;
    if n > 0 && undo[0].merges < MERGE_LIMIT {
      assert (n + 1 + 20) / 21 == k;
      BelowTheHead(undo, Merge(undo[0], r), k);
    } else {
      assert (n + 1 + 20) / 21 == k + 1;
      if n == 0 { ClosedListIsItself(from); }
      var pushed := Push(undo, r);
      ClosedLength(undo);
      assert pushed == [r] + Closed(undo);
      assert pushed[k + 1..] == Closed(undo)[k..] == undo[k..];
    }
  }

  lemma BelowTheHead(undo: seq<Record>, r: Record, k: nat)
    requires 1 <= k <= |undo|
    ensures ([r] + undo[1..])[k..] == undo[k..]
  {
  }

  lemma ClosedLength(undo: seq<Record>)
    ensures |Closed(undo)| == |undo| && (undo != [] ==> Closed(undo)[1..] == undo[1..])
    ensures forall i | 0 <= i < |undo| :: Closed(undo)[i].paired == undo[i].paired
  {
  }

  /** One deletion that needs no repair: the text, and the record pushed. */
  lemma {:induction false} OneErasure(doc: Doc, o: nat, e: nat)
    requires !doc.session.readOnly && o < e <= |doc.text|
    requires doc.session.isFile ==> e < |doc.text| && Terminated(doc.text)
    ensures var d := EditAt(doc, o, e, [], false, true);
            d.text == Delete(doc.text, o, e) && d.session == doc.session &&
            d.undo == Push(doc.undo, Record(PosAt(doc.text, o), PosAt(doc.text, e), doc.text[o..e],
                                            true, true, false, 0))
  {
    hide Advance, AdjustAll, Push, Terminated, Delete;
    LastByteStays(doc.text, o, e);
  }

  /** What a run of deletions keeps: a history that can be undone, in the same session. */
  lemma {:induction false} ForwardKeepsInv(doc: Doc, o: nat, times: nat)
    requires o <= |doc.text| && ValidUtf8(doc.text) && Boundary(doc.text, o) && Inv(doc)
    ensures var d := DeletedForward(doc, o, times); Inv(d) && d.session == doc.session
    decreases times
  {
    hide EditAt, ValidUtf8, Inv, NBytes;
    if times > 0 && o < |doc.text| {
      NextBoundary(doc.text, o);
      var e := o + NBytes(doc.text[o]);
      DeletionKeepsFront(doc, o, e, true);
      EditKeepsInv(doc, o, e, [], false, true);
      EditKeepsSession(doc, o, e, [], false, true);
      ForwardKeepsInv(EditAt(doc, o, e, [], false, true), o, times - 1);
    }
  }

  lemma {:induction false} BackwardKeepsInv(doc: Doc, o: nat, times: nat)
    requires o <= |doc.text| && ValidUtf8(doc.text) && Boundary(doc.text, o) && Inv(doc)
    ensures var d := DeletedBackward(doc, o, times); Inv(d) && d.session == doc.session
    decreases times
  {
    hide EditAt, ValidUtf8, Inv, PrevBoundary;
    if times > 0 && o > 0 {
      var p := PrevBoundary(doc.text, o);
      PrevBoundaryIsBoundary(doc.text, o);
      DeletionKeepsFront(doc, p, o, true);
      EditKeepsInv(doc, p, o, [], false, true);
      EditKeepsSession(doc, p, o, [], false, true);
      var d := EditAt(doc, p, o, [], false, true);
      CursorOutsideInv(d, PosAt(doc.text, p));
      BackwardKeepsInv(d.(cursor := PosAt(doc.text, p)), p, times - 1);
    }
  }

  lemma CursorOutsideInv(doc: Doc, p: Pos)
    requires Inv(doc)
    ensures Inv(doc.(cursor := p))
  {
  }

  /** There are `times` more characters from `o` on, and one besides if `more`. */
  predicate Ahead(t: Text, o: nat, times: nat, more: bool)
    requires o <= |t|
  {
    ValidUtf8(t[o..]) && times <= CharCount(t[o..]) && (more ==> o + FirstChars(t[o..], times) < |t|)
  }

  /** Every one of `times` deletions forward finds a character, and in a file one that is
      not the last. */
  predicate PlainForward(doc: Doc, o: nat, times: nat) {
    o <= |doc.text| && ValidUtf8(doc.text) && Boundary(doc.text, o) && !doc.session.readOnly &&
    (doc.session.isFile ==> Terminated(doc.text)) && Ahead(doc.text, o, times, doc.session.isFile)
  }

  predicate PlainBackward(doc: Doc, o: nat, times: nat) {
    o <= |doc.text| && ValidUtf8(doc.text) && Boundary(doc.text, o) && !doc.session.readOnly &&
    (doc.session.isFile ==> Terminated(doc.text) && o < |doc.text|) && times <= CharCount(doc.text[..o])
  }

  lemma AheadShrinks(t: Text, o: nat, times: nat, more: bool)
    requires o <= |t| && Ahead(t, o, times, more) && times > 0
    ensures o < |t| && o + NBytes(t[o]) <= |t| && (more ==> o + NBytes(t[o]) < |t|)
    ensures var t' := Delete(t, o, o + NBytes(t[o])); o <= |t'| && Ahead(t', o, times - 1, more)
  {
    hide ValidUtf8, NBytes, FirstChars, CharCount;
    var c := NBytes(t[o]);
    FirstUnfolds(t[o..], times);
    FirstAndRest(t[o..]);
    assert t[o..] == t[o..][..c] + t[o..][c..] && t[o..][c..] == t[o + c..];
    CharCountOfBoth(t[o..][..c], t[o + c..]);
    CutsTogether(t, o, c, 0);
  }

  lemma {:induction false} PlainForwardOnce(doc: Doc, o: nat, times: nat) returns (d: Doc)
    requires PlainForward(doc, o, times) && times > 0
    ensures o < |doc.text|
    ensures var c := NBytes(doc.text[o]);
            o + c <= |doc.text| && d.undo ==
            Push(doc.undo, Record(PosAt(doc.text, o), PosAt(doc.text, o + c), doc.text[o..o + c], true, true, false, 0))
    ensures PlainForward(d, o, times - 1) && PosAt(d.text, o) == PosAt(doc.text, o)
    ensures DeletedForward(doc, o, times) == DeletedForward(d, o, times - 1)
  {
    hide EditAt, ValidUtf8, Terminated, Delete, NBytes, DeletedForward, Push, Advance, Ahead;
    AheadShrinks(doc.text, o, times, doc.session.isFile);
    d := ForwardOnce(doc, o, times);
    var c := NBytes(doc.text[o]);
    OneErasure(doc, o, o + c);
    DeletionKeepsFront(doc, o, o + c, true);
    PosAtPrefix(doc.text, d.text, o);
  }

  lemma {:induction false} ForwardRun(from: seq<Record>, doc: Doc, o: nat, n: nat, times: nat)
    requires HeadClosed(from) && PlainForward(doc, o, times)
    requires DeletionRun(doc.undo, from, PosAt(doc.text, o), n)
    ensures DeletionRun(DeletedForward(doc, o, times).undo, from, PosAt(doc.text, o), n + times)
    decreases times
  {
    hide EditAt, DeletionRun, DeletedForward, Delete, Push, Advance, Ahead, ValidUtf8, NBytes;
    if times == 0 {
      ForwardNothing(doc, o);
    } else {
      var d := PlainForwardOnce(doc, o, times);
      var s, e := PosAt(doc.text, o), o + NBytes(doc.text[o]);
      var r := Record(s, PosAt(doc.text, e), doc.text[o..e], true, true, false, 0);
      DeletionRunGrows(from, doc.undo, s, n, r);
      ForwardRun(from, d, o, n + 1, times - 1);
    }
  }

  lemma ForwardNothing(doc: Doc, o: nat)
    requires o <= |doc.text| && ValidUtf8(doc.text) && Boundary(doc.text, o)
    ensures DeletedForward(doc, o, 0) == doc
  {
  }

  lemma FewerBehind(t: Text, o: nat, times: nat)
    requires o <= |t| && ValidUtf8(t[..o]) && 0 < times <= CharCount(t[..o])
    ensures o > 0 && times - 1 <= CharCount(t[..PrevBoundary(t, o)])
  {
    hide ValidUtf8, PrevBoundary, CharCount;
    LastAndRest(t[..o]);
    PrevBoundaryOfPrefix(t, t[..o], o);
    var p := PrevBoundary(t, o);
    assert t[..o] == t[..p] + t[..o][p..];
    CharCountOfBoth(t[..p], t[..o][p..]);
  }

  lemma {:induction false} PlainBackwardOnce(doc: Doc, o: nat, times: nat) returns (d: Doc, p: nat)
    requires PlainBackward(doc, o, times) && times > 0
    ensures p < o && p == PrevBoundary(doc.text, o)
    ensures d.undo ==
            Push(doc.undo, Record(PosAt(doc.text, p), PosAt(doc.text, o), doc.text[p..o], true, true, false, 0))
    ensures PlainBackward(d, p, times - 1) && d.text[..p] == doc.text[..p]
    ensures DeletedBackward(doc, o, times) == DeletedBackward(d, p, times - 1)
  {
    hide EditAt, ValidUtf8, Terminated, Delete, DeletedBackward, Push, Advance, PrevBoundary, CharCount;
    ValidPieces(doc.text, o);
    FewerBehind(doc.text, o, times);
    d, p := BackwardOnce(doc, o, times);
    OneErasure(doc, p, o);
    StillInFront(doc.text, p, o);
  }

  lemma {:induction false} BackwardRun(from: seq<Record>, doc: Doc, o: nat, n: nat, times: nat)
    requires HeadClosed(from) && PlainBackward(doc, o, times) && ValidUtf8(doc.text[..o])
    requires DeletionRun(doc.undo, from, PosAt(doc.text, o), n)
    ensures DeletionRun(DeletedBackward(doc, o, times).undo, from,
                        PosAt(doc.text, LastChars(doc.text[..o], times)), n + times)
    decreases times
  {
    hide EditAt, DeletionRun, DeletedBackward, Delete, Push, Advance, ValidUtf8, PrevBoundary, CharCount, LastChars;
    LastUnfolds(doc.text, o, times);
    if times == 0 {
      NothingDeletedBack(doc, o, times);
    } else {
      var d, p := PlainBackwardOnce(doc, o, times);
      var s := PosAt(doc.text, p);
      var r := Record(s, PosAt(doc.text, o), doc.text[p..o], true, true, false, 0);
      DeletionRunGrows(from, doc.undo, PosAt(doc.text, o), n, r);
      PosAtPrefix(doc.text, d.text, p);
      BackwardRun(from, d, p, n + 1, times - 1);
      var b := LastChars(doc.text[..p], times - 1);
      assert d.text[..b] == d.text[..p][..b] == doc.text[..b];
    }
  }

  // ---- Taking a run back ----

  /** Undoing records none of which is tied to another. */
  lemma {:induction false} TopRecordsUndone(doc: Doc, n: nat)
    requires MidReplay(doc) && n <= |doc.undo| && forall i | 0 <= i < n :: !doc.undo[i].paired
    ensures UndoneMany(doc, n).undo == doc.undo[n..]
    decreases n
  {
    hide UndoneOnce, Future, Reverts, Reverted;
    if n > 0 {
      UndoneOnceKeeps(doc);
      assert doc.undo[1..][n - 1..] == doc.undo[n..];
      TopRecordsUndone(UndoneOnce(doc), n - 1);
    }
  }

  lemma {:induction false} RunUndone(doc: Doc, from: seq<Record>, at: Pos, n: nat)
    requires Inv(doc) && !doc.session.readOnly && n > 0 && HeadClosed(from) && DeletionRun(doc.undo, from, at, n)
    ensures Undo(doc, (n + 20) / 21).undo == from
  {
    hide Inv, MidReplay, UndoneMany, Closed;
    ReplayStartKeeps(doc);
    ClosedLength(doc.undo);
    var k := (n + 20) / 21;
    assert Closed(doc.undo)[k..] == Closed(doc.undo)[1..][k - 1..] == doc.undo[1..][k - 1..] == doc.undo[k..];
    TopRecordsUndone(ReplayStart(doc), k);
  }

  /** Any number of characters deleted forward on end is taken back by one undo for each 21
      of them, text and records. */
  lemma {:induction false} UndoTakesBackForward(doc: Doc, o: nat, times: nat)
    requires Inv(doc) && HeadClosed(doc.undo) && PlainForward(doc, o, times) && times > 0
    ensures var d := DeletedForward(doc, o, times);
            Inv(d) &&
            var u := Undo(d, (times + 20) / 21);
            u.text == doc.text && u.undo == doc.undo
  {
    hide Inv, Undo, DeletedForward, ValidUtf8, Ahead, Advance;
    var d := DeletedForward(doc, o, times);
    ForwardRun(doc.undo, doc, o, 0, times);
    ForwardKeepsInv(doc, o, times);
    RunUndone(d, doc.undo, PosAt(doc.text, o), times);
    UndoKeepsSession(d, (times + 20) / 21);
    HistoryDeterminesText(Undo(d, (times + 20) / 21), doc);
  }

  lemma {:induction false} UndoTakesBackBackward(doc: Doc, o: nat, times: nat)
    requires Inv(doc) && HeadClosed(doc.undo) && PlainBackward(doc, o, times) && times > 0
    ensures var d := DeletedBackward(doc, o, times);
            Inv(d) &&
            var u := Undo(d, (times + 20) / 21);
            u.text == doc.text && u.undo == doc.undo
  {
    hide Inv, Undo, DeletedBackward, ValidUtf8, Advance, CharCount, LastChars;
    var d := DeletedBackward(doc, o, times);
    ValidPieces(doc.text, o);
    BackwardRun(doc.undo, doc, o, 0, times);
    BackwardKeepsInv(doc, o, times);
    RunUndone(d, doc.undo, PosAt(doc.text, LastChars(doc.text[..o], times)), times);
    UndoKeepsSession(d, (times + 20) / 21);
    HistoryDeterminesText(Undo(d, (times + 20) / 21), doc);
  }
}
