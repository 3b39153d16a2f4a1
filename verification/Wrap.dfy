/** Word wrap: where one screen line of a row ends, and everything that numbers the
    screen lines of a row.

    All of it rests on one greedy breaker.  A row wider than the screen is cut into
    sub-lines; the counter, the cursor locator, the bounds finder and the
    column-to-byte inverse each run the breaker again and must agree. */
module Wrap {
  import opened Text
  import opened Utf8
  import opened Geometry

  /** How wide characters are and how many columns a screen line has. */
  datatype Screen = Screen(wc: WcWidth, cols: nat)

  /** The start of a character of a row, and the column it is shown in. */
  datatype Place = Place(byte: nat, col: nat)

  const START := Place(0, 0)

  // ---- Characters --------------------------------------------------------

  predicate IsWordBoundary(c: byte) {
    !(c > 0x7E) && !(0x61 <= c <= 0x7A) && !(0x41 <= c <= 0x5A) && !(0x30 <= c <= 0x39) &&
    (c < 0x24 || c > 0x25)
  }

  predicate IsCjk(cp: nat) {
    0x4E00 <= cp <= 0x9FFF || 0x3400 <= cp <= 0x4DBF || 0x20000 <= cp <= 0x2A6DF ||
    0x2A700 <= cp <= 0x2B73F || 0x2B740 <= cp <= 0x2B81F || 0x2B820 <= cp <= 0x2CEAF ||
    0x2CEB0 <= cp <= 0x2EBEF || 0x30000 <= cp <= 0x3134F || 0xF900 <= cp <= 0xFAFF ||
    0x3040 <= cp <= 0x309F || 0x30A0 <= cp <= 0x30FF || 0x31F0 <= cp <= 0x31FF ||
    0xAC00 <= cp <= 0xD7AF || 0x1100 <= cp <= 0x11FF || 0x3130 <= cp <= 0x318F ||
    0xA960 <= cp <= 0xA97F || 0xD7B0 <= cp <= 0xD7FF
  }

  predicate IsLineStartForbidden(cp: nat) {
    cp in {0x3001, 0x3002, 0xFF0C, 0xFF01, 0xFF1F, 0xFF1A, 0xFF1B, 0xFF09, 0x300D, 0x300B, 0xFF3D}
  }

  predicate IsWordSeparator(cp: nat) {
    cp == 0x200B
  }

  predicate IsPreposedVowel(cp: nat) {
    0x0E40 <= cp <= 0x0E44 || 0x0EC0 <= cp <= 0x0EC4
  }

  predicate IsWordMaterial(c: byte) {
    0x61 <= c <= 0x7A || 0x41 <= c <= 0x5A || 0x30 <= c <= 0x39 || c >= 0x80
  }

  predicate IsOpener(c: byte) {
    c == '(' as int || c == '[' as int || c == '{' as int || c == '<' as int
  }

  /** The character at `next` may not begin a line. */
  predicate BreakForbiddenBefore(s: Text, next: nat) {
    next < |s| && s[next] >= 0x80 && IsLineStartForbidden(Decode(s, next))
  }

  /** The character at `i` may not end a line: an opener, an opening quote, or punctuation
      inside a word. */
  predicate BreakForbiddenAfter(s: Text, i: nat)
    requires i < |s|
  {
    var c := s[i];
    if IsOpener(c) then true
    else if (c == '"' as int || c == '\'' as int) &&
            (i == 0 || s[i - 1] == ' ' as int || s[i - 1] == TAB || IsOpener(s[i - 1])) then true
    else
      (c == '\'' as int || c == '.' as int || c == ',' as int || c == ':' as int) &&
      i > 0 && IsWordMaterial(s[i - 1]) && i + 1 < |s| && IsWordMaterial(s[i + 1])
  }

  /** A line may be broken at a word boundary right after the character at `i`. */
  predicate BreaksAfter(s: Text, i: nat)
    requires i < |s|
  {
    if IsWordBoundary(s[i]) then
      !BreakForbiddenAfter(s, i) && !BreakForbiddenBefore(s, i + NBytes(s[i]))
    else if s[i] >= 0x80 then
      var cp := Decode(s, i);
      (IsCjk(cp) || IsLineStartForbidden(cp) || IsWordSeparator(cp)) &&
      !BreakForbiddenBefore(s, i + NBytes(s[i]))
    else false
  }

  /** The character at `i` is written before the consonant it belongs to. */
  predicate Preposed(s: Text, i: nat)
    requires i < |s|
  {
    s[i] >= 0x80 && IsPreposedVowel(Decode(s, i))
  }

  // ---- The breaker -------------------------------------------------------

  function Next(scr: Screen, s: Text, p: Place): Place
    requires p.byte < |s|
  {
    Place(p.byte + NBytes(s[p.byte]), p.col + CellWidth(scr.wc, s, p.byte, p.col))
  }

  /** There is a character at `p` and it fits on a screen line that starts in column
      `start`. */
  predicate Fits(scr: Screen, s: Text, start: nat, p: Place) {
    p.byte < |s| && Next(scr, s, p).col - start <= scr.cols
  }

  /** The first place whose character does not fit, or the end of the row. */
  function FitEnd(scr: Screen, s: Text, start: nat, p: Place): Place
    decreases |s| - p.byte
  {
    if Fits(scr, s, start, p) then FitEnd(scr, s, start, Next(scr, s, p)) else p
  }

  datatype Choice = Nowhere | At(place: Place)

  function LastWordBreak(scr: Screen, s: Text, start: nat, p: Place): Choice
    decreases |s| - p.byte
  {
    if !Fits(scr, s, start, p) then Nowhere
    else
      var later := LastWordBreak(scr, s, start, Next(scr, s, p));
      if later.At? then later
      else if BreaksAfter(s, p.byte) then At(Next(scr, s, p))
      else Nowhere
  }

  function LastHardBreak(scr: Screen, s: Text, start: nat, p: Place, glued: bool): Choice
    decreases |s| - p.byte
  {
    var later := if Fits(scr, s, start, p)
                 then LastHardBreak(scr, s, start, Next(scr, s, p), Preposed(s, p.byte)) else Nowhere;
    if later.At? then later else if glued then Nowhere else At(p)
  }

  datatype Break = Break(more: bool, end: Place)

  /** Where the screen line that starts at `p` ends, and whether more of the row follows. */
  function BreakFrom(scr: Screen, s: Text, p: Place): Break {
    var e := FitEnd(scr, s, p.col, p);
    var word, hard := LastWordBreak(scr, s, p.col, p), LastHardBreak(scr, s, p.col, p, false);
    if e.byte >= |s| then Break(false, Place(|s|, e.col))
    else if word.At? && word.place.col > p.col then Break(true, word.place)
    else if hard.At? && p.byte < hard.place.byte < e.byte then Break(true, hard.place)
    else if e.byte == p.byte then
      Break(true, Place(e.byte + NBytes(s[e.byte]), e.col + CharInStringWidth(scr.wc, s, e.byte)))
    else Break(true, e)
  }

  method WordWrapBreak(scr: Screen, s: Text, start: Place) returns (more: bool, end: Place)
    ensures Break(more, end) == BreakFrom(scr, s, start)
  {
    hide IsCjk, IsLineStartForbidden, IsWordSeparator, IsPreposedVowel,
         BreakForbiddenBefore, BreakForbiddenAfter, Decode, NBytes, CellWidth, CharInStringWidth;
    var p, word, hard := start, Nowhere, At(start);
    var glued := false;
    while p.byte < |s|
      invariant FitEnd(scr, s, start.col, p) == FitEnd(scr, s, start.col, start)
      invariant LastWordBreak(scr, s, start.col, start) ==
                var later := LastWordBreak(scr, s, start.col, p); if later.At? then later else word
      invariant LastHardBreak(scr, s, start.col, start, false) ==
                var later := LastHardBreak(scr, s, start.col, p, glued); if later.At? then later else hard
      invariant hard.At?
      decreases |s| - p.byte
    {
      if !glued { hard := At(p); }
      var c := s[p.byte];
      var width := CellWidth(scr.wc, s, p.byte, p.col);
      if p.col + width - start.col > scr.cols { break; }
      glued := false;
      if IsWordBoundary(c) {
        if !BreakForbiddenAfter(s, p.byte) && !BreakForbiddenBefore(s, p.byte + NBytes(c)) {
          word := At(Place(p.byte + NBytes(c), p.col + width));
        }
      } else if c >= 0x80 {
        var cp := Decode(s, p.byte);
        if (IsCjk(cp) || IsLineStartForbidden(cp) || IsWordSeparator(cp)) &&
           !BreakForbiddenBefore(s, p.byte + NBytes(c)) {
          word := At(Place(p.byte + NBytes(c), p.col + width));
        }
        glued := IsPreposedVowel(cp);
      }
      p := Place(p.byte + NBytes(c), p.col + width);
    }
    if p.byte >= |s| {
      return false, Place(|s|, p.col);
    } else if word.At? && word.place.col > start.col {
      return true, word.place;
    } else if start.byte < hard.place.byte < p.byte {
      return true, hard.place;
    } else if p.byte == start.byte {
      return true, Place(p.byte + NBytes(s[p.byte]), p.col + CharInStringWidth(scr.wc, s, p.byte));
    } else {
      return true, p;
    }
  }

  // ---- What the breaker promises -----------------------------------------

  /** `q` is `p` or a place reached from it by whole characters. */
  ghost predicate Reaches(scr: Screen, s: Text, p: Place, q: Place)
    decreases |s| - p.byte
  {
    p == q || (p.byte < |s| && Reaches(scr, s, Next(scr, s, p), q))
  }

  lemma {:induction false} ReachesForward(scr: Screen, s: Text, p: Place, q: Place)
    requires Reaches(scr, s, p, q)
    ensures p == q || p.byte < q.byte
    ensures p.col <= q.col
    decreases |s| - p.byte
  {
    hide CellWidth;
    if p != q { ReachesForward(scr, s, Next(scr, s, p), q); }
  }

  lemma {:induction false} ReachesOn(scr: Screen, s: Text, p: Place, q: Place, r: Place)
    requires Reaches(scr, s, p, q) && Reaches(scr, s, q, r)
    ensures Reaches(scr, s, p, r)
    decreases |s| - p.byte
  {
    hide CellWidth;
    if p != q { ReachesOn(scr, s, Next(scr, s, p), q, r); }
  }

  lemma ReachesNext(scr: Screen, s: Text, p: Place, q: Place)
    requires Reaches(scr, s, p, q) && q.byte < |s|
    ensures Reaches(scr, s, p, Next(scr, s, q))
  {
    ReachesOn(scr, s, p, q, Next(scr, s, q));
  }

  /** Of two places reached from one start, the one with the smaller offset comes first. */
  lemma {:induction false} ReachesInOrder(scr: Screen, s: Text, p: Place, q: Place, r: Place)
    requires Reaches(scr, s, p, q) && Reaches(scr, s, p, r) && q.byte <= r.byte
    ensures Reaches(scr, s, q, r) && q.col <= r.col
    decreases |s| - p.byte
  {
    hide CellWidth;
    ReachesForward(scr, s, p, q);
    ReachesForward(scr, s, p, r);
    if p == q {
    } else if p == r {
    } else {
      ReachesInOrder(scr, s, Next(scr, s, p), q, r);
    }
  }

  /** The column of a place is the display column of its byte. */
  lemma {:induction false} ReachesIsWalk(scr: Screen, s: Text, p: Place, q: Place)
    requires Reaches(scr, s, p, q)
    ensures Walk(scr.wc, s, p.byte, p.col, q.byte) == q.col
    decreases |s| - p.byte
  {
    hide CellWidth;
    ReachesForward(scr, s, p, q);
    if p != q { ReachesIsWalk(scr, s, Next(scr, s, p), q); }
  }

  /** In a valid row such places are character boundaries in the sense of the encoding. */
  lemma {:induction false} ReachesBoundary(scr: Screen, s: Text, p: Place, q: Place)
    requires Reaches(scr, s, p, q) && ValidUtf8(s) && p.byte <= |s| && Boundary(s, p.byte)
    ensures q.byte <= |s| && Boundary(s, q.byte)
    decreases |s| - p.byte
  {
    hide CellWidth, ValidUtf8;
    if p != q {
      NextBoundary(s, p.byte);
      ReachesBoundary(scr, s, Next(scr, s, p), q);
    }
  }

  lemma {:induction false} WalkSplits(scr: Screen, s: Text, p: Place, q: Place, stop: nat)
    requires Reaches(scr, s, p, q) && (q.byte <= stop || |s| <= stop)
    ensures Walk(scr.wc, s, p.byte, p.col, stop) == Walk(scr.wc, s, q.byte, q.col, stop)
    decreases |s| - p.byte
  {
    hide CellWidth;
    if p != q {
      ReachesForward(scr, s, Next(scr, s, p), q);
      WalkSplits(scr, s, Next(scr, s, p), q, stop);
    }
  }

  /** `FitEnd` is the furthest place that leaves the line no wider than the screen. */
  lemma {:induction false} FitEndIsLast(scr: Screen, s: Text, start: nat, p: Place)
    requires p.col - start <= scr.cols
    ensures var e := FitEnd(scr, s, start, p);
            Reaches(scr, s, p, e) && e.col - start <= scr.cols &&
            (e.byte < |s| ==> Next(scr, s, e).col - start > scr.cols)
    decreases |s| - p.byte
  {
    hide CellWidth;
    if Fits(scr, s, start, p) { FitEndIsLast(scr, s, start, Next(scr, s, p)); }
  }

  /** `q` lies on the screen line that starts at `p`, right after the character at `r`. */
  ghost predicate Follows(scr: Screen, s: Text, p: Place, r: Place, q: Place) {
    Reaches(scr, s, p, r) && r.byte < |s| && q == Next(scr, s, r) && q.col - p.col <= scr.cols
  }

  /** The line starting at `p` may be broken at `q` between words. */
  ghost predicate WordOpportunity(scr: Screen, s: Text, p: Place, q: Place) {
    exists r :: Follows(scr, s, p, r, q) && BreaksAfter(s, r.byte)
  }

  /** The line starting at `p` may be broken at `q` if need be: no vowel is parted from
      its consonant. */
  ghost predicate HardOpportunity(scr: Screen, s: Text, p: Place, q: Place) {
    exists r :: Follows(scr, s, p, r, q) && !Preposed(s, r.byte)
  }

  lemma {:induction false} FollowsWithin(scr: Screen, s: Text, p: Place, from: Place, r: Place, q: Place)
    requires Reaches(scr, s, p, from) && Reaches(scr, s, from, r) && Follows(scr, s, p, r, q)
    ensures Fits(scr, s, p.col, from)
    ensures r == from || Reaches(scr, s, Next(scr, s, from), r)
  {
    hide CellWidth;
    if r != from {
      ReachesForward(scr, s, Next(scr, s, from), r);
    }
  }

  /** `LastWordBreak` from a place on the line is the last of the word opportunities that
      come after it. */
  lemma {:induction false} LastWordIsLast(scr: Screen, s: Text, p: Place, from: Place)
    requires Reaches(scr, s, p, from)
    ensures var c := LastWordBreak(scr, s, p.col, from);
            (c.At? ==> WordOpportunity(scr, s, p, c.place) && c.place.byte > from.byte) &&
            forall r, q | Follows(scr, s, p, r, q) && BreaksAfter(s, r.byte) && Reaches(scr, s, from, r) ::
              c.At? && q.byte <= c.place.byte
    decreases |s| - from.byte
  {
    hide CellWidth, BreaksAfter;
    var c := LastWordBreak(scr, s, p.col, from);
    if Fits(scr, s, p.col, from) {
      var next := Next(scr, s, from);
      ReachesNext(scr, s, p, from);
      LastWordIsLast(scr, s, p, next);
      assert Follows(scr, s, p, from, next);
    }
    forall r, q | Follows(scr, s, p, r, q) && BreaksAfter(s, r.byte) && Reaches(scr, s, from, r)
      ensures c.At? && q.byte <= c.place.byte
    {
      FollowsWithin(scr, s, p, from, r, q);
    }
  }

  lemma {:induction false} LastHardIsLast(scr: Screen, s: Text, p: Place, from: Place, glued: bool)
    requires Reaches(scr, s, p, from)
    ensures var c := LastHardBreak(scr, s, p.col, from, glued);
            (c.At? ==>
               (c.place == from && !glued) || (HardOpportunity(scr, s, p, c.place) && c.place.byte > from.byte)) &&
            (!glued ==> c.At?) &&
            forall r, q | Follows(scr, s, p, r, q) && !Preposed(s, r.byte) && Reaches(scr, s, from, r) ::
              c.At? && q.byte <= c.place.byte
    decreases |s| - from.byte
  {
    hide CellWidth, Preposed;
    var c := LastHardBreak(scr, s, p.col, from, glued);
    if Fits(scr, s, p.col, from) {
      var next := Next(scr, s, from);
      ReachesNext(scr, s, p, from);
      LastHardIsLast(scr, s, p, next, Preposed(s, from.byte));
      assert Follows(scr, s, p, from, next);
    }
    forall r, q | Follows(scr, s, p, r, q) && !Preposed(s, r.byte) && Reaches(scr, s, from, r)
      ensures c.At? && q.byte <= c.place.byte
    {
      FollowsWithin(scr, s, p, from, r, q);
    }
  }

  /** No place past `FitEnd` still fits. */
  lemma PastFitEnd(scr: Screen, s: Text, p: Place, q: Place)
    requires FitEnd(scr, s, p.col, p).byte < |s|
    requires Reaches(scr, s, p, q) && q.col - p.col <= scr.cols
    ensures q.byte <= FitEnd(scr, s, p.col, p).byte
    ensures q.byte == FitEnd(scr, s, p.col, p).byte ==> q == FitEnd(scr, s, p.col, p)
  {
    hide CellWidth, FitEnd, BreakFrom;
    var e := FitEnd(scr, s, p.col, p);
    FitEndIsLast(scr, s, p.col, p);
    if e.byte <= q.byte {
      ReachesInOrder(scr, s, p, e, q);
      if e != q { ReachesForward(scr, s, Next(scr, s, e), q); }
    }
  }

  lemma WordBreakPlaced(scr: Screen, s: Text, p: Place)
    ensures var c := LastWordBreak(scr, s, p.col, p);
            (c.At? ==> WordOpportunity(scr, s, p, c.place) && c.place.byte > p.byte) &&
            forall q | WordOpportunity(scr, s, p, q) :: c.At? && q.byte <= c.place.byte && q.col <= c.place.col
  {
    hide CellWidth, BreaksAfter, LastWordBreak;
    LastWordIsLast(scr, s, p, p);
    var c := LastWordBreak(scr, s, p.col, p);
    forall q | WordOpportunity(scr, s, p, q)
      ensures c.At? && q.byte <= c.place.byte && q.col <= c.place.col
    {
      OpportunityReached(scr, s, p, q);
      OpportunityReached(scr, s, p, c.place);
      ReachesInOrder(scr, s, p, q, c.place);
    }
  }

  lemma OpportunityReached(scr: Screen, s: Text, p: Place, q: Place)
    requires WordOpportunity(scr, s, p, q) || HardOpportunity(scr, s, p, q)
    ensures Reaches(scr, s, p, q) && q.col - p.col <= scr.cols && p.byte < q.byte
  {
    hide CellWidth, BreaksAfter, Preposed;
    var r :| Follows(scr, s, p, r, q);
    ReachesForward(scr, s, p, r);
    ReachesNext(scr, s, p, r);
  }

  lemma HardBreakPlaced(scr: Screen, s: Text, p: Place)
    ensures var c := LastHardBreak(scr, s, p.col, p, false);
            c.At? && (c.place == p || HardOpportunity(scr, s, p, c.place)) &&
            forall q | HardOpportunity(scr, s, p, q) :: q.byte <= c.place.byte
  {
    hide CellWidth, Preposed, LastHardBreak;
    LastHardIsLast(scr, s, p, p, false);
  }

  /** The screen line that starts at `p` is sound: it takes whole characters and at least
      one, is no wider than the screen, and is followed by another exactly when the rest
      of the row does not fit. */
  ghost predicate SoundBreak(scr: Screen, s: Text, p: Place) {
    var b, width := BreakFrom(scr, s, p), Walk(scr.wc, s, p.byte, p.col, |s|) - p.col;
    b.end.col - p.col <= scr.cols &&
    (b.more <==> width > scr.cols) &&
    (b.more ==> p.byte < b.end.byte < |s| && Reaches(scr, s, p, b.end)) &&
    (!b.more ==> b.end == Place(|s|, p.col + width))
  }

  lemma BreakAdvances(scr: Screen, s: Text, p: Place)
    requires p.byte == |s| || Fits(scr, s, p.col, p)
    ensures SoundBreak(scr, s, p)
  {
    hide CellWidth, LastWordBreak, LastHardBreak, WordOpportunity, HardOpportunity;
    var e := FitEnd(scr, s, p.col, p);
    FitEndIsLast(scr, s, p.col, p);
    WalkSplits(scr, s, p, e, |s|);
    ReachesForward(scr, s, p, e);
    if e.byte < |s| {
      assert Reaches(scr, s, Next(scr, s, p), e) by { FitEndIsLast(scr, s, p.col, Next(scr, s, p)); }
      ReachesForward(scr, s, Next(scr, s, p), e);
      BreakPlaced(scr, s, p);
    }
  }

  lemma BreakPlaced(scr: Screen, s: Text, p: Place)
    requires p.byte < FitEnd(scr, s, p.col, p).byte < |s|
    ensures var b := BreakFrom(scr, s, p);
            b.more && b.end.col - p.col <= scr.cols && p.byte < b.end.byte < |s| && Reaches(scr, s, p, b.end)
  {
    hide CellWidth, FitEnd, LastWordBreak, LastHardBreak, WordOpportunity, HardOpportunity;
    FitEndIsLast(scr, s, p.col, p);
    WordBreakPlaced(scr, s, p);
    HardBreakPlaced(scr, s, p);
    var w, h := LastWordBreak(scr, s, p.col, p), LastHardBreak(scr, s, p.col, p, false);
    if w.At? {
      OpportunityReached(scr, s, p, w.place);
      PastFitEnd(scr, s, p, w.place);
    }
    if h.place != p {
      OpportunityReached(scr, s, p, h.place);
      PastFitEnd(scr, s, p, h.place);
    }
  }

  /** A screen line is sound exactly when its first character fits on it.  Eight columns
      are enough for every character; on a narrower screen a tab, say, is charged two
      columns and may be reported as followed by a line that does not exist. */
  lemma SoundIffFirstFits(scr: Screen, s: Text, p: Place)
    requires p.byte <= |s|
    ensures SoundBreak(scr, s, p) <==> p.byte == |s| || Fits(scr, s, p.col, p)
    ensures TAB_STOP <= scr.cols ==> SoundBreak(scr, s, p)
  {
    if p.byte == |s| || Fits(scr, s, p.col, p) {
      BreakAdvances(scr, s, p);
    } else {
      hide CellWidth;
      var q := BreakFrom(scr, s, p).end;
      if Reaches(scr, s, p, q) && p != q { ReachesForward(scr, s, Next(scr, s, p), q); }
    }
  }

  lemma TabOnANarrowScreen()
    ensures var scr := Screen(_ => 1, 4);
            BreakFrom(scr, [TAB], START) == Break(true, Place(1, 2)) && DisplayColumn(scr.wc, [TAB], 1) == 8
  {
    var scr := Screen(_ => 1, 4);
    assert LastWordBreak(scr, [TAB], 0, START) == Nowhere;
    assert Walk(scr.wc, [TAB], 0, 0, 1) == Walk(scr.wc, [TAB], 1, 8, 1);
  }

  /** Where a row that does not fit is cut: at the last opportunity between words that
      fits, if there is one with any width before it; failing that, at the last place that
      does not part a vowel from its consonant; failing that, as late as fits. */
  lemma BreakIsGreedy(scr: Screen, s: Text, p: Place)
    requires TAB_STOP <= scr.cols && p.byte <= |s| && BreakFrom(scr, s, p).more
    ensures var q := BreakFrom(scr, s, p).end;
            if exists w :: WordOpportunity(scr, s, p, w) && w.col > p.col then
              WordOpportunity(scr, s, p, q) && forall w | WordOpportunity(scr, s, p, w) :: w.byte <= q.byte
            else if exists h :: HardOpportunity(scr, s, p, h) then
              HardOpportunity(scr, s, p, q) && forall h | HardOpportunity(scr, s, p, h) :: h.byte <= q.byte
            else q.byte < |s| && Next(scr, s, q).col - p.col > scr.cols
  {
    hide CellWidth, FitEnd, LastWordBreak, LastHardBreak, WordOpportunity, HardOpportunity;
    var e := FitEnd(scr, s, p.col, p);
    FitEndIsLast(scr, s, p.col, p);
    WordBreakPlaced(scr, s, p);
    HardBreakPlaced(scr, s, p);
    var w, h := LastWordBreak(scr, s, p.col, p), LastHardBreak(scr, s, p.col, p, false);
    ReachesForward(scr, s, p, e);
    forall q | HardOpportunity(scr, s, p, q) ensures p.byte < q.byte { OpportunityReached(scr, s, p, q); }
    if h.place != p {
      OpportunityReached(scr, s, p, h.place);
      PastFitEnd(scr, s, p, h.place);
    }
    if w.At? && w.place.col > p.col {
      assert WordOpportunity(scr, s, p, w.place);
    }
  }
}
