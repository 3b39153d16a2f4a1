/** Motion over balanced expressions. */
module Sexp {
  import opened Text
  import opened Lines

  // ---- Characters and steps ----------------------------------------------

  /** What opens, and what closes it. */
  const BRACKETS := {('(' as int, ')' as int), ('[' as int, ']' as int), ('{' as int, '}' as int)}

  /** The closing delimiter for an opening one, or 0. */
  function MatchingClose(c: byte): (d: byte)
    ensures if d == 0 then forall p | p in BRACKETS :: p.0 != c else (c, d) in BRACKETS
  {
    if c == 0x28 then 0x29 else if c == 0x5B then 0x5D else if c == 0x7B then 0x7D else 0
  }

  function MatchingOpen(c: byte): (d: byte)
    ensures if d == 0 then forall p | p in BRACKETS :: p.1 != c else (d, c) in BRACKETS
  {
    if c == 0x29 then 0x28 else if c == 0x5D then 0x5B else if c == 0x7D then 0x7B else 0
  }

  predicate IsQuote(c: byte) { c == 0x22 || c == 0x27 }

  predicate IsBlank(c: byte) { c == 0x20 || c == 9 || c == NL }

  method StepForward(rows: seq<Text>, p: Pos) returns (moved: bool, q: Pos)
    requires OnGrid(rows, p)
    ensures OnGrid(rows, q) && (moved <==> GridOffset(rows, p) < |Join(rows)|)
    ensures if moved then GridOffset(rows, q) == GridOffset(rows, p) + 1 else q == p
  {
    hide Join, GridOffset;
    ByteAt(rows, p);
    if p.x < |rows[p.y]| {
      moved, q := true, Pos(p.x + 1, p.y);
    } else if p.y + 1 < |rows| {
      moved, q := true, Pos(0, p.y + 1);
    } else {
      return false, p;
    }
    NextPlaceIsNextOffset(rows, p);
  }

  method StepBackward(rows: seq<Text>, p: Pos) returns (moved: bool, q: Pos)
    requires OnGrid(rows, p)
    ensures OnGrid(rows, q) && (moved <==> GridOffset(rows, p) > 0)
    ensures if moved then GridOffset(rows, q) == GridOffset(rows, p) - 1 else q == p
  {
    hide Join, GridOffset;
    if p.x > 0 {
      moved, q := true, Pos(p.x - 1, p.y);
    } else if p.y > 0 {
      moved, q := true, Pos(|rows[p.y - 1]|, p.y - 1);
    } else {
      FirstRowOffset(rows, p);
      return false, p;
    }
    NextPlaceIsNextOffset(rows, q);
  }

  /** The character at a place: the newline past each row, the last row too. */
  function CharAt(rows: seq<Text>, p: Pos): (c: byte)
    requires OnGrid(rows, p)
  {
    if p.x >= |rows[p.y]| then NL else rows[p.y][p.x]
  }

  lemma CharAtIsByte(rows: seq<Text>, p: Pos)
    requires OnGrid(rows, p)
    ensures var t, o := Join(rows), GridOffset(rows, p);
            o <= |t| && CharAt(rows, p) == if o < |t| then t[o] else NL
  {
    hide Join, GridOffset;
    ByteAt(rows, p);
  }

  // ---- What is looked for -------------------------------------------------

  /** Opening less closing delimiters of one kind. */
  function Net(s: Text, open: byte, close: byte): int {
    if s == [] then 0
    else
      var last := s[|s| - 1];
      Net(s[..|s| - 1], open, close) + if last == close then -1 else if last == open then 1 else 0
  }

  /** The delimiter at `s` is balanced for the first time just before `e`. */
  ghost predicate Balances(t: Text, s: nat, e: nat, open: byte, close: byte) {
    s < e <= |t| && t[s] == open && 0 !in t[s..e] && Net(t[s..e], open, close) == 0 &&
    forall m | s < m < e :: Net(t[s..m], open, close) > 0
  }

  /** Read backwards from `e`, the delimiter just before it is balanced for the first time
      at `s`. */
  ghost predicate BalancesBack(t: Text, s: nat, e: nat, open: byte, close: byte) {
    s < e <= |t| && t[e - 1] == close && Net(t[s..e], open, close) == 0 &&
    forall m | s < m < e :: Net(t[m..e], open, close) < 0
  }

  ghost predicate Quotes(t: Text, s: nat, e: nat) {
    s + 1 < e <= |t| && t[e - 1] == t[s] && 0 !in t[s..e] && forall m | s < m < e - 1 :: t[m] != t[s]
  }

  /** First offset from `o` on that is not blank. */
  function SkipBlanks(t: Text, o: nat): (p: nat)
    requires o <= |t|
    ensures o <= p <= |t| && (p < |t| ==> !IsBlank(t[p]))
    decreases |t| - o
  {
    if o < |t| && IsBlank(t[o]) then SkipBlanks(t, o + 1) else o
  }

  /** The number of offsets left when the blanks before `o` are dropped. */
  function SkipBlanksBack(t: Text, o: nat): (p: nat)
    requires o <= |t|
    ensures p <= o && (p > 0 ==> !IsBlank(t[p - 1]))
  {
    if o > 0 && IsBlank(t[o - 1]) then SkipBlanksBack(t, o - 1) else o
  }

  datatype SexpError = EndOfBuffer | BeginningOfBuffer | UnmatchedDelimiter | UnmatchedQuote

  /** A word is left to the word motions, from the place given. */
  datatype Outcome = Landed(at: Pos) | Failed(error: SexpError) | AtWord(at: Pos)

  // ---- Laws of balance -----------------------------------------------------

  lemma {:induction false} NetConcat(a: Text, b: Text, open: byte, close: byte)
    ensures Net(a + b, open, close) == Net(a, open, close) + Net(b, open, close)
  {
    if b == [] {
      assert a + b == a;
    } else {
      assert (a + b)[..|a + b| - 1] == a + b[..|b| - 1];
      NetConcat(a, b[..|b| - 1], open, close);
    }
  }

  lemma NetSplit(t: Text, s: nat, m: nat, e: nat, open: byte, close: byte)
    requires s <= m <= e <= |t|
    ensures Net(t[s..e], open, close) == Net(t[s..m], open, close) + Net(t[m..e], open, close)
  {
    assert t[s..e] == t[s..m] + t[m..e];
    NetConcat(t[s..m], t[m..e], open, close);
  }

  lemma NetOne(t: Text, o: nat, open: byte, close: byte)
    requires o < |t|
    ensures Net(t[o..o + 1], open, close) == if t[o] == close then -1 else if t[o] == open then 1 else 0
  {
    assert t[o..o + 1] == [t[o]];
    assert [t[o]][..0] == [];
  }

  /** The position that balances is unique, in either direction. */
  lemma BalanceIsUnique(t: Text, s: nat, e: nat, s': nat, e': nat, open: byte, close: byte)
    ensures Balances(t, s, e, open, close) && Balances(t, s, e', open, close) ==> e == e'
    ensures BalancesBack(t, s, e, open, close) && BalancesBack(t, s', e, open, close) ==> s == s'
  {
  }

  /** Forward and backward find each other: just past the close that balances an open is
      the place from which the open is found again, and the other way round. */
  lemma ForwardThenBackward(t: Text, s: nat, e: nat, open: byte, close: byte)
    requires open != close && s < e <= |t| && 0 !in t[s..e]
    ensures Balances(t, s, e, open, close) <==> BalancesBack(t, s, e, open, close)
  {
    hide Net;
    forall m | s < m < e
      ensures Net(t[s..e], open, close) == Net(t[s..m], open, close) + Net(t[m..e], open, close)
    {
      NetSplit(t, s, m, e, open, close);
    }
    NetSplit(t, s, s + 1, e, open, close);
    NetSplit(t, s, e - 1, e, open, close);
    NetOne(t, s, open, close);
    NetOne(t, e - 1, open, close);
    NetOfNone(open, close);
    if e == s + 1 {
      assert t[s + 1..e] == [];
    }
  }

  lemma NetOfNone(open: byte, close: byte)
    ensures Net([], open, close) == 0
  {
  }

  /** From just past a balanced expression, there are no blanks to skip backwards. */
  lemma BackwardStartsOnTheClose(t: Text, s: nat, e: nat, open: byte)
    requires MatchingClose(open) != 0 && Balances(t, s, e, open, MatchingClose(open))
    ensures SkipBlanksBack(t, e) == e && MatchingOpen(t[e - 1]) == open
    ensures BalancesBack(t, s, e, open, MatchingClose(open))
  {
    ForwardThenBackward(t, s, e, open, MatchingClose(open));
  }

  // ---- Scanning ------------------------------------------------------------

  function Weight(c: byte, open: byte, close: byte): int {
    if c == close then -1 else if c == open then 1 else 0
  }

  /** Everything from the opener at `s` up to `k` has been read, and it is still open. */
  ghost predicate Scanning(t: Text, s: nat, k: nat, open: byte, close: byte, depth: int) {
    s < k <= |t| && t[s] == open && 0 !in t[s..k] && depth == Net(t[s..k], open, close) &&
    forall m | s < m <= k :: Net(t[s..m], open, close) > 0
  }

  lemma ScanStarts(t: Text, s: nat, open: byte)
    requires s < |t| && t[s] == open && MatchingClose(open) != 0
    ensures Scanning(t, s, s + 1, open, MatchingClose(open), 1)
  {
    hide Net;
    NetOne(t, s, open, MatchingClose(open));
  }

  lemma ScanStep(t: Text, s: nat, k: nat, open: byte, close: byte, depth: int)
    requires Scanning(t, s, k, open, close, depth) && k < |t| && t[k] != 0
    ensures var d := depth + Weight(t[k], open, close);
            if d > 0 then Scanning(t, s, k + 1, open, close, d)
            else d == 0 && Balances(t, s, k + 1, open, close)
  {
    hide Net;
    NetSplit(t, s, k, k + 1, open, close);
    NetOne(t, k, open, close);
    assert t[s..k + 1] == t[s..k] + [t[k]];
  }

  lemma ScanFails(t: Text, s: nat, k: nat, open: byte, close: byte, depth: int)
    requires Scanning(t, s, k, open, close, depth) && (k == |t| || t[k] == 0)
    ensures forall e :: !Balances(t, s, e, open, close)
  {
    hide Net;
    forall e: nat ensures !Balances(t, s, e, open, close) {
      if k < e <= |t| { NulWithin(t, s, k, e); }
    }
  }

  lemma NulWithin(t: Text, s: nat, k: nat, e: nat)
    requires s <= k < e <= |t| && t[k] == 0
    ensures 0 in t[s..e]
  {
    assert t[s..e][k - s] == t[k];
  }

  ghost predicate ScanningBack(t: Text, k: nat, e: nat, open: byte, close: byte, depth: int) {
    k < e <= |t| && t[e - 1] == close && depth == -Net(t[k..e], open, close) &&
    forall m | k <= m < e :: Net(t[m..e], open, close) < 0
  }

  lemma ScanBackStarts(t: Text, e: nat, open: byte, close: byte)
    requires 0 < e <= |t| && t[e - 1] == close
    ensures ScanningBack(t, e - 1, e, open, close, 1)
  {
    hide Net;
    NetOne(t, e - 1, open, close);
  }

  lemma ScanBackStep(t: Text, k: nat, e: nat, open: byte, close: byte, depth: int)
    requires ScanningBack(t, k, e, open, close, depth) && k > 0 && open != close
    ensures var d := depth - Weight(t[k - 1], open, close);
            if d > 0 then ScanningBack(t, k - 1, e, open, close, d)
            else d == 0 && BalancesBack(t, k - 1, e, open, close)
  {
    hide Net;
    NetSplit(t, k - 1, k, e, open, close);
    NetOne(t, k - 1, open, close);
  }

  // ---- The motions ---------------------------------------------------------

  /** Scan on from an opened delimiter to just past its close. */
  method FindClose(rows: seq<Text>, at: Pos, open: byte) returns (found: bool, q: Pos)
    requires OnGrid(rows, at) && GridOffset(rows, at) < |Join(rows)| && MatchingClose(open) != 0
    requires Join(rows)[GridOffset(rows, at)] == open
    ensures OnGrid(rows, q)
    ensures found ==> Balances(Join(rows), GridOffset(rows, at), GridOffset(rows, q), open, MatchingClose(open))
    ensures !found ==> forall e :: !Balances(Join(rows), GridOffset(rows, at), e, open, MatchingClose(open))
  {
    hide Join, GridOffset, Scanning, Balances;
    ghost var t, s := Join(rows), GridOffset(rows, at);
    var close, depth := MatchingClose(open), 1;
    ScanStarts(t, s, open);
    var moved;
    moved, q := StepForward(rows, at);
    while depth > 0
      invariant OnGrid(rows, q) && GridOffset(rows, q) <= |t| && depth >= 0
      invariant if depth > 0 then Scanning(t, s, GridOffset(rows, q), open, close, depth)
                else GridOffset(rows, q) < |t| && Balances(t, s, GridOffset(rows, q) + 1, open, close)
      decreases |t| - GridOffset(rows, q), depth
    {
      var c := CharAt(rows, q);
      CharAtIsByte(rows, q);
      ghost var k := GridOffset(rows, q);
      if k == |t| || t[k] == 0 {
        ScanFails(t, s, k, open, close, depth);
      } else {
        ScanStep(t, s, k, open, close, depth);
      }
      if c == 0 { return false, q; }
      if c == close {
        depth := depth - 1;
      } else if c == open {
        depth := depth + 1;
      }
      if depth > 0 {
        moved, q := StepForward(rows, q);
        if !moved { return false, q; }
      }
    }
    moved, q := StepForward(rows, q);
    found := true;
  }

  method FindQuote(rows: seq<Text>, at: Pos, quote: byte) returns (found: bool, q: Pos)
    requires OnGrid(rows, at) && GridOffset(rows, at) < |Join(rows)| && IsQuote(quote)
    requires Join(rows)[GridOffset(rows, at)] == quote
    ensures OnGrid(rows, q)
    ensures found ==> Quotes(Join(rows), GridOffset(rows, at), GridOffset(rows, q))
    ensures !found ==> forall e :: !Quotes(Join(rows), GridOffset(rows, at), e)
  {
    hide Join, GridOffset;
    ghost var t, s := Join(rows), GridOffset(rows, at);
    var moved;
    moved, q := StepForward(rows, at);
    while true
      invariant OnGrid(rows, q) && s < GridOffset(rows, q) <= |t|
      invariant 0 !in t[s..GridOffset(rows, q)] && forall m | s < m < GridOffset(rows, q) :: t[m] != t[s]
      decreases |t| - GridOffset(rows, q)
    {
      var c := CharAt(rows, q);
      CharAtIsByte(rows, q);
      ghost var k := GridOffset(rows, q);
      if k == |t| || t[k] == 0 {
        NoQuoteAhead(t, s, k);
      } else {
        assert t[s..k + 1] == t[s..k] + [t[k]];
      }
      if c == 0 { return false, q; }
      moved, q := StepForward(rows, q);
      if c == quote { return true, q; }
      if !moved { return false, q; }
    }
  }

  lemma NoQuoteAhead(t: Text, s: nat, k: nat)
    requires s < k <= |t| && (k == |t| || t[k] == 0)
    requires forall m | s < m < k :: t[m] != t[s]
    ensures forall e :: !Quotes(t, s, e)
  {
    forall e: nat ensures !Quotes(t, s, e) {
      if k < e <= |t| { NulWithin(t, s, k, e); }
    }
  }

  /** What one forward motion over an expression from offset `o` comes to. */
  ghost predicate Forwarded(rows: seq<Text>, o: nat, r: Outcome)
    requires rows != [] && o <= |Join(rows)|
  {
    var t := Join(rows);
    var p := SkipBlanks(t, o);
    if p == |t| || t[p] == 0 then r == Failed(EndOfBuffer)
    else if MatchingClose(t[p]) != 0 then
      (r == Failed(UnmatchedDelimiter) && forall e :: !Balances(t, p, e, t[p], MatchingClose(t[p]))) ||
      (r.Landed? && OnGrid(rows, r.at) && Balances(t, p, GridOffset(rows, r.at), t[p], MatchingClose(t[p])))
    else if MatchingOpen(t[p]) != 0 then r.Landed? && OnGrid(rows, r.at) && GridOffset(rows, r.at) == p + 1
    else if IsQuote(t[p]) then
      (r == Failed(UnmatchedQuote) && forall e :: !Quotes(t, p, e)) ||
      (r.Landed? && OnGrid(rows, r.at) && Quotes(t, p, GridOffset(rows, r.at)))
    else r.AtWord? && OnGrid(rows, r.at) && GridOffset(rows, r.at) == p
  }

  method BufferForwardSexpEnd(rows: seq<Text>, at: Pos) returns (r: Outcome)
    requires OnGrid(rows, at)
    ensures Forwarded(rows, GridOffset(rows, at), r)
  {
    hide Join, GridOffset, Balances, Quotes;
    ghost var t, o := Join(rows), GridOffset(rows, at);
    var p := at;
    while true
      invariant OnGrid(rows, p) && o <= GridOffset(rows, p) <= |t|
      invariant SkipBlanks(t, GridOffset(rows, p)) == SkipBlanks(t, o)
      decreases |t| - GridOffset(rows, p)
    {
      var c := CharAt(rows, p);
      CharAtIsByte(rows, p);
      if c == 0 { return Failed(EndOfBuffer); }
      if !IsBlank(c) { break; }
      var moved;
      moved, p := StepForward(rows, p);
      if !moved { return Failed(EndOfBuffer); }
    }
    var c := CharAt(rows, p);
    CharAtIsByte(rows, p);
    if MatchingClose(c) != 0 {
      var found, q := FindClose(rows, p, c);
      return if found then Landed(q) else Failed(UnmatchedDelimiter);
    }
    if MatchingOpen(c) != 0 {
      var _, q := StepForward(rows, p);
      return Landed(q);
    }
    if IsQuote(c) {
      var found, q := FindQuote(rows, p, c);
      return if found then Landed(q) else Failed(UnmatchedQuote);
    }
    return AtWord(p);
  }

  /** The nearest quote before the one at `p`. */
  ghost predicate QuotesBack(t: Text, s: nat, p: nat) {
    s < p < |t| && t[s] == t[p] && forall m | s < m < p :: t[m] != t[p]
  }

  ghost predicate Unquoted(t: Text, p: nat) {
    forall s :: !QuotesBack(t, s, p)
  }

  /** No opening delimiter balances the closing one before `e`. */
  ghost predicate Unopened(t: Text, e: nat, close: byte) {
    forall s :: !BalancesBack(t, s, e, MatchingOpen(close), close)
  }

  /** What one backward motion over an expression from offset `o` comes to. */
  ghost predicate Backed(rows: seq<Text>, o: nat, r: Outcome)
    requires rows != [] && o <= |Join(rows)|
  {
    var t := Join(rows);
    var e := SkipBlanksBack(t, o);
    if e == 0 then r == Failed(BeginningOfBuffer)
    else
      var c := t[e - 1];
      if MatchingOpen(c) != 0 then
        (r == Failed(UnmatchedDelimiter) && Unopened(t, e, c)) ||
        (r.Landed? && OnGrid(rows, r.at) && BalancesBack(t, GridOffset(rows, r.at), e, MatchingOpen(c), c))
      else if MatchingClose(c) != 0 then r.Landed? && OnGrid(rows, r.at) && GridOffset(rows, r.at) == e - 1
      else if IsQuote(c) then
        (r == Failed(UnmatchedQuote) && Unquoted(t, e - 1)) ||
        (r.Landed? && OnGrid(rows, r.at) && QuotesBack(t, GridOffset(rows, r.at), e - 1))
      else r.AtWord? && OnGrid(rows, r.at) && GridOffset(rows, r.at) == e
  }

  method FindOpen(rows: seq<Text>, at: Pos, close: byte) returns (found: bool, q: Pos)
    requires OnGrid(rows, at) && GridOffset(rows, at) < |Join(rows)| && MatchingOpen(close) != 0
    requires Join(rows)[GridOffset(rows, at)] == close
    ensures OnGrid(rows, q)
    ensures found ==>
              BalancesBack(Join(rows), GridOffset(rows, q), GridOffset(rows, at) + 1, MatchingOpen(close), close)
    ensures !found ==> Unopened(Join(rows), GridOffset(rows, at) + 1, close)
  {
    hide Join, GridOffset, ScanningBack, BalancesBack;
    ghost var t, e := Join(rows), GridOffset(rows, at) + 1;
    var open, depth := MatchingOpen(close), 1;
    ScanBackStarts(t, e, open, close);
    q := at;
    while depth > 0
      invariant OnGrid(rows, q) && GridOffset(rows, q) < e && depth >= 0
      invariant if depth > 0 then ScanningBack(t, GridOffset(rows, q), e, open, close, depth)
                else BalancesBack(t, GridOffset(rows, q), e, open, close)
      decreases GridOffset(rows, q)
    {
      ghost var k := GridOffset(rows, q);
      if k == 0 { NoOpenBehind(t, e, open, close, depth); } else { ScanBackStep(t, k, e, open, close, depth); }
      var moved;
      moved, q := StepBackward(rows, q);
      if !moved { return false, q; }
      var c := CharAt(rows, q);
      CharAtIsByte(rows, q);
      if c == open {
        depth := depth - 1;
      } else if c == close {
        depth := depth + 1;
      }
    }
    found := true;
  }

  lemma NoOpenBehind(t: Text, e: nat, open: byte, close: byte, depth: int)
    requires ScanningBack(t, 0, e, open, close, depth)
    ensures forall s :: !BalancesBack(t, s, e, open, close)
  {
  }

  method FindQuoteBack(rows: seq<Text>, at: Pos, quote: byte) returns (found: bool, q: Pos)
    requires OnGrid(rows, at) && GridOffset(rows, at) < |Join(rows)|
    requires Join(rows)[GridOffset(rows, at)] == quote
    ensures OnGrid(rows, q)
    ensures found ==> QuotesBack(Join(rows), GridOffset(rows, q), GridOffset(rows, at))
    ensures !found ==> Unquoted(Join(rows), GridOffset(rows, at))
  {
    hide Join, GridOffset;
    ghost var t, p := Join(rows), GridOffset(rows, at);
    q := at;
    while true
      invariant OnGrid(rows, q) && GridOffset(rows, q) <= p
      invariant forall m | GridOffset(rows, q) <= m < p :: t[m] != t[p]
      decreases GridOffset(rows, q)
    {
      var moved;
      moved, q := StepBackward(rows, q);
      if !moved { return false, q; }
      var c := CharAt(rows, q);
      CharAtIsByte(rows, q);
      if c == quote { return true, q; }
    }
  }

  /** One backward motion. */
  method BackwardSexp(rows: seq<Text>, at: Pos) returns (r: Outcome)
    requires OnGrid(rows, at)
    ensures Backed(rows, GridOffset(rows, at), r)
  {
    hide Join, GridOffset, BalancesBack, QuotesBack;
    ghost var t, o := Join(rows), GridOffset(rows, at);
    var moved, p := StepBackward(rows, at);
    if !moved { return Failed(BeginningOfBuffer); }
    while true
      invariant OnGrid(rows, p) && GridOffset(rows, p) < |t|
      invariant SkipBlanksBack(t, GridOffset(rows, p) + 1) == SkipBlanksBack(t, o)
      decreases GridOffset(rows, p)
    {
      var c := CharAt(rows, p);
      CharAtIsByte(rows, p);
      if !IsBlank(c) { break; }
      moved, p := StepBackward(rows, p);
      if !moved { return Failed(BeginningOfBuffer); }
    }
    var c := CharAt(rows, p);
    CharAtIsByte(rows, p);
    if MatchingOpen(c) != 0 {
      var found, q := FindOpen(rows, p, c);
      return if found then Landed(q) else Failed(UnmatchedDelimiter);
    }
    if MatchingClose(c) != 0 { return Landed(p); }
    if IsQuote(c) {
      var found, q := FindQuoteBack(rows, p, c);
      return if found then Landed(q) else Failed(UnmatchedQuote);
    }
    moved, p := StepForward(rows, p);
    return AtWord(p);
  }

  /** From an opening delimiter, forward over the expression and backward again comes
      back to it. */
  lemma SexpRoundTrip(rows: seq<Text>, at: Pos, there: Outcome, back: Outcome)
    requires OnGrid(rows, at) && NlFree(rows) && GridOffset(rows, at) < |Join(rows)|
    requires MatchingClose(Join(rows)[GridOffset(rows, at)]) != 0
    requires Forwarded(rows, GridOffset(rows, at), there) && there.Landed?
    requires Backed(rows, GridOffset(rows, there.at), back)
    ensures back == Landed(at)
  {
    hide Join, GridOffset, Balances, BalancesBack;
    var t, s, e := Join(rows), GridOffset(rows, at), GridOffset(rows, there.at);
    BackwardStartsOnTheClose(t, s, e, t[s]);
    BalanceBackNotEmpty(t, s, e, t[s]);
    if back.Landed? {
      BalanceIsUnique(t, s, e, GridOffset(rows, back.at), e, t[s], MatchingClose(t[s]));
      GridIsPosAt(rows, at);
      GridIsPosAt(rows, back.at);
    }
  }

  /** From just past a closing delimiter, backward over the expression and forward again
      comes back there, unless a NUL stops the way forward. */
  lemma SexpRoundTripBack(rows: seq<Text>, at: Pos, there: Outcome, back: Outcome)
    requires OnGrid(rows, at) && NlFree(rows) && GridOffset(rows, at) > 0
    requires MatchingOpen(Join(rows)[GridOffset(rows, at) - 1]) != 0
    requires Backed(rows, GridOffset(rows, at), there) && there.Landed?
    requires Forwarded(rows, GridOffset(rows, there.at), back)
    ensures back == Landed(at) <==> 0 !in Join(rows)[GridOffset(rows, there.at)..GridOffset(rows, at)]
  {
    hide Join, GridOffset, Net;
    var t, s, e := Join(rows), GridOffset(rows, there.at), GridOffset(rows, at);
    var close := t[e - 1];
    var open := MatchingOpen(close);
    NetSplit(t, s, s + 1, e, open, close);
    NetOne(t, s, open, close);
    NetOfNone(open, close);
    if 0 !in t[s..e] {
      ForwardThenBackward(t, s, e, open, close);
      if back.Landed? {
        BalanceIsUnique(t, s, e, s, GridOffset(rows, back.at), open, close);
        GridIsPosAt(rows, at);
        GridIsPosAt(rows, back.at);
      }
    }
  }

  lemma BalanceBackNotEmpty(t: Text, s: nat, e: nat, open: byte)
    requires BalancesBack(t, s, e, open, MatchingClose(open))
    ensures s < e <= |t| && t[e - 1] == MatchingClose(open)
  {
  }
}
