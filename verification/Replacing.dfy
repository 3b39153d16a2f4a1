/** What a substitution does to valid text: it works on whole characters, leaves valid text
    valid and misses no occurrence. */
module Replacing {
  import opened Text
  import opened Utf8
  import opened Substitution

  // ---- One search further --------------------------------------------------------

  /** The occurrences after the first match from `pos` on. */
  ghost function RestOfHits(j: Job, pos: nat, prev: int): seq<Hit>
    requires Ready(j) && pos <= |j.s| && Search(j, pos).Match?
  {
    var m := Search(j, pos);
    var so, eo := m.groups[0].so, m.groups[0].eo;
    if eo != so then Hits(j, eo, eo)
    else if so >= |j.s| then []
    else Hits(j, so + CharStep(j.s, so), if so == eo == prev then prev else eo)
  }

  lemma HitsUnfold(j: Job, pos: nat, prev: int)
    requires Ready(j) && pos <= |j.s|
    ensures var m := Search(j, pos);
            if m.NoMatch? then Hits(j, pos, prev) == []
            else
              var so, eo := m.groups[0].so, m.groups[0].eo;
              var here := Hit(so, eo, Expansion(j.parts, j.s, m.groups));
              Hits(j, pos, prev) == (if so == eo == prev then [] else [here]) + RestOfHits(j, pos, prev)
  {
    hide Search, Expansion, CharStep, GoodMatch, GoodEngine, Writable;
  }

  // ---- Whole characters ----------------------------------------------------------

  /** The step after an empty match is one character of a valid subject. */
  lemma StepIsOneCharacter(s: Text, so: nat)
    requires ValidUtf8(s) && so < |s| && Boundary(s, so)
    ensures var next := so + CharStep(s, so);
            next <= |s| && Boundary(s, next) && forall k | so < k < next :: !Boundary(s, k)
  {
    hide ValidUtf8;
    NextBoundary(s, so);
  }

  /** A match begins and ends on characters, and so does each of its groups. */
  predicate OnCharacters(m: Found, t: Text) {
    m.Match? ==>
      forall g | 0 <= g < |m.groups| ::
        m.groups[g].so < 0 ||
        (m.groups[g].so <= m.groups[g].eo <= |t| && Boundary(t, m.groups[g].so) && Boundary(t, m.groups[g].eo))
  }

  /** In valid text the engine finds whole characters. */
  ghost predicate CharacterEngine(re: Engine) {
    forall t, notbol, noteol :: ValidUtf8(t) ==> OnCharacters(re(t, notbol, noteol), t)
  }

  lemma SuffixBoundary(s: Text, pos: nat, k: nat)
    requires pos + k <= |s|
    ensures Boundary(s[pos..], k) <==> Boundary(s, pos + k)
  {
  }

  lemma SearchOnCharacters(j: Job, pos: nat)
    requires Ready(j) && CharacterEngine(j.re) && ValidUtf8(j.s) && pos <= |j.s| && Boundary(j.s, pos)
    ensures OnCharacters(Search(j, pos), j.s)
  {
    hide ValidUtf8, Writable;
    ValidPieces(j.s, pos);
    var t := j.s[pos..];
    var m := j.re(t, if pos == 0 then j.notbol else j.s[pos - 1] != NL, j.noteol);
    assert OnCharacters(m, t) && GoodMatch(m, j.nsub, |t|);
    var found := Search(j, pos);
    if found.Match? {
      forall g | 0 <= g < |found.groups| && found.groups[g].so >= 0
        ensures found.groups[g].so <= found.groups[g].eo <= |j.s|
        ensures Boundary(j.s, found.groups[g].so) && Boundary(j.s, found.groups[g].eo)
      {
        var q := m.groups[g];
        assert found.groups[g] == Shifted(q, pos);
        SuffixBoundary(j.s, pos, q.so);
        SuffixBoundary(j.s, pos, q.eo);
      }
    }
  }

  // ---- The replacement is valid ------------------------------------------------------

  /** Bytes without a backslash stand for themselves. */
  lemma {:induction false} LiteralRun(tmpl: Text, n: nat, s: Text, groups: seq<Span>)
    requires |groups| > 0 && GoodMatch(Match(groups), |groups| - 1, |s|) && n <= |tmpl|
    requires Parse(tmpl, |groups| - 1).Ok? && BACKSLASH !in tmpl[..n]
    ensures Parse(tmpl[n..], |groups| - 1).Ok?
    ensures var whole, rest := Parse(tmpl, |groups| - 1).parts, Parse(tmpl[n..], |groups| - 1).parts;
            Writable(whole, |groups| - 1) && Writable(rest, |groups| - 1) &&
            Expansion(whole, s, groups) == tmpl[..n] + Expansion(rest, s, groups)
    decreases n
  {
    hide Parse, Writable, Expansion, GoodMatch;
    var nsub := |groups| - 1;
    ParsedIsWritten(tmpl, nsub);
    if n == 0 {
      assert tmpl[0..] == tmpl;
    } else {
      assert tmpl[0] == tmpl[..n][0];
      ParseFront(tmpl, nsub);
      var parts := Parse(tmpl, nsub).parts;
      ExpandOne([], parts, s, groups);
      assert tmpl[1..][..n - 1] == tmpl[..n][1..];
      LiteralRun(tmpl[1..], n - 1, s, groups);
      assert tmpl[1..][n - 1..] == tmpl[n..];
      LiteralByte(parts[0], tmpl[0], s, groups);
      ParsedIsWritten(tmpl[n..], nsub);
      var rest := Expansion(Parse(tmpl[n..], nsub).parts, s, groups);
      assert [] + [tmpl[0]] + (tmpl[..n][1..] + rest) == tmpl[..n] + rest;
      assert [] + Expansion(parts, s, groups) == Expansion(parts, s, groups);
    }
  }

  lemma LiteralByte(p: Part, b: byte, s: Text, groups: seq<Span>)
    requires |groups| > 0 && GoodMatch(Match(groups), |groups| - 1, |s|) && p == Lit(b)
    ensures PartText(p, s, groups) == [b]
  {
  }

  /** A valid template filled in with whole characters of a valid subject is valid. */
  lemma {:induction false} ExpansionIsValid(tmpl: Text, s: Text, groups: seq<Span>)
    requires |groups| > 0 && GoodMatch(Match(groups), |groups| - 1, |s|) && Parse(tmpl, |groups| - 1).Ok?
    requires ValidUtf8(tmpl) && ValidUtf8(s) && OnCharacters(Match(groups), s)
    ensures var parts := Parse(tmpl, |groups| - 1).parts;
            Writable(parts, |groups| - 1) && ValidUtf8(Expansion(parts, s, groups))
    decreases |tmpl|
  {
    hide Parse, Writable, Expansion, GoodMatch, PartText, OnCharacters, ValidUtf8;
    var nsub := |groups| - 1;
    ParsedIsWritten(tmpl, nsub);
    if tmpl == [] {
      ExpandNone([], tmpl, s, groups);
      assert Expansion([], s, groups) == [] + Expansion([], s, groups);
    } else if tmpl[0] != BACKSLASH {
      FrontIsPlain(tmpl);
      var n := NBytes(tmpl[0]);
      LiteralRun(tmpl, n, s, groups);
      ExpansionIsValid(tmpl[n..], s, groups);
      ValidConcat(tmpl[..n], Expansion(Parse(tmpl[n..], nsub).parts, s, groups));
    } else {
      ParseFront(tmpl, nsub);
      EscapeIsAscii(tmpl, nsub);
      var parts := Parse(tmpl, nsub).parts;
      ExpandOne([], parts, s, groups);
      ExpansionIsValid(tmpl[2..], s, groups);
      PartIsValid(parts[0], s, groups);
      var rest := Expansion(Parse(tmpl[2..], nsub).parts, s, groups);
      ValidConcat(PartText(parts[0], s, groups), rest);
      assert [] + Expansion(parts, s, groups) == Expansion(parts, s, groups);
      assert [] + PartText(parts[0], s, groups) + rest == PartText(parts[0], s, groups) + rest;
    }
  }

  lemma FrontIsPlain(t: Text)
    requires ValidUtf8(t) && t != [] && t[0] != BACKSLASH
    ensures var n := NBytes(t[0]);
            n <= |t| && BACKSLASH !in t[..n] && ValidUtf8(t[..n]) && ValidUtf8(t[n..])
  {
    hide ValidUtf8;
    FrontCharacter(t);
    ValidPieces(t, NBytes(t[0]));
  }

  lemma EscapeIsAscii(t: Text, nsub: nat)
    requires ValidUtf8(t) && t != [] && t[0] == BACKSLASH && Parse(t, nsub).Ok?
    ensures |t| >= 2 && t[1] < 0x80 && ValidUtf8(t[2..])
  {
    hide ValidUtf8;
    FrontCharacter(t);
    ValidPieces(t, 1);
    FrontCharacter(t[1..]);
    ValidPieces(t[1..], 1);
    assert t[1..][1..] == t[2..];
  }

  lemma PartIsValid(p: Part, s: Text, groups: seq<Span>)
    requires |groups| > 0 && GoodMatch(Match(groups), |groups| - 1, |s|)
    requires p == Lit(BACKSLASH) || (p.Group? && p.g < |groups|)
    requires ValidUtf8(s) && OnCharacters(Match(groups), s)
    ensures ValidUtf8(PartText(p, s, groups))
  {
    if p.Lit? {
      assert ValidUtf8([BACKSLASH]) by { assert [BACKSLASH][1..] == []; }
    } else if groups[p.g].so >= 0 {
      hide ValidUtf8;
      ValidSlice(s, groups[p.g].so, groups[p.g].eo);
    }
  }

  /** An occurrence of whole characters with a valid text in its place. */
  predicate CleanHit(s: Text, h: Hit) {
    h.so <= h.eo <= |s| && Boundary(s, h.so) && Boundary(s, h.eo) && ValidUtf8(h.text)
  }

  predicate CleanHits(s: Text, hits: seq<Hit>) {
    forall i | 0 <= i < |hits| :: CleanHit(s, hits[i])
  }

  lemma OneMoreCleanHit(s: Text, h: Hit, rest: seq<Hit>)
    requires CleanHit(s, h) && CleanHits(s, rest)
    ensures CleanHits(s, [h] + rest)
  {
    hide CleanHit;
  }

  lemma {:induction false} HitsAreClean(j: Job, tmpl: Text, pos: nat, prev: int)
    requires Ready(j) && CharacterEngine(j.re) && Parse(tmpl, j.nsub) == Ok(j.parts) && ValidUtf8(tmpl)
    requires ValidUtf8(j.s) && pos <= |j.s| && Boundary(j.s, pos)
    ensures CleanHits(j.s, Hits(j, pos, prev))
    decreases |j.s| - pos
  {
    hide Search, Expansion, GoodEngine, CharacterEngine, Writable, CharStep, ValidUtf8, Parse, CleanHit, CleanHits,
         Hits, GoodMatch;
    var m := Search(j, pos);
    HitsUnfold(j, pos, prev);
    if m.NoMatch? {
      NoHitsAreClean(j.s);
    } else {
      var so, eo := m.groups[0].so, m.groups[0].eo;
      SearchOnCharacters(j, pos);
      assert Boundary(j.s, so) && Boundary(j.s, eo);
      ExpansionIsValid(tmpl, j.s, m.groups);
      if eo != so {
        HitsAreClean(j, tmpl, eo, eo);
      } else if so < |j.s| {
        StepIsOneCharacter(j.s, so);
        HitsAreClean(j, tmpl, so + CharStep(j.s, so), if so == eo == prev then prev else eo);
      } else {
        NoHitsAreClean(j.s);
      }
      var here, rest := Hit(so, eo, Expansion(j.parts, j.s, m.groups)), RestOfHits(j, pos, prev);
      HitIsClean(j.s, here);
      OneMoreCleanHit(j.s, here, rest);
      assert [] + rest == rest;
    }
  }

  lemma NoHitsAreClean(s: Text)
    ensures CleanHits(s, [])
  {
  }

  lemma HitIsClean(s: Text, h: Hit)
    requires h.so <= h.eo <= |s| && Boundary(s, h.so) && Boundary(s, h.eo) && ValidUtf8(h.text)
    ensures CleanHit(s, h)
  {
  }

  lemma {:induction false} ReplacedIsValid(s: Text, from: nat, hits: seq<Hit>)
    requires InOrder(s, from, hits) && CleanHits(s, hits) && ValidUtf8(s) && Boundary(s, from)
    ensures ValidUtf8(Replaced(s, from, hits))
    decreases |hits|
  {
    hide ValidUtf8;
    if hits == [] {
      ValidPieces(s, from);
    } else {
      var h := hits[0];
      assert CleanHit(s, h);
      ReplacedIsValid(s, h.eo, hits[1..]);
      ValidSlice(s, from, h.so);
      ValidConcat(s[from..h.so], h.text);
      ValidConcat(s[from..h.so] + h.text, Replaced(s, h.eo, hits[1..]));
    }
  }

  /** Substituting in valid text, with a valid template, cuts no character and gives valid
      text. */
  lemma SubstitutionKeepsValid(j: Job, tmpl: Text)
    requires Ready(j) && CharacterEngine(j.re) && Parse(tmpl, j.nsub) == Ok(j.parts)
    requires ValidUtf8(tmpl) && ValidUtf8(j.s)
    ensures var hits := Hits(j, 0, -1);
            CleanHits(j.s, hits) && InOrder(j.s, 0, hits) && ValidUtf8(Replaced(j.s, 0, hits))
  {
    hide Hits, ValidUtf8, Parse, GoodEngine, CharacterEngine, Writable;
    if j.s != [] { ValidStartsCharacter(j.s); }
    HitsAreClean(j, tmpl, 0, -1);
    HitsInOrder(j, 0, -1);
    ReplacedIsValid(j.s, 0, Hits(j, 0, -1));
  }

  // ---- No occurrence is made up or missed -------------------------------------------

  /** The hit is a match the engine reports, with the template filled in for it. */
  ghost predicate IsMatch(j: Job, h: Hit, pos: nat)
    requires Ready(j) && pos <= |j.s|
  {
    var m := Search(j, pos);
    m.Match? && m.groups[0].so == h.so && m.groups[0].eo == h.eo && h.text == Expansion(j.parts, j.s, m.groups)
  }

  lemma {:induction false} HitsAreMatches(j: Job, pos: nat, prev: int, h: Hit)
    requires Ready(j) && pos <= |j.s| && h in Hits(j, pos, prev)
    ensures exists p: nat | p <= |j.s| :: IsMatch(j, h, p)
    decreases |j.s| - pos
  {
    hide Search, Expansion, GoodEngine, Writable, CharStep, Hits, GoodMatch;
    HitsUnfold(j, pos, prev);
    var m := Search(j, pos);
    var so, eo := m.groups[0].so, m.groups[0].eo;
    if h !in RestOfHits(j, pos, prev) {
      assert IsMatch(j, h, pos);
    } else if eo != so {
      HitsAreMatches(j, eo, eo, h);
    } else {
      HitsAreMatches(j, so + CharStep(j.s, so), if so == eo == prev then prev else eo, h);
    }
  }

  /** Whether a pattern matches at the front of a text, given whether a line starts there. */
  type Pattern = (Text, bool) -> bool

  /** A line starts at `i`: after a newline, or at the front unless told otherwise. */
  predicate LineStart(s: Text, i: nat, notbol: bool)
    requires i <= |s|
  {
    if i == 0 then !notbol else s[i - 1] == NL
  }

  predicate Begins(front: Pattern, s: Text, i: nat, notbol: bool)
    requires i <= |s|
  {
    front(s[i..], LineStart(s, i, notbol))
  }

  /** The engine reports the first place of the text it is given where the pattern matches. */
  ghost predicate FindsFirst(re: Engine, front: Pattern, noteol: bool) {
    forall t, notbol :: FirstOf(re(t, notbol, noteol), front, t, 0, notbol)
  }

  ghost predicate FirstOf(m: Found, front: Pattern, t: Text, from: nat, notbol: bool) {
    (m.Match? ==>
       |m.groups| > 0 && from <= m.groups[0].so <= |t| && Begins(front, t, m.groups[0].so, notbol)) &&
    forall i: nat | from <= i <= |t| && Begins(front, t, i, notbol) ::
      m.Match? && |m.groups| > 0 && m.groups[0].so <= i
  }

  /** A search that starts anywhere in the subject finds what is first from there on in the
      whole of it, lines starting where they do in the whole of it. */
  lemma SearchFindsFirst(j: Job, front: Pattern, pos: nat)
    requires Ready(j) && FindsFirst(j.re, front, j.noteol) && pos <= |j.s|
    ensures FirstOf(Search(j, pos), front, j.s, pos, j.notbol)
  {
    hide Writable, Begins;
    var t, midLine := j.s[pos..], if pos == 0 then j.notbol else j.s[pos - 1] != NL;
    var m, found := j.re(t, midLine, j.noteol), Search(j, pos);
    assert FirstOf(m, front, t, 0, midLine) && GoodMatch(m, j.nsub, |t|);
    forall i: nat | i <= |t| ensures Begins(front, t, i, midLine) == Begins(front, j.s, pos + i, j.notbol) {
      SameFront(front, j.s, pos, i, midLine, j.notbol);
    }
    if m.Match? { assert found.groups[0] == Shifted(m.groups[0], pos); }
    forall p: nat | pos <= p <= |j.s| && Begins(front, j.s, p, j.notbol)
      ensures found.Match? && found.groups[0].so <= p
    {
      assert Begins(front, t, p - pos, midLine);
    }
  }

  lemma SameFront(front: Pattern, s: Text, pos: nat, i: nat, midLine: bool, notbol: bool)
    requires pos + i <= |s| && midLine == !LineStart(s, pos, notbol)
    ensures Begins(front, s[pos..], i, midLine) == Begins(front, s, pos + i, notbol)
  {
    assert s[pos..][i..] == s[pos + i..];
  }

  /** Whatever is replaced is an occurrence of the pattern in the whole subject: searching on
      from the middle makes none up. */
  lemma {:induction false} HitsAreOccurrences(j: Job, front: Pattern, pos: nat, prev: int, h: Hit)
    requires Ready(j) && FindsFirst(j.re, front, j.noteol) && pos <= |j.s| && h in Hits(j, pos, prev)
    ensures h.so <= |j.s| && Begins(front, j.s, h.so, j.notbol)
    decreases |j.s| - pos
  {
    hide Search, Expansion, GoodEngine, Writable, CharStep, Begins, FindsFirst, Hits, GoodMatch;
    HitsUnfold(j, pos, prev);
    var m := Search(j, pos);
    var so, eo := m.groups[0].so, m.groups[0].eo;
    if h !in RestOfHits(j, pos, prev) {
      SearchFindsFirst(j, front, pos);
    } else if eo != so {
      HitsAreOccurrences(j, front, eo, eo, h);
    } else {
      HitsAreOccurrences(j, front, so + CharStep(j.s, so), if so == eo == prev then prev else eo, h);
    }
  }

  ghost predicate Covered(hits: seq<Hit>, p: nat) {
    exists i | 0 <= i < |hits| :: hits[i].so <= p <= hits[i].eo
  }

  lemma CoveredByRest(h: Hit, rest: seq<Hit>, p: nat)
    ensures h.so <= p <= h.eo ==> Covered([h] + rest, p)
    ensures Covered(rest, p) ==> Covered([h] + rest, p)
  {
    var hits := [h] + rest;
    if h.so <= p <= h.eo { assert hits[0] == h; }
    if i :| 0 <= i < |rest| && rest[i].so <= p <= rest[i].eo { assert hits[i + 1] == rest[i]; }
  }

  lemma {:induction false} HitsCover(j: Job, front: Pattern, pos: nat, prev: int, p: nat)
    requires Ready(j) && ValidUtf8(j.s) && FindsFirst(j.re, front, j.noteol) && CharacterEngine(j.re)
    requires pos <= p <= |j.s| && Boundary(j.s, pos) && Boundary(j.s, p) && Begins(front, j.s, p, j.notbol)
    ensures p == prev || Covered(Hits(j, pos, prev), p)
    decreases |j.s| - pos
  {
    hide Search, Expansion, GoodEngine, CharacterEngine, Writable, CharStep, ValidUtf8, Covered, Begins, FindsFirst;
    SearchFindsFirst(j, front, pos);
    var m := Search(j, pos);
    var so, eo := m.groups[0].so, m.groups[0].eo;
    var adjacent := so == eo == prev;
    var here, rest: seq<Hit> := Hit(so, eo, Expansion(j.parts, j.s, m.groups)), [];
    SearchOnCharacters(j, pos);
    assert Boundary(j.s, so) && Boundary(j.s, eo);
    if eo != so {
      rest := Hits(j, eo, eo);
      if p > eo { HitsCover(j, front, eo, eo, p); }
    } else if so < |j.s| {
      var next, prev' := so + CharStep(j.s, so), if adjacent then prev else eo;
      StepIsOneCharacter(j.s, so);
      rest := Hits(j, next, prev');
      if p > so { HitsCover(j, front, next, prev', p); }
    }
    CoveredByRest(here, rest, p);
    assert Hits(j, pos, prev) == if adjacent then rest else [here] + rest;
  }

  /** Every character of a valid subject where the pattern matches lies in an occurrence that
      is replaced, or at its edge. */
  lemma NoOccurrenceMissed(j: Job, front: Pattern, p: nat)
    requires Ready(j) && ValidUtf8(j.s) && FindsFirst(j.re, front, j.noteol) && CharacterEngine(j.re)
    requires p <= |j.s| && Boundary(j.s, p) && Begins(front, j.s, p, j.notbol)
    ensures Covered(Hits(j, 0, -1), p)
  {
    hide Hits, ValidUtf8, GoodEngine, CharacterEngine, Writable, Covered, Begins, FindsFirst;
    if j.s != [] { ValidStartsCharacter(j.s); }
    HitsCover(j, front, 0, -1, p);
  }
}
