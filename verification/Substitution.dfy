/** Regex substitution: the replacement template, and the loop that replaces every match.
    The regex engine is a parameter. */
module Substitution {
  import opened Text
  import opened Utf8

  const BACKSLASH: byte := 0x5C
  const AMPERSAND: byte := 0x26

  // ---- Templates -----------------------------------------------------------

  /** A literal byte, or the text of a group; group 0 is the whole match. */
  datatype Part = Lit(b: byte) | Group(g: nat)

  datatype TemplateError = TrailingBackslash | NoSuchGroup | InvalidEscape

  datatype Parsed = Ok(parts: seq<Part>) | Bad(error: TemplateError)

  /** What a template says, for a pattern with `nsub` groups. */
  function Parse(tmpl: Text, nsub: nat): Parsed {
    if tmpl == [] then Ok([])
    else if tmpl[0] != BACKSLASH then Then(Lit(tmpl[0]), Parse(tmpl[1..], nsub))
    else if |tmpl| == 1 then Bad(TrailingBackslash)
    else if tmpl[1] == BACKSLASH then Then(Lit(BACKSLASH), Parse(tmpl[2..], nsub))
    else if tmpl[1] == AMPERSAND then Then(Group(0), Parse(tmpl[2..], nsub))
    else if 0x31 <= tmpl[1] <= 0x39 then
      if tmpl[1] - 0x30 > nsub then Bad(NoSuchGroup) else Then(Group(tmpl[1] - 0x30), Parse(tmpl[2..], nsub))
    else Bad(InvalidEscape)
  }

  function Then(p: Part, rest: Parsed): Parsed {
    if rest.Bad? then rest else Ok([p] + rest.parts)
  }

  /** How a part is written in a template. */
  function Written(p: Part): Text
    requires p.Group? ==> p.g <= 9
  {
    match p
    case Lit(b) => if b == BACKSLASH then [BACKSLASH, BACKSLASH] else [b]
    case Group(g) => if g == 0 then [BACKSLASH, AMPERSAND] else [BACKSLASH, 0x30 + g]
  }

  predicate Writable(parts: seq<Part>, nsub: nat) {
    forall i | 0 <= i < |parts| :: parts[i].Group? ==> parts[i].g <= 9 && parts[i].g <= nsub
  }

  function WrittenAll(parts: seq<Part>, nsub: nat): Text
    requires Writable(parts, nsub)
  {
    if parts == [] then [] else Written(parts[0]) + WrittenAll(parts[1..], nsub)
  }

  /** A template is accepted exactly when it is a run of written parts, and then it is read
      as those parts. */
  lemma {:induction false} ParseReadsWritten(parts: seq<Part>, nsub: nat)
    requires Writable(parts, nsub)
    ensures Parse(WrittenAll(parts, nsub), nsub) == Ok(parts)
  {
    if parts != [] {
      ParseReadsWritten(parts[1..], nsub);
      ParseOne(parts[0], WrittenAll(parts[1..], nsub), nsub);
      assert [parts[0]] + parts[1..] == parts;
    }
  }

  lemma {:induction false} ParseOne(p: Part, rest: Text, nsub: nat)
    requires p.Group? ==> p.g <= 9 && p.g <= nsub
    ensures Parse(Written(p) + rest, nsub) == Then(p, Parse(rest, nsub))
  {
    assert (Written(p) + rest)[|Written(p)|..] == rest;
  }

  lemma {:induction false} ParsedIsWritten(tmpl: Text, nsub: nat)
    requires Parse(tmpl, nsub).Ok?
    ensures Writable(Parse(tmpl, nsub).parts, nsub)
    ensures WrittenAll(Parse(tmpl, nsub).parts, nsub) == tmpl
  {
    if tmpl != [] {
      var n := if tmpl[0] == BACKSLASH then 2 else 1;
      ParsedIsWritten(tmpl[n..], nsub);
      var parts, rest := Parse(tmpl, nsub).parts, Parse(tmpl[n..], nsub).parts;
      assert parts[1..] == rest;
      assert Written(parts[0]) == tmpl[..n];
      assert tmpl == tmpl[..n] + tmpl[n..];
    }
  }

  lemma {:induction false} WrittenThen(parts: seq<Part>, b: Text, nsub: nat)
    requires Writable(parts, nsub)
    ensures var q := Parse(b, nsub);
            Parse(WrittenAll(parts, nsub) + b, nsub) == if q.Bad? then q else Ok(parts + q.parts)
  {
    hide Parse, Written;
    if parts == [] {
      assert [] + b == b;
    } else {
      var rest := WrittenAll(parts[1..], nsub);
      WrittenThen(parts[1..], b, nsub);
      ParseOne(parts[0], rest + b, nsub);
      assert Written(parts[0]) + (rest + b) == WrittenAll(parts, nsub) + b;
    }
  }

  /** A template is read from front to back. */
  lemma ParseInParts(a: Text, b: Text, nsub: nat)
    requires Parse(a, nsub).Ok?
    ensures var q := Parse(b, nsub);
            Parse(a + b, nsub) == if q.Bad? then q else Ok(Parse(a, nsub).parts + q.parts)
  {
    hide Parse, WrittenAll;
    ParsedIsWritten(a, nsub);
    WrittenThen(Parse(a, nsub).parts, b, nsub);
  }

  /** What a character and what a backslash mean after an accepted front: `\\` is a
      backslash, `\&` the whole match and `\1` to `\9` a group the pattern must have. */
  lemma {:induction false} EscapesMean(front: Text, c: byte, nsub: nat)
    requires Parse(front, nsub).Ok?
    ensures Parse(front + [0x5C], nsub) == Bad(TrailingBackslash)
    ensures c != 0x5C ==> Parse(front + [c], nsub) == Ok(Parse(front, nsub).parts + [Lit(c)])
    ensures Parse(front + [0x5C, c], nsub) ==
            if c == 0x5C then Ok(Parse(front, nsub).parts + [Lit(0x5C)])
            else if c == 0x26 then Ok(Parse(front, nsub).parts + [Group(0)])
            else if c < 0x31 || c > 0x39 then Bad(InvalidEscape)
            else if c - 0x30 > nsub then Bad(NoSuchGroup)
            else Ok(Parse(front, nsub).parts + [Group(c - 0x30)])
  {
    ParseInParts(front, [0x5C], nsub);
    ParseInParts(front, [c], nsub);
    ParseInParts(front, [0x5C, c], nsub);
    assert [c][1..] == [] && [0x5C, c][2..] == [];
  }

  method ReplacementTemplateError(tmpl: Text, nsub: nat) returns (fault: bool, error: TemplateError)
    ensures fault <==> Parse(tmpl, nsub).Bad?
    ensures fault ==> Parse(tmpl, nsub) == Bad(error)
  {
    var i := 0;
    error := InvalidEscape;
    while i < |tmpl|
      invariant 0 <= i <= |tmpl|
      invariant Parse(tmpl, nsub).Bad? <==> Parse(tmpl[i..], nsub).Bad?
      invariant Parse(tmpl[i..], nsub).Bad? ==> Parse(tmpl, nsub) == Parse(tmpl[i..], nsub)
    {
      assert tmpl[i..][1..] == tmpl[i + 1..];
      if tmpl[i] != BACKSLASH { i := i + 1; continue; }
      if i + 1 == |tmpl| { return true, TrailingBackslash; }
      assert tmpl[i..][2..] == tmpl[i + 2..];
      var c := tmpl[i + 1];
      if c == BACKSLASH || c == AMPERSAND { i := i + 2; continue; }
      if 0x31 <= c <= 0x39 {
        if c - 0x30 > nsub { return true, NoSuchGroup; }
        i := i + 2;
        continue;
      }
      return true, InvalidEscape;
    }
    fault := false;
  }

  // ---- Matches -------------------------------------------------------------

  /** Offsets of a group; negative if it took no part. */
  datatype Span = Span(so: int, eo: int)

  datatype Found = NoMatch | Match(groups: seq<Span>)

  /** The engine, given the text left to search and whether its first and last byte count
      as the start and the end of a line. */
  type Engine = (Text, bool, bool) -> Found

  predicate GoodMatch(m: Found, nsub: nat, n: nat) {
    m.Match? ==>
      |m.groups| == nsub + 1 && 0 <= m.groups[0].so <= m.groups[0].eo <= n &&
      forall g | 0 <= g <= nsub :: m.groups[g].so < 0 || 0 <= m.groups[g].so <= m.groups[g].eo <= n
  }

  /** A match lies within the text it was searched for in. */
  ghost predicate GoodEngine(re: Engine, nsub: nat) {
    forall t, notbol, noteol :: GoodMatch(re(t, notbol, noteol), nsub, |t|)
  }

  function Shifted(s: Span, base: nat): Span {
    Span(if s.so < 0 then -1 else base + s.so, if s.eo < 0 then -1 else base + s.eo)
  }

  /** The search from byte `pos`, with offsets into the whole subject. */
  function SearchFrom(re: Engine, nsub: nat, s: Text, notbol: bool, noteol: bool, pos: nat): (m: Found)
    requires GoodEngine(re, nsub) && pos <= |s|
    ensures GoodMatch(m, nsub, |s|)
    ensures m.Match? ==> |m.groups| == nsub + 1 && pos <= m.groups[0].so <= m.groups[0].eo <= |s|
  {
    var midLine := if pos == 0 then notbol else s[pos - 1] != NL;
    var m := re(s[pos..], midLine, noteol);
    assert GoodMatch(m, nsub, |s[pos..]|);
    if m.NoMatch? then NoMatch
    else Match(seq(nsub + 1, g requires 0 <= g <= nsub => Shifted(m.groups[g], pos)))
  }

  /** The text of one part: a group that took no part in the match contributes nothing. */
  function PartText(p: Part, s: Text, groups: seq<Span>): Text
    requires |groups| > 0 && GoodMatch(Match(groups), |groups| - 1, |s|)
    requires p.Group? ==> p.g < |groups|
  {
    match p
    case Lit(b) => [b]
    case Group(g) => if groups[g].so < 0 then [] else s[groups[g].so..groups[g].eo]
  }

  /** What one match is replaced by: the template with its groups filled in. */
  function Expansion(parts: seq<Part>, s: Text, groups: seq<Span>): Text
    requires |groups| > 0 && GoodMatch(Match(groups), |groups| - 1, |s|) && Writable(parts, |groups| - 1)
  {
    if parts == [] then [] else PartText(parts[0], s, groups) + Expansion(parts[1..], s, groups)
  }

  /** A template is filled in piece by piece. */
  lemma {:induction false} ExpansionInParts(a: seq<Part>, b: seq<Part>, s: Text, groups: seq<Span>)
    requires |groups| > 0 && GoodMatch(Match(groups), |groups| - 1, |s|)
    requires Writable(a, |groups| - 1) && Writable(b, |groups| - 1) && Writable(a + b, |groups| - 1)
    ensures Expansion(a + b, s, groups) == Expansion(a, s, groups) + Expansion(b, s, groups)
  {
    if a == [] {
      assert a + b == b;
    } else {
      hide Expansion, PartText, GoodMatch, Writable;
      ExpandsFront(a, s, groups);
      ExpandsFront(a + b, s, groups);
      FrontOfConcat(a, b);
      ExpansionInParts(a[1..], b, s, groups);
      Regroup(PartText(a[0], s, groups), Expansion(a[1..], s, groups), Expansion(b, s, groups));
    }
  }

  lemma FrontOfConcat(a: seq<Part>, b: seq<Part>)
    requires a != []
    ensures (a + b)[0] == a[0] && (a + b)[1..] == a[1..] + b
  {
  }

  lemma {:induction false} ExpandsFront(a: seq<Part>, s: Text, groups: seq<Span>)
    requires |groups| > 0 && GoodMatch(Match(groups), |groups| - 1, |s|)
    requires a != [] && Writable(a, |groups| - 1)
    ensures Writable(a[1..], |groups| - 1)
    ensures Expansion(a, s, groups) == PartText(a[0], s, groups) + Expansion(a[1..], s, groups)
  {
    hide GoodMatch, PartText;
  }

  /** A byte stands for itself, a group for the bytes it took part with. */
  lemma {:induction false} ExpansionOfOne(p: Part, s: Text, groups: seq<Span>)
    requires |groups| > 0 && GoodMatch(Match(groups), |groups| - 1, |s|) && Writable([p], |groups| - 1)
    ensures p.Group? ==> p.g < |groups|
    ensures Expansion([p], s, groups) == if p.Lit? then [p.b]
                                         else if groups[p.g].so < 0 then []
                                         else s[groups[p.g].so..groups[p.g].eo]
  {
    assert [p][0] == p && [p][1..] == [];
  }

  /** The front of an accepted template. */
  lemma {:induction false} ParseFront(tmpl: Text, nsub: nat)
    requires tmpl != [] && Parse(tmpl, nsub).Ok?
    ensures var n, parts := (if tmpl[0] == BACKSLASH then 2 else 1), Parse(tmpl, nsub).parts;
            n <= |tmpl| && parts != [] && Parse(tmpl[n..], nsub) == Ok(parts[1..]) &&
            parts[0] == if n == 1 then Lit(tmpl[0])
                        else if tmpl[1] == BACKSLASH then Lit(BACKSLASH)
                        else if tmpl[1] == AMPERSAND then Group(0)
                        else Group(if tmpl[1] >= 0x30 then tmpl[1] - 0x30 else 0)
    ensures |tmpl| >= 2 && tmpl[0] == BACKSLASH && tmpl[1] != BACKSLASH && tmpl[1] != AMPERSAND ==>
              0x31 <= tmpl[1] <= 0x39
  {
  }

  /** Expanding one part more. */
  lemma {:induction false} ExpandOne(out: Text, parts: seq<Part>, s: Text, groups: seq<Span>)
    requires |groups| > 0 && GoodMatch(Match(groups), |groups| - 1, |s|)
    requires parts != [] && Writable(parts, |groups| - 1)
    ensures parts[0].Group? ==> parts[0].g < |groups|
    ensures Writable(parts[1..], |groups| - 1)
    ensures out + Expansion(parts, s, groups) == out + PartText(parts[0], s, groups) + Expansion(parts[1..], s, groups)
  {
    hide PartText, GoodMatch;
    Regroup(out, PartText(parts[0], s, groups), Expansion(parts[1..], s, groups));
  }

  method ExpandTemplate(tmpl: Text, s: Text, groups: seq<Span>) returns (out: Text)
    requires |groups| > 0 && GoodMatch(Match(groups), |groups| - 1, |s|)
    requires Parse(tmpl, |groups| - 1).Ok?
    ensures Writable(Parse(tmpl, |groups| - 1).parts, |groups| - 1)
    ensures out == Expansion(Parse(tmpl, |groups| - 1).parts, s, groups)
  {
    hide Parse, Expansion, Writable;
    ghost var nsub := |groups| - 1;
    out := [];
    var i := 0;
    ParsedIsWritten(tmpl, nsub);
    assert tmpl[0..] == tmpl;
    while i < |tmpl|
      invariant 0 <= i <= |tmpl| && Parse(tmpl[i..], nsub).Ok? && Writable(Parse(tmpl[i..], nsub).parts, nsub)
      invariant out + Expansion(Parse(tmpl[i..], nsub).parts, s, groups)
                == Expansion(Parse(tmpl, nsub).parts, s, groups)
    {
      ghost var parts := Parse(tmpl[i..], nsub).parts;
      ParseFront(tmpl[i..], nsub);
      ExpandOne(out, parts, s, groups);
      if tmpl[i] != BACKSLASH {
        assert tmpl[i..][1..] == tmpl[i + 1..];
        out := out + [tmpl[i]];
        i := i + 1;
        continue;
      }
      assert tmpl[i..][2..] == tmpl[i + 2..];
      var c := tmpl[i + 1];
      if c == BACKSLASH {
        out := out + [BACKSLASH];
      } else {
        var g := if c == AMPERSAND then 0 else c - 0x30;
        assert out + [] == out;
        if groups[g].so >= 0 { out := out + s[groups[g].so..groups[g].eo]; }
      }
      i := i + 2;
    }
    ExpandNone(out, tmpl[i..], s, groups);
  }

  lemma ExpandNone(out: Text, tmpl: Text, s: Text, groups: seq<Span>)
    requires |groups| > 0 && GoodMatch(Match(groups), |groups| - 1, |s|)
    requires tmpl == []
    ensures Parse(tmpl, |groups| - 1) == Ok([]) && out + Expansion([], s, groups) == out
  {
  }

  lemma Regroup(a: Text, b: Text, c: Text)
    ensures a + (b + c) == a + b + c
  {
  }

  // ---- The occurrences and their replacement -------------------------------

  /** One counted occurrence and the text that takes its place. */
  datatype Hit = Hit(so: nat, eo: nat, text: Text)

  /** Bytes stepped over after an empty match. */
  function CharStep(s: Text, so: nat): (n: nat)
    requires so < |s|
    ensures 1 <= n && so + n <= |s|
  {
    if so + NBytes(s[so]) > |s| then 1 else NBytes(s[so])
  }

  /** What a substitution runs on. */
  datatype Job = Job(re: Engine, nsub: nat, s: Text, parts: seq<Part>, notbol: bool, noteol: bool)

  ghost predicate Ready(j: Job) {
    GoodEngine(j.re, j.nsub) && Writable(j.parts, j.nsub)
  }

  function Search(j: Job, pos: nat): (m: Found)
    requires Ready(j) && pos <= |j.s|
    ensures GoodMatch(m, j.nsub, |j.s|)
    ensures m.Match? ==> |m.groups| == j.nsub + 1 && pos <= m.groups[0].so <= m.groups[0].eo <= |j.s|
  {
    SearchFrom(j.re, j.nsub, j.s, j.notbol, j.noteol, pos)
  }

  /** The occurrences from `pos` on, the previous one having ended at `prev`. */
  ghost function Hits(j: Job, pos: nat, prev: int): seq<Hit>
    requires Ready(j) && pos <= |j.s|
    decreases |j.s| - pos
  {
    var m := Search(j, pos);
    if m.NoMatch? then []
    else
      var so, eo := m.groups[0].so, m.groups[0].eo;
      var adjacent := so == eo == prev;
      var here := if adjacent then [] else [Hit(so, eo, Expansion(j.parts, j.s, m.groups))];
      here + (if eo != so then Hits(j, eo, eo)
              else if so >= |j.s| then []
              else Hits(j, so + CharStep(j.s, so), if adjacent then prev else eo))
  }

  predicate InOrder(s: Text, from: nat, hits: seq<Hit>)
    decreases |hits|
  {
    if hits == [] then from <= |s|
    else from <= hits[0].so <= hits[0].eo <= |s| && InOrder(s, hits[0].eo, hits[1..])
  }

  /** No empty occurrence touches the one before it. */
  predicate Apart(prev: int, hits: seq<Hit>)
    decreases |hits|
  {
    hits == [] || (!(hits[0].so == hits[0].eo == prev) && Apart(hits[0].eo, hits[1..]))
  }

  /** `s` from `from` on with each occurrence replaced and everything else kept. */
  function Replaced(s: Text, from: nat, hits: seq<Hit>): Text
    requires InOrder(s, from, hits)
    decreases |hits|
  {
    if hits == [] then s[from..]
    else s[from..hits[0].so] + hits[0].text + Replaced(s, hits[0].eo, hits[1..])
  }

  lemma {:induction false} InOrderFrom(s: Text, from: nat, pos: nat, hits: seq<Hit>)
    requires from <= pos && InOrder(s, pos, hits)
    ensures InOrder(s, from, hits)
  {
  }

  /** Occurrences are in order, disjoint, and never two in one place. */
  lemma {:induction false} HitsInOrder(j: Job, pos: nat, prev: int)
    requires Ready(j) && pos <= |j.s| && prev <= pos
    ensures InOrder(j.s, pos, Hits(j, pos, prev)) && Apart(prev, Hits(j, pos, prev))
    decreases |j.s| - pos
  {
    hide Search, Expansion, CharStep, GoodMatch, GoodEngine, Writable;
    var m := Search(j, pos);
    if m.Match? {
      var so, eo := m.groups[0].so, m.groups[0].eo;
      var adjacent := so == eo == prev;
      var hits := Hits(j, pos, prev);
      var rest: seq<Hit> := [];
      if eo != so {
        HitsInOrder(j, eo, eo);
        rest := Hits(j, eo, eo);
      } else if so < |j.s| {
        var next := so + CharStep(j.s, so);
        HitsInOrder(j, next, if adjacent then prev else eo);
        rest := Hits(j, next, if adjacent then prev else eo);
        InOrderFrom(j.s, eo, next, rest);
      }
      if adjacent {
        assert hits == rest;
        InOrderFrom(j.s, pos, eo, rest);
      } else {
        assert hits[1..] == rest;
      }
    }
  }

  lemma {:induction false} ReplacedFrom(s: Text, from: nat, pos: nat, hits: seq<Hit>)
    requires from <= pos && InOrder(s, pos, hits)
    ensures InOrder(s, from, hits)
    ensures Replaced(s, from, hits) == s[from..pos] + Replaced(s, pos, hits)
  {
    InOrderFrom(s, from, pos, hits);
    if hits == [] {
      assert s[from..] == s[from..pos] + s[pos..];
    } else {
      var so, t, rest := hits[0].so, hits[0].text, Replaced(s, hits[0].eo, hits[1..]);
      assert s[from..so] == s[from..pos] + s[pos..so];
      Regroup(s[from..pos], s[pos..so], t);
      Regroup(s[from..pos], s[pos..so] + t, rest);
    }
  }

  predicate ReplacedByItself(s: Text, h: Hit) {
    h.so <= h.eo <= |s| && h.text == s[h.so..h.eo]
  }

  predicate AllByThemselves(s: Text, hits: seq<Hit>) {
    forall i | 0 <= i < |hits| :: ReplacedByItself(s, hits[i])
  }

  lemma OneMoreByItself(s: Text, h: Hit, rest: seq<Hit>)
    requires ReplacedByItself(s, h) && AllByThemselves(s, rest)
    ensures AllByThemselves(s, [h] + rest)
  {
  }

  /** Replacing every occurrence by itself changes nothing. */
  lemma {:induction false} ReplacingByItself(s: Text, from: nat, hits: seq<Hit>)
    requires InOrder(s, from, hits)
    requires AllByThemselves(s, hits)
    ensures Replaced(s, from, hits) == s[from..]
    decreases |hits|
  {
    if hits != [] {
      ReplacingByItself(s, hits[0].eo, hits[1..]);
      assert s[from..] == s[from..hits[0].so] + s[hits[0].so..hits[0].eo] + s[hits[0].eo..];
    }
  }

  lemma {:induction false} WholeMatchHits(j: Job, pos: nat, prev: int)
    requires Ready(j) && pos <= |j.s| && j.parts == [Group(0)]
    ensures AllByThemselves(j.s, Hits(j, pos, prev))
    decreases |j.s| - pos
  {
    hide Search, Expansion, GoodEngine, Writable, CharStep, ReplacedByItself;
    var m := Search(j, pos);
    if m.Match? {
      var so, eo := m.groups[0].so, m.groups[0].eo;
      WholeMatchExpands(j.s, m.groups);
      var hits, rest: seq<Hit> := Hits(j, pos, prev), [];
      assert AllByThemselves(j.s, rest);
      if eo != so {
        WholeMatchHits(j, eo, eo);
        rest := Hits(j, eo, eo);
      } else if so < |j.s| {
        var prev' := if so == eo == prev then prev else eo;
        WholeMatchHits(j, so + CharStep(j.s, so), prev');
        rest := Hits(j, so + CharStep(j.s, so), prev');
      }
      var here := Hit(so, eo, Expansion(j.parts, j.s, m.groups));
      OneMoreByItself(j.s, here, rest);
      assert hits == rest || hits == [here] + rest;
    }
  }

  lemma WholeMatchExpands(s: Text, groups: seq<Span>)
    requires |groups| > 0 && GoodMatch(Match(groups), |groups| - 1, |s|)
    ensures 0 <= groups[0].so <= groups[0].eo <= |s| && Writable([Group(0)], |groups| - 1)
    ensures ReplacedByItself(s, Hit(groups[0].so, groups[0].eo, Expansion([Group(0)], s, groups)))
  {
    assert Expansion([Group(0)][1..], s, groups) == [];
  }

  /** The template that stands for the match leaves the text as it was. */
  lemma IdentityTemplate(j: Job)
    requires GoodEngine(j.re, j.nsub) && Parse([BACKSLASH, AMPERSAND], j.nsub) == Ok(j.parts)
    ensures Ready(j) && InOrder(j.s, 0, Hits(j, 0, -1)) && Replaced(j.s, 0, Hits(j, 0, -1)) == j.s
  {
    hide Search, Expansion, Hits;
    var tmpl := [BACKSLASH, AMPERSAND];
    assert tmpl[2..] == [];
    assert j.parts == [Group(0)];
    HitsInOrder(j, 0, -1);
    WholeMatchHits(j, 0, -1);
    ReplacingByItself(j.s, 0, Hits(j, 0, -1));
  }

  // ---- The loop ------------------------------------------------------------

  /** The occurrences after a match from `so` to `eo`. */
  ghost function Later(j: Job, so: nat, eo: nat, prev: int): seq<Hit>
    requires Ready(j) && so <= eo <= |j.s|
  {
    if eo != so then Hits(j, eo, prev)
    else if so >= |j.s| then []
    else Hits(j, so + CharStep(j.s, so), prev)
  }

  /** What is left to do, in front of which `done` has been produced. */
  ghost predicate Underway(j: Job, done: Text, pos: nat, todo: seq<Hit>)
    requires Ready(j)
  {
    var all := Hits(j, 0, -1);
    InOrder(j.s, 0, all) && InOrder(j.s, pos, todo) && done + Replaced(j.s, pos, todo) == Replaced(j.s, 0, all)
  }

  lemma {:induction false} NothingFound(j: Job, pos: nat, prev: int)
    requires Ready(j) && pos <= |j.s| && Search(j, pos).NoMatch?
    ensures Hits(j, pos, prev) == []
  {
  }

  lemma {:induction false} MatchFound(j: Job, pos: nat, prev: int)
    requires Ready(j) && pos <= |j.s| && prev <= pos && Search(j, pos).Match?
    ensures var groups, hits := Search(j, pos).groups, Hits(j, pos, prev);
            var so, eo := groups[0].so, groups[0].eo;
            pos <= so <= eo <= |j.s| &&
            hits == if so == eo == prev then Later(j, so, eo, prev)
                    else [Hit(so, eo, Expansion(j.parts, j.s, groups))] + Later(j, so, eo, eo)
  {
    hide Search, Expansion, InOrder, GoodEngine, GoodMatch, Writable, CharStep;
    var groups := Search(j, pos).groups;
    var so, eo := groups[0].so, groups[0].eo;
    if so == eo == prev {
      assert [] + Later(j, so, eo, prev) == Later(j, so, eo, prev);
    }
  }

  lemma LaterInOrder(j: Job, so: nat, eo: nat, prev: int)
    requires Ready(j) && so <= eo <= |j.s| && prev <= eo
    ensures InOrder(j.s, if so == eo && so < |j.s| then so + CharStep(j.s, so) else eo, Later(j, so, eo, prev))
  {
    hide Hits, InOrder, GoodEngine, Writable;
    if eo != so {
      HitsInOrder(j, eo, prev);
    } else if so < |j.s| {
      HitsInOrder(j, so + CharStep(j.s, so), prev);
    } else {
      InOrderNone(j.s, eo);
    }
  }

  lemma InOrderNone(s: Text, from: nat)
    requires from <= |s|
    ensures InOrder(s, from, [])
  {
  }

  /** One occurrence handled. */
  lemma {:induction false} HandleHit(j: Job, done: Text, pos: nat, h: Hit, rest: seq<Hit>, next: nat)
    requires Ready(j) && Underway(j, done, pos, [h] + rest)
    requires InOrder(j.s, next, rest) && h.eo <= next
    ensures pos <= h.so <= h.eo <= |j.s| && Underway(j, done + j.s[pos..h.so] + h.text, h.eo, rest)
  {
    hide Hits;
    var hits := [h] + rest;
    assert hits[1..] == rest && hits[0] == h;
    InOrderFrom(j.s, h.eo, next, rest);
    Regroup(done, j.s[pos..h.so] + h.text, Replaced(j.s, h.eo, rest));
    Regroup(done, j.s[pos..h.so], h.text);
  }

  /** Bytes stepped over. */
  lemma {:induction false} StepOver(j: Job, done: Text, pos: nat, next: nat, rest: seq<Hit>)
    requires Ready(j) && Underway(j, done, pos, rest) && pos <= next && InOrder(j.s, next, rest)
    ensures next <= |j.s| && Underway(j, done + j.s[pos..next], next, rest)
  {
    hide Hits;
    InOrderWithin(j.s, next, rest);
    ReplacedFrom(j.s, pos, next, rest);
    Regroup(done, j.s[pos..next], Replaced(j.s, next, rest));
  }

  lemma {:induction false} InOrderWithin(s: Text, from: nat, hits: seq<Hit>)
    requires InOrder(s, from, hits)
    ensures from <= |s|
  {
  }

  lemma AppendTwo(head: Text, out: Text, a: Text, b: Text)
    ensures head + (out + a + b) == head + out + a + b == head + out + (a + b)
  {
  }

  lemma SubstitutionStarts(j: Job)
    requires Ready(j)
    ensures Underway(j, [], 0, Hits(j, 0, -1))
  {
    hide Hits;
    HitsInOrder(j, 0, -1);
  }

  lemma {:induction false} SubstitutionEnds(j: Job, done: Text, pos: nat)
    requires Ready(j) && Underway(j, done, pos, [])
    ensures pos <= |j.s| && done + j.s[pos..] == Replaced(j.s, 0, Hits(j, 0, -1))
  {
    hide Hits;
  }

  lemma Grown(done: Text, head: Text, kept: Text, text: Text, front: Text, old': Text, out: Text, isFirst: bool)
    requires done == head + kept + text && out == old' + text
    requires if isFirst then head == [] && old' == [] && front == kept else head + kept == front + old'
    ensures done == front + out
  {
    Regroup(front, old', text);
  }

  lemma Stepped(s: Text, a: nat, b: nat, c: nat, front: Text, out: Text)
    requires a <= b <= c <= |s|
    ensures front + out + s[a..c] == front + (out + s[a..b] + s[b..c])
  {
    assert s[a..c] == s[a..b] + s[b..c];
    AppendTwo(front, out, s[a..b], s[b..c]);
  }

  /** One turn of the loop: the occurrence, if it counts, and the character stepped over
      after an empty match. */
  lemma {:induction false} OneTurn(j: Job, done: Text, pos: nat, prev: int)
    requires Ready(j) && pos <= |j.s| && prev <= pos && Search(j, pos).Match?
    requires Underway(j, done, pos, Hits(j, pos, prev))
    ensures var groups, hits := Search(j, pos).groups, Hits(j, pos, prev);
            var so, eo := groups[0].so, groups[0].eo;
            var adjacent := so == eo == prev;
            var done' := if adjacent then done else done + j.s[pos..so] + Expansion(j.parts, j.s, groups);
            var copied, prev' := (if adjacent then pos else eo), (if adjacent then prev else eo);
            var counted := if adjacent then 0 else 1;
            pos <= so <= eo <= |j.s| && (!adjacent ==> hits != [] && hits[0].so == so) &&
            if eo != so then Underway(j, done', eo, Hits(j, eo, prev')) && |hits| == counted + |Hits(j, eo, prev')|
            else if so >= |j.s| then Underway(j, done', copied, []) && |hits| == counted && copied == |j.s|
            else
              var next := so + CharStep(j.s, so);
              copied <= next && Underway(j, done' + j.s[copied..next], next, Hits(j, next, prev')) &&
              |hits| == counted + |Hits(j, next, prev')|
  {
    hide Search, Hits, Expansion, InOrder, Underway, GoodEngine, GoodMatch, Writable, CharStep;
    MatchFound(j, pos, prev);
    var groups := Search(j, pos).groups;
    var so, eo := groups[0].so, groups[0].eo;
    var adjacent := so == eo == prev;
    LaterInOrder(j, so, eo, if adjacent then prev else eo);
    var rest := Later(j, so, eo, if adjacent then prev else eo);
    var next := if so == eo && so < |j.s| then so + CharStep(j.s, so) else eo;
    var done', copied := done, pos;
    if !adjacent {
      var h := Hit(so, eo, Expansion(j.parts, j.s, groups));
      HandleHit(j, done, pos, h, rest, next);
      done', copied := done + j.s[pos..so] + h.text, eo;
    }
    if so == eo && so < |j.s| { StepOver(j, done', copied, next, rest); }
  }

  /** Copy what lies before a counted match and fill the template in for it. */
  method AddOccurrence(j: Job, tmpl: Text, groups: seq<Span>, ghost done: Text,
                       copied: nat, count: nat, first: nat, out: Text)
    returns (first': nat, out': Text)
    requires Writable(j.parts, j.nsub) && Parse(tmpl, j.nsub) == Ok(j.parts)
    requires |groups| == j.nsub + 1 && GoodMatch(Match(groups), j.nsub, |j.s|)
    requires first <= copied <= groups[0].so && done == if count == 0 then [] else j.s[..first] + out
    requires count == 0 ==> copied == 0 && out == []
    ensures first' == if count == 0 then groups[0].so else first
    ensures done + j.s[copied..groups[0].so] + Expansion(j.parts, j.s, groups) == j.s[..first'] + out'
  {
    hide Expansion, Parse, Writable;
    var so := groups[0].so;
    first', out' := first, out;
    if count == 0 {
      first' := so;
    } else {
      out' := out + j.s[copied..so];
    }
    var text := ExpandTemplate(tmpl, j.s, groups);
    ghost var old' := out';
    out' := out' + text;
    Grown(done + j.s[copied..so] + text, done, j.s[copied..so], text, j.s[..first'], old', out', count == 0);
  }

  /** Substitute every match; `first` and `last` bound the part of the subject that `out`
      replaces. */
  method RegexSubstituteAll(j: Job, tmpl: Text) returns (count: nat, out: Text, first: nat, last: nat)
    requires Ready(j) && Parse(tmpl, j.nsub) == Ok(j.parts)
    ensures InOrder(j.s, 0, Hits(j, 0, -1)) && count == |Hits(j, 0, -1)|
    ensures count > 0 ==> first == Hits(j, 0, -1)[0].so && first <= last <= |j.s| &&
                          j.s[..first] + out + j.s[last..] == Replaced(j.s, 0, Hits(j, 0, -1))
    ensures count == 0 ==> out == []
  {
    hide Hits, InOrder, Replaced, Underway, GoodEngine, GoodMatch, Expansion, Parse, CharStep, Writable, Search, Apart;
    out, first, last, count := [], 0, 0, 0;
    var pos: nat, copied: nat, prev := 0, 0, -1;
    ghost var done: Text := [];
    SubstitutionStarts(j);
    HitsInOrder(j, 0, -1);
    while true
      invariant prev <= pos == copied <= |j.s| && first <= pos
      invariant Underway(j, done, pos, Hits(j, pos, prev))
      invariant count + |Hits(j, pos, prev)| == |Hits(j, 0, -1)|
      invariant done == if count == 0 then [] else j.s[..first] + out
      invariant count == 0 ==> pos == 0 && prev == -1 && out == []
      invariant count > 0 ==> |Hits(j, 0, -1)| > 0 && first == Hits(j, 0, -1)[0].so
      decreases |j.s| - pos
    {
      var m := Search(j, pos);
      if m.NoMatch? {
        NothingFound(j, pos, prev);
        break;
      }
      OneTurn(j, done, pos, prev);
      var so, eo := m.groups[0].so, m.groups[0].eo;
      var adjacent := eo == so && so == prev;
      if !adjacent {
        first, out := AddOccurrence(j, tmpl, m.groups, done, copied, count, first, out);
        done := done + j.s[pos..so] + Expansion(j.parts, j.s, m.groups);
        copied, prev, count := eo, eo, count + 1;
      }
      if eo != so { pos := eo; continue; }
      if so >= |j.s| { break; }
      var n := CharStep(j.s, so);
      Stepped(j.s, copied, so, so + n, j.s[..first], out);
      done := done + j.s[copied..so + n];
      out := out + j.s[copied..so];
      out := out + j.s[so..so + n];
      pos := so + n;
      copied := pos;
    }
    last := copied;
    SubstitutionEnds(j, done, copied);
  }

  /** Map a byte offset within the text of a region back to buffer coordinates: for the text
      between two offsets of a buffer, the place with the summed offset. */
  method OffsetToCoords(start: Pos, s: Text, off: nat) returns (p: Pos)
    requires off <= |s|
    ensures p == Advance(start, s[..off])
    ensures forall t, o | 0 <= o <= |t| - |s| && t[o..o + |s|] == s && start == PosAt(t, o) :: p == PosAt(t, o + off)
  {
    p := start;
    for i := 0 to off
      invariant p == Advance(start, s[..i])
    {
      assert s[..i + 1][..i] == s[..i];
      p := if s[i] == NL then Pos(0, p.y + 1) else Pos(p.x + 1, p.y);
    }
    forall t, o | 0 <= o <= |t| - |s| && t[o..o + |s|] == s && start == PosAt(t, o) ensures p == PosAt(t, o + off) {
      EndOfSlice(t, o, o + off);
      assert t[o..o + off] == s[..off];
    }
  }
}
