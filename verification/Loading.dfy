/** What loading a file does to its bytes: every line loses the carriage returns at its
    end and gains a newline if it has none. */
module Loading {
  import opened Text
  import opened History
  import opened Lines

  const CR: byte := 13

  /** The length of the first line, its newline included. */
  function LineLength(f: Text): (n: nat)
    requires f != []
    ensures 1 <= n <= |f|
    ensures NL !in f[..n - 1] && (f[n - 1] == NL || n == |f|)
  {
    if f[0] == NL || |f| == 1 then 1 else
      var n := LineLength(f[1..]);
      assert f[..n] == [f[0]] + f[1..][..n - 1];
      n + 1
  }

  /** A line without the newlines and carriage returns it ends in. */
  function Stripped(line: Text): (s: Text)
    ensures s <= line
    ensures s == [] || (s[|s| - 1] != NL && s[|s| - 1] != CR)
    ensures forall k | |s| <= k < |line| :: line[k] == NL || line[k] == CR
  {
    if line != [] && (line[|line| - 1] == NL || line[|line| - 1] == CR)
    then Stripped(line[..|line| - 1]) else line
  }

  function Normalised(f: Text): Text {
    if f == [] then [] else Stripped(f[..LineLength(f)]) + [NL] + Normalised(f[LineLength(f)..])
  }

  method StripEnd(line: Text) returns (s: Text)
    ensures s == Stripped(line)
  {
    var n := |line|;
    assert line[..n] == line;
    while n > 0 && (line[n - 1] == NL || line[n - 1] == CR)
      invariant 0 <= n <= |line|
      invariant Stripped(line[..n]) == Stripped(line)
    {
      assert line[..n][..n - 1] == line[..n - 1];
      n := n - 1;
    }
    s := line[..n];
  }

  lemma {:induction false} NormalisedIsTerminated(f: Text)
    ensures Terminated(Normalised(f)) && (Normalised(f) == [] <==> f == [])
  {
    if f != [] {
      NormalisedIsTerminated(f[LineLength(f)..]);
    }
  }

  predicate CrEndsLine(f: Text, i: nat) {
    i < |f| && f[i] == CR && (i + 1 == |f| || f[i + 1] == NL)
  }

  /** Some line of the file ends in a carriage return. */
  ghost predicate HasLineEndingInCr(f: Text) {
    exists i :: CrEndsLine(f, i)
  }

  /** Loading keeps every byte, and adds at most the final newline, exactly when no line
      ends in a carriage return.  A last line without a newline counts: its trailing
      carriage return is lost too. */
  lemma {:induction false} LoadingKeepsTheBytes(f: Text)
    ensures Normalised(f) == WithFinalNewline(f, true) <==> !HasLineEndingInCr(f)
  {
    hide Stripped, HasLineEndingInCr, WithFinalNewline;
    if f == [] {
      NothingToLose();
    } else {
      var n := LineLength(f);
      var line, rest := f[..n], f[n..];
      LoadingKeepsTheBytes(rest);
      FirstLine(line, rest);
      assert f == line + rest;
      FinalNewlineOfRest(line, rest);
      CrInParts(line, rest);
      NormalisedLengths(rest);
      SplitEqual(Stripped(line) + [NL], Normalised(rest), WithFinalNewline(line, true), WithFinalNewline(rest, true));
    }
  }

  lemma NothingToLose()
    ensures WithFinalNewline([], true) == [] && !HasLineEndingInCr([])
  {
  }

  lemma SplitEqual(a: Text, b: Text, a': Text, b': Text)
    requires |a| <= |a'| && |b| <= |b'|
    ensures a + b == a' + b' <==> a == a' && b == b'
  {
    if a + b == a' + b' {
      assert |a + b| == |a' + b'|;
      assert a == (a + b)[..|a|] && a' == (a' + b')[..|a'|];
      assert b == (a + b)[|a|..] && b' == (a' + b')[|a'|..];
    }
  }

  /** A first line that keeps its bytes is one that does not end in a carriage return. */
  lemma FirstLine(line: Text, rest: Text)
    requires line != [] && NL !in line[..|line| - 1] && (line[|line| - 1] == NL || rest == [])
    ensures |Stripped(line) + [NL]| <= |WithFinalNewline(line, true)|
    ensures Stripped(line) + [NL] == WithFinalNewline(line, true) <==> !HasLineEndingInCr(line)
  {
    var n := |line| - 1;
    if line[n] == NL {
      assert Stripped(line) == Stripped(line[..n]);
      assert n > 0 && line[n - 1] == CR ==> CrEndsLine(line, n - 1);
      assert n > 0 && line[n - 1] != CR ==> line[n - 1] in line[..n];
    } else {
      assert line[n] == CR ==> CrEndsLine(line, n);
    }
  }

  lemma FinalNewlineOfRest(line: Text, rest: Text)
    requires line != [] && (line[|line| - 1] == NL || rest == [])
    ensures WithFinalNewline(line + rest, true) == WithFinalNewline(line, true) + WithFinalNewline(rest, true)
  {
    assert rest == [] ==> line + rest == line;
  }

  lemma CrInParts(line: Text, rest: Text)
    requires line != [] && (line[|line| - 1] == NL || rest == [])
    ensures HasLineEndingInCr(line + rest) <==> HasLineEndingInCr(line) || HasLineEndingInCr(rest)
  {
    var f, n := line + rest, |line|;
    if i: nat :| CrEndsLine(line, i) {
      assert CrEndsLine(f, i);
    }
    if i: nat :| CrEndsLine(rest, i) {
      assert CrEndsLine(f, n + i);
    }
    if i: nat :| CrEndsLine(f, i) {
      if i < n {
        assert CrEndsLine(line, i);
      } else {
        assert CrEndsLine(rest, i - n);
      }
    }
  }

  lemma {:induction false} NormalisedLengths(f: Text)
    ensures |Normalised(f)| <= |WithFinalNewline(f, true)|
  {
    hide Stripped, WithFinalNewline, HasLineEndingInCr;
    if f == [] {
    } else {
      var n := LineLength(f);
      NormalisedLengths(f[n..]);
      FirstLine(f[..n], f[n..]);
      FinalNewlineOfRest(f[..n], f[n..]);
      assert f == f[..n] + f[n..];
    }
  }

  // ---- Files as lines -----------------------------------------------------------

  function Returns(n: nat): (s: Text)
    ensures |s| == n && forall i | 0 <= i < n :: s[i] == CR
  {
    seq(n, _ => CR)
  }

  /** A line of a file: its text, the carriage returns behind it, and whether a newline ends
      it. */
  datatype FileLine = FileLine(text: Text, returns': nat, ended: bool)

  function LineBytes(l: FileLine): Text {
    l.text + Returns(l.returns') + if l.ended then [NL] else []
  }

  /** The text is that of a line, and nothing but the end of the line is left out of it. */
  predicate IsLine(l: FileLine) {
    NL !in l.text && (l.text == [] || l.text[|l.text| - 1] != CR) && LineBytes(l) != []
  }

  /** Lines of which all but the last are ended. */
  predicate AreLines(ls: seq<FileLine>) {
    forall i | 0 <= i < |ls| :: IsLine(ls[i]) && (i < |ls| - 1 ==> ls[i].ended)
  }

  function FileOf(ls: seq<FileLine>): Text {
    if ls == [] then [] else LineBytes(ls[0]) + FileOf(ls[1..])
  }

  function TextsOf(ls: seq<FileLine>): (rows: seq<Text>)
    ensures |rows| == |ls|
  {
    seq(|ls|, i requires 0 <= i < |ls| => ls[i].text)
  }

  /** A file of any lines loads as their texts, each ended by a newline: a file with CR NL
      line ends as the same file with NL ends. */
  lemma {:induction false} FileLoads(ls: seq<FileLine>)
    requires AreLines(ls)
    ensures Normalised(FileOf(ls)) == Ended(TextsOf(ls))
    decreases |ls|
  {
    hide Stripped, LineLength, Ended, LineBytes;
    if ls == [] {
      EndedOfNone();
    } else {
      var l, rest := ls[0], ls[1..];
      FileLoads(rest);
      FrontLine(l, FileOf(rest), rest == []);
      if rest == [] { assert FileOf(rest) == []; }
      assert TextsOf(ls) == [l.text] + TextsOf(rest);
      EndedConcat([l.text], TextsOf(rest));
      EndedOne(l.text);
      NormalisedFront(LineBytes(l), FileOf(rest), l.text);
    }
  }

  lemma NormalisedFront(line: Text, rest: Text, text: Text)
    requires line != [] && LineLength(line + rest) == |line| && Stripped(line) == text
    ensures Normalised(line + rest) == text + [NL] + Normalised(rest)
  {
    hide Stripped, LineLength;
    var f := line + rest;
    assert f[..|line|] == line && f[|line|..] == rest;
  }

  /** The first line of a file, and what is left of it. */
  lemma FrontLine(l: FileLine, rest: Text, isLast: bool)
    requires IsLine(l) && (!isLast ==> l.ended) && (isLast ==> rest == [])
    ensures LineBytes(l) != [] && LineLength(LineBytes(l) + rest) == |LineBytes(l)|
    ensures Stripped(LineBytes(l)) == l.text
  {
    hide Stripped, LineLength;
    var line := LineBytes(l);
    var n := |line| - 1;
    assert NL !in line[..n] by {
      forall k | 0 <= k < n ensures line[k] != NL { if k < |l.text| { assert line[k] == l.text[k]; } }
    }
    LineLengthIs(line + rest, |line|);
    StrippedIs(line, l.text);
  }

  lemma {:induction false} LineLengthIs(f: Text, n: nat)
    requires 1 <= n <= |f| && NL !in f[..n - 1] && (f[n - 1] == NL || n == |f|)
    ensures LineLength(f) == n
  {
    var m := LineLength(f);
    assert forall k | 0 <= k < n - 1 :: f[k] == f[..n - 1][k];
    assert forall k | 0 <= k < m - 1 :: f[k] == f[..m - 1][k];
  }

  lemma StrippedIs(line: Text, text: Text)
    requires text <= line && (text == [] || (text[|text| - 1] != NL && text[|text| - 1] != CR))
    requires forall k | |text| <= k < |line| :: line[k] == NL || line[k] == CR
    ensures Stripped(line) == text
  {
    hide Stripped;
    var s := Stripped(line);
    assert forall k | 0 <= k < |text| :: line[k] == text[k];
    assert forall k | 0 <= k < |s| :: line[k] == s[k];
    assert s == line[..|s|] && text == line[..|text|];
  }

  /** Every file is made of lines in this way. */
  lemma {:induction false} FileIsLines(f: Text) returns (ls: seq<FileLine>)
    ensures AreLines(ls) && FileOf(ls) == f
    decreases |f|
  {
    hide Stripped, LineLength, LineBytes, IsLine;
    if f == [] {
      ls := [];
    } else {
      var n := LineLength(f);
      var l := LineIs(f[..n]);
      if n == |f| {
        ls := [l];
        assert f[..n] == f && FileOf(ls[1..]) == [];
      } else {
        var rest := FileIsLines(f[n..]);
        ls := [l] + rest;
        assert f == f[..n] + f[n..] && ls[1..] == rest;
      }
    }
  }

  lemma LineIs(line: Text) returns (l: FileLine)
    requires line != [] && NL !in line[..|line| - 1]
    ensures IsLine(l) && LineBytes(l) == line && (l.ended <==> line[|line| - 1] == NL)
  {
    hide Stripped;
    var n := |line| - 1;
    var text, ended := Stripped(line), line[n] == NL;
    var m := if ended then n - |text| else |line| - |text|;
    forall k | |text| <= k < |line| && k < n ensures line[k] == CR { assert line[k] == line[..n][k]; }
    assert forall k | 0 <= k < |text| :: text[k] == line[k];
    l := FileLine(text, m, ended);
    assert LineBytes(l) == line;
    forall k | 0 <= k < |text| ensures text[k] != NL {
      assert text[k] == line[k];
      if k < n { assert line[k] == line[..n][k]; }
    }
  }

  // ---- What is kept -----------------------------------------------------------------

  /** The bytes other than line ends, in order. */
  function Solid(t: Text): Text {
    if t == [] then [] else Solid(t[..|t| - 1]) + if t[|t| - 1] == NL || t[|t| - 1] == CR then [] else [t[|t| - 1]]
  }

  lemma {:induction false} SolidOfBoth(a: Text, b: Text)
    ensures Solid(a + b) == Solid(a) + Solid(b)
  {
    if b == [] {
      assert a + b == a;
    } else {
      var b' := b[..|b| - 1];
      assert (a + b)[..|a + b| - 1] == a + b';
      SolidOfBoth(a, b');
    }
  }

  lemma {:induction false} LineEndsAreNotSolid(t: Text)
    requires forall k | 0 <= k < |t| :: t[k] == NL || t[k] == CR
    ensures Solid(t) == []
  {
    if t != [] { LineEndsAreNotSolid(t[..|t| - 1]); }
  }

  /** Whatever the file, loading loses no byte other than line ends, and adds none. */
  lemma {:induction false} LoadingKeepsSolid(f: Text)
    ensures Solid(Normalised(f)) == Solid(f)
  {
    hide Stripped, LineLength, Solid;
    if f != [] {
      var n := LineLength(f);
      var line, rest, s := f[..n], f[n..], Stripped(f[..n]);
      LoadingKeepsSolid(rest);
      assert f == line + rest && line == s + line[|s|..];
      SolidOfBoth(line, rest);
      SolidOfBoth(s, line[|s|..]);
      LineEndsAreNotSolid(line[|s|..]);
      LineEndsAreNotSolid([NL]);
      SolidOfBoth(s + [NL], Normalised(rest));
      SolidOfBoth(s, [NL]);
    }
  }
}
