/** Loading a file into a fresh buffer, and saving it.  The file system is not part of
    this: a file is its bytes, and a save either writes all of them or has no effect. */
module Files {
  import opened Text
  import opened Utf8
  import opened Lines
  import opened Points
  import opened History
  import opened Landing
  import opened Loading
  import opened RowStore
  import opened RowSplice
  import opened EditBuffer

  /** The rows of a file: one for each line, and an empty one to end the last. */
  method LoadRows(rows: Rows, file: Text)
    requires rows.Valid()
    modifies rows.Repr
    ensures Standing(rows) && fresh(rows.Repr - old(rows.Repr))
    ensures Join(rows.Lines) == Normalised(file)
  {
    hide Ended, Join, Rows.Valid;
    rows.Reset();
    EndedOfNone();
    var p := 0;
    assert file[0..] == file;
    while p < |file|
      invariant 0 <= p <= |file|
      invariant rows.Valid() && fresh(rows.Repr - old(rows.Repr)) && NlFree(rows.Lines)
      invariant Ended(rows.Lines) + Normalised(file[p..]) == Normalised(file)
    {
      p := LoadRow(rows, file, p);
    }
    ClosedByEmptyRow(rows.Lines);
    AppendRow(rows, []);
  }

  method AppendRow(rows: Rows, line: Text)
    requires rows.Valid() && NlFree(rows.Lines) && NL !in line
    modifies rows.Repr
    ensures rows.Valid() && fresh(rows.Repr - old(rows.Repr)) && NlFree(rows.Lines)
    ensures rows.Lines == old(rows.Lines) + [line]
  {
    rows.InsertRow(rows.numrows, line);
  }

  method LoadRow(rows: Rows, file: Text, at: nat) returns (p: nat)
    requires rows.Valid() && NlFree(rows.Lines) && at < |file|
    modifies rows.Repr
    ensures rows.Valid() && fresh(rows.Repr - old(rows.Repr)) && NlFree(rows.Lines)
    ensures at < p <= |file|
    ensures Ended(rows.Lines) + Normalised(file[p..]) == old(Ended(rows.Lines)) + Normalised(file[at..])
  {
    hide Ended, Rows.Valid, Normalised;
    var n := NextLine(file, at);
    LineIsNext(file, at, n, Ended(rows.Lines));
    var line := StripEnd(file[at..at + n]);
    EndedConcat(rows.Lines, [line]);
    EndedOne(line);
    AppendRow(rows, line);
    p := at + n;
  }

  /** Read up to and including the next newline, or to the end. */
  method NextLine(file: Text, p: nat) returns (n: nat)
    requires p < |file|
    ensures n == LineLength(file[p..])
  {
    n := 0;
    while true
      invariant p + n < |file|
      invariant n + LineLength(file[p + n..]) == LineLength(file[p..])
      decreases |file| - n
    {
      assert file[p + n..][1..] == file[p + n + 1..];
      n := n + 1;
      if file[p + n - 1] == NL || p + n == |file| { return; }
    }
  }

  lemma LineIsNext(file: Text, p: nat, n: nat, done: Text)
    requires p < |file| && n == LineLength(file[p..])
    ensures p + n <= |file| && NL !in Stripped(file[p..p + n])
    ensures done + Normalised(file[p..])
            == (done + (Stripped(file[p..p + n]) + [NL])) + Normalised(file[p + n..])
  {
    hide Stripped, LineLength;
    var f := file[p..];
    assert f[..n] == file[p..p + n] && f[n..] == file[p + n..];
    StrippedHasNoNewline(f[..n]);
    var s, rest := Stripped(f[..n]), Normalised(f[n..]);
    assert Normalised(f) == s + [NL] + rest;
    assert done + (s + [NL] + rest) == (done + (s + [NL])) + rest;
  }

  lemma {:induction false} StrippedHasNoNewline(line: Text)
    requires line != [] && NL !in line[..|line| - 1]
    ensures NL !in Stripped(line)
  {
    var n, s := |line| - 1, Stripped(line);
    forall k | 0 <= k < |s| ensures s[k] != NL {
      assert s[k] == line[k];
      if k < n { assert line[k] == line[..n][k]; }
    }
  }

  const NOTHING_TRACKED := Tracked(Pos(-1, -1), [], [], [])

  /** Open a file into a new buffer.  A file with a NUL byte is refused before anything is
      read; one that is not UTF-8 leaves the buffer empty; one that cannot be written, or that
      another process has locked, is read-only. */
  method Open(buf: Buffer, file: Text, writable: bool, locked: bool) returns (ok: bool)
    requires buf.Valid() && buf.isFile && buf.Model() == Fresh(buf.Model(), [])
    modifies buf, buf.rows.Repr
    ensures buf.Valid() && fresh(buf.rows.Repr - old(buf.rows.Repr))
    ensures ok <==> 0 !in file && ValidUtf8(Normalised(file))
    ensures var doc := Fresh(old(buf.Model()), if ok then Normalised(file) else []);
            var readOnly := old(buf.readOnly) || (ok && (!writable || locked));
            buf.Model() == doc.(session := doc.session.(readOnly := readOnly))
  {
    hide Join, Rows.Valid, Normalised, ValidUtf8;
    if 0 in file { return false; }
    LoadRows(buf.rows, file);
    RowsValidIffTextValid(buf.rows.Lines);
    ok := CheckUtf8(buf.rows);
    if !ok {
      buf.rows.Reset();
      AppendRow(buf.rows, []);
      assert buf.rows.Lines == [[]];
      JoinOfOne([]);
    }
    buf.base, buf.disk := buf.TextOf(), buf.TextOf();
    if ok {
      if !writable { buf.readOnly := true; }
      if locked { buf.readOnly := true; }
    }
  }

  /** A buffer just loaded with `t`: no history, clean, nothing tracked. */
  function Fresh(doc: Doc, t: Text): Doc {
    doc.(text := t, undo := [], redo := [], dirty := false, tracked := NOTHING_TRACKED,
         session := doc.session.(everSaved := false, base := t, disk := t))
  }

  method CheckUtf8(rows: Rows) returns (ok: bool)
    requires Standing(rows)
    ensures ok == forall i | 0 <= i < |rows.Lines| :: ValidUtf8(rows.Lines[i])
  {
    hide Rows.Valid, ValidUtf8, Join;
    for i := 0 to rows.numrows
      invariant forall j | 0 <= j < i :: ValidUtf8(rows.Lines[j])
    {
      var line := rows.Suffix(i, 0);
      assert line == rows.Lines[i];
      var valid := Validate(line);
      if !valid { return false; }
    }
    return true;
  }

  /** Every buffer that was opened starts a run: its history is empty and replayable, it
      ends in a newline, and its text is valid UTF-8. */
  lemma OpenedIsSound(doc: Doc, file: Text)
    requires doc.session.isFile && ValidUtf8(Normalised(file))
    ensures var d := Fresh(doc, Normalised(file));
            Inv(d) && Sound(d, true) && (d.cursor == ORIGIN ==> Lands(d.text, d.cursor, true))
  {
    hide ValidUtf8, Normalised;
    NormalisedIsTerminated(file);
    var t := Normalised(file);
    assert PosAt(t, 0) == ORIGIN;
    OffsetOfPosAt(t, 0);
    if t != [] { ValidStartsCharacter(t); }
  }

  /** A save of text that is not UTF-8 is refused and changes nothing.  Any other writes
      the text as it is and marks the buffer clean. */
  method SaveBuffer(buf: Buffer) returns (ok: bool, written: array<byte>, len: nat)
    requires buf.Valid()
    modifies buf
    ensures buf.Valid()
    ensures ok <==> ValidUtf8(old(buf.TextOf()))
    ensures ok ==> written.Length == len + 1 && written[..len] == old(buf.TextOf())
    ensures buf.Model() == if ok then Saved(old(buf.Model())) else old(buf.Model())
    ensures ok ==> !buf.dirty && buf.TextOf() == old(buf.TextOf())
    ensures buf.undo == old(buf.undo) && buf.redo == old(buf.redo)
  {
    hide Join, Rows.Valid, ValidUtf8;
    RowsValidIffTextValid(buf.rows.Lines);
    ok := CheckUtf8(buf.rows);
    if !ok {
      written, len := new byte[0], 0;
      return;
    }
    written, len := buf.rows.RowsToString();
    buf.dirty := false;
    buf.internalMod := true;
    buf.disk := buf.TextOf();
  }

  /** Opening a file and saving it unedited writes the same bytes back exactly when the
      file ends in a newline (or is empty) and no line of it ends in a carriage return. */
  lemma OpenThenSaveIsIdentity(file: Text)
    ensures Normalised(file) == file <==> Terminated(file) && !HasLineEndingInCr(file)
  {
    LoadingKeepsTheBytes(file);
    NormalisedIsTerminated(file);
  }
}
