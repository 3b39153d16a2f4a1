/** Every run: a buffer is loaded, and then any commands follow in any order, each with the
    clamp of cursor and mark behind it. */
module Runs {
  import opened Text
  import opened Utf8
  import opened Points
  import opened Records
  import opened History
  import opened Undoing
  import opened Landing
  import opened Clamping

  datatype Command =
    | Edit(start: Pos, end: Pos, repl: Text, coalesce: bool)
    | ChainedEdit(start: Pos, end: Pos, repl: Text)   // tied to the edit before it
    | Extend(rows: nat)
    | UndoBy(count: int)
    | RedoBy(count: int)
    | Save
    | Move(cursor: Pos, tracked: Tracked)             // motion, marks, windows, registers
    | SetReadOnly(on: bool)

  /** What the source asks of its callers: places of the text, in order, something to
      chain to, and a cursor row that is no negative index. */
  ghost predicate Allowed(doc: Doc, c: Command) {
    match c
    case Edit(s, e, _, _) => InBounds(doc.text, s) && InBounds(doc.text, e) && !Before(e, s)
    case ChainedEdit(s, e, _) => InBounds(doc.text, s) && InBounds(doc.text, e) && !Before(e, s) && doc.undo != []
    case Move(cursor, _) => cursor.y >= 0
    case _ => true
  }

  ghost function EditBetween(doc: Doc, s: Pos, e: Pos, repl: Text, chain: bool, coalesce: bool): Doc
    requires InBounds(doc.text, s) && InBounds(doc.text, e) && !Before(e, s)
  {
    OrderIsOffsetOrder(doc.text, e, s);
    EditAt(doc, OffsetOf(doc.text, s), OffsetOf(doc.text, e), repl, chain, coalesce)
  }

  /** What the command itself does. */
  ghost function Performed(doc: Doc, c: Command): (d: Doc)
    requires Inv(doc) && Allowed(doc, c)
  {
    match c
    case Edit(s, e, repl, coalesce) => EditBetween(doc, s, e, repl, false, coalesce)
    case ChainedEdit(s, e, repl) => EditBetween(doc, s, e, repl, true, false)
    case Extend(rows) => Extended(doc, rows)
    case UndoBy(count) => Undo(doc, count)
    case RedoBy(count) => Redo(doc, count)
    case Save => Saved(doc)
    case Move(cursor, tracked) => doc.(cursor := cursor, tracked := tracked)
    case SetReadOnly(on) => doc.(session := doc.session.(readOnly := on))
  }

  ghost function Exec(doc: Doc, c: Command): (d: Doc)
    requires Inv(doc) && Allowed(doc, c)
  {
    Settled(Performed(doc, c))
  }

  lemma PerformedKeepsInv(doc: Doc, c: Command)
    requires Inv(doc) && Allowed(doc, c)
    ensures Inv(Performed(doc, c)) && Performed(doc, c).session.base == doc.session.base
    ensures Performed(doc, c).session.isFile == doc.session.isFile
  {
    hide EditAt, Linked;
    match c
    case Edit(s, e, repl, coalesce) =>
      OrderIsOffsetOrder(doc.text, e, s);
      EditKeepsInv(doc, OffsetOf(doc.text, s), OffsetOf(doc.text, e), repl, false, coalesce);
      EditKeepsSession(doc, OffsetOf(doc.text, s), OffsetOf(doc.text, e), repl, false, coalesce);
    case ChainedEdit(s, e, repl) =>
      OrderIsOffsetOrder(doc.text, e, s);
      EditKeepsInv(doc, OffsetOf(doc.text, s), OffsetOf(doc.text, e), repl, true, false);
      EditKeepsSession(doc, OffsetOf(doc.text, s), OffsetOf(doc.text, e), repl, true, false);
    case Extend(rows) => ExtendedKeepsInv(doc, rows);
    case _ =>
  }

  lemma ExecKeepsInv(doc: Doc, c: Command)
    requires Inv(doc) && Allowed(doc, c)
    ensures Inv(Exec(doc, c)) && Exec(doc, c).session.base == doc.session.base
    ensures Exec(doc, c).session.isFile == doc.session.isFile
  {
    hide Performed, Inv;
    PerformedKeepsInv(doc, c);
    SettledKeepsInv(Performed(doc, c));
  }

  /** A run is possible if each command is allowed where it comes. */
  ghost predicate Possible(doc: Doc, cmds: seq<Command>)
    requires Inv(doc)
    decreases |cmds|
  {
    cmds != [] ==>
      Allowed(doc, cmds[0]) && (ExecKeepsInv(doc, cmds[0]); Possible(Exec(doc, cmds[0]), cmds[1..]))
  }

  ghost function After(doc: Doc, cmds: seq<Command>): (d: Doc)
    requires Inv(doc) && Possible(doc, cmds)
    ensures Inv(d) && d.session.base == doc.session.base && d.session.isFile == doc.session.isFile
    decreases |cmds|
  {
    if cmds == [] then doc
    else
      ExecKeepsInv(doc, cmds[0]);
      After(Exec(doc, cmds[0]), cmds[1..])
  }

  lemma ReadOnlyStep(doc: Doc, c: Command)
    requires Inv(doc) && Allowed(doc, c) && doc.session.readOnly && c != SetReadOnly(false)
    ensures var d := Exec(doc, c);
            d.text == doc.text && d.undo == doc.undo && d.redo == doc.redo && d.session.readOnly
  {
    hide EditAt, Inv, SplitRows, InBounds;
    match c
    case Edit(s, e, repl, coalesce) =>
      OrderIsOffsetOrder(doc.text, e, s);
      RefusalChangesNothing(doc, OffsetOf(doc.text, s), OffsetOf(doc.text, e), repl, false, coalesce);
    case ChainedEdit(s, e, repl) =>
      OrderIsOffsetOrder(doc.text, e, s);
      RefusalChangesNothing(doc, OffsetOf(doc.text, s), OffsetOf(doc.text, e), repl, true, false);
    case _ =>
  }

  /** Nothing done to a read-only buffer changes its text or its history, until it is made
      writable. */
  lemma {:induction false} ReadOnlyRunChangesNothing(doc: Doc, cmds: seq<Command>)
    requires Inv(doc) && Possible(doc, cmds) && doc.session.readOnly && SetReadOnly(false) !in cmds
    ensures var d := After(doc, cmds); d.text == doc.text && d.undo == doc.undo && d.redo == doc.redo
    decreases |cmds|
  {
    hide Exec, Inv, Allowed;
    if cmds != [] {
      ReadOnlyStep(doc, cmds[0]);
      ExecKeepsInv(doc, cmds[0]);
      ReadOnlyRunChangesNothing(Exec(doc, cmds[0]), cmds[1..]);
    }
  }

  /** A freshly loaded buffer. */
  ghost function Loaded(t: Text, isFile: bool, tracked: Tracked): (d: Doc)
    requires isFile ==> Terminated(t)
    ensures Inv(d) && d.session.base == t
  {
    Doc(t, [], [], tracked, ORIGIN, false, false, Session(isFile, false, false, t, t))
  }

  /** Whatever was done since the load, undoing often enough gives the loaded text back
      byte for byte, and leaves nothing to undo. */
  lemma AnyRunUndoesToTheLoadedText(t: Text, isFile: bool, tracked: Tracked, cmds: seq<Command>, count: int)
    requires isFile ==> Terminated(t)
    requires Possible(Loaded(t, isFile, tracked), cmds)
    requires var d := After(Loaded(t, isFile, tracked), cmds);
             !d.session.readOnly && Repeat(count) >= |d.undo|
    ensures var d := Undo(After(Loaded(t, isFile, tracked), cmds), count);
            d.undo == [] && d.text == t
  {
    hide Inv, Undo;
    UndoRestoresLoadedText(After(Loaded(t, isFile, tracked), cmds), count);
  }

  /** In every state a run reaches: a buffer marked clean holds exactly what was last
      loaded or saved; a file buffer is empty or ends in a newline; the text is not in
      the middle of a chain, and neither list can stop in one; and no record of either
      list stands for more than 21 keystrokes or has its end anywhere but past its data. */
  lemma AnyRunIsAtRest(t: Text, isFile: bool, tracked: Tracked, cmds: seq<Command>)
    requires isFile ==> Terminated(t)
    requires Possible(Loaded(t, isFile, tracked), cmds)
    ensures var d := After(Loaded(t, isFile, tracked), cmds);
            (!d.dirty ==> d.text == d.session.disk) &&
            (isFile ==> Terminated(d.text)) &&
            AtRest(d) && BottomUnpaired(d.undo) &&
            Bounded(d.undo) && Operations(d.undo) <= (MERGE_LIMIT + 1) * |d.undo| &&
            Bounded(d.redo) && Operations(d.redo) <= (MERGE_LIMIT + 1) * |d.redo|
  {
    hide Past, Future, Bounded, Operations, After;
    var d := After(Loaded(t, isFile, tracked), cmds);
    if isFile { RestIsTerminated(d); }
    PastIsBounded(d.text, d.undo, d.session.base, d.session.isFile);
    FutureIsBounded(d.text, d.redo, d.session.isFile);
    RunsAreBounded(d.undo);
    RunsAreBounded(d.redo);
  }

  // ---- Tracked points and UTF-8 over runs ----

  /** Everything tracked but the mark, which the clamp sees to. */
  ghost predicate OthersLand(t: Text, k: Tracked, utf8: bool) {
    AllLand(t, k.(mark := Pos(-1, -1)), utf8)
  }

  /** Callers that name characters: both ends on character boundaries, payload valid, and
      saved cursors, ring and registers set on places of the text.  Nothing is asked of
      where the cursor or the mark is put. */
  ghost predicate Considerate(doc: Doc, c: Command, utf8: bool) {
    Allowed(doc, c) &&
    match c
    case Edit(s, e, repl, _) => utf8 ==> Lands(doc.text, s, true) && Lands(doc.text, e, true) && ValidUtf8(repl)
    case ChainedEdit(s, e, repl) => utf8 ==> Lands(doc.text, s, true) && Lands(doc.text, e, true) && ValidUtf8(repl)
    case Move(_, tracked) => OthersLand(doc.text, tracked, utf8)
    case _ => true
  }

  /** Sound but for the mark. */
  ghost predicate NearlySound(doc: Doc, utf8: bool) {
    OthersLand(doc.text, doc.tracked, utf8) &&
    (utf8 ==> CleanPast(doc.text, doc.undo) && CleanFuture(doc.text, doc.redo))
  }

  lemma SoundIsNearlySound(doc: Doc, utf8: bool)
    requires Sound(doc, utf8)
    ensures NearlySound(doc, utf8)
  {
    hide Lands, CleanPast, CleanFuture, WindowLands;
  }

  lemma PerformedIsNearlySound(doc: Doc, c: Command, utf8: bool)
    requires Inv(doc) && Sound(doc, utf8) && Considerate(doc, c, utf8)
    ensures NearlySound(Performed(doc, c), utf8)
  {
    if c.Move? {
      hide NearlySound, Inv, Sound;
      MovedIsNearlySound(doc, c, utf8);
    } else {
      hide NearlySound;
      CommandSound(doc, c, utf8);
      SoundIsNearlySound(Performed(doc, c), utf8);
    }
  }

  lemma MovedIsNearlySound(doc: Doc, c: Command, utf8: bool)
    requires Inv(doc) && Sound(doc, utf8) && Considerate(doc, c, utf8) && c.Move?
    ensures NearlySound(Performed(doc, c), utf8)
  {
    hide Inv, AllLand, CleanPast, CleanFuture;
  }

  lemma CommandSound(doc: Doc, c: Command, utf8: bool)
    requires Inv(doc) && Sound(doc, utf8) && Considerate(doc, c, utf8) && !c.Move?
    ensures Sound(Performed(doc, c), utf8)
  {
    hide EditAt, Linked, Undo, Redo, Extended, AllLand, CleanPast, CleanFuture;
    match c
    case Edit(s, e, repl, coalesce) =>
      OrderIsOffsetOrder(doc.text, e, s);
      EditSound(doc, OffsetOf(doc.text, s), OffsetOf(doc.text, e), repl, false, coalesce, utf8);
    case ChainedEdit(s, e, repl) =>
      OrderIsOffsetOrder(doc.text, e, s);
      EditSound(doc, OffsetOf(doc.text, s), OffsetOf(doc.text, e), repl, true, false, utf8);
    case Extend(rows) => ExtendedSound(doc, rows, utf8);
    case UndoBy(count) => ReplaySound(doc, count, utf8);
    case RedoBy(count) => ReplaySound(doc, count, utf8);
    case _ =>
  }

  /** The clamp makes good what a command left of cursor and mark. */
  lemma SettledSound(doc: Doc, utf8: bool)
    requires NearlySound(doc, utf8)
    ensures Sound(Settled(doc), utf8) && Lands(Settled(doc).text, Settled(doc).cursor, utf8)
  {
    hide Lands, WindowLands, SplitRows, ClampedCursor, ClampedMark;
    if utf8 { CleanIsValid(doc.text, doc.undo); }
    hide CleanPast, CleanFuture;
    SettledLands(doc, utf8);
  }

  lemma CleanIsValid(t: Text, undo: seq<Record>)
    requires CleanPast(t, undo)
    ensures ValidUtf8(t)
  {
  }

  lemma ExecKeepsSound(doc: Doc, c: Command, utf8: bool)
    requires Inv(doc) && Sound(doc, utf8) && Considerate(doc, c, utf8)
    ensures Sound(Exec(doc, c), utf8) && Lands(Exec(doc, c).text, Exec(doc, c).cursor, utf8)
  {
    hide Performed, Inv, Sound, NearlySound, Lands, Settled;
    PerformedIsNearlySound(doc, c, utf8);
    SettledSound(Performed(doc, c), utf8);
  }

  ghost predicate AllConsiderate(doc: Doc, cmds: seq<Command>, utf8: bool)
    requires Inv(doc)
    decreases |cmds|
  {
    cmds != [] ==>
      Considerate(doc, cmds[0], utf8) &&
      (ExecKeepsInv(doc, cmds[0]); AllConsiderate(Exec(doc, cmds[0]), cmds[1..], utf8))
  }

  /** Every text a run rests in is valid UTF-8 with the cursor and every tracked point on
      a character boundary (`utf8`), or at the least all of them are in bounds. */
  lemma {:induction false} AnyRunIsSound(doc: Doc, cmds: seq<Command>, utf8: bool)
    requires Inv(doc) && Sound(doc, utf8) && Lands(doc.text, doc.cursor, utf8) && AllConsiderate(doc, cmds, utf8)
    ensures Possible(doc, cmds)
    ensures var d := After(doc, cmds);
            Sound(d, utf8) && Lands(d.text, d.cursor, utf8) && (utf8 ==> ValidUtf8(d.text))
    decreases |cmds|
  {
    hide Inv, Exec, Sound, Considerate, ValidUtf8, Lands;
    if cmds == [] {
      SoundIsValid(doc, utf8);
    } else {
      ConsiderateIsAllowed(doc, cmds[0], utf8);
      var d := Exec(doc, cmds[0]);
      ExecKeepsInv(doc, cmds[0]);
      ExecKeepsSound(doc, cmds[0], utf8);
      AnyRunIsSound(d, cmds[1..], utf8);
    }
  }

  lemma ConsiderateIsAllowed(doc: Doc, c: Command, utf8: bool)
    requires Considerate(doc, c, utf8)
    ensures Allowed(doc, c)
  {
  }

  lemma SoundIsValid(doc: Doc, utf8: bool)
    requires Sound(doc, utf8)
    ensures utf8 ==> ValidUtf8(doc.text)
  {
  }
}
