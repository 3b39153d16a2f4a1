/** Flat text, and the two ways the editor addresses it.

    A buffer stands for one byte string.  Commands name places in it by a column
    and a row, `Pos(x, y)`; arguments about edits are simplest in byte offsets.
    Everything that links the two is one fold: `Advance(p, s)` is where a point that
    stands at `p` ends up after the bytes of `s` have been laid down in front of it.
    The place with offset `o` is then `Advance(Pos(0, 0), text[..o])`. */
module Text {
  type byte = x: int | 0 <= x < 256

  const NL: byte := 10

  type Text = seq<byte>

  /** A column (byte offset within the row) and a row.  Signed, because -1 marks
      "not set" in the editor's own fields. */
  datatype Pos = Pos(x: int, y: int)

  const ORIGIN := Pos(0, 0)

  function Step(p: Pos, b: byte): Pos {
    if b == NL then Pos(0, p.y + 1) else Pos(p.x + 1, p.y)
  }

  function Advance(p: Pos, s: Text): Pos {
    if s == [] then p else Step(Advance(p, s[..|s| - 1]), s[|s| - 1])
  }

  /** The reading-order on places. */
  predicate Before(p: Pos, q: Pos) {
    p.y < q.y || (p.y == q.y && p.x < q.x)
  }

  lemma {:induction false} AdvanceConcat(p: Pos, a: Text, b: Text)
    ensures Advance(p, a + b) == Advance(Advance(p, a), b)
  {
    if b == [] {
      assert a + b == a;
    } else {
      var b' := b[..|b| - 1];
      assert (a + b)[..|a + b| - 1] == a + b';
      AdvanceConcat(p, a, b');
    }
  }

  /** Laying the same bytes down from two different places: both points move the same
      number of rows, and the columns differ only while no newline has been passed. */
  lemma {:induction false} AdvanceShift(p: Pos, q: Pos, s: Text)
    ensures Advance(p, s).y - p.y == Advance(q, s).y - q.y >= 0
    ensures if Advance(q, s).y == q.y
            then Advance(p, s).x - p.x == Advance(q, s).x - q.x == |s|
            else Advance(p, s).x == Advance(q, s).x >= 0
  {
    if s != [] {
      AdvanceShift(p, q, s[..|s| - 1]);
    }
  }

  lemma {:induction false} AdvanceForward(p: Pos, s: Text)
    requires s != []
    ensures Before(p, Advance(p, s))
  {
    if |s| > 1 {
      AdvanceForward(p, s[..|s| - 1]);
    }
  }

  /** A newline-free run moves the column only. */
  lemma {:induction false} AdvanceAlongRow(p: Pos, s: Text)
    requires NL !in s
    ensures Advance(p, s) == Pos(p.x + |s|, p.y)
  {
    if s != [] {
      AdvanceAlongRow(p, s[..|s| - 1]);
    }
  }

  // ---- Offsets ----

  function PosAt(t: Text, o: nat): Pos
    requires o <= |t|
  {
    Advance(ORIGIN, t[..o])
  }

  lemma PosAtOrder(t: Text, o: nat, o': nat)
    requires o < o' <= |t|
    ensures Before(PosAt(t, o), PosAt(t, o'))
  {
    assert t[..o'] == t[..o] + t[o..o'];
    AdvanceConcat(ORIGIN, t[..o], t[o..o']);
    AdvanceForward(PosAt(t, o), t[o..o']);
  }

  lemma PosAtInjective(t: Text, o: nat, o': nat)
    requires o <= |t| && o' <= |t|
    requires PosAt(t, o) == PosAt(t, o')
    ensures o == o'
  {
    if o < o' {
      PosAtOrder(t, o, o');
    } else if o' < o {
      PosAtOrder(t, o', o);
    }
  }

  ghost predicate InBounds(t: Text, p: Pos) {
    exists o: nat | o <= |t| :: PosAt(t, o) == p
  }

  /** The offset of a place; `PosAtInjective` makes it the only one. */
  ghost function OffsetOf(t: Text, p: Pos): (o: nat)
    requires InBounds(t, p)
    ensures o <= |t| && PosAt(t, o) == p
  {
    var o: nat :| o <= |t| && PosAt(t, o) == p;
    o
  }

  lemma OffsetOfPosAt(t: Text, o: nat)
    requires o <= |t|
    ensures InBounds(t, PosAt(t, o)) && OffsetOf(t, PosAt(t, o)) == o
  {
    PosAtInjective(t, o, OffsetOf(t, PosAt(t, o)));
  }

  /** Reading order is offset order. */
  lemma OrderIsOffsetOrder(t: Text, p: Pos, q: Pos)
    requires InBounds(t, p) && InBounds(t, q)
    ensures Before(p, q) <==> OffsetOf(t, p) < OffsetOf(t, q)
  {
    var o, o' := OffsetOf(t, p), OffsetOf(t, q);
    if o < o' {
      PosAtOrder(t, o, o');
    } else if o' < o {
      PosAtOrder(t, o', o);
    }
  }

  // ---- Splices ----

  function Insert(t: Text, o: nat, d: Text): Text
    requires o <= |t|
  {
    t[..o] + d + t[o..]
  }

  function Delete(t: Text, o: nat, e: nat): Text
    requires o <= e <= |t|
  {
    t[..o] + t[e..]
  }

  lemma DeleteUndoesInsert(t: Text, o: nat, d: Text)
    requires o <= |t|
    ensures Insert(t, o, d)[o..o + |d|] == d
    ensures Delete(Insert(t, o, d), o, o + |d|) == t
  {
    assert t == t[..o] + t[o..];
  }

  lemma InsertUndoesDelete(t: Text, o: nat, e: nat)
    requires o <= e <= |t|
    ensures Insert(Delete(t, o, e), o, t[o..e]) == t
  {
    assert t == t[..o] + t[o..e] + t[e..];
  }

  /** Places up to the splice keep their coordinates. */
  lemma PosAtPrefix(t: Text, t': Text, o: nat)
    requires o <= |t| && o <= |t'|
    requires t[..o] == t'[..o]
    ensures PosAt(t, o) == PosAt(t', o)
  {
  }

  /** Where an insertion ends: advancing the start over the payload is the place just
      past it in the new text. */
  lemma EndOfInsert(t: Text, o: nat, d: Text)
    requires o <= |t|
    ensures PosAt(Insert(t, o, d), o) == PosAt(t, o)
    ensures PosAt(Insert(t, o, d), o + |d|) == Advance(PosAt(t, o), d)
  {
    var t' := Insert(t, o, d);
    assert t'[..o] == t[..o];
    assert t'[..o + |d|] == t[..o] + d;
    AdvanceConcat(ORIGIN, t[..o], d);
  }

  /** The same fact read in the text that already holds the payload. */
  lemma EndOfSlice(t: Text, o: nat, e: nat)
    requires o <= e <= |t|
    ensures PosAt(t, e) == Advance(PosAt(t, o), t[o..e])
  {
    assert t[..e] == t[..o] + t[o..e];
    AdvanceConcat(ORIGIN, t[..o], t[o..e]);
  }

  function Newlines(n: nat): (s: Text)
    ensures |s| == n && forall i | 0 <= i < n :: s[i] == NL
  {
    seq(n, _ => NL)
  }
}
