/** How wide characters are.  The terminal library's `wcwidth` is a parameter: any
    function with results between -1 (not printable) and 2. */
module Geometry {
  import opened Text
  import opened Utf8

  type WcWidth = f: nat -> int | forall c: nat :: -1 <= f(c) <= 2 witness _ => 1

  const TAB: byte := 9
  const TAB_STOP := 8

  predicate IsControl(c: byte) {
    0 < c < 0x20 || c == 0x7F
  }

  function CharInStringWidth(wc: WcWidth, s: Text, i: nat): (w: nat)
    requires i < |s|
    ensures w <= 2
  {
    if s[i] < 0x20 then 2
    else if s[i] < 0x7F then 1
    else if s[i] == 0x7F then 2
    else
      var w := wc(Decode(s, i));
      if w < 0 then 1 else w
  }

  /** Columns taken by the character at byte `i` when it starts in column `col`. */
  function CellWidth(wc: WcWidth, s: Text, i: nat, col: nat): (w: nat)
    requires i < |s|
    ensures w <= TAB_STOP
  {
    if s[i] == TAB then TAB_STOP - col % TAB_STOP else CharInStringWidth(wc, s, i)
  }

  /** The column reached by walking whole characters from byte `b`, column `col`, until
      byte `stop` or the end of the row. */
  function Walk(wc: WcWidth, s: Text, b: nat, col: nat, stop: nat): (c: nat)
    ensures c >= col
    decreases |s| - b
  {
    if b >= stop || b >= |s| then col
    else Walk(wc, s, b + NBytes(s[b]), col + CellWidth(wc, s, b, col), stop)
  }

  function LineWidth(wc: WcWidth, s: Text): nat {
    Walk(wc, s, 0, 0, |s|)
  }

  /** Display column of a byte offset; anything at or past the end is the whole row. */
  function DisplayColumn(wc: WcWidth, s: Text, pos: int): nat {
    if pos < 0 then 0 else Walk(wc, s, 0, 0, pos)
  }

  lemma {:induction false} WalkIsMonotone(wc: WcWidth, s: Text, b: nat, col: nat, stop: nat)
    ensures Walk(wc, s, b, col, stop) <= Walk(wc, s, b, col, |s|)
    decreases |s| - b
  {
    if b < stop && b < |s| { WalkIsMonotone(wc, s, b + NBytes(s[b]), col + CellWidth(wc, s, b, col), stop); }
  }

  lemma {:induction false} WalkStopsAtTheEnd(wc: WcWidth, s: Text, b: nat, col: nat, stop: nat)
    requires |s| <= stop
    ensures Walk(wc, s, b, col, stop) == Walk(wc, s, b, col, |s|)
    decreases |s| - b
  {
    if b < |s| { WalkStopsAtTheEnd(wc, s, b + NBytes(s[b]), col + CellWidth(wc, s, b, col), stop); }
  }

  /** Walk to a byte offset. */
  method WalkToColumn(wc: WcWidth, s: Text, pos: int) returns (col: nat)
    ensures col == DisplayColumn(wc, s, pos)
  {
    hide CellWidth, NBytes;
    if pos < 0 { return 0; }
    var i := 0;
    col := 0;
    while i < pos && i < |s|
      invariant Walk(wc, s, i, col, pos) == DisplayColumn(wc, s, pos)
      decreases |s| - i
    {
      col, i := col + CellWidth(wc, s, i, col), i + NBytes(s[i]);
    }
  }

  // ---- Against code points ----

  /** Columns of a code point that starts in column `col`: a tab reaches the next tab stop,
      other controls are drawn as two characters, printable ASCII takes one column, and the
      terminal library is asked about everything else. */
  function Columns(wc: WcWidth, cp: nat, col: nat): nat {
    if cp == TAB then TAB_STOP - col % TAB_STOP
    else if cp < 0x20 || cp == 0x7F then 2
    else if cp < 0x80 then 1
    else if wc(cp) == -1 then 1
    else wc(cp)
  }

  /** The column reached by writing code points from column `col` on. */
  function Along(wc: WcWidth, cps: seq<nat>, col: nat): nat
    requires forall i | 0 <= i < |cps| :: IsScalar(cps[i])
  {
    if cps == [] then col else Along(wc, cps[1..], col + Columns(wc, cps[0], col))
  }

  lemma DecodeFrom(front: Text, s: Text)
    requires s != []
    ensures Decode(front + s, |front|) == Decode(s, 0)
  {
    hide Value2, Value3, Value4, IsCont;
    var t := front + s;
    assert forall k | 0 <= k < |s| :: t[|front| + k] == s[k];
  }

  lemma NBytesOfEncoded(cp: int)
    requires IsScalar(cp)
    ensures NBytes(Encode(cp)[0]) == |Encode(cp)|
  {
    if 0x10000 <= cp { assert cp / 0x40000 <= 4; }
  }

  /** Wherever a character is in a row, its width is that of its code point. */
  lemma WidthOfCharacter(wc: WcWidth, front: Text, cp: int, rest: Text, col: nat)
    requires IsScalar(cp)
    ensures var s := front + Encode(cp) + rest;
            CellWidth(wc, s, |front|, col) == Columns(wc, cp, col) && NBytes(s[|front|]) == |Encode(cp)|
  {
    hide Decode, NBytes;
    var s, e := front + Encode(cp) + rest, Encode(cp);
    assert s == front + (e + rest);
    DecodeFrom(front, e + rest);
    DecodeInvertsEncode(cp, rest);
    NBytesOfEncoded(cp);
    assert s[|front|] == e[0];
    assert if cp < 0x80 then e[0] == cp else e[0] >= 0x80;
  }

  lemma {:induction false} WalkIsAlong(wc: WcWidth, front: Text, cps: seq<nat>, rest: Text, col: nat)
    requires forall i | 0 <= i < |cps| :: IsScalar(cps[i])
    ensures var e := EncodeAll(cps);
            Walk(wc, front + e + rest, |front|, col, |front + e|) == Along(wc, cps, col)
    decreases |cps|
  {
    hide Encode, CellWidth, NBytes, Columns, IsScalar;
    if cps != [] {
      var c, tail, col' := Encode(cps[0]), EncodeAll(cps[1..]), col + Columns(wc, cps[0], col);
      WalkPast(wc, front, cps[0], tail, rest, col);
      WalkIsAlong(wc, front + c, cps[1..], rest, col');
    }
  }

  /** One character of a walk. */
  lemma {:induction false} WalkPast(wc: WcWidth, front: Text, cp: nat, tail: Text, rest: Text, col: nat)
    requires IsScalar(cp)
    ensures var c := Encode(cp);
            Walk(wc, front + (c + tail) + rest, |front|, col, |front + (c + tail)|) ==
            Walk(wc, (front + c) + tail + rest, |front + c|, col + Columns(wc, cp, col), |(front + c) + tail|)
  {
    hide Encode, CellWidth, NBytes, Columns, IsScalar;
    var c := Encode(cp);
    WidthOfCharacter(wc, front, cp, tail + rest, col);
    assert front + c + (tail + rest) == front + (c + tail) + rest == (front + c) + tail + rest;
  }

  /** The display column of a place in a row of text is that of the code points before it,
      and the width of the row that of all of them. */
  lemma {:induction false} ColumnOfCodePoints(wc: WcWidth, a: seq<nat>, b: seq<nat>)
    requires forall i | 0 <= i < |a| :: IsScalar(a[i])
    requires forall i | 0 <= i < |b| :: IsScalar(b[i])
    ensures DisplayColumn(wc, EncodeAll(a) + EncodeAll(b), |EncodeAll(a)|) == Along(wc, a, 0)
    ensures LineWidth(wc, EncodeAll(a)) == Along(wc, a, 0)
  {
    hide Walk, EncodeAll, Along;
    WalkIsAlong(wc, [], a, EncodeAll(b), 0);
    WalkIsAlong(wc, [], a, [], 0);
    assert [] + EncodeAll(a) + EncodeAll(b) == EncodeAll(a) + EncodeAll(b);
    assert [] + EncodeAll(a) + [] == EncodeAll(a) == [] + EncodeAll(a);
  }
}
