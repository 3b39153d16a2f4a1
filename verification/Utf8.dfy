/** The editor's UTF-8 layer.  `ValidUtf8` follows the validator byte for byte; it is then
    shown to accept exactly the encodings of sequences of non-zero Unicode scalar values,
    and to hold of a concatenation exactly when it holds of both parts. */
module Utf8 {
  import opened Text

  predicate IsCont(b: byte) {
    0x80 <= b <= 0xBF
  }

  function NBytes(b: byte): (n: nat)
    ensures 1 <= n <= 4
  {
    if b < 0x80 then 1
    else if 0xF0 <= b <= 0xF4 then 4
    else if 0xE0 <= b <= 0xEF then 3
    else if 0xC2 <= b <= 0xDF then 2
    else 1
  }

  // ---- Bit arithmetic of a 2-, 3- and 4-byte sequence ----

  function Value2(a: byte, b: byte): nat {
    a % 0x20 * 0x40 + b % 0x40
  }

  function Value3(a: byte, b: byte, c: byte): nat {
    a % 0x10 * 0x1000 + b % 0x40 * 0x40 + c % 0x40
  }

  function Value4(a: byte, b: byte, c: byte, d: byte): nat {
    a % 8 * 0x40000 + b % 0x40 * 0x1000 + c % 0x40 * 0x40 + d % 0x40
  }

  /** Length of the valid character at the front of `s`; 0 if the validator stops there. */
  function CharLen(s: Text): (n: nat)
    ensures n <= 4 && n <= |s|
  {
    if s == [] || s[0] == 0 then 0
    else
      var c := s[0];
      if c <= 0x7F then 1
      else if 0xC0 <= c <= 0xDF then
        if c < 0xC2 || |s| < 2 || !IsCont(s[1]) then 0 else 2
      else if 0xE0 <= c <= 0xEF then
        if |s| < 3 || !IsCont(s[1]) || !IsCont(s[2]) then 0
        else
          var cp := Value3(c, s[1], s[2]);
          if cp < 0x800 || 0xD800 <= cp <= 0xDFFF then 0 else 3
      else if 0xF0 <= c <= 0xF7 then
        if c > 0xF4 || |s| < 4 || !IsCont(s[1]) || !IsCont(s[2]) || !IsCont(s[3]) then 0
        else
          var cp := Value4(c, s[1], s[2], s[3]);
          if cp < 0x10000 || cp > 0x10FFFF then 0 else 4
      else 0
  }

  predicate ValidUtf8(s: Text) {
    s == [] || (CharLen(s) > 0 && ValidUtf8(s[CharLen(s)..]))
  }

  lemma FrontDecides(s: Text)
    ensures s == [] ==> ValidUtf8(s)
    ensures s != [] ==> (ValidUtf8(s) <==> CharLen(s) > 0 && ValidUtf8(s[CharLen(s)..]))
  {
    hide CharLen;
  }

  method Validate(buf: Text) returns (ok: bool)
    ensures ok == ValidUtf8(buf)
  {
    hide ValidUtf8, Value3, Value4;
    var i := 0;
    assert buf[0..] == buf;
    while i < |buf|
      invariant 0 <= i <= |buf|
      invariant ValidUtf8(buf) == ValidUtf8(buf[i..])
    {
      var c := buf[i];
      ghost var rest := buf[i..];
      FrontDecides(rest);
      var n := 0;
      if c == 0x00 {
        return false;
      } else if c <= 0x7F {
        n := 1;
      } else if 0xC0 <= c <= 0xDF {
        if c < 0xC2 { return false; }
        if i + 1 >= |buf| || !IsCont(buf[i + 1]) { return false; }
        n := 2;
      } else if 0xE0 <= c <= 0xEF {
        if i + 2 >= |buf| || !IsCont(buf[i + 1]) || !IsCont(buf[i + 2]) { return false; }
        var cp := Value3(c, buf[i + 1], buf[i + 2]);
        if cp < 0x800 { return false; }
        if 0xD800 <= cp <= 0xDFFF { return false; }
        n := 3;
      } else if 0xF0 <= c <= 0xF7 {
        if c > 0xF4 { return false; }
        if i + 3 >= |buf| || !IsCont(buf[i + 1]) || !IsCont(buf[i + 2]) || !IsCont(buf[i + 3]) { return false; }
        var cp := Value4(c, buf[i + 1], buf[i + 2], buf[i + 3]);
        if cp < 0x10000 { return false; }
        if cp > 0x10FFFF { return false; }
        n := 4;
      } else {
        return false;
      }
      assert CharLen(rest) == n;
      assert rest[n..] == buf[i + n..];
      i := i + n;
    }
    FrontDecides([]);
    assert buf[|buf|..] == [];
    return true;
  }

  // ---- Against the standard ----

  /** A Unicode scalar value other than NUL (RFC 3629 section 3 excludes surrogates). */
  predicate IsScalar(cp: int) {
    0 < cp <= 0x10FFFF && !(0xD800 <= cp <= 0xDFFF)
  }

  /** RFC 3629 section 3: the table of encodings. */
  function Encode(cp: int): Text
    requires IsScalar(cp)
  {
    if cp < 0x80 then [cp]
    else if cp < 0x800 then [0xC0 + cp / 0x40, 0x80 + cp % 0x40]
    else if cp < 0x10000 then [0xE0 + cp / 0x1000, 0x80 + cp / 0x40 % 0x40, 0x80 + cp % 0x40]
    else [0xF0 + cp / 0x40000, 0x80 + cp / 0x1000 % 0x40, 0x80 + cp / 0x40 % 0x40, 0x80 + cp % 0x40]
  }

  function EncodeAll(cps: seq<int>): Text
    requires forall i | 0 <= i < |cps| :: IsScalar(cps[i])
  {
    if cps == [] then [] else Encode(cps[0]) + EncodeAll(cps[1..])
  }

  /** The code point at index `i`; a byte that starts no complete sequence stands for
      itself.  Past the end the row's terminating NUL is read. */
  function Decode(s: Text, i: nat): (cp: nat)
    requires i < |s|
  {
    var at := (k: nat) => if k < |s| then s[k] else 0;
    var a := s[i];
    if 0xC2 <= a <= 0xDF then
      if !IsCont(at(i + 1)) then a else Value2(a, at(i + 1))
    else if 0xE0 <= a <= 0xEF then
      if !IsCont(at(i + 1)) || !IsCont(at(i + 2)) then a else Value3(a, at(i + 1), at(i + 2))
    else if 0xF0 <= a <= 0xF4 then
      if !IsCont(at(i + 1)) || !IsCont(at(i + 2)) || !IsCont(at(i + 3)) then a
      else Value4(a, at(i + 1), at(i + 2), at(i + 3))
    else a
  }

  lemma Digits(q: nat, r: nat, base: nat)
    requires base in {8, 0x10, 0x20, 0x40} && q < base && r < 0x40
    ensures (0x100 - 2 * base + q) % base == q
    ensures (0x80 + r) % 0x40 == r
  {
  }

  lemma Decode2(cp: int)
    requires 0x80 <= cp < 0x800
    ensures Value2(0xC0 + cp / 0x40, 0x80 + cp % 0x40) == cp
    ensures 0xC2 <= 0xC0 + cp / 0x40 <= 0xDF
  {
  }

  lemma Decode3(cp: int)
    requires 0x800 <= cp < 0x10000
    ensures Value3(0xE0 + cp / 0x1000, 0x80 + cp / 0x40 % 0x40, 0x80 + cp % 0x40) == cp
  {
    assert cp / 0x1000 == cp / 0x40 / 0x40;
    Digits(cp / 0x1000, cp / 0x40 % 0x40, 0x10);
    Digits(cp / 0x1000, cp % 0x40, 0x10);
  }

  lemma Decode4(cp: int)
    requires 0x10000 <= cp <= 0x10FFFF
    ensures Value4(0xF0 + cp / 0x40000, 0x80 + cp / 0x1000 % 0x40, 0x80 + cp / 0x40 % 0x40, 0x80 + cp % 0x40) == cp
  {
    assert cp / 0x1000 == cp / 0x40 / 0x40 && cp / 0x40000 == cp / 0x1000 / 0x40;
    Digits(cp / 0x40000, cp / 0x1000 % 0x40, 8);
    Digits(cp / 0x40000, cp / 0x40 % 0x40, 8);
    Digits(cp / 0x40000, cp % 0x40, 8);
  }

  lemma DecodeInvertsEncode(cp: int, rest: Text)
    requires IsScalar(cp)
    ensures var s := Encode(cp) + rest;
            CharLen(s) == |Encode(cp)| && Decode(s, 0) == cp
  {
    if 0x80 <= cp < 0x800 { Decode2(cp); }
    if 0x800 <= cp < 0x10000 { Decode3(cp); }
    if 0x10000 <= cp { Decode4(cp); }
  }

  lemma Encode2(a: byte, b: byte)
    requires 0xC2 <= a <= 0xDF && IsCont(b)
    ensures var cp := Value2(a, b); 0x80 <= cp < 0x800 && cp / 0x40 == a - 0xC0 && cp % 0x40 == b - 0x80
  {
  }

  lemma Low6(hi: nat, lo: nat)
    requires lo < 0x40
    ensures (hi * 0x40 + lo) / 0x40 == hi && (hi * 0x40 + lo) % 0x40 == lo
  {
  }

  lemma Encode3(a: byte, b: byte, c: byte)
    requires 0xE0 <= a <= 0xEF && IsCont(b) && IsCont(c)
    ensures var cp := Value3(a, b, c);
            cp / 0x1000 == a - 0xE0 && cp / 0x40 % 0x40 == b - 0x80 && cp % 0x40 == c - 0x80
  {
    var x, y, z := a - 0xE0, b - 0x80, c - 0x80;
    Low6(x * 0x40 + y, z);
    Low6(x, y);
    assert Value3(a, b, c) == (x * 0x40 + y) * 0x40 + z;
  }

  lemma Encode4(a: byte, b: byte, c: byte, d: byte)
    requires 0xF0 <= a <= 0xF4 && IsCont(b) && IsCont(c) && IsCont(d)
    ensures var cp := Value4(a, b, c, d);
            cp / 0x40000 == a - 0xF0 && cp / 0x1000 % 0x40 == b - 0x80 &&
            cp / 0x40 % 0x40 == c - 0x80 && cp % 0x40 == d - 0x80
  {
    var x, y, z, w := a - 0xF0, b - 0x80, c - 0x80, d - 0x80;
    var cp := ((x * 0x40 + y) * 0x40 + z) * 0x40 + w;
    Low6((x * 0x40 + y) * 0x40 + z, w);
    Low6(x * 0x40 + y, z);
    Low6(x, y);
    assert Value4(a, b, c, d) == cp by {
      assert a % 8 == x && b % 0x40 == y && c % 0x40 == z && d % 0x40 == w;
    }
    assert cp / 0x1000 == cp / 0x40 / 0x40 && cp / 0x40000 == cp / 0x40 / 0x40 / 0x40;
  }

  /** What it means that decoding and encoding agree on the first character of `s`. */
  predicate FrontRoundTrips(s: Text)
    requires CharLen(s) > 0
  {
    var cp := Decode(s, 0);
    IsScalar(cp) && Encode(cp) == s[..CharLen(s)] && NBytes(s[0]) == CharLen(s)
  }

  lemma FrontRoundTrips2(s: Text)
    requires CharLen(s) == 2
    ensures FrontRoundTrips(s)
  {
    hide Value2;
    Encode2(s[0], s[1]);
    assert Decode(s, 0) == Value2(s[0], s[1]);
  }

  lemma FrontRoundTrips3(s: Text)
    requires CharLen(s) == 3
    ensures FrontRoundTrips(s)
  {
    hide Value3;
    Encode3(s[0], s[1], s[2]);
    assert Decode(s, 0) == Value3(s[0], s[1], s[2]);
  }

  lemma FrontRoundTrips4(s: Text)
    requires CharLen(s) == 4
    ensures FrontRoundTrips(s)
  {
    hide Value4;
    Encode4(s[0], s[1], s[2], s[3]);
    assert Decode(s, 0) == Value4(s[0], s[1], s[2], s[3]);
  }

  lemma EncodeInvertsDecode(s: Text)
    requires CharLen(s) > 0
    ensures FrontRoundTrips(s)
  {
    var n := CharLen(s);
    if n == 2 { FrontRoundTrips2(s); }
    if n == 3 { FrontRoundTrips3(s); }
    if n == 4 { FrontRoundTrips4(s); }
  }

  /** The validator accepts exactly the UTF-8 encodings of NUL-free scalar sequences. */
  lemma {:induction false} ValidIffEncoded(s: Text)
    ensures ValidUtf8(s) <==>
            exists cps: seq<int> | (forall i | 0 <= i < |cps| :: IsScalar(cps[i])) :: EncodeAll(cps) == s
  {
    if ValidUtf8(s) {
      var cps := DecodeAll(s);
    }
    forall cps: seq<int> | (forall i | 0 <= i < |cps| :: IsScalar(cps[i])) && EncodeAll(cps) == s
      ensures ValidUtf8(s)
    {
      EncodedIsValid(cps);
    }
  }

  lemma {:induction false} DecodeAll(s: Text) returns (cps: seq<int>)
    requires ValidUtf8(s)
    ensures forall i | 0 <= i < |cps| :: IsScalar(cps[i])
    ensures EncodeAll(cps) == s
  {
    hide CharLen, Encode, Decode, NBytes;
    if s == [] {
      cps := [];
    } else {
      var n := CharLen(s);
      EncodeInvertsDecode(s);
      var rest := DecodeAll(s[n..]);
      cps := [Decode(s, 0)] + rest;
      assert cps[1..] == rest;
      assert s == s[..n] + s[n..];
    }
  }

  lemma {:induction false} EncodedIsValid(cps: seq<int>)
    requires forall i | 0 <= i < |cps| :: IsScalar(cps[i])
    ensures ValidUtf8(EncodeAll(cps))
  {
    if cps != [] {
      var e, rest := Encode(cps[0]), EncodeAll(cps[1..]);
      DecodeInvertsEncode(cps[0], rest);
      assert (e + rest)[|e|..] == rest;
      EncodedIsValid(cps[1..]);
    }
  }

  // ---- Cutting and joining ----

  /** A place where a cursor may stand: the start of a character or the end. */
  predicate Boundary(t: Text, o: nat)
    requires o <= |t|
  {
    o == |t| || !IsCont(t[o])
  }

  lemma {:induction false} ConcatValid(a: Text, b: Text)
    requires b == [] || !IsCont(b[0])
    ensures ValidUtf8(a + b) <==> ValidUtf8(a) && ValidUtf8(b)
  {
    if a == [] {
      assert a + b == b;
    } else {
      var n := CharLen(a);
      CharLenOfConcat(a, b);
      if n > 0 {
        assert (a + b)[n..] == a[n..] + b;
        ConcatValid(a[n..], b);
      }
    }
  }

  lemma CharLenOfConcat(a: Text, b: Text)
    requires a != [] && (b == [] || !IsCont(b[0]))
    ensures CharLen(a + b) == CharLen(a)
  {
    var s := a + b;
    assert forall k | 0 <= k < |a| :: s[k] == a[k];
    assert b != [] ==> s[|a|] == b[0];
  }

  /** A valid text has no NUL in it, so it can stand in a C string. */
  lemma {:induction false} ValidHasNoNul(t: Text)
    requires ValidUtf8(t)
    ensures 0 !in t
  {
    if t != [] {
      var n := CharLen(t);
      ValidHasNoNul(t[n..]);
      assert t == t[..n] + t[n..];
    }
  }

  lemma ValidPieces(t: Text, o: nat)
    requires ValidUtf8(t) && o <= |t| && Boundary(t, o)
    ensures ValidUtf8(t[..o]) && ValidUtf8(t[o..])
  {
    assert t == t[..o] + t[o..];
    ConcatValid(t[..o], t[o..]);
  }

  lemma ValidStartsCharacter(t: Text)
    requires ValidUtf8(t) && t != []
    ensures !IsCont(t[0])
  {
  }

  lemma ValidConcat(a: Text, b: Text)
    requires ValidUtf8(a) && ValidUtf8(b)
    ensures ValidUtf8(a + b)
  {
    if b != [] { ValidStartsCharacter(b); }
    ConcatValid(a, b);
  }

  lemma NewlineThen(row: Text)
    ensures ValidUtf8([NL] + row) <==> ValidUtf8(row)
  {
    assert ([NL] + row)[1..] == row;
  }

  lemma NewlineIsValid(n: nat)
    ensures ValidUtf8(Newlines(n))
  {
    if n > 0 {
      var s: Text := Newlines(n);
      NewlineIsValid(n - 1);
      assert s == [NL] + Newlines(n - 1);
      NewlineThen(Newlines(n - 1));
    }
  }

  /** Splicing a valid payload in at a boundary keeps the text valid. */
  lemma InsertKeepsValid(t: Text, o: nat, d: Text)
    requires o <= |t| && ValidUtf8(t) && Boundary(t, o) && ValidUtf8(d)
    ensures ValidUtf8(Insert(t, o, d))
  {
    ValidPieces(t, o);
    ValidConcat(t[..o], d);
    ValidConcat(t[..o] + d, t[o..]);
  }

  lemma DeleteKeepsValid(t: Text, o: nat, e: nat)
    requires o <= e <= |t| && ValidUtf8(t) && Boundary(t, o) && Boundary(t, e)
    ensures ValidUtf8(Delete(t, o, e))
  {
    ValidPieces(t, o);
    ValidPieces(t, e);
    ValidConcat(t[..o], t[e..]);
  }

  lemma ValidSlice(t: Text, o: nat, e: nat)
    requires o <= e <= |t| && ValidUtf8(t) && Boundary(t, o) && Boundary(t, e)
    ensures ValidUtf8(t[o..e])
  {
    ValidPieces(t, e);
    ValidPieces(t[..e], o);
    assert t[..e][o..] == t[o..e];
  }

  /** From a boundary, the next one is `NBytes` of the byte there further on. */
  lemma NextBoundary(t: Text, o: nat)
    requires ValidUtf8(t) && o < |t| && Boundary(t, o)
    ensures var n := NBytes(t[o]);
            o + n <= |t| && Boundary(t, o + n) && (forall k | o < k < o + n :: !Boundary(t, k))
  {
    ValidPieces(t, o);
    FrontCharacter(t[o..]);
    var n := NBytes(t[o]);
    assert o + n < |t| ==> t[o + n] == t[o..][n];
    assert forall k | o < k < o + n :: t[k] == t[o..][k - o];
  }

  lemma FrontCharacter(s: Text)
    requires ValidUtf8(s) && s != []
    ensures var n := NBytes(s[0]);
            n <= |s| && Boundary(s, n) && (forall k | 0 < k < n :: IsCont(s[k]))
  {
    hide Value3, Value4, Encode, Decode;
    var n := CharLen(s);
    EncodeInvertsDecode(s);
    if s[n..] != [] { ValidStartsCharacter(s[n..]); }
  }

  /** Smallest character boundary at or after `x`; a column past the row stays. */
  function SnapFwd(row: Text, x: nat): (b: nat)
    ensures b >= x
    ensures 0 < x < |row| ==> b <= |row| && Boundary(row, b) && forall k | x <= k < b :: !Boundary(row, k)
    ensures x == 0 || x >= |row| ==> b == x
    decreases |row| - x
  {
    if 0 < x < |row| && IsCont(row[x]) then SnapFwd(row, x + 1) else x
  }

  /** A column moved forward to a boundary of its row, and not past its end. */
  function Snapped(row: Text, x: int): (b: nat)
    ensures b <= |row| && (b == 0 || Boundary(row, b))
    ensures x <= b || x > |row|
  {
    if x <= 0 then 0 else if x >= |row| then |row| else SnapFwd(row, x)
  }

  /** Move a byte offset to a boundary of its row, forwards or backwards. */
  method SnapToBoundary(chars: Text, cx: int, dir: int) returns (r: int)
    ensures 0 <= r <= |chars|
    ensures r == 0 || Boundary(chars, r)
    ensures cx < 0 ==> r == 0
    ensures cx > |chars| ==> r == |chars|
    ensures 0 <= cx <= |chars| && (cx == 0 || Boundary(chars, cx)) ==> r == cx
    ensures dir > 0 ==> r == Snapped(chars, cx) && forall k | 0 < cx <= k < r :: !Boundary(chars, k)
    ensures 0 <= cx <= |chars| && dir <= 0 ==> r <= cx && forall k | r < k <= cx :: !Boundary(chars, k)
  {
    if cx <= 0 { return 0; }
    if cx >= |chars| { return |chars|; }
    r := cx;
    if dir > 0 {
      while r < |chars| && IsCont(chars[r])
        invariant cx <= r <= |chars| && SnapFwd(chars, r) == SnapFwd(chars, cx)
        invariant forall k | cx <= k < r :: IsCont(chars[k])
      {
        r := r + 1;
      }
    } else {
      while r > 0 && IsCont(chars[r])
        invariant 0 <= r <= cx
        invariant forall k | r < k <= cx :: IsCont(chars[k])
      {
        r := r - 1;
      }
    }
  }
}
