/** File names: cleaning an absolute path in place, relating two directories, and carrying
    a relative name from one working directory to another. */
module Paths {
  import opened Text

  const SLASH: byte := 0x2F
  const DOT: byte := 0x2E
  const TILDE: byte := 0x7E

  /** Segments a path can have and still be cleaned. */
  const MAX_SEGMENTS := 256

  // ---- What a path means -----------------------------------------------------

  /** Bytes before the first slash. */
  function SegmentLength(p: Text): (n: nat)
    ensures n <= |p| && SLASH !in p[..n] && (n < |p| ==> p[n] == SLASH)
  {
    if p == [] || p[0] == SLASH then 0 else
      assert p[..1 + SegmentLength(p[1..])] == [p[0]] + p[1..][..SegmentLength(p[1..])];
      1 + SegmentLength(p[1..])
  }

  /** A segment that names something. */
  predicate Names(seg: Text) {
    seg != [] && seg != [DOT] && seg != [DOT, DOT]
  }

  function Step(stack: seq<Text>, seg: Text): seq<Text> {
    if seg == [] || seg == [DOT] then stack
    else if seg == [DOT, DOT] then (if stack == [] then [] else stack[..|stack| - 1])
    else stack + [seg]
  }

  function AfterSegment(p: Text): (rest: Text)
    requires p != []
    ensures |rest| < |p|
  {
    var n := SegmentLength(p);
    if n < |p| then p[n + 1..] else []
  }

  /** The directories walked through when `p` is followed from `stack`. */
  function Resolve(p: Text, stack: seq<Text>): seq<Text>
    decreases |p|
  {
    if p == [] then stack else Resolve(AfterSegment(p), Step(stack, p[..SegmentLength(p)]))
  }

  /** Following `p` never needs more than the cleaner's room. */
  predicate FitsRoom(p: Text, stack: seq<Text>)
    decreases |p|
  {
    p == [] ||
    (var seg := p[..SegmentLength(p)];
     (Names(seg) ==> |stack| < MAX_SEGMENTS) && FitsRoom(AfterSegment(p), Step(stack, seg)))
  }

  /** Each of `ds` preceded by a slash. */
  function Slashed(ds: seq<Text>): Text {
    if ds == [] then [] else Slashed(ds[..|ds| - 1]) + [SLASH] + ds[|ds| - 1]
  }

  /** The clean name of a directory. */
  function Dir(ds: seq<Text>): Text {
    if ds == [] then [SLASH] else Slashed(ds)
  }

  predicate Normal(ds: seq<Text>) {
    forall i | 0 <= i < |ds| :: Names(ds[i]) && SLASH !in ds[i]
  }

  // ---- Laws --------------------------------------------------------------------

  lemma SegmentLengthIs(p: Text, n: nat)
    requires n <= |p| && SLASH !in p[..n] && (n < |p| ==> p[n] == SLASH)
    ensures SegmentLength(p) == n
  {
    var m := SegmentLength(p);
    assert forall k | 0 <= k < n :: p[k] == p[..n][k];
    assert forall k | 0 <= k < m :: p[k] == p[..m][k];
  }

  /** Following one path and then another. */
  lemma {:induction false} ResolveJoin(a: Text, b: Text, stack: seq<Text>)
    ensures Resolve(a + [SLASH] + b, stack) == Resolve(b, Resolve(a, stack))
    ensures FitsRoom(a + [SLASH] + b, stack) <==> FitsRoom(a, stack) && FitsRoom(b, Resolve(a, stack))
    decreases |a|
  {
    var p, n := a + [SLASH] + b, SegmentLength(a);
    assert p[..n] == a[..n];
    SegmentLengthIs(p, n);
    if n < |a| {
      assert AfterSegment(p) == AfterSegment(a) + [SLASH] + b;
      ResolveJoin(AfterSegment(a), b, Step(stack, a[..n]));
    } else {
      assert AfterSegment(p) == b;
      if a != [] { assert AfterSegment(a) == []; }
    }
  }

  lemma {:induction false} ResolveOne(d: Text, stack: seq<Text>)
    requires SLASH !in d
    ensures Resolve(d, stack) == Step(stack, d)
    ensures FitsRoom(d, stack) <==> (Names(d) ==> |stack| < MAX_SEGMENTS)
  {
    if d != [] {
      SegmentLengthIs(d, |d|);
      assert d[..|d|] == d;
      assert AfterSegment(d) == [];
    }
  }

  /** What one more segment does: an empty one and `.` nothing, `..` leaves the directory
      unless it is the root, and any other enters the directory of that name. */
  lemma SegmentsMean(p: Text, stack: seq<Text>, d: Text)
    requires 0x2F !in d
    ensures var at := Resolve(p, stack);
            Resolve(p + [0x2F] + d, stack) ==
            if d == [] || d == [0x2E] then at
            else if d != [0x2E, 0x2E] then at + [d]
            else if at == [] then []
            else at[..|at| - 1]
    ensures Resolve([0x2F] + d, stack) == Resolve(d, stack) && Resolve([], stack) == stack
  {
    hide Resolve, FitsRoom, Names;
    ResolveNone(stack);
    ResolveJoin(p, d, stack);
    ResolveOne(d, Resolve(p, stack));
    ResolveJoin([], d, stack);
    assert [] + [SLASH] + d == [SLASH] + d;
  }

  lemma {:induction false} ResolveSlashed(ds: seq<Text>, stack: seq<Text>)
    requires Normal(ds)
    ensures Resolve(Slashed(ds), stack) == stack + ds
    ensures |stack| + |ds| <= MAX_SEGMENTS ==> FitsRoom(Slashed(ds), stack)
  {
    hide Resolve, FitsRoom, Names, Step;
    if ds == [] {
      ResolveNone(stack);
      assert stack + ds == stack;
    } else {
      var n := |ds| - 1;
      var front, last := ds[..n], ds[n];
      ResolveSlashed(front, stack);
      ResolveJoin(Slashed(front), last, stack);
      ResolveOne(last, stack + front);
      StepInto(stack + front, last);
      assert stack + ds == stack + front + [last];
    }
  }

  lemma ResolveNone(stack: seq<Text>)
    ensures Resolve([], stack) == stack && FitsRoom([], stack)
  {
  }

  lemma StepInto(stack: seq<Text>, seg: Text)
    requires Names(seg)
    ensures Step(stack, seg) == stack + [seg]
  {
  }

  lemma {:induction false} ResolveDir(ds: seq<Text>)
    requires Normal(ds)
    ensures Resolve(Dir(ds), []) == ds
    ensures |ds| <= MAX_SEGMENTS ==> FitsRoom(Dir(ds), [])
  {
    if ds == [] {
      assert Dir(ds) == [] + [SLASH] + [];
      ResolveJoin([], [], []);
    } else {
      ResolveSlashed(ds, []);
      assert [] + ds == ds;
    }
  }

  /** Whatever is followed, what is walked through are proper names. */
  lemma {:induction false} ResolveIsNormal(p: Text, stack: seq<Text>)
    requires Normal(stack)
    ensures Normal(Resolve(p, stack))
    decreases |p|
  {
    if p != [] {
      ResolveIsNormal(AfterSegment(p), Step(stack, p[..SegmentLength(p)]));
    }
  }

  lemma {:induction false} ResolveWithinRoom(p: Text, stack: seq<Text>)
    requires FitsRoom(p, stack) && |stack| <= MAX_SEGMENTS
    ensures |Resolve(p, stack)| <= MAX_SEGMENTS
    decreases |p|
  {
    if p != [] {
      ResolveWithinRoom(AfterSegment(p), Step(stack, p[..SegmentLength(p)]));
    }
  }

  lemma {:induction false} SlashedConcat(a: seq<Text>, b: seq<Text>)
    ensures Slashed(a + b) == Slashed(a) + Slashed(b)
  {
    if b == [] {
      assert a + b == a;
    } else {
      var n := |b| - 1;
      assert (a + b)[..|a| + n] == a + b[..n];
      SlashedConcat(a, b[..n]);
    }
  }

  // ---- Cleaning in place ---------------------------------------------------------

  /** A piece of the path, by offsets. */
  datatype Piece = Piece(from: nat, to: nat)

  predicate Within(s: Text, pieces: seq<Piece>) {
    forall i | 0 <= i < |pieces| :: pieces[i].from <= pieces[i].to <= |s|
  }

  function Texts(s: Text, pieces: seq<Piece>): (texts: seq<Text>)
    requires Within(s, pieces)
    ensures |texts| == |pieces|
  {
    seq(|pieces|, i requires 0 <= i < |pieces| => s[pieces[i].from..pieces[i].to])
  }

  /** The stack of segments kept: in order, apart from each other, free of slashes, and all
      before `p`. */
  ghost predicate Stacked(s: Text, pieces: seq<Piece>, p: nat): (ok: bool)
    ensures ok ==> Within(s, pieces) && p <= |s|
  {
    p <= |s| &&
    (forall i | 0 <= i < |pieces| ::
       1 <= pieces[i].from < pieces[i].to <= |s| && pieces[i].to <= p &&
       SLASH !in s[pieces[i].from..pieces[i].to] &&
       (pieces[i].to == p ==> p == |s|)) &&
    (forall i, j | 0 <= i < j < |pieces| :: pieces[i].to < pieces[j].from)
  }

  /** Where the first segment that names something ends. */
  function FirstNameEnd(p: Text): (e: nat)
    ensures e <= |p|
    decreases |p|
  {
    var n := SegmentLength(p);
    if p == [] then 0
    else if Names(p[..n]) || n == |p| then n
    else n + 1 + FirstNameEnd(p[n + 1..])
  }

  /** What the cleaner leaves in the buffer.  Past its room it leaves only the first name,
      which it has already cut off from the rest. */
  function Cleaned(p: Text): Text {
    if FitsRoom(p, []) then Dir(Resolve(p, [])) else p[..FirstNameEnd(p)]
  }

  method MoveDown(path: array<byte>, to: nat, from: nat, len: nat)
    requires to <= from && from + len <= path.Length
    modifies path
    ensures path[to..to + len] == old(path[from..from + len])
    ensures forall k | 0 <= k < path.Length && !(to <= k < to + len) :: path[k] == old(path[k])
  {
    for i := 0 to len
      invariant path[to..to + i] == old(path[from..from + i])
      invariant forall k | 0 <= k < path.Length && !(to <= k < to + i) :: path[k] == old(path[k])
    {
      path[to + i] := path[from + i];
    }
  }

  /** Push or pop one segment, `s[from..to]`. */
  lemma StackStep(s: Text, pieces: seq<Piece>, from: nat, to: nat, p: nat)
    requires Stacked(s, pieces, from) && 1 <= from <= to <= |s| && SLASH !in s[from..to]
    requires p == if to < |s| then to + 1 else to
    ensures Stacked(s, pieces, p)
    ensures pieces != [] ==> Stacked(s, pieces[..|pieces| - 1], p) &&
                             Texts(s, pieces[..|pieces| - 1]) == Texts(s, pieces)[..|pieces| - 1]
    ensures from < to ==> Stacked(s, pieces + [Piece(from, to)], p) &&
                          Texts(s, pieces + [Piece(from, to)]) == Texts(s, pieces) + [s[from..to]]
  {
  }

  /** One turn of the scan in terms of the text: the segment at `from` ends at `to`. */
  lemma {:induction false} SegmentStep(s: Text, from: nat, to: nat, stack: seq<Text>)
    requires from < |s| && from <= to <= |s| && SLASH !in s[from..to] && (to < |s| ==> s[to] == SLASH)
    ensures var p, seg := (if to < |s| then to + 1 else to), s[from..to];
            Resolve(s[from..], stack) == Resolve(s[p..], Step(stack, seg)) &&
            (FitsRoom(s[from..], stack) <==>
             (Names(seg) ==> |stack| < MAX_SEGMENTS) && FitsRoom(s[p..], Step(stack, seg))) &&
            from + FirstNameEnd(s[from..]) == if Names(seg) then to else p + FirstNameEnd(s[p..])
  {
    hide SegmentLength, Step, Names;
    var rest, n := s[from..], to - from;
    assert rest[..n] == s[from..to];
    SegmentLengthIs(rest, n);
    if to < |s| {
      assert rest[n + 1..] == s[to + 1..];
    } else {
      assert s[to..] == [];
    }
  }

  /** The array still holds `s`, except that slashes before `p` may have been cut. */
  ghost predicate Intact(path: array<byte>, s: Text, p: nat)
    reads path
  {
    p <= |s| < path.Length && path[|s|] == 0 && 0 !in s &&
    forall k | 0 <= k < |s| :: (k >= p || s[k] != SLASH) ==> path[k] == s[k]
  }

  /** The next segment: it ends at `to`, and the scan goes on at `p`. */
  method NextSegment(path: array<byte>, ghost s: Text, from: nat) returns (to: nat, p: nat)
    requires Intact(path, s, from) && from < |s|
    ensures from <= to <= |s| && SLASH !in s[from..to] && (to < |s| ==> s[to] == SLASH)
    ensures p == if to < |s| then to + 1 else to
  {
    to := from;
    while path[to] != 0 && path[to] != SLASH
      invariant from <= to <= |s| && SLASH !in s[from..to]
      decreases |s| - to
    {
      assert s[from..to + 1] == s[from..to] + [s[to]];
      to := to + 1;
    }
    p := to;
    if path[p] == SLASH { p := p + 1; }
  }

  /** What the array shows as a string after the scan gave up. */
  ghost predicate CutOff(path: array<byte>, s: Text, e: nat)
    reads path
  {
    e <= |s| < path.Length && path[e] == 0 && path[..e] == s[..e]
  }

  /** Cut the segment that ends at `to` off from the rest; `e` is where the first one was. */
  method CutSegment(path: array<byte>, ghost s: Text, to: nat, ghost p: nat, ghost named: bool, ghost e: nat)
    requires Intact(path, s, to) && to <= p <= |s| && (to < |s| ==> s[to] == SLASH && to < p)
    requires if named then e <= to && CutOff(path, s, e) else e == to && path[..|s|] == s
    modifies path
    ensures Intact(path, s, p) && CutOff(path, s, e)
  {
    path[to] := 0;
  }

  lemma IntactOn(path: array<byte>, s: Text, p: nat, p': nat)
    requires Intact(path, s, p) && p <= p' <= |s|
    ensures Intact(path, s, p') && (p < |s| ==> path[p] == s[p] != 0) && path[|s|] == 0
  {
  }

  /** First pass: the stack of segments, each cut off from what follows it. */
  method Scan(path: array<byte>, ghost s: Text) returns (pieces: seq<Piece>, overflow: bool)
    requires Intact(path, s, 0) && s != [] && s[0] == SLASH
    modifies path
    ensures Intact(path, s, |s|)
    ensures overflow <==> !FitsRoom(s, [])
    ensures !overflow ==> Stacked(s, pieces, |s|) && Texts(s, pieces) == Resolve(s, [])
    ensures overflow ==> CutOff(path, s, FirstNameEnd(s))
  {
    hide Resolve, FitsRoom, FirstNameEnd, Texts, Stacked, Intact, CutOff, Within;
    pieces := [];
    var p := 1;
    ghost var named := false;
    ScanStarts(s);
    IntactOn(path, s, 0, 1);
    assert path[..|s|] == s && |s| < path.Length by { WholeIsIntact(path, s); }
    while path[p] != 0
      invariant Intact(path, s, p) && Stacked(s, pieces, p) && |s| < path.Length && path[|s|] == 0
      invariant Resolve(s[p..], Texts(s, pieces)) == Resolve(s, [])
      invariant FitsRoom(s[p..], Texts(s, pieces)) <==> FitsRoom(s, [])
      invariant if named then FirstNameEnd(s) <= p && CutOff(path, s, FirstNameEnd(s))
                else pieces == [] && path[..|s|] == s && FirstNameEnd(s) == p + FirstNameEnd(s[p..])
      decreases |s| - p
    {
      var from, to := p, p;
      to, p := NextSegment(path, s, from);
      SegmentStep(s, from, to, Texts(s, pieces));
      StackStep(s, pieces, from, to, p);
      var kind := Classify(path, s, from, to);
      if kind == Nothing {
        IntactOn(path, s, from, p);
        continue;
      } else if kind == Up {
        IntactOn(path, s, from, p);
        if |pieces| > 0 { pieces := pieces[..|pieces| - 1]; }
      } else {
        if |pieces| >= MAX_SEGMENTS {
          IntactOn(path, s, from, |s|);
          return pieces, true;
        }
        pieces := pieces + [Piece(from, to)];
        IntactOn(path, s, from, to);
        CutSegment(path, s, to, p, named, FirstNameEnd(s));
        named := true;
      }
    }
    AllScanned(s, Texts(s, pieces));
    IntactOn(path, s, p, |s|);
    assert s[p..] == [];
    overflow := false;
  }

  datatype Kind = Nothing | Up | Name

  /** What sort of segment lies between two offsets. */
  method Classify(path: array<byte>, ghost s: Text, from: nat, to: nat) returns (kind: Kind)
    requires Intact(path, s, from) && from <= to <= |s|
    ensures kind == if s[from..to] == [] || s[from..to] == [DOT] then Nothing
                    else if s[from..to] == [DOT, DOT] then Up else Name
  {
    var len := to - from;
    if len == 0 {
      kind := Nothing;
    } else if len == 1 && path[from] == DOT {
      assert s[from..to] == [DOT];
      kind := Nothing;
    } else if len == 2 && path[from] == DOT && path[from + 1] == DOT {
      assert s[from..to] == [DOT, DOT];
      kind := Up;
    } else {
      kind := Name;
    }
  }

  lemma WholeIsIntact(path: array<byte>, s: Text)
    requires Intact(path, s, 0)
    ensures |s| < path.Length && path[..|s|] == s && path[|s|] == 0
  {
  }

  lemma {:induction false} ScanStarts(s: Text)
    requires s != [] && s[0] == SLASH
    ensures Resolve(s[1..], Texts(s, [])) == Resolve(s, []) && (FitsRoom(s[1..], Texts(s, [])) <==> FitsRoom(s, []))
    ensures FirstNameEnd(s) == 1 + FirstNameEnd(s[1..]) && Stacked(s, [], 1)
  {
    assert s[..0] == [];
    if |s| == 1 { assert s[1..] == []; }
  }

  lemma AllScanned(s: Text, stack: seq<Text>)
    ensures Resolve([], stack) == stack && FitsRoom([], stack)
  {
  }

  /** The segments from `i` on are still where they were. */
  ghost predicate Pending(path: array<byte>, s: Text, pieces: seq<Piece>, i: nat)
    requires Within(s, pieces)
    reads path
  {
    |s| < path.Length &&
    forall j | i <= j < |pieces| :: path[pieces[j].from..pieces[j].to] == s[pieces[j].from..pieces[j].to]
  }

  lemma AllPending(path: array<byte>, s: Text, pieces: seq<Piece>)
    requires Intact(path, s, |s|) && Stacked(s, pieces, |s|)
    ensures Pending(path, s, pieces, 0)
  {
    forall j | 0 <= j < |pieces|
      ensures path[pieces[j].from..pieces[j].to] == s[pieces[j].from..pieces[j].to]
    {
      var a, b := pieces[j].from, pieces[j].to;
      assert forall k | a <= k < b :: s[k] == s[a..b][k - a];
    }
  }

  method MoveAndMark(path: array<byte>, to: nat, from: nat, len: nat, mark: byte)
    requires to <= from && from + len < path.Length
    modifies path
    ensures path[..to + len] == old(path[..to]) + old(path[from..from + len]) && path[to + len] == mark
    ensures forall k | to + len < k < path.Length && k >= from + len :: path[k] == old(path[k])
  {
    MoveDown(path, to, from, len);
    path[to + len] := mark;
    assert path[..to + len] == path[..to] + path[to..to + len];
  }

  /** Copy one segment down and close it with `mark`, a slash or the end of the string. */
  method PlaceSegment(path: array<byte>, ghost s: Text, pieces: seq<Piece>, i: nat, out: nat, mark: byte)
    returns (end: nat)
    requires Stacked(s, pieces, |s|) && i < |pieces| && Pending(path, s, pieces, i) && out <= pieces[i].from
    modifies path
    ensures end == out + pieces[i].to - pieces[i].from <= pieces[i].to <= |s| < path.Length
    ensures path[..end] == old(path[..out]) + s[pieces[i].from..pieces[i].to]
    ensures path[end] == mark && path[..end + 1] == path[..end] + [mark]
    ensures Pending(path, s, pieces, i + 1)
  {
    var len := pieces[i].to - pieces[i].from;
    MoveAndMark(path, out, pieces[i].from, len, mark);
    end := out + len;
    forall j | i < j < |pieces|
      ensures path[pieces[j].from..pieces[j].to] == s[pieces[j].from..pieces[j].to]
    {
      assert end < pieces[j].from;
      assert old(path[pieces[j].from..pieces[j].to]) == s[pieces[j].from..pieces[j].to];
    }
  }

  lemma SlashedNext(ds: seq<Text>, i: nat)
    requires i < |ds|
    ensures Slashed(ds[..i + 1]) == Slashed(ds[..i]) + [SLASH] + ds[i]
    ensures ds[..|ds|] == ds && ds[..0] == [] && Slashed([]) == []
  {
    assert ds[..i + 1][..i] == ds[..i];
  }

  lemma PiecesApart(s: Text, pieces: seq<Piece>, i: nat)
    requires Stacked(s, pieces, |s|) && i < |pieces|
    ensures 1 <= pieces[i].from < pieces[i].to <= |s|
    ensures Texts(s, pieces)[i] == s[pieces[i].from..pieces[i].to]
    ensures i + 1 < |pieces| ==> pieces[i].to < pieces[i + 1].from
  {
  }

  /** Second pass: write the segments back, each after a slash. */
  /** The first `i` segments stand at the front of the array, the next byte to write is
      `out`. */
  ghost predicate Written(path: array<byte>, s: Text, pieces: seq<Piece>, i: nat, out: nat)
    requires Stacked(s, pieces, |s|) && i <= |pieces|
    reads path
  {
    var texts := Texts(s, pieces);
    |s| < path.Length && out < path.Length &&
    if i < |pieces| then
      1 <= out <= pieces[i].from && Pending(path, s, pieces, i) && path[..out] == Slashed(texts[..i]) + [SLASH]
    else
      path[..out] == Dir(texts)
  }

  lemma NothingWritten(path: array<byte>, s: Text, pieces: seq<Piece>)
    requires Intact(path, s, |s|) && Stacked(s, pieces, |s|) && s != [] && path[0] == SLASH
    ensures Written(path, s, pieces, 0, 1)
  {
    hide Stacked, Pending;
    AllPending(path, s, pieces);
    assert path[..1] == [SLASH];
    if |pieces| > 0 {
      SlashedNext(Texts(s, pieces), 0);
      PiecesApart(s, pieces, 0);
    } else {
      NoTexts(s, pieces);
    }
  }

  lemma NoTexts(s: Text, pieces: seq<Piece>)
    requires Stacked(s, pieces, |s|) && pieces == []
    ensures Texts(s, pieces) == []
  {
  }

  /** The segment at `i` in its place, and a slash behind it unless it is the last. */
  method WriteSegment(path: array<byte>, ghost s: Text, pieces: seq<Piece>, i: nat, out: nat) returns (next: nat)
    requires Stacked(s, pieces, |s|) && i < |pieces| && Written(path, s, pieces, i, out)
    modifies path
    ensures Written(path, s, pieces, i + 1, next)
  {
    hide Stacked, Pending, Texts, Slashed, Within;
    ghost var texts := Texts(s, pieces);
    PiecesApart(s, pieces, i);
    SlashedNext(texts, i);
    var last := i == |pieces| - 1;
    next := PlaceSegment(path, s, pieces, i, out, if last then 0 else SLASH);
    assert path[..next] == Slashed(texts[..i + 1]);
    if !last {
      next := next + 1;
      PiecesApart(s, pieces, i + 1);
    }
  }

  method Reassemble(path: array<byte>, ghost s: Text, pieces: seq<Piece>) returns (m: nat)
    requires Intact(path, s, |s|) && Stacked(s, pieces, |s|) && s != [] && s[0] == SLASH
    modifies path
    ensures m < path.Length && path[m] == 0 && path[..m] == Dir(Texts(s, pieces))
  {
    hide Stacked, Pending, Texts, Dir;
    path[0] := SLASH;
    NothingWritten(path, s, pieces);
    hide Intact, Within;
    var out: nat, i: nat := 1, 0;
    while i < |pieces|
      invariant i <= |pieces| && Written(path, s, pieces, i, out)
    {
      out := WriteSegment(path, s, pieces, i, out);
      i := i + 1;
    }
    path[out] := 0;
    m := out;
  }

  predicate NulFree(ds: seq<Text>) {
    forall i | 0 <= i < |ds| :: 0 !in ds[i]
  }

  lemma {:induction false} ResolveHasNoNul(p: Text, stack: seq<Text>)
    requires 0 !in p && NulFree(stack)
    ensures NulFree(Resolve(p, stack))
    decreases |p|
  {
    if p != [] {
      var seg := p[..SegmentLength(p)];
      assert NulFree(Step(stack, seg));
      ResolveHasNoNul(AfterSegment(p), Step(stack, seg));
    }
  }

  lemma {:induction false} SlashedHasNoNul(ds: seq<Text>)
    requires NulFree(ds)
    ensures 0 !in Slashed(ds)
  {
    if ds != [] { SlashedHasNoNul(ds[..|ds| - 1]); }
  }

  lemma CleanedHasNoNul(p: Text)
    requires 0 !in p
    ensures 0 !in Cleaned(p)
  {
    hide Resolve, FitsRoom, FirstNameEnd;
    ResolveHasNoNul(p, []);
    SlashedHasNoNul(Resolve(p, []));
  }

  /** Canonicalise an absolute path, a NUL-terminated string, in place. */
  method CleanPath(path: array<byte>, ghost s: Text) returns (m: nat)
    requires Intact(path, s, 0) && s != [] && s[0] == SLASH
    modifies path
    ensures m < path.Length && path[m] == 0 && path[..m] == Cleaned(s) && 0 !in path[..m]
  {
    assert 0 !in s;
    CleanedHasNoNul(s);
    hide Intact, Stacked, Texts, Resolve, FitsRoom, FirstNameEnd;
    var pieces, overflow := Scan(path, s);
    if overflow {
      m := StringLength(path, s, FirstNameEnd(s));
      return;
    }
    m := Reassemble(path, s, pieces);
  }

  /** Length of the string the array shows once it has been cut at `e`. */
  method StringLength(path: array<byte>, ghost s: Text, ghost e: nat) returns (m: nat)
    requires CutOff(path, s, e) && 0 !in s
    ensures m == e < path.Length && path[m] == 0 && path[..m] == s[..e]
  {
    m := 0;
    assert forall k | 0 <= k < e :: path[k] == path[..e][k] == s[k];
    while path[m] != 0
      invariant m <= e
      decreases e - m
    {
      m := m + 1;
    }
  }

  /** The source says an overlong path comes back unmodified; it comes back cut short. */
  lemma {:induction false} OverflowCutsThePath(p: Text, stack: seq<Text>)
    requires !FitsRoom(p, stack) && |stack| < MAX_SEGMENTS
    ensures FirstNameEnd(p) < |p|
    decreases |p|
  {
    var n := SegmentLength(p);
    if n < |p| && !Names(p[..n]) {
      assert AfterSegment(p) == p[n + 1..];
      OverflowCutsThePath(p[n + 1..], Step(stack, p[..n]));
    }
  }

  /** A path that fits comes out clean: absolute, every segment a name, and cleaning it
      again changes nothing. */
  lemma CleanedIsClean(p: Text)
    requires FitsRoom(p, [])
    ensures Normal(Resolve(p, [])) && Cleaned(p) == Dir(Resolve(p, [])) && Cleaned(Cleaned(p)) == Cleaned(p)
  {
    hide Resolve, FitsRoom, Dir;
    ResolveIsNormal(p, []);
    ResolveWithinRoom(p, []);
    ResolveDir(Resolve(p, []));
  }

  /** Whatever stands between two slashes of a path of names, or after the last one, is one
      of the names. */
  lemma {:induction false} SlashedSegments(ds: seq<Text>, a: Text, seg: Text, b: Text)
    requires Normal(ds) && SLASH !in seg && (b == [] || b[0] == SLASH)
    requires Slashed(ds) == a + [SLASH] + seg + b
    ensures seg in ds
  {
    hide Names;
    var p := Slashed(ds);
    assert p[|a|] == SLASH;
    var front, last := ds[..|ds| - 1], ds[|ds| - 1];
    var n := |Slashed(front)|;
    assert forall k | n < k < |p| :: p[k] == last[k - n - 1];
    if |a| < n {
      SegmentInFront(Slashed(front), last, a, seg, b);
      SlashedSegments(front, a, seg, b[..|b| - 1 - |last|]);
    } else {
      SegmentAtTheEnd(Slashed(front), last, a, seg, b);
    }
  }

  lemma SegmentAtTheEnd(front: Text, last: Text, a: Text, seg: Text, b: Text)
    requires SLASH !in last && (b == [] || b[0] == SLASH)
    requires front + [SLASH] + last == a + [SLASH] + seg + b && |a| == |front|
    ensures seg == last
  {
    var p := front + [SLASH] + last;
    assert p[|a| + 1..] == last == seg + b;
  }

  lemma SegmentInFront(front: Text, last: Text, a: Text, seg: Text, b: Text)
    requires SLASH !in last && SLASH !in seg && (b == [] || b[0] == SLASH)
    requires front + [SLASH] + last == a + [SLASH] + seg + b && |a| < |front|
    ensures |b| >= 1 + |last|
    ensures var b' := b[..|b| - 1 - |last|];
            (b' == [] || b'[0] == SLASH) && front == a + [SLASH] + seg + b'
  {
    var p, n := front + [SLASH] + last, |front|;
    assert p[n] == SLASH;
    assert forall k | 0 <= k < |seg| :: seg[k] == p[|a| + 1 + k];
    assert front == p[..n];
  }

  /** A cleaned path is the root, or every segment of it names something. */
  lemma CleanedSegments(p: Text, a: Text, seg: Text, b: Text)
    requires FitsRoom(p, []) && Cleaned(p) == a + [SLASH] + seg + b
    requires SLASH !in seg && (b == [] || b[0] == SLASH)
    ensures Cleaned(p) == [SLASH] || seg !in {[], [0x2E], [0x2E, 0x2E]}
  {
    hide Resolve, FitsRoom;
    CleanedIsClean(p);
    var ds := Resolve(p, []);
    if ds != [] { SlashedSegments(ds, a, seg, b); }
  }
}
