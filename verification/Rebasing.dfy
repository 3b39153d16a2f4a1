/** Relating two directories, and carrying a relative file name from one working directory
    to another. */
module Rebasing {
  import opened Text
  import opened Paths

  // ---- Relating directories --------------------------------------------------------

  /** The byte at `i`, or the terminating NUL. */
  function At(s: Text, i: nat): byte {
    if i < |s| then s[i] else 0
  }

  /** `n` steps up, each followed by a slash. */
  function Ups(n: nat): Text {
    if n == 0 then [] else Ups(n - 1) + [DOT, DOT, SLASH]
  }

  /** Slash-separated, no slash in front. */
  function Tailed(ds: seq<Text>): Text {
    if ds == [] then [] else Slashed(ds)[1..]
  }

  /** The name that leads `ups` directories up and then down through `down`. */
  function Relative(ups: nat, down: seq<Text>): Text {
    if down != [] then Ups(ups) + Tailed(down)
    else if ups > 0 then Ups(ups)[..|Ups(ups)| - 1]
    else []
  }

  /** How many leading directories two paths share. */
  function Shared(a: seq<Text>, b: seq<Text>): (k: nat)
    ensures k <= |a| && k <= |b| && a[..k] == b[..k]
    ensures k < |a| && k < |b| ==> a[k] != b[k]
  {
    if a == [] || b == [] || a[0] != b[0] then 0
    else
      var k := Shared(a[1..], b[1..]);
      assert a[..k + 1] == [a[0]] + a[1..][..k] && b[..k + 1] == [b[0]] + b[1..][..k];
      k + 1
  }

  lemma {:induction false} UpsTake(n: nat, stack: seq<Text>, p: Text)
    requires n <= |stack|
    ensures Resolve(Ups(n) + p, stack) == Resolve(p, stack[..|stack| - n])
    ensures FitsRoom(Ups(n) + p, stack) <==> FitsRoom(p, stack[..|stack| - n])
  {
    hide Resolve, FitsRoom, Paths.Step;
    if n == 0 {
      assert Ups(0) + p == p && stack[..|stack|] == stack;
    } else {
      UpsSplit(n, p);
      var rest, left := [DOT, DOT] + [SLASH] + p, stack[..|stack| - (n - 1)];
      UpsTake(n - 1, stack, rest);
      OneUp(left, p);
      assert left[..|left| - 1] == stack[..|stack| - n];
    }
  }

  lemma UpsSplit(n: nat, p: Text)
    requires n > 0
    ensures Ups(n) + p == Ups(n - 1) + ([DOT, DOT] + [SLASH] + p)
    ensures Ups(n)[..|Ups(n)| - 1] == Ups(n - 1) + [DOT, DOT]
  {
  }

  lemma {:induction false} OneUp(stack: seq<Text>, p: Text)
    requires stack != []
    ensures var rest := [DOT, DOT] + [SLASH] + p;
            Resolve(rest, stack) == Resolve(p, stack[..|stack| - 1]) &&
            (FitsRoom(rest, stack) <==> FitsRoom(p, stack[..|stack| - 1]))
    ensures Resolve([DOT, DOT], stack) == stack[..|stack| - 1] && FitsRoom([DOT, DOT], stack)
  {
    hide Resolve, FitsRoom;
    ResolveJoin([DOT, DOT], p, stack);
    ResolveOne([DOT, DOT], stack);
  }

  lemma {:induction false} ResolveTailed(ds: seq<Text>, stack: seq<Text>)
    requires Normal(ds)
    ensures Resolve(Tailed(ds), stack) == stack + ds
    ensures |stack| + |ds| <= MAX_SEGMENTS ==> FitsRoom(Tailed(ds), stack)
  {
    hide Resolve, FitsRoom;
    if ds == [] {
      ResolveNone(stack);
      assert stack + ds == stack;
    } else {
      ResolveSlashed(ds, stack);
      SlashedStarts(ds);
      var t := Slashed(ds);
      assert t == [] + [SLASH] + t[1..];
      ResolveJoin([], t[1..], stack);
      ResolveNone(stack);
    }
  }

  lemma {:induction false} SlashedStarts(ds: seq<Text>)
    requires ds != []
    ensures Slashed(ds) != [] && Slashed(ds)[0] == SLASH
  {
    if |ds| > 1 { SlashedStarts(ds[..|ds| - 1]); }
  }

  /** Following a relative name from the first directory leads to the second. */
  lemma RelativeLeadsThere(fs: seq<Text>, ts: seq<Text>)
    requires Normal(fs) && Normal(ts)
    ensures var k := Shared(fs, ts);
            var r := Relative(|fs| - k, ts[k..]);
            Resolve(r, fs) == ts && (|ts| <= MAX_SEGMENTS ==> FitsRoom(r, fs))
  {
    hide Resolve, FitsRoom, Normal, Relative, Shared;
    var k := Shared(fs, ts);
    NormalDown(ts, k);
    assert fs[..k] + ts[k..] == ts;
    if k < |ts| {
      DownFromAncestor(fs, ts[k..], k);
    } else {
      assert ts[k..] == [];
      UpToAncestor(fs, k);
    }
  }

  lemma DownFromAncestor(fs: seq<Text>, down: seq<Text>, k: nat)
    requires k <= |fs| && Normal(down) && down != []
    ensures var r := Relative(|fs| - k, down);
            Resolve(r, fs) == fs[..k] + down && (k + |down| <= MAX_SEGMENTS ==> FitsRoom(r, fs))
  {
    hide Resolve, FitsRoom, Normal, Relative, Ups, Tailed;
    var n := |fs| - k;
    RelativeDown(n, down);
    UpsTake(n, fs, Tailed(down));
    ResolveTailed(down, fs[..k]);
    assert |fs| - n == k;
  }

  lemma RelativeDown(n: nat, down: seq<Text>)
    requires down != []
    ensures Relative(n, down) == Ups(n) + Tailed(down)
  {
    hide Ups, Tailed;
  }

  lemma UpToAncestor(fs: seq<Text>, k: nat)
    requires k <= |fs|
    ensures Resolve(Relative(|fs| - k, []), fs) == fs[..k] && FitsRoom(Relative(|fs| - k, []), fs)
  {
    hide Resolve, FitsRoom, Ups;
    if k < |fs| {
      UpsTake(|fs| - k - 1, fs, [DOT, DOT]);
      UpsSplit(|fs| - k, []);
      var left := fs[..k + 1];
      OneUp(left, []);
      assert left[..k] == fs[..k];
    } else {
      ResolveNone(fs);
    }
  }

  lemma NormalDown(ts: seq<Text>, k: nat)
    requires Normal(ts) && k <= |ts|
    ensures Normal(ts[k..]) && Normal(ts[..k])
  {
  }

  // ---- Where two clean names part ----------------------------------------------

  /** `ds` from its `k`-th on, after the first `k`. */
  lemma SlashedAt(ds: seq<Text>, k: nat)
    requires k <= |ds|
    ensures Slashed(ds) == Slashed(ds[..k]) + Slashed(ds[k..])
  {
    hide Slashed;
    SlashedConcat(ds[..k], ds[k..]);
    assert ds == ds[..k] + ds[k..];
  }

  lemma SlashedFront(ds: seq<Text>)
    requires ds != []
    ensures Slashed(ds) == [SLASH] + ds[0] + Slashed(ds[1..])
    ensures Tailed(ds) == ds[0] + Slashed(ds[1..])
  {
    hide Slashed;
    SlashedConcat([ds[0]], ds[1..]);
    assert ds == [ds[0]] + ds[1..];
    SlashedOne(ds[0]);
  }

  lemma SlashedOne(d: Text)
    ensures Slashed([d]) == [SLASH] + d
  {
    assert [d][..0] == [];
    assert Slashed([]) == [];
  }

  /** Two names that differ part before either ends, whatever follows them. */
  lemma NamesPart(a: Text, ra: Text, b: Text, rb: Text, n: nat)
    requires a != b && SLASH !in a && SLASH !in b
    requires (ra == [] || ra[0] == SLASH) && (rb == [] || rb[0] == SLASH)
    requires n <= |a + ra| && n <= |b + rb| && (a + ra)[..n] == (b + rb)[..n]
    ensures n <= |a| && n <= |b| && (n < |a| || n < |b|)
  {
    var p, q := a + ra, b + rb;
    assert forall k | 0 <= k < n :: p[k] == p[..n][k] == q[..n][k] == q[k];
    assert forall k | 0 <= k < |a| :: p[k] == a[k];
    assert forall k | 0 <= k < |b| :: q[k] == b[k];
    assert |a| < |p| ==> p[|a|] == SLASH;
    assert |b| < |q| ==> q[|b|] == SLASH;
    assert a == p[..|a|] && b == q[..|b|];
    assert n >= |a| ==> p[..n][..|a|] == p[..|a|];
    assert n >= |b| ==> q[..n][..|b|] == q[..|b|];
  }

  /** The point where the tails of the two directories start. */
  function PartingPoint(fs: seq<Text>, ts: seq<Text>): nat {
    var k := Shared(fs, ts);
    |Slashed(fs[..k])| + if k == |fs| && fs != [] then 0 else 1
  }

  /** The common prefix of two strings ends at `i`. */
  ghost predicate PrefixEnds(from: Text, to: Text, i: nat) {
    i <= |from| && i <= |to| && from[..i] == to[..i] && (i < |from| && i < |to| ==> from[i] != to[i])
  }

  lemma CommonStart(p: Text, x: Text, y: Text, i: nat)
    requires PrefixEnds(p + x, p + y, i)
    ensures i >= |p| && PrefixEnds(x, y, i - |p|)
  {
    var a, b := p + x, p + y;
    assert forall k | 0 <= k < |p| :: a[k] == p[k] == b[k];
    var n := i - |p|;
    if n >= 0 {
      assert forall k | 0 <= k < n :: x[k] == a[..i][|p| + k] && y[k] == b[..i][|p| + k];
      assert x[..n] == y[..n];
    }
  }

  /** The last slash before `i`, plus one. */
  ghost predicate AfterLastSlash(from: Text, i: nat, split: nat) {
    split <= i <= |from| && SLASH !in from[split..i] && (split > 0 ==> from[split - 1] == SLASH)
  }

  /** What the source makes of the two ends. */
  function Adjusted(from: Text, to: Text, i: nat, split: nat): nat {
    if At(from, i) == 0 && At(to, i) == 0 then i
    else if At(from, i) == 0 && At(to, i) == SLASH then i
    else if At(to, i) == 0 && At(from, i) == SLASH then i + 1
    else split
  }

  /** Two different directories below a common one. */
  lemma PartBelow(p: Text, a: Text, ra: Text, b: Text, rb: Text, i: nat, split: nat)
    requires a != b && a != [] && b != [] && SLASH !in a && SLASH !in b
    requires (ra == [] || ra[0] == SLASH) && (rb == [] || rb[0] == SLASH)
    requires 0 !in a + ra && 0 !in b + rb
    requires var from, to := p + ([SLASH] + (a + ra)), p + ([SLASH] + (b + rb));
             PrefixEnds(from, to, i) && AfterLastSlash(from, i, split)
    ensures var from, to := p + ([SLASH] + (a + ra)), p + ([SLASH] + (b + rb));
            Adjusted(from, to, i, split) == |p| + 1
  {
    var from, to := p + ([SLASH] + (a + ra)), p + ([SLASH] + (b + rb));
    CommonStart(p, [SLASH] + (a + ra), [SLASH] + (b + rb), i);
    CommonStart([SLASH], a + ra, b + rb, i - |p|);
    var n := i - |p| - 1;
    NamesPart(a, ra, b, rb, n);
    assert forall k | 0 <= k < |a + ra| :: from[|p| + 1 + k] == (a + ra)[k];
    assert forall k | 0 <= k < |b + rb| :: to[|p| + 1 + k] == (b + rb)[k];
    assert from[|p|] == SLASH;
    LastSlashIs(from, i, split, |p| + 1);
  }

  lemma LastSlashIs(from: Text, i: nat, split: nat, after: nat)
    requires AfterLastSlash(from, i, split) && 0 < after <= i && from[after - 1] == SLASH
    requires forall k | after <= k < i :: from[k] != SLASH
    ensures split == after
  {
    assert forall k | split <= k < i :: from[k] == from[split..i][k - split];
  }

  lemma PartingIs(fs: seq<Text>, ts: seq<Text>, i: nat, split: nat)
    requires Normal(fs) && Normal(ts) && 0 !in Dir(fs) && 0 !in Slashed(ts)
    requires PrefixEnds(Dir(fs), Slashed(ts), i) && AfterLastSlash(Dir(fs), i, split)
    ensures Adjusted(Dir(fs), Slashed(ts), i, split) == PartingPoint(fs, ts)
  {
    hide Slashed, Shared, Adjusted, Normal;
    var from, to, k := Dir(fs), Slashed(ts), Shared(fs, ts);
    SlashedAt(fs, k);
    SlashedAt(ts, k);
    var p := Slashed(fs[..k]);
    if k < |fs| && k < |ts| {
      var a, ra, b, rb := fs[k], Slashed(fs[k..][1..]), ts[k], Slashed(ts[k..][1..]);
      SlashedFront(fs[k..]);
      SlashedFront(ts[k..]);
      NamesAt(fs, k);
      NamesAt(ts, k);
      assert from == p + ([SLASH] + (a + ra)) && to == p + ([SLASH] + (b + rb));
      NoNulAfter(p, a + ra);
      NoNulAfter(p, b + rb);
      PartBelow(p, a, ra, b, rb, i, split);
    } else {
      PartingAtAnEnd(fs, ts, i, split);
    }
  }

  lemma NamesAt(ds: seq<Text>, k: nat)
    requires Normal(ds) && k < |ds|
    ensures ds[k] != [] && SLASH !in ds[k]
    ensures var rest := Slashed(ds[k..][1..]); rest == [] || rest[0] == SLASH
  {
    if |ds[k..]| > 1 { SlashedStarts(ds[k..][1..]); }
  }

  lemma NoNulAfter(p: Text, x: Text)
    requires 0 !in p + ([SLASH] + x)
    ensures 0 !in x
  {
    var t := p + ([SLASH] + x);
    assert forall k | 0 <= k < |x| :: x[k] == t[|p| + 1 + k];
  }

  /** One of the directories lies above the other. */
  lemma PartingAtAnEnd(fs: seq<Text>, ts: seq<Text>, i: nat, split: nat)
    requires Normal(fs) && Normal(ts) && 0 !in Dir(fs) && 0 !in Slashed(ts)
    requires Shared(fs, ts) == |fs| || Shared(fs, ts) == |ts|
    requires PrefixEnds(Dir(fs), Slashed(ts), i) && AfterLastSlash(Dir(fs), i, split)
    ensures Adjusted(Dir(fs), Slashed(ts), i, split) == PartingPoint(fs, ts)
  {
    hide Shared, Normal, Slashed;
    var k := Shared(fs, ts);
    SlashedNothing();
    if fs == [] {
      if ts != [] { RootParts(ts); }
    } else {
      SlashedAt(fs, k);
      SlashedAt(ts, k);
      if k < |ts| { SlashedStarts(ts[k..]); } else { assert ts[k..] == []; }
      if k < |fs| { SlashedStarts(fs[k..]); } else { assert fs[k..] == []; }
      OneEndsHere(Slashed(fs[..k]), Slashed(fs[k..]), Slashed(ts[k..]), i, split);
    }
  }

  /** Of two names with a common start `p`, at most one goes on, with a slash. */
  lemma OneEndsHere(p: Text, x: Text, y: Text, i: nat, split: nat)
    requires 0 !in p + x && 0 !in p + y && (x == [] || y == [])
    requires (x != [] ==> x[0] == SLASH) && (y != [] ==> y[0] == SLASH)
    requires PrefixEnds(p + x, p + y, i)
    ensures Adjusted(p + x, p + y, i, split) == |p| + if x == [] then 0 else 1
  {
    CommonStart(p, x, y, i);
    assert x != [] ==> (p + x)[|p|] == x[0];
    assert y != [] ==> (p + y)[|p|] == y[0];
  }

  lemma SlashedNothing()
    ensures Slashed([]) == []
  {
  }

  lemma RootParts(ts: seq<Text>)
    requires Normal(ts) && ts != []
    ensures |Slashed(ts)| >= 2 && Slashed(ts)[0] == SLASH && Slashed(ts)[1] != SLASH
  {
    SlashedFront(ts);
  }

  // ---- The tails ------------------------------------------------------------------

  /** Slashes that are not at the very end. */
  function InnerSlashes(t: Text): nat {
    if |t| <= 1 then 0 else (if t[0] == SLASH then 1 else 0) + InnerSlashes(t[1..])
  }

  lemma {:induction false} InnerAfterName(a: Text, x: Text)
    requires SLASH !in a
    ensures InnerSlashes(a + x) == InnerSlashes(x)
  {
    if a == [] {
      assert a + x == x;
    } else {
      assert (a + x)[1..] == a[1..] + x;
      InnerAfterName(a[1..], x);
    }
  }

  lemma {:induction false} InnerTailed(ds: seq<Text>)
    requires Normal(ds) && ds != []
    ensures InnerSlashes(Tailed(ds)) == |ds| - 1 && Tailed(ds) != []
    decreases |ds|
  {
    hide Slashed;
    SlashedFront(ds);
    InnerAfterName(ds[0], Slashed(ds[1..]));
    if |ds| == 1 {
      SlashedNothing();
    } else {
      InnerTailed(ds[1..]);
      SlashedStarts(ds[1..]);
      assert Slashed(ds[1..])[1..] == Tailed(ds[1..]);
    }
  }

  /** What follows the parting point: of the first directory, the names to climb out of; of
      the second, the names to go down. */
  lemma PartingTails(fs: seq<Text>, ts: seq<Text>)
    requires Normal(fs) && Normal(ts)
    ensures var f, k := PartingPoint(fs, ts), Shared(fs, ts);
            f <= |Dir(fs)| && Dir(fs)[f..] == Tailed(fs[k..]) &&
            Tailed(ts[k..]) == (if f < |Slashed(ts)| then
                                  (if Slashed(ts)[f] == SLASH then Slashed(ts)[f + 1..] else Slashed(ts)[f..])
                                else [])
  {
    hide Shared, Slashed;
    var f, k := PartingPoint(fs, ts), Shared(fs, ts);
    SlashedAt(fs, k);
    SlashedAt(ts, k);
    SlashedNothing();
    var p := Slashed(fs[..k]);
    if k < |fs| {
      SlashedStarts(fs[k..]);
      assert (p + Slashed(fs[k..]))[f..] == Slashed(fs[k..])[1..];
    }
    if k < |ts| {
      SlashedFront(ts[k..]);
      NamesAt(ts, k);
      var t := Slashed(ts[k..]);
      assert t[1] == ts[k][0];
      assert (p + t)[|p|..] == t && (p + t)[|p| + 1..] == t[1..];
      assert (p + t)[|p|] == t[0] && (p + t)[|p| + 1] == t[1];
    }
  }

  // ---- The functions ----------------------------------------------------------------

  /** Compare two directories byte by byte up to where they part. */
  method FindSplit(from: Text, to: Text) returns (split: nat, ghost i: nat, ghost last: nat)
    requires 0 !in from && 0 !in to
    ensures PrefixEnds(from, to, i) && AfterLastSlash(from, i, last) && split == Adjusted(from, to, i, last)
  {
    split := 0;
    var j := 0;
    while At(from, j) != 0 && At(to, j) != 0 && At(from, j) == At(to, j)
      invariant j <= |from| && j <= |to| && from[..j] == to[..j] && AfterLastSlash(from, j, split)
      decreases |from| - j
    {
      assert from[split..j + 1] == from[split..j] + [from[j]];
      assert from[..j + 1] == from[..j] + [from[j]] && to[..j + 1] == to[..j] + [to[j]];
      if from[j] == SLASH { split := j + 1; }
      j := j + 1;
    }
    i, last := j, split;
    if At(from, j) == 0 && At(to, j) == 0 {
      split := j;
    } else if At(from, j) == 0 && At(to, j) == SLASH {
      split := j;
    } else if At(to, j) == 0 && At(from, j) == SLASH {
      split := j + 1;
    }
  }

  method CountUps(from: Text, split: nat) returns (ups: nat)
    requires 0 !in from && split <= |from|
    ensures ups == InnerSlashes(from[split..]) + if split < |from| then 1 else 0
  {
    ups := 0;
    var j := split;
    while At(from, j) != 0
      invariant split <= j <= |from|
      invariant ups + InnerSlashes(from[j..]) == InnerSlashes(from[split..])
      decreases |from| - j
    {
      assert from[j..][1..] == from[j + 1..];
      if from[j] == SLASH && At(from, j + 1) != 0 { ups := ups + 1; }
      j := j + 1;
    }
    if At(from, split) != 0 { ups := ups + 1; }
  }

  lemma UpsAreRight(fs: seq<Text>, ts: seq<Text>)
    requires Normal(fs) && Normal(ts)
    ensures var f, from := PartingPoint(fs, ts), Dir(fs);
            f <= |from| && InnerSlashes(from[f..]) + (if f < |from| then 1 else 0) == |fs| - Shared(fs, ts)
  {
    hide Shared, Slashed, Dir, PartingPoint;
    PartingTails(fs, ts);
    var k := Shared(fs, ts);
    NormalDown(fs, k);
    if k < |fs| { InnerTailed(fs[k..]); }
  }

  lemma TailIsSomething(ts: seq<Text>, k: nat)
    requires Normal(ts) && k <= |ts|
    ensures Tailed(ts[k..]) == [] <==> ts[k..] == []
  {
    hide Slashed;
    NormalDown(ts, k);
    if k < |ts| { InnerTailed(ts[k..]); }
  }

  /** The relative path from one clean directory to another. */
  method RelativePath(from: Text, to: Text, ghost fs: seq<Text>, ghost ts: seq<Text>) returns (r: Text)
    requires 0 !in from && 0 !in to && Normal(fs) && Normal(ts) && from == Dir(fs) && to == Slashed(ts)
    ensures r == Relative(|fs| - Shared(fs, ts), ts[Shared(fs, ts)..])
  {
    hide Shared, Slashed, Dir, Tailed, Adjusted, PartingPoint, InnerSlashes;
    var split, i, last := FindSplit(from, to);
    PartingIs(fs, ts, i, last);
    PartingTails(fs, ts);
    var ups := CountUps(from, split);
    UpsAreRight(fs, ts);
    var tail: Text := [];
    if |to| > split {
      tail := to[split..];
      if tail[0] == SLASH { tail := tail[1..]; }
    }
    r := [];
    for j := 0 to ups
      invariant r == Ups(j)
    {
      r := r + [DOT, DOT, SLASH];
    }
    TailIsSomething(ts, Shared(fs, ts));
    if |tail| > 0 {
      r := r + tail;
    } else if ups > 0 {
      r := r[..|r| - 1];
    }
  }

  // ---- Rebasing -----------------------------------------------------------------------

  /** Names that do not depend on the working directory. */
  predicate Anchored(name: Text) {
    At(name, 0) == SLASH || (At(name, 0) == TILDE && (At(name, 1) == 0 || At(name, 1) == SLASH))
  }

  /** The last slash of a clean absolute path is in front of its last segment. */
  method LastSlash(s: Text, ghost ds: seq<Text>) returns (i: nat)
    requires Normal(ds) && s == Dir(ds)
    ensures i < |s| && s[i] == SLASH
    ensures if ds == [] then i == 0 && s == [SLASH]
            else s[..i] == Slashed(ds[..|ds| - 1]) && s[i + 1..] == ds[|ds| - 1]
  {
    hide Normal;
    assert ds != [] ==> SLASH !in ds[|ds| - 1] by { if ds != [] { NamesAt(ds, |ds| - 1); } }
    ghost var at := if ds == [] then 0 else |Slashed(ds[..|ds| - 1])|;
    assert s[at] == SLASH;
    assert ds != [] ==> s[at + 1..] == ds[|ds| - 1];
    assert forall k | at < k < |s| :: s[k] == s[at + 1..][k - at - 1];
    i := |s| - 1;
    while s[i] != SLASH
      invariant at <= i < |s|
      decreases i
    {
      i := i - 1;
    }
  }

  /** Carry a relative name from working directory `old` to `new`. */
  method RebaseFilename(name: Text, oldDir: Text, newDir: Text, ghost os: seq<Text>, ghost ns: seq<Text>)
    returns (r: Text)
    requires 0 !in name && 0 !in oldDir && 0 !in newDir
    requires Normal(os) && Normal(ns) && oldDir == Dir(os) && newDir == Dir(ns)
    requires FitsRoom(oldDir + [SLASH] + name, []) && |ns| <= MAX_SEGMENTS
    ensures Anchored(name) ==> r == name
    ensures !Anchored(name) ==> FitsRoom(newDir + [SLASH] + r, []) &&
                                Cleaned(newDir + [SLASH] + r) == Cleaned(oldDir + [SLASH] + name)
    ensures !Anchored(name) ==>
              var ds := Resolve(oldDir + [SLASH] + name, []);
              Anchored(r) <==> |ns| < |ds| && ds[..|ns|] == ns && ds[|ns|] == [TILDE]
  {
    hide Resolve, FitsRoom, Dir, Slashed, Cleaned, Shared, Relative, Normal, Anchored;
    AnchoredIs(name);
    if At(name, 0) == SLASH { return name; }
    if At(name, 0) == TILDE && (At(name, 1) == 0 || At(name, 1) == SLASH) { return name; }
    DirIsAbsolute(os);
    var abs := MakeAbsolute(oldDir, name);
    ghost var ds := Resolve(oldDir + [SLASH] + name, []);
    CleanedIsClean(oldDir + [SLASH] + name);
    var slash := LastSlash(abs, ds);
    ghost var front := if ds == [] then [] else ds[..|ds| - 1];
    FrontIsNormal(ds);
    var relDir := RelativePath(newDir, abs[..slash], ns, front);
    var base := abs[slash + 1..];
    if relDir == [] {
      r := base;
    } else {
      r := relDir + [SLASH] + base;
    }
    RebasedLeadsThere(os, ns, name, base, r);
    RebasedIsAnchored(ns, ds, base);
  }

  lemma AnchoredIs(name: Text)
    ensures Anchored(name) <==>
            At(name, 0) == SLASH || (At(name, 0) == TILDE && (At(name, 1) == 0 || At(name, 1) == SLASH))
  {
  }

  lemma DirIsAbsolute(os: seq<Text>)
    ensures Dir(os) != [] && Dir(os)[0] == SLASH
  {
    if os != [] { SlashedStarts(os); }
  }

  lemma FrontIsNormal(ds: seq<Text>)
    requires Normal(ds)
    ensures ds != [] ==> Normal(ds[..|ds| - 1])
    ensures ds == [] ==> Slashed([]) == []
  {
  }

  /** A name put together from the relative directory and the last segment. */
  function Rebased(ns: seq<Text>, ds: seq<Text>, base: Text): Text {
    var front := if ds == [] then [] else ds[..|ds| - 1];
    var rel := Relative(|ns| - Shared(ns, front), front[Shared(ns, front)..]);
    if rel == [] then base else rel + [SLASH] + base
  }

  /** A rebased name stands for itself wherever one is exactly when it starts with a
      directory, or is a file, called "~": no steps up, and "~" the first name below. */
  lemma RebasedIsAnchored(ns: seq<Text>, ds: seq<Text>, base: Text)
    requires Normal(ns) && Normal(ds) && 0 !in Dir(ds)
    requires base == if ds == [] then [] else ds[|ds| - 1]
    ensures Anchored(Rebased(ns, ds, base)) <==> |ns| < |ds| && ds[..|ns|] == ns && ds[|ns|] == [TILDE]
  {
    hide Slashed, Shared, Normal, Ups, Anchored, Rebased;
    var front := if ds == [] then [] else ds[..|ds| - 1];
    var k := Shared(ns, front);
    if k < |ns| {
      RebasedUp(ns, ds, base);
      SharedNotAll(ns, ds, front);
    } else {
      RebasedDown(ns, ds, base);
    }
  }

  /** With a step up in front, the name begins with a dot. */
  lemma RebasedUp(ns: seq<Text>, ds: seq<Text>, base: Text)
    requires Shared(ns, if ds == [] then [] else ds[..|ds| - 1]) < |ns|
    ensures !Anchored(Rebased(ns, ds, base))
  {
    hide Shared, Relative;
    var front := if ds == [] then [] else ds[..|ds| - 1];
    RelativeUp(|ns| - Shared(ns, front), front[Shared(ns, front)..]);
  }

  lemma RelativeUp(n: nat, down: seq<Text>)
    requires n > 0
    ensures Relative(n, down) != [] && Relative(n, down)[0] == DOT
  {
    hide Tailed, Ups;
    UpsStart(n);
  }

  /** Without one, it begins with the first name below. */
  lemma RebasedDown(ns: seq<Text>, ds: seq<Text>, base: Text)
    requires Normal(ns) && Normal(ds) && 0 !in Dir(ds)
    requires base == if ds == [] then [] else ds[|ds| - 1]
    requires Shared(ns, if ds == [] then [] else ds[..|ds| - 1]) == |ns|
    ensures Anchored(Rebased(ns, ds, base)) <==> |ns| < |ds| && ds[..|ns|] == ns && ds[|ns|] == [TILDE]
  {
    hide Slashed, Shared, Normal, Ups, Anchored, Dir;
    var front := if ds == [] then [] else ds[..|ds| - 1];
    var k := |ns|;
    NothingUp();
    if ds == [] {
      NameAnchored([], []);
      assert [] + [] == base;
    } else {
      NoNulInName(ds, k);
      assert front[..k] == ns && ds[..k] == front[..k];
      var rest := RestOfRebased(ns, ds, base);
      NameAnchored(ds[k], rest);
    }
  }

  lemma RestOfRebased(ns: seq<Text>, ds: seq<Text>, base: Text) returns (rest: Text)
    requires Normal(ds) && ds != [] && base == ds[|ds| - 1]
    requires Shared(ns, ds[..|ds| - 1]) == |ns|
    ensures Rebased(ns, ds, base) == ds[|ns|] + rest && (rest == [] || rest[0] == SLASH)
  {
    hide Slashed, Shared, Normal, Ups;
    var front, k := ds[..|ds| - 1], |ns|;
    NothingUp();
    rest := [];
    if k < |front| {
      FrontIsNormal(ds);
      var below := FirstBelow(front, k);
      rest := below + [SLASH] + base;
      hide Relative;
      assert front[k] + below + [SLASH] + base == front[k] + rest;
    } else {
      assert Relative(0, front[k..]) == [];
    }
  }

  lemma FirstBelow(front: seq<Text>, k: nat) returns (below: Text)
    requires Normal(front) && k < |front|
    ensures Relative(0, front[k..]) == front[k] + below && front[k] != [] && (below == [] || below[0] == SLASH)
  {
    hide Slashed, Normal, Ups;
    NothingUp();
    SlashedFront(front[k..]);
    NamesAt(front, k);
    below := Slashed(front[k..][1..]);
  }

  lemma NothingUp()
    ensures Ups(0) == []
  {
  }

  lemma {:induction false} UpsStart(n: nat)
    requires n > 0
    ensures |Ups(n)| >= 3 && Ups(n)[0] == DOT
  {
    if n > 1 { UpsStart(n - 1); }
  }

  lemma NameAnchored(a: Text, rest: Text)
    requires SLASH !in a && 0 !in a && (rest == [] || rest[0] == SLASH) && (a == [] ==> rest == [])
    ensures Anchored(a + rest) <==> a == [TILDE]
  {
    var r := a + rest;
    assert forall k | 0 <= k < |a| :: r[k] == a[k];
    assert rest != [] ==> r[|a|] == rest[0];
  }

  lemma NoNulInName(ds: seq<Text>, k: nat)
    requires Normal(ds) && 0 !in Dir(ds) && k < |ds|
    ensures 0 !in ds[k] && ds[k] != [] && SLASH !in ds[k]
  {
    hide Slashed;
    SlashedAt(ds, k);
    SlashedFront(ds[k..]);
    var rest := Slashed(ds[k..][1..]);
    assert Slashed(ds) == Slashed(ds[..k]) + ([SLASH] + (ds[k] + rest));
    NoNulAfter(Slashed(ds[..k]), ds[k] + rest);
    assert forall j | 0 <= j < |ds[k]| :: (ds[k] + rest)[j] == ds[k][j];
  }

  /** The shared names are not all of `ns`, so `ns` is no directory above `ds`. */
  lemma SharedNotAll(ns: seq<Text>, ds: seq<Text>, front: seq<Text>)
    requires front == (if ds == [] then [] else ds[..|ds| - 1]) && Shared(ns, front) < |ns|
    ensures |ns| < |ds| ==> ds[..|ns|] != ns
  {
    hide Shared;
    var k := Shared(ns, front);
    if |ns| < |ds| {
      assert front[k] == ds[..|ns|][k];
    }
  }

  /** The concrete case: "./~/a", carried from "/x" to "/x", becomes "~/a". */
  lemma RebasedIntoTheHomeDirectory()
    ensures var x, a: Text := [120], [97];
            var name: Text := [DOT] + [SLASH] + ([TILDE] + [SLASH] + a);
            var ds := Resolve(Dir([x]) + [SLASH] + name, []);
            !Anchored(name) && ds == [x, [TILDE], a] &&
            Rebased([x], ds, a) == [TILDE, SLASH] + a && Anchored(Rebased([x], ds, a))
  {
    hide Resolve, FitsRoom;
    var x, a: Text := [120], [97];
    var name: Text := [DOT] + [SLASH] + ([TILDE] + [SLASH] + a);
    SlashedOne(x);
    assert Normal([x]);
    ResolveDir([x]);
    ResolveJoin(Dir([x]), name, []);
    ResolveJoin([DOT], [TILDE] + [SLASH] + a, [x]);
    ResolveJoin([TILDE], a, [x]);
    ResolveOne([DOT], [x]);
    ResolveOne([TILDE], [x]);
    ResolveOne(a, [x, [TILDE]]);
    var ds := [x, [TILDE], a];
    assert [x] + [[TILDE]] == [x, [TILDE]] && [x, [TILDE]] + [a] == ds;
    assert ds[..2] == [x, [TILDE]];
    SharedWithOne(x, [TILDE]);
    assert [x, [TILDE]][1..] == [[TILDE]];
    SlashedOne([TILDE]);
  }

  lemma SharedWithOne(x: Text, y: Text)
    ensures Shared([x], [x, y]) == 1
  {
    assert [x][1..] == [];
  }

  lemma RebasedLeadsThere(os: seq<Text>, ns: seq<Text>, name: Text, base: Text, r: Text)
    requires Normal(os) && Normal(ns) && |ns| <= MAX_SEGMENTS && FitsRoom(Dir(os) + [SLASH] + name, [])
    requires var ds := Resolve(Dir(os) + [SLASH] + name, []);
             r == Rebased(ns, ds, base) && base == if ds == [] then [] else ds[|ds| - 1]
    ensures var p, q := Dir(os) + [SLASH] + name, Dir(ns) + [SLASH] + r;
            FitsRoom(q, []) && Cleaned(q) == Cleaned(p)
  {
    hide Resolve, FitsRoom, Dir, Shared, Relative, Names;
    var ds := Resolve(Dir(os) + [SLASH] + name, []);
    ResolveIsNormal(Dir(os) + [SLASH] + name, []);
    ResolveWithinRoom(Dir(os) + [SLASH] + name, []);
    ResolveDir(ns);
    ResolveJoin(Dir(ns), r, []);
    RebasedResolves(ns, ds, base, r);
  }

  lemma RebasedResolves(ns: seq<Text>, ds: seq<Text>, base: Text, r: Text)
    requires Normal(ns) && Normal(ds) && |ds| <= MAX_SEGMENTS
    requires r == Rebased(ns, ds, base) && base == if ds == [] then [] else ds[|ds| - 1]
    ensures Resolve(r, ns) == ds && FitsRoom(r, ns)
  {
    hide Resolve, FitsRoom, Shared, Relative, Names, Normal;
    var front := if ds == [] then [] else ds[..|ds| - 1];
    FrontIsNormal(ds);
    if ds != [] { NamesAt(ds, |ds| - 1); }
    RelativeLeadsThere(ns, front);
    var rel := Relative(|ns| - Shared(ns, front), front[Shared(ns, front)..]);
    ResolveNone(ns);
    ResolveJoin(rel, base, ns);
    ResolveLast(ds, front, base);
  }

  lemma ResolveLast(ds: seq<Text>, front: seq<Text>, base: Text)
    requires Normal(ds) && |ds| <= MAX_SEGMENTS
    requires if ds == [] then front == [] && base == [] else front == ds[..|ds| - 1] && base == ds[|ds| - 1]
    ensures Resolve(base, front) == ds && FitsRoom(base, front)
  {
    hide Resolve, FitsRoom;
    ResolveOne(base, front);
    assert ds != [] ==> front + [base] == ds;
  }

  /** `old`/`name`, cleaned. */
  method MakeAbsolute(dir: Text, name: Text) returns (abs: Text)
    requires 0 !in dir && 0 !in name && dir != [] && dir[0] == SLASH
    ensures abs == Cleaned(dir + [SLASH] + name) && 0 !in abs
  {
    ghost var s := dir + [SLASH] + name;
    var path := new byte[|dir| + 1 + |name| + 1];
    for i := 0 to |dir|
      invariant path[..i] == dir[..i]
    {
      path[i] := dir[i];
    }
    path[|dir|] := SLASH;
    for i := 0 to |name|
      invariant path[..|dir| + 1 + i] == dir + [SLASH] + name[..i]
    {
      path[|dir| + 1 + i] := name[i];
    }
    path[|dir| + 1 + |name|] := 0;
    assert path[..|s|] == s;
    var m := CleanPath(path, s);
    abs := path[..m];
  }
}
