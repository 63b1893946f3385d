/** Python string operations the pipeline relies on, over `seq<char>`.
    Character classes (whitespace, word characters, a hyphen) are passed in
    as predicates `p`, so one definition serves `str.strip()`, `str.split()`,
    `str.strip('-')`, `re.sub(r'\s+', '-', ...)` and `re.sub(r'-+', '-', ...)`. */
module Text {

  /** Every character of `w` satisfies `p`. */
  predicate All(p: char -> bool, w: string) {
    forall i :: 0 <= i < |w| ==> p(w[i])
  }

  /** No character of `w` satisfies `p`. */
  predicate Avoids(p: char -> bool, w: string) {
    forall i :: 0 <= i < |w| ==> !p(w[i])
  }

  /** No two neighbouring characters of `s` both satisfy `p`. */
  predicate NoAdjacent(p: char -> bool, s: string) {
    forall i :: 0 <= i < |s| - 1 ==> !(p(s[i]) && p(s[i + 1]))
  }

  /** The shape of words joined by single separators: the only `p`-character
      of `s` is `x`, it never opens or closes `s`, and never occurs twice in a row. */
  predicate SingleSeparated(p: char -> bool, x: char, s: string) {
    && (s == [] || (!p(s[0]) && !p(s[|s| - 1])))
    && (forall i :: 0 <= i < |s| && p(s[i]) ==> s[i] == x)
    && NoAdjacent(p, s)
  }

  /** A list of words as `str.split()` produces them: non-empty, no separator inside. */
  predicate Words(p: char -> bool, ws: seq<string>) {
    forall i :: 0 <= i < |ws| ==> ws[i] != [] && Avoids(p, ws[i])
  }

  /** Length of the longest prefix of `s` made of `p`-characters. */
  function RunLength(p: char -> bool, s: string): (n: nat)
    ensures n <= |s|
    ensures All(p, s[..n])
    ensures n < |s| ==> !p(s[n])
  {
    if s == [] || !p(s[0]) then 0 else 1 + RunLength(p, s[1..])
  }

  /** Length of the longest prefix of `s` free of `p`-characters. */
  function GapLength(p: char -> bool, s: string): (n: nat)
    ensures n <= |s|
    ensures Avoids(p, s[..n])
    ensures n < |s| ==> p(s[n])
  {
    if s == [] || p(s[0]) then 0 else 1 + GapLength(p, s[1..])
  }

  /** `str.lstrip`: drop the leading `p`-characters. */
  function TrimLeft(p: char -> bool, s: string): (r: string)
    ensures |r| <= |s| && r == s[|s| - |r|..]
    ensures r == [] || !p(r[0])
    ensures All(p, s[..|s| - |r|])
  {
    s[RunLength(p, s)..]
  }

  /** `str.rstrip`: drop the trailing `p`-characters. */
  function TrimRight(p: char -> bool, s: string): (r: string)
    ensures |r| <= |s| && r == s[..|r|]
    ensures r == [] || !p(r[|r| - 1])
    ensures All(p, s[|r|..])
    decreases |s|
  {
    if s == [] || !p(s[|s| - 1]) then s
    else
      var r := TrimRight(p, s[..|s| - 1]);
      assert s[|r|..] == s[..|s| - 1][|r|..] + [s[|s| - 1]];
      r
  }

  /** `str.strip`: drop `p`-characters from both ends. */
  function Trim(p: char -> bool, s: string): (r: string)
    ensures r == [] || (!p(r[0]) && !p(r[|r| - 1]))
    ensures |r| <= |s|
  {
    TrimRight(p, TrimLeft(p, s))
  }

  /** What `Trim` keeps is the slice of `s` between a leading and a trailing
      run of `p`-characters. */
  lemma TrimSlice(p: char -> bool, s: string)
    ensures var r, k := Trim(p, s), RunLength(p, s);
      && k + |r| <= |s|
      && r == s[k..k + |r|]
      && All(p, s[..k]) && All(p, s[k + |r|..])
  {
    var k := RunLength(p, s);
    var t := TrimLeft(p, s);
    var r := TrimRight(p, t);
    TrimLeftIs(p, s);
    SliceOfSuffix(p, s, k, t, r);
  }

  lemma TrimLeftIs(p: char -> bool, s: string)
    ensures RunLength(p, s) <= |s| && TrimLeft(p, s) == s[RunLength(p, s)..]
  {
  }

  /** A prefix `r` of the suffix `t` of `s` from `k` is a slice of `s`, and
      what follows it in `t` is what follows it in `s`. */
  lemma SliceOfSuffix(p: char -> bool, s: string, k: nat, t: string, r: string)
    requires k <= |s| && t == s[k..]
    requires |r| <= |t| && r == t[..|r|] && All(p, t[|r|..])
    ensures k + |r| <= |s| && r == s[k..k + |r|] && All(p, s[k + |r|..])
  {
    assert s[k + |r|..] == t[|r|..];
  }

  /** The characters of `s` that satisfy `p`, in order. */
  function Filter(p: char -> bool, s: string): (r: string)
    ensures |r| <= |s|
    ensures All(p, r)
  {
    if s == [] then []
    else (if p(s[0]) then [s[0]] else []) + Filter(p, s[1..])
  }

  /** Replace every maximal run of `p`-characters by the single character `c`,
      as `re.sub('<p>+', c, s)` does. */
  function CollapseRuns(p: char -> bool, c: char, s: string): (r: string)
    ensures |r| <= |s|
    ensures r == [] <==> s == []
    ensures r != [] ==> r[0] == (if p(s[0]) then c else s[0])
    decreases |s|
  {
    if s == [] then []
    else if p(s[0]) then [c] + CollapseRuns(p, c, TrimLeft(p, s))
    else [s[0]] + CollapseRuns(p, c, s[1..])
  }

  /** `str.split()` with no argument: the maximal runs of non-`p` characters, in order. */
  function Split(p: char -> bool, s: string): (r: seq<string>)
    ensures Words(p, r)
    decreases |s|
  {
    if s == [] then []
    else if p(s[0]) then Split(p, s[1..])
    else
      var n := GapLength(p, s);
      [s[..n]] + Split(p, s[n..])
  }

  /** `sep.join(xs)`. */
  function Join(sep: string, xs: seq<string>): (r: string)
    ensures xs == [] ==> r == []
    ensures |xs| == 1 ==> r == xs[0]
    ensures |xs| > 1 ==> |xs[0]| + |sep| + |xs[|xs| - 1]| <= |r|
  {
    if |xs| == 0 then []
    else if |xs| == 1 then xs[0]
    else xs[0] + sep + Join(sep, xs[1..])
  }

  /** Where the `i`-th piece starts in `Join(sep, xs)`. */
  function Offset(sep: string, xs: seq<string>, i: nat): nat
    requires i <= |xs|
  {
    if i == 0 then 0 else |xs[0]| + |sep| + Offset(sep, xs[1..], i - 1)
  }

  /** `str.find` for one character: the first index of `c`, or -1. */
  function Find(s: string, c: char): (r: int)
    ensures r == -1 <==> c !in s
    ensures r != -1 ==> 0 <= r < |s| && s[r] == c && c !in s[..r]
  {
    if s == [] then -1
    else if s[0] == c then 0
    else
      var k := Find(s[1..], c);
      if k == -1 then -1
      else
        assert s[..k + 1] == [s[0]] + s[1..][..k];
        k + 1
  }

  /** `str.rfind` for one character: the last index of `c`, or -1. */
  function RFind(s: string, c: char): (r: int)
    ensures r == -1 <==> c !in s
    ensures r != -1 ==> 0 <= r < |s| && s[r] == c && c !in s[r + 1..]
  {
    if s == [] then -1
    else if s[|s| - 1] == c then |s| - 1
    else
      var k := RFind(s[..|s| - 1], c);
      assert s == s[..|s| - 1] + [s[|s| - 1]];
      assert k != -1 ==> s[k + 1..] == s[..|s| - 1][k + 1..] + [s[|s| - 1]];
      k
  }

  /** Python's `s[i:j]` for non-negative bounds: clamped to the string,
      and empty when the bounds cross. */
  function Slice(s: string, i: nat, j: nat): (r: string)
    ensures i <= j <= |s| ==> r == s[i..j]
    ensures i <= |s| < j ==> r == s[i..]
    ensures j <= i || |s| <= i ==> r == []
  {
    var hi := if j <= |s| then j else |s|;
    if i < hi then s[i..hi] else []
  }

  // ---------------------------------------------------------------------
  // Filter

  lemma {:induction false} FilterAppend(p: char -> bool, a: string, b: string)
    ensures Filter(p, a + b) == Filter(p, a) + Filter(p, b)
  {
    if a == [] {
      assert a + b == b;
    } else {
      var ab := a + b;
      var head := if p(a[0]) then [a[0]] else [];
      assert ab[0] == a[0] && ab[1..] == a[1..] + b;
      FilterAppend(p, a[1..], b);
      assert Filter(p, ab) == head + (Filter(p, a[1..]) + Filter(p, b));
    }
  }

  lemma {:induction false} FilterNone(p: char -> bool, s: string)
    requires Avoids(p, s)
    ensures Filter(p, s) == []
  {
    if s != [] {
      FilterNone(p, s[1..]);
    }
  }

  lemma {:induction false} FilterAll(p: char -> bool, s: string)
    requires All(p, s)
    ensures Filter(p, s) == s
  {
    if s != [] {
      FilterAll(p, s[1..]);
      assert s == [s[0]] + s[1..];
    }
  }

  /** Filtering keeps what lies wholly in the class and drops what lies wholly outside it. */
  lemma FilterKeepDrop(p: char -> bool, left: string, x: string, right: string)
    requires All(p, left) && Avoids(p, x) && All(p, right)
    ensures Filter(p, left + x + right) == left + right
  {
    FilterAppend(p, left + x, right);
    FilterAppend(p, left, x);
    FilterAll(p, left);
    FilterNone(p, x);
    FilterAll(p, right);
    assert left + [] == left;
  }

  lemma AllAppend(p: char -> bool, a: string, b: string)
    requires All(p, a) && All(p, b)
    ensures All(p, a + b)
  {
    forall i | 0 <= i < |a + b|
      ensures p((a + b)[i])
    {
      if i < |a| {
        assert (a + b)[i] == a[i];
      } else {
        assert (a + b)[i] == b[i - |a|];
      }
    }
  }

  /** Filtering leaves nothing exactly when no character is in the class. */
  lemma {:induction false} FilterEmpty(p: char -> bool, s: string)
    ensures Filter(p, s) == [] <==> Avoids(p, s)
  {
    if s != [] {
      FilterEmpty(p, s[1..]);
      assert Avoids(p, s) <==> !p(s[0]) && Avoids(p, s[1..]) by {
        assert forall i :: 0 < i < |s| ==> s[i] == s[1..][i - 1];
      }
    }
  }

  /** Filtering by a wider class first does not change a narrower filter. */
  lemma {:induction false} FilterFilter(q: char -> bool, wide: char -> bool, s: string)
    requires forall x :: q(x) ==> wide(x)
    ensures Filter(q, Filter(wide, s)) == Filter(q, s)
  {
    if s != [] {
      var head := if wide(s[0]) then [s[0]] else [];
      FilterAppend(q, head, Filter(wide, s[1..]));
      FilterFilter(q, wide, s[1..]);
      if wide(s[0]) {
        assert Filter(q, head) == (if q(s[0]) then [s[0]] else []) + Filter(q, []);
      }
    }
  }

  /** Collapsing runs of characters outside `q` into a character outside `q`
      leaves the `q`-characters untouched. */
  lemma {:induction false} CollapseKeepsFilter(p: char -> bool, q: char -> bool, c: char, s: string)
    requires !q(c)
    requires forall x :: p(x) ==> !q(x)
    ensures Filter(q, CollapseRuns(p, c, s)) == Filter(q, s)
    decreases |s|
  {
    if s == [] {
    } else if p(s[0]) {
      var t := TrimLeft(p, s);
      var n := |s| - |t|;
      CollapseKeepsFilter(p, q, c, t);
      FilterAppend(q, [c], CollapseRuns(p, c, t));
      assert Filter(q, [c]) == [] + Filter(q, []);
      assert s == s[..n] + t;
      FilterAppend(q, s[..n], t);
      FilterNone(q, s[..n]);
    } else {
      CollapseKeepsFilter(p, q, c, s[1..]);
      FilterAppend(q, [s[0]], CollapseRuns(p, c, s[1..]));
      assert s == [s[0]] + s[1..];
      FilterAppend(q, [s[0]], s[1..]);
    }
  }

  /** A run of `p`-characters holds no `q`-character when the classes are disjoint. */
  lemma AllAvoids(p: char -> bool, q: char -> bool, s: string)
    requires forall x :: p(x) ==> !q(x)
    requires All(p, s)
    ensures Avoids(q, s)
  {
    forall i | 0 <= i < |s|
      ensures !q(s[i])
    {
      assert p(s[i]);
    }
  }

  /** Trimming characters outside `q` leaves the `q`-characters untouched. */
  lemma TrimKeepsFilter(p: char -> bool, q: char -> bool, s: string)
    requires forall x :: p(x) ==> !q(x)
    ensures Filter(q, Trim(p, s)) == Filter(q, s)
  {
    var r, k := Trim(p, s), RunLength(p, s);
    TrimSlice(p, s);
    var front, back := s[..k], s[k + |r|..];
    assert Avoids(q, front) && Avoids(q, back) by {
      AllAvoids(p, q, front);
      AllAvoids(p, q, back);
    }
    SplitThree(s, k, k + |r|);
    FilterSandwich(q, front, r, back);
  }

  /** A string is the concatenation of its three slices at `i <= j`. */
  lemma SplitThree(s: string, i: nat, j: nat)
    requires i <= j <= |s|
    ensures s == s[..i] + s[i..j] + s[j..]
  {
  }

  /** Filtering out a prefix and a suffix that hold no `q`-character leaves
      the filtered middle. */
  lemma FilterSandwich(q: char -> bool, a: string, m: string, b: string)
    requires Avoids(q, a) && Avoids(q, b)
    ensures Filter(q, a + m + b) == Filter(q, m)
  {
    FilterAppend(q, a + m, b);
    FilterAppend(q, a, m);
    FilterNone(q, a);
    FilterNone(q, b);
  }

  // ---------------------------------------------------------------------
  // Split and Join

  lemma {:induction false} GapLengthIs(p: char -> bool, s: string, n: nat)
    requires n <= |s| && Avoids(p, s[..n])
    requires n < |s| ==> p(s[n])
    ensures GapLength(p, s) == n
  {
    if n > 0 {
      assert s[..n][0] == s[0];
      assert s[1..][..n - 1] == s[..n][1..];
      assert n - 1 < |s[1..]| ==> s[1..][n - 1] == s[n];
      GapLengthIs(p, s[1..], n - 1);
    }
  }

  /** A word followed by a separator (or nothing) splits off as one piece. */
  lemma SplitWordThen(p: char -> bool, w: string, t: string)
    requires w != [] && Avoids(p, w)
    requires t == [] || p(t[0])
    ensures Split(p, w + t) == [w] + Split(p, t)
  {
    var s := w + t;
    assert s[..|w|] == w;
    GapLengthIs(p, s, |w|);
    assert s[|w|..] == t;
  }

  /** Leading separators do not change the split. */
  lemma {:induction false} SplitDropRun(p: char -> bool, s: string, k: nat)
    requires k <= |s| && All(p, s[..k])
    ensures Split(p, s[k..]) == Split(p, s)
  {
    if k > 0 {
      assert s[..k][0] == s[0];
      assert s[1..][..k - 1] == s[..k][1..];
      SplitDropRun(p, s[1..], k - 1);
      assert s[1..][k - 1..] == s[k..];
    }
  }

  /** Trailing separators do not change the split. */
  lemma {:induction false} SplitAppendRun(p: char -> bool, a: string, b: string)
    requires All(p, b)
    ensures Split(p, a + b) == Split(p, a)
    decreases |a|
  {
    if a == [] {
      assert a + b == b && b[..|b|] == b;
      SplitDropRun(p, b, |b|);
    } else if p(a[0]) {
      assert (a + b)[1..] == a[1..] + b;
      SplitAppendRun(p, a[1..], b);
    } else {
      var n := GapLength(p, a);
      var s := a + b;
      assert s[..n] == a[..n];
      if n < |a| {
        assert s[n] == a[n];
      } else if n < |s| {
        assert s[n] == b[0];
      }
      GapLengthIs(p, s, n);
      assert s[n..] == a[n..] + b;
      SplitAppendRun(p, a[n..], b);
    }
  }

  /** `s.strip().split() == s.split()`. */
  lemma SplitTrim(p: char -> bool, s: string)
    ensures Split(p, Trim(p, s)) == Split(p, s)
  {
    var t := TrimLeft(p, s);
    var r := TrimRight(p, t);
    assert Split(p, t) == Split(p, s) by {
      SplitDropRun(p, s, |s| - |t|);
    }
    assert Split(p, t) == Split(p, r) by {
      assert t == r + t[|r|..] by {
        assert r == t[..|r|];
      }
      SplitAppendRun(p, r, t[|r|..]);
    }
  }

  /** Splitting words joined by a single separator gives the words back. */
  lemma {:induction false} SplitJoin(p: char -> bool, x: char, ws: seq<string>)
    requires p(x) && Words(p, ws)
    ensures Split(p, Join([x], ws)) == ws
  {
    if |ws| == 1 {
      assert ws[0] + [] == ws[0];
      SplitWordThen(p, ws[0], []);
    } else if |ws| > 1 {
      var rest := Join([x], ws[1..]);
      assert Join([x], ws) == ws[0] + ([x] + rest);
      SplitWordThen(p, ws[0], [x] + rest);
      assert ([x] + rest)[1..] == rest;
      SplitJoin(p, x, ws[1..]);
    }
  }

  lemma JoinCons(sep: string, w: string, rest: seq<string>)
    requires rest != []
    ensures Join(sep, [w] + rest) == w + sep + Join(sep, rest)
  {
    assert ([w] + rest)[1..] == rest;
  }

  lemma SingleSeparatedSuffix(p: char -> bool, x: char, s: string, k: nat)
    requires SingleSeparated(p, x, s)
    requires k < |s| && !p(s[k])
    ensures SingleSeparated(p, x, s[k..])
  {
    var t := s[k..];
    assert forall i :: 0 <= i < |t| ==> t[i] == s[k + i];
  }

  /** In a string of separated shape, the first word ends at a separator `x`
      (when it does not end the string) and what follows is again of separated shape. */
  lemma SplitAtSeparator(p: char -> bool, x: char, s: string, n: nat)
    requires SingleSeparated(p, x, s)
    requires n == GapLength(p, s) && n < |s|
    ensures n + 1 < |s| && s == s[..n] + [x] + s[n + 1..]
    ensures SingleSeparated(p, x, s[n + 1..])
    ensures Split(p, s) == [s[..n]] + Split(p, s[n + 1..])
    ensures Split(p, s[n + 1..]) != []
  {
    assert p(s[n]) && s[n] == x;
    assert n + 1 < |s| && !p(s[n + 1]);
    var t := s[n + 1..];
    SingleSeparatedSuffix(p, x, s, n + 1);
    SplitAfterWord(p, x, s, n);
  }

  lemma SplitAfterWord(p: char -> bool, x: char, s: string, n: nat)
    requires 0 < n < |s| && Avoids(p, s[..n]) && s[n] == x && p(x)
    ensures s == s[..n] + [x] + s[n + 1..]
    ensures Split(p, s) == [s[..n]] + Split(p, s[n + 1..])
  {
    CutAt(s, n);
    SplitWordSeparator(p, x, s[..n], s[n + 1..]);
  }

  /** `s` is its prefix, the character at the cut, and the rest. */
  lemma CutAt(s: string, n: nat)
    requires n < |s|
    ensures s == s[..n] + [s[n]] + s[n + 1..]
    ensures s == s[..n] + ([s[n]] + s[n + 1..])
  {
    SplitThree(s, n, n + 1);
    assert s[n..n + 1] == [s[n]];
  }

  /** A word, a separator character and the rest split into the word and the
      rest's words. */
  lemma SplitWordSeparator(p: char -> bool, x: char, w: string, t: string)
    requires w != [] && Avoids(p, w) && p(x)
    ensures Split(p, w + ([x] + t)) == [w] + Split(p, t)
  {
    SplitWordThen(p, w, [x] + t);
    SplitSkip(p, x, t);
  }

  /** A leading separator character does not change the split. */
  lemma SplitSkip(p: char -> bool, x: char, t: string)
    requires p(x)
    ensures Split(p, [x] + t) == Split(p, t)
  {
    assert ([x] + t)[1..] == t;
  }

  /** A leading stretch of separators does not change the split. */
  lemma SplitDropPrefix(p: char -> bool, a: string, b: string)
    requires All(p, a)
    ensures Split(p, a + b) == Split(p, b)
  {
    assert (a + b)[..|a|] == a;
    SplitDropRun(p, a + b, |a|);
    assert (a + b)[|a|..] == b;
  }

  /** Collapsing separator runs into one separator character keeps the words:
      `re.sub('<p>+', c, s).split()` is `s.split()` when `c` is itself a separator. */
  lemma {:induction false} SplitCollapse(p: char -> bool, c: char, x: string)
    requires p(c)
    ensures Split(p, CollapseRuns(p, c, x)) == Split(p, x)
    decreases |x|
  {
    if x == [] {
    } else if p(x[0]) {
      var t := TrimLeft(p, x);
      assert CollapseRuns(p, c, x) == [c] + CollapseRuns(p, c, t);
      SplitSkip(p, c, CollapseRuns(p, c, t));
      SplitCollapse(p, c, t);
      TrimLeftIs(p, x);
      SplitDropRun(p, x, RunLength(p, x));
    } else {
      var n := GapLength(p, x);
      var w, t := x[..n], x[n..];
      assert x == w + t;
      assert w != [] && w[0] == x[0];
      CollapseAppendAvoiding(p, c, w, t);
      var ct := CollapseRuns(p, c, t);
      assert ct == [] || p(ct[0]);
      SplitWordThen(p, w, ct);
      SplitWordThen(p, w, t);
      SplitCollapse(p, c, t);
    }
  }

  /** The converse of `SplitJoin`: a string of separated shape is the join of its words. */
  lemma {:induction false} JoinSplit(p: char -> bool, x: char, s: string)
    requires SingleSeparated(p, x, s)
    ensures Join([x], Split(p, s)) == s
    decreases |s|
  {
    if s != [] {
      var n := GapLength(p, s);
      if n == |s| {
        assert s[..n] == s && s + [] == s;
        SplitWordThen(p, s, []);
        assert Split(p, s) == [s];
      } else {
        SplitAtSeparator(p, x, s, n);
        var t := s[n + 1..];
        JoinSplit(p, x, t);
        JoinCons([x], s[..n], Split(p, t));
      }
    }
  }

  /** Words joined by a single separator have the separated shape. */
  lemma {:induction false} JoinShape(p: char -> bool, x: char, ws: seq<string>)
    requires p(x) && Words(p, ws)
    ensures SingleSeparated(p, x, Join([x], ws))
    ensures Join([x], ws) == [] <==> ws == []
  {
    if |ws| > 1 {
      var w := ws[0];
      var rest := Join([x], ws[1..]);
      JoinShape(p, x, ws[1..]);
      var s := Join([x], ws);
      assert s == w + [x] + rest;
      assert forall i :: 0 <= i < |s| ==>
        s[i] == (if i < |w| then w[i] else if i == |w| then x else rest[i - |w| - 1]);
    }
  }

  /** Words built from `q`-characters, joined by a `q`-character, stay within `q`. */
  lemma {:induction false} JoinAll(q: char -> bool, x: char, ws: seq<string>)
    requires q(x)
    requires forall i :: 0 <= i < |ws| ==> All(q, ws[i])
    ensures All(q, Join([x], ws))
  {
    if |ws| > 1 {
      var w := ws[0];
      var rest := Join([x], ws[1..]);
      JoinAll(q, x, ws[1..]);
      var s := Join([x], ws);
      assert s == w + [x] + rest;
      assert forall i :: 0 <= i < |s| ==>
        s[i] == (if i < |w| then w[i] else if i == |w| then x else rest[i - |w| - 1]);
    }
  }

  /** Consecutive pieces of `sep.join(xs)` start one piece and one separator apart. */
  lemma {:induction false} OffsetNext(sep: string, xs: seq<string>, i: nat)
    requires i < |xs|
    ensures Offset(sep, xs, i + 1) == Offset(sep, xs, i) + |xs[i]| + |sep|
  {
    if i > 0 {
      assert xs[1..][i - 1] == xs[i];
      OffsetNext(sep, xs[1..], i - 1);
    }
  }

  /** The last piece of `sep.join(xs)` ends the string. */
  lemma {:induction false} JoinLength(sep: string, xs: seq<string>)
    requires xs != []
    ensures |Join(sep, xs)| == Offset(sep, xs, |xs| - 1) + |xs[|xs| - 1]|
  {
    if |xs| > 1 {
      assert xs[1..][|xs[1..]| - 1] == xs[|xs| - 1];
      JoinLength(sep, xs[1..]);
    }
  }

  /** `sep.join(xs)` opens with the first piece. */
  lemma JoinHead(sep: string, xs: seq<string>)
    requires xs != []
    ensures |xs[0]| <= |Join(sep, xs)| && Join(sep, xs)[..|xs[0]|] == xs[0]
  {
    if |xs| > 1 {
      var s := xs[0] + sep + Join(sep, xs[1..]);
      assert s[..|xs[0]|] == xs[0];
    }
  }

  /** Where `sep.join(xs)` puts each piece; with `OffsetNext`, `JoinLength` and
      `JoinSeparator` placing the separators, this describes the joined string
      completely. */
  lemma {:induction false} JoinPiece(sep: string, xs: seq<string>, i: nat)
    requires i < |xs|
    ensures Offset(sep, xs, i) + |xs[i]| <= |Join(sep, xs)|
    ensures Join(sep, xs)[Offset(sep, xs, i)..Offset(sep, xs, i) + |xs[i]|] == xs[i]
  {
    if i == 0 {
      JoinHead(sep, xs);
    } else {
      var tail := Join(sep, xs[1..]);
      JoinUnfold(sep, xs);
      JoinPiece(sep, xs[1..], i - 1);
      assert xs[1..][i - 1] == xs[i];
      PieceStep(xs[0], sep, tail, Offset(sep, xs[1..], i - 1), xs[i]);
    }
  }

  /** A piece `x` inside `tail` at `o` stands in `w + sep + tail` at
      `|w| + |sep| + o`. */
  lemma PieceStep(w: string, sep: string, tail: string, o: nat, x: string)
    requires o + |x| <= |tail| && tail[o..o + |x|] == x
    ensures var a := |w| + |sep| + o;
      a + |x| <= |w + sep + tail| && (w + sep + tail)[a..a + |x|] == x
  {
    SliceAfter(w + sep, tail, o, |x|);
  }

  lemma SeparatorAfterFirst(w: string, sep: string, tail: string)
    ensures |w| + |sep| <= |w + sep + tail| && (w + sep + tail)[|w|..|w| + |sep|] == sep
  {
  }

  /** A slice of the second part of `head + tail`, shifted by `|head|`. */
  lemma SliceAfter(head: string, tail: string, o: nat, n: nat)
    requires o + n <= |tail|
    ensures (head + tail)[|head| + o..|head| + o + n] == tail[o..o + n]
  {
  }

  /** Between consecutive pieces of `sep.join(xs)` stands exactly `sep`. */
  lemma {:induction false} JoinSeparator(sep: string, xs: seq<string>, i: nat)
    requires i + 1 < |xs|
    ensures Offset(sep, xs, i) + |xs[i]| + |sep| <= |Join(sep, xs)|
    ensures Join(sep, xs)[Offset(sep, xs, i) + |xs[i]|..Offset(sep, xs, i) + |xs[i]| + |sep|] == sep
  {
    var tail := Join(sep, xs[1..]);
    JoinUnfold(sep, xs);
    if i == 0 {
      SeparatorAfterFirst(xs[0], sep, tail);
    } else {
      JoinSeparator(sep, xs[1..], i - 1);
      assert xs[1..][i - 1] == xs[i];
      SeparatorStep(xs[0], sep, tail, Offset(sep, xs[1..], i - 1) + |xs[i]|);
    }
  }

  /** A separator inside `tail` at `o` is a separator of `w + sep + tail` at
      `|w| + |sep| + o`. */
  lemma SeparatorStep(w: string, sep: string, tail: string, o: nat)
    requires o + |sep| <= |tail| && tail[o..o + |sep|] == sep
    ensures var a := |w| + |sep| + o;
      a + |sep| <= |w + sep + tail| && (w + sep + tail)[a..a + |sep|] == sep
  {
    PieceStep(w, sep, tail, o, sep);
  }

  // ---------------------------------------------------------------------
  // Collapsing runs

  lemma {:induction false} CollapseAppendAvoiding(p: char -> bool, c: char, a: string, b: string)
    requires Avoids(p, a)
    ensures CollapseRuns(p, c, a + b) == a + CollapseRuns(p, c, b)
  {
    if a == [] {
      assert a + b == b;
    } else {
      var s := a + b;
      assert s[0] == a[0] && !p(s[0]);
      assert s[1..] == a[1..] + b;
      assert CollapseRuns(p, c, s) == [s[0]] + CollapseRuns(p, c, s[1..]);
      CollapseAppendAvoiding(p, c, a[1..], b);
      assert CollapseRuns(p, c, s) == [a[0]] + (a[1..] + CollapseRuns(p, c, b));
      assert a == [a[0]] + a[1..];
    }
  }

  /** A string without `p`-characters is left unchanged. */
  lemma CollapseAvoiding(p: char -> bool, c: char, s: string)
    requires Avoids(p, s)
    ensures CollapseRuns(p, c, s) == s
  {
    assert s + [] == s;
    CollapseAppendAvoiding(p, c, s, []);
  }

  /** After collapsing, no two `p`-characters stand side by side. */
  lemma {:induction false} CollapseNoAdjacent(p: char -> bool, c: char, s: string)
    ensures NoAdjacent(p, CollapseRuns(p, c, s))
    decreases |s|
  {
    if s != [] {
      var t := if p(s[0]) then TrimLeft(p, s) else s[1..];
      var h := if p(s[0]) then c else s[0];
      CollapseNoAdjacent(p, c, t);
      var rest := CollapseRuns(p, c, t);
      var r := CollapseRuns(p, c, s);
      assert r == [h] + rest;
      forall i | 0 <= i < |r| - 1
        ensures !(p(r[i]) && p(r[i + 1]))
      {
        if i > 0 {
          assert r[i] == rest[i - 1] && r[i + 1] == rest[i];
        }
      }
    }
  }

  /** Collapsing into a `q`-character keeps a string within `q` when every
      character outside the runs is already in `q`. */
  lemma {:induction false} CollapseAll(p: char -> bool, q: char -> bool, c: char, s: string)
    requires q(c)
    requires forall i :: 0 <= i < |s| && !p(s[i]) ==> q(s[i])
    ensures All(q, CollapseRuns(p, c, s))
    decreases |s|
  {
    if s != [] {
      var t := if p(s[0]) then TrimLeft(p, s) else s[1..];
      var h := if p(s[0]) then c else s[0];
      var k := |s| - |t|;
      assert t == s[k..];
      forall i | 0 <= i < |t| && !p(t[i])
        ensures q(t[i])
      {
        assert t[i] == s[k + i];
      }
      CollapseAll(p, q, c, t);
      var rest := CollapseRuns(p, c, t);
      assert CollapseRuns(p, c, s) == [h] + rest;
    }
  }

  /** Collapsing the separators of joined words replaces each by `c`. */
  lemma {:induction false} CollapseJoin(p: char -> bool, x: char, c: char, ws: seq<string>)
    requires p(x) && Words(p, ws)
    ensures CollapseRuns(p, c, Join([x], ws)) == Join([c], ws)
  {
    if |ws| == 1 {
      CollapseAvoiding(p, c, ws[0]);
    } else if |ws| > 1 {
      var rest := Join([x], ws[1..]);
      JoinShape(p, x, ws[1..]);
      JoinUnfold([x], ws);
      CollapseAppendAvoiding(p, c, ws[0], [x] + rest);
      assert All(p, [x]);
      CollapseLeadingRun(p, c, [x], rest);
      CollapseJoin(p, x, c, ws[1..]);
      JoinUnfold([c], ws);
    }
  }

  lemma JoinUnfold(sep: string, xs: seq<string>)
    requires |xs| > 1
    ensures Join(sep, xs) == xs[0] + (sep + Join(sep, xs[1..]))
    ensures Join(sep, xs) == xs[0] + sep + Join(sep, xs[1..])
  {
  }

  /** A string already in collapsed form is a fixed point. */
  lemma {:induction false} CollapseIdentity(p: char -> bool, c: char, s: string)
    requires NoAdjacent(p, s)
    requires forall i :: 0 <= i < |s| && p(s[i]) ==> s[i] == c
    ensures CollapseRuns(p, c, s) == s
  {
    if s != [] {
      CollapseIdentity(p, c, s[1..]);
      if p(s[0]) {
        assert RunLength(p, s[1..]) == 0;
        assert TrimLeft(p, s) == s[1..];
      }
      assert s == [s[0]] + s[1..];
    }
  }

  lemma {:induction false} RunLengthIs(p: char -> bool, s: string, n: nat)
    requires n <= |s| && All(p, s[..n])
    requires n < |s| ==> !p(s[n])
    ensures RunLength(p, s) == n
  {
    if n > 0 {
      assert s[..n][0] == s[0];
      assert s[1..][..n - 1] == s[..n][1..];
      assert n - 1 < |s[1..]| ==> s[1..][n - 1] == s[n];
      RunLengthIs(p, s[1..], n - 1);
    }
  }

  /** A whole run of `p`-characters, however long, becomes one `c`. */
  lemma CollapseLeadingRun(p: char -> bool, c: char, run: string, t: string)
    requires run != [] && All(p, run)
    requires t == [] || !p(t[0])
    ensures CollapseRuns(p, c, run + t) == [c] + CollapseRuns(p, c, t)
  {
    var s := run + t;
    assert s[..|run|] == run;
    assert |run| < |s| ==> s[|run|] == t[0];
    RunLengthIs(p, s, |run|);
    assert s[0] == run[0];
    assert TrimLeft(p, s) == t;
  }

  /** Collapsing distributes over a cut that does not split a run. */
  lemma {:induction false} CollapseAppend(p: char -> bool, c: char, x: string, y: string)
    requires y == [] || !p(y[0])
    ensures CollapseRuns(p, c, x + y) == CollapseRuns(p, c, x) + CollapseRuns(p, c, y)
    decreases |x|
  {
    if x == [] {
      assert x + y == y;
    } else if !p(x[0]) {
      CollapseStepOther(p, c, x, y);
      CollapseAppend(p, c, x[1..], y);
      ConsAssoc(x[0], CollapseRuns(p, c, x[1..]), CollapseRuns(p, c, y));
    } else {
      var k := RunLength(p, x);
      RunSplit(p, x);
      var run, rest := x[..k], x[k..];
      CollapseStepRun(p, c, run, rest, y);
      CollapseAppend(p, c, rest, y);
      ConsAssoc(c, CollapseRuns(p, c, rest), CollapseRuns(p, c, y));
    }
  }

  lemma ConsAssoc(h: char, a: string, b: string)
    ensures [h] + (a + b) == ([h] + a) + b
  {
  }

  /** A first character outside `p` is kept, before and after the cut. */
  lemma CollapseStepOther(p: char -> bool, c: char, x: string, y: string)
    requires x != [] && !p(x[0])
    ensures CollapseRuns(p, c, x + y) == [x[0]] + CollapseRuns(p, c, x[1..] + y)
    ensures CollapseRuns(p, c, x) == [x[0]] + CollapseRuns(p, c, x[1..])
  {
    assert (x + y)[0] == x[0];
    assert (x + y)[1..] == x[1..] + y;
  }

  /** A leading run followed by a non-`p` character collapses the same way
      with or without what comes after the cut. */
  lemma CollapseStepRun(p: char -> bool, c: char, run: string, rest: string, y: string)
    requires run != [] && All(p, run)
    requires rest == [] || !p(rest[0])
    requires y == [] || !p(y[0])
    ensures CollapseRuns(p, c, run + rest + y) == [c] + CollapseRuns(p, c, rest + y)
    ensures CollapseRuns(p, c, run + rest) == [c] + CollapseRuns(p, c, rest)
  {
    assert run + rest + y == run + (rest + y);
    assert rest + y == [] || !p((rest + y)[0]) by {
      if rest != [] {
        assert (rest + y)[0] == rest[0];
      }
    }
    CollapseLeadingRun(p, c, run, rest + y);
    CollapseLeadingRun(p, c, run, rest);
  }

  /** `x` is its leading run of `p`-characters and the rest, which starts
      outside `p`. */
  lemma RunSplit(p: char -> bool, x: string)
    ensures var k := RunLength(p, x);
      && x == x[..k] + x[k..] && All(p, x[..k])
      && (x[k..] == [] || !p(x[k..][0]))
      && (x != [] && p(x[0]) ==> k > 0)
  {
    CutAfter(x, RunLength(p, x));
  }

  lemma CutAfter(x: string, k: nat)
    requires k <= |x|
    ensures x == x[..k] + x[k..]
    ensures k < |x| ==> x[k..][0] == x[k]
  {
  }

  /** A non-empty run of `p`-characters alone becomes the single `c`. */
  lemma CollapseRun(p: char -> bool, c: char, run: string)
    requires run != [] && All(p, run)
    ensures CollapseRuns(p, c, run) == [c]
  {
    assert run + [] == run;
    CollapseLeadingRun(p, c, run, []);
  }

  /** Words with the separator `seps[i]` between `ws[i]` and `ws[i + 1]`. */
  function Weave(ws: seq<string>, seps: seq<string>): string
    requires |seps| + 1 == |ws|
    decreases |ws|
  {
    if |ws| == 1 then ws[0] else ws[0] + seps[0] + Weave(ws[1..], seps[1..])
  }

  /** Each separator collapsed on its own. */
  function CollapseEach(p: char -> bool, c: char, seps: seq<string>): (r: seq<string>)
    ensures |r| == |seps|
    ensures forall i :: 0 <= i < |seps| ==> r[i] == CollapseRuns(p, c, seps[i])
  {
    seq(|seps|, i requires 0 <= i < |seps| => CollapseRuns(p, c, seps[i]))
  }

  /** A weave of non-empty words starts with the first word's first character. */
  lemma WeaveHead(ws: seq<string>, seps: seq<string>)
    requires |seps| + 1 == |ws| && ws[0] != []
    ensures Weave(ws, seps) != [] && Weave(ws, seps)[0] == ws[0][0]
  {
  }

  lemma WeaveUnfold(ws: seq<string>, seps: seq<string>)
    requires |seps| + 1 == |ws| && |ws| > 1
    ensures Weave(ws, seps) == ws[0] + (seps[0] + Weave(ws[1..], seps[1..]))
  {
  }

  /** Words without `p`-characters keep their separators apart, so collapsing
      a weave collapses each separator on its own. */
  lemma {:induction false} CollapseWeave(p: char -> bool, c: char, ws: seq<string>, seps: seq<string>)
    requires |seps| + 1 == |ws| && Words(p, ws)
    ensures CollapseRuns(p, c, Weave(ws, seps)) == Weave(ws, CollapseEach(p, c, seps))
    decreases |ws|
  {
    var out := CollapseEach(p, c, seps);
    if |ws| == 1 {
      CollapseAvoiding(p, c, ws[0]);
    } else {
      var tail := Weave(ws[1..], seps[1..]);
      assert Words(p, ws[1..]) by {
        forall i | 0 <= i < |ws[1..]|
          ensures ws[1..][i] != [] && Avoids(p, ws[1..][i])
        {
          assert ws[1..][i] == ws[i + 1];
        }
      }
      WeaveHead(ws[1..], seps[1..]);
      WeaveUnfold(ws, seps);
      CollapseAppendAvoiding(p, c, ws[0], seps[0] + tail);
      CollapseAppend(p, c, seps[0], tail);
      CollapseWeave(p, c, ws[1..], seps[1..]);
      assert CollapseEach(p, c, seps[1..]) == out[1..];
      WeaveUnfold(ws, out);
    }
  }

  /** A weave whose separators are all `sep` is `sep.join(ws)`. */
  lemma {:induction false} WeaveJoin(sep: string, ws: seq<string>, seps: seq<string>)
    requires |seps| + 1 == |ws|
    requires forall i :: 0 <= i < |seps| ==> seps[i] == sep
    ensures Weave(ws, seps) == Join(sep, ws)
    decreases |ws|
  {
    if |ws| > 1 {
      WeaveJoin(sep, ws[1..], seps[1..]);
    }
  }

  /** Pieces within a class weave into a string within the class. */
  lemma {:induction false} WeaveAll(q: char -> bool, ws: seq<string>, seps: seq<string>)
    requires |seps| + 1 == |ws|
    requires forall i :: 0 <= i < |ws| ==> All(q, ws[i])
    requires forall i :: 0 <= i < |seps| ==> All(q, seps[i])
    ensures All(q, Weave(ws, seps))
    decreases |ws|
  {
    if |ws| > 1 {
      var tail := Weave(ws[1..], seps[1..]);
      WeaveAll(q, ws[1..], seps[1..]);
      var w, x := ws[0], seps[0];
      var s := w + x + tail;
      assert forall i :: 0 <= i < |s| ==>
        s[i] == (if i < |w| then w[i] else if i < |w| + |x| then x[i - |w|] else tail[i - |w| - |x|]);
    }
  }

  /** Trimming keeps a character class, the absence of adjacent `p`-characters
      and the choice of separator, and adds clean ends. */
  lemma TrimKeeps(q: char -> bool, p: char -> bool, x: char, s: string)
    requires All(q, s) && NoAdjacent(p, s)
    requires forall i :: 0 <= i < |s| && p(s[i]) ==> s[i] == x
    ensures All(q, Trim(p, s)) && SingleSeparated(p, x, Trim(p, s))
  {
    var t := Trim(p, s);
    var k := RunLength(p, s);
    TrimSlice(p, s);
    SliceKeeps(q, p, x, s, k, t);
  }

  /** A slice keeps a character class, the absence of adjacent `p`-characters
      and the choice of separator. */
  lemma SliceKeeps(q: char -> bool, p: char -> bool, x: char, s: string, a: nat, t: string)
    requires a + |t| <= |s| && t == s[a..a + |t|]
    requires All(q, s) && NoAdjacent(p, s)
    requires forall i :: 0 <= i < |s| && p(s[i]) ==> s[i] == x
    ensures All(q, t) && NoAdjacent(p, t)
    ensures forall i :: 0 <= i < |t| && p(t[i]) ==> t[i] == x
  {
    assert forall i :: 0 <= i < |t| ==> t[i] == s[a + i];
  }

  lemma TrimIdentity(p: char -> bool, s: string)
    requires s == [] || (!p(s[0]) && !p(s[|s| - 1]))
    ensures Trim(p, s) == s
  {
    assert RunLength(p, s) == 0;
    assert TrimLeft(p, s) == s;
  }
}
