/**
  ASCII approximations of the Python string operations the extractor relies on:
  `str.lower`, `str.strip()`, `str.split()` (no separator), `sep.join`,
  `str.startswith`, `str.endswith`, `in` on strings and slicing `s[:n]`.
 */
module Text {

  import opened Wrappers

  /** The ASCII characters Python's `str.isspace` accepts: \t \n \v \f \r, \x1c-\x1f and space. */
  predicate IsSpace(c: char) {
    9 <= c as int <= 13 || 28 <= c as int <= 32
  }

  predicate IsUpper(c: char) {
    'A' <= c <= 'Z'
  }

  ghost predicate AllSpace(s: string) {
    forall i :: 0 <= i < |s| ==> IsSpace(s[i])
  }

  /** A whitespace token of `str.split()`: non-empty and free of whitespace. */
  ghost predicate IsWord(w: string) {
    w != [] && forall i :: 0 <= i < |w| ==> !IsSpace(w[i])
  }

  /** No leading and no trailing whitespace: a fixed point of `strip()`. */
  ghost predicate IsStripped(s: string) {
    s == [] || (!IsSpace(s[0]) && !IsSpace(s[|s| - 1]))
  }

  ghost predicate NoUpper(s: string) {
    forall i :: 0 <= i < |s| ==> !IsUpper(s[i])
  }

  predicate StartsWith(s: string, p: string) {
    |p| <= |s| && s[..|p|] == p
  }

  predicate EndsWith(s: string, p: string) {
    |p| <= |s| && s[|s| - |p|..] == p
  }

  function Min(a: nat, b: nat): nat {
    if a <= b then a else b
  }

  /** Python's `s[:n]` for n >= 0. */
  function Take<T>(s: seq<T>, n: nat): (r: seq<T>)
    ensures |r| == Min(n, |s|) && r == s[..|r|]
  {
    if n <= |s| then s[..n] else s
  }

  function LowerChar(c: char): (d: char)
    ensures !IsUpper(d)
    ensures IsSpace(d) <==> IsSpace(c)
  {
    if IsUpper(c) then (c as int + 32) as char else c
  }

  /** `str.lower` on ASCII letters; every other character is kept. */
  function Lower(s: string): (r: string)
    ensures |r| == |s|
    ensures forall i :: 0 <= i < |s| ==> r[i] == LowerChar(s[i])
    ensures NoUpper(r)
  {
    seq(|s|, i requires 0 <= i < |s| => LowerChar(s[i]))
  }

  /** `str.strip()`: drop whitespace from either end until neither end is whitespace. */
  function Strip(s: string): (r: string)
    ensures |r| <= |s|
    ensures IsStripped(r)
    decreases |s|
  {
    if s == [] then []
    else if IsSpace(s[0]) then Strip(s[1..])
    else if IsSpace(s[|s| - 1]) then Strip(s[..|s| - 1])
    else s
  }

  /** `strip()` gives the empty string exactly when the input is all whitespace. */
  lemma {:induction false} StripEmpty(s: string)
    ensures |Strip(s)| == 0 <==> AllSpace(s)
    decreases |s|
  {
    if s != [] && IsSpace(s[0]) {
      StripEmpty(s[1..]);
      assert AllSpace(s) <==> AllSpace(s[1..]) by {
        assert forall i :: 0 < i < |s| ==> s[i] == s[1..][i - 1];
      }
    } else if s != [] && IsSpace(s[|s| - 1]) {
      StripEmpty(s[..|s| - 1]);
    }
  }

  /** Stripping only removes characters, so it keeps a string free of upper case. */
  lemma {:induction false} StripNoUpper(s: string)
    requires NoUpper(s)
    ensures NoUpper(Strip(s))
    decreases |s|
  {
    if s != [] && IsSpace(s[0]) {
      assert forall i :: 0 <= i < |s| - 1 ==> s[1..][i] == s[i + 1];
      StripNoUpper(s[1..]);
    } else if s != [] && IsSpace(s[|s| - 1]) {
      StripNoUpper(s[..|s| - 1]);
    }
  }

  /** `r` is the slice `s[i..j]`, and everything of `s` around it is whitespace. */
  ghost predicate InfixOf(s: string, r: string, i: nat, j: nat) {
    i <= j <= |s| && r == s[i..j] && AllSpace(s[..i]) && AllSpace(s[j..])
  }

  lemma DropFirstSpace(s: string, r: string, i: nat, j: nat)
    requires s != [] && IsSpace(s[0]) && InfixOf(s[1..], r, i, j)
    ensures InfixOf(s, r, i + 1, j + 1)
  {
    var t := s[1..];
    assert t[i..j] == s[i + 1..j + 1];
    assert s[..i + 1] == [s[0]] + t[..i];
    assert s[j + 1..] == t[j..];
  }

  lemma DropLastSpace(s: string, r: string, i: nat, j: nat)
    requires s != [] && IsSpace(s[|s| - 1]) && InfixOf(s[..|s| - 1], r, i, j)
    ensures InfixOf(s, r, i, j)
  {
    var t := s[..|s| - 1];
    assert t[i..j] == s[i..j];
    assert s[..i] == t[..i];
    assert s[j..] == t[j..] + [s[|s| - 1]];
  }

  /** `strip()` keeps one contiguous piece of its input and removes only whitespace around it. */
  lemma {:induction false} StripInfix(s: string)
    ensures exists i, j :: InfixOf(s, Strip(s), i, j)
    decreases |s|
  {
    if s == [] {
      assert InfixOf(s, Strip(s), 0, 0);
    } else if IsSpace(s[0]) {
      StripInfix(s[1..]);
      var i, j :| InfixOf(s[1..], Strip(s[1..]), i, j);
      DropFirstSpace(s, Strip(s), i, j);
    } else if IsSpace(s[|s| - 1]) {
      StripInfix(s[..|s| - 1]);
      var i, j :| InfixOf(s[..|s| - 1], Strip(s[..|s| - 1]), i, j);
      DropLastSpace(s, Strip(s), i, j);
    } else {
      assert s[0..|s|] == s && s[..0] == [] && s[|s|..] == [];
      assert InfixOf(s, Strip(s), 0, |s|);
    }
  }

  /** A string with no whitespace at either end is its own `strip()`. */
  lemma StripStripped(s: string)
    requires IsStripped(s)
    ensures Strip(s) == s
  {
  }

  /** Length of the run of non-whitespace characters at the front of `s`. */
  function WordLen(s: string): (k: nat)
    ensures k <= |s|
    ensures forall i :: 0 <= i < k ==> !IsSpace(s[i])
    ensures k == |s| || IsSpace(s[k])
  {
    if s == [] || IsSpace(s[0]) then 0 else 1 + WordLen(s[1..])
  }

  /** Length of the run of non-whitespace characters at the back of `s`. */
  function TailWordLen(s: string): (m: nat)
    ensures m <= |s|
    ensures forall i :: |s| - m <= i < |s| ==> !IsSpace(s[i])
    ensures m == |s| || IsSpace(s[|s| - m - 1])
  {
    if s == [] || IsSpace(s[|s| - 1]) then 0 else 1 + TailWordLen(s[..|s| - 1])
  }

  /** `str.split()`: the maximal runs of non-whitespace characters, in order. */
  function Split(s: string): seq<string>
    decreases |s|
  {
    if s == [] then []
    else if IsSpace(s[0]) then Split(s[1..])
    else
      var k := WordLen(s);
      [s[..k]] + Split(s[k..])
  }

  /** Every piece of `split()` is a whitespace token. */
  lemma {:induction false} SplitWords(s: string)
    ensures forall i :: 0 <= i < |Split(s)| ==> IsWord(Split(s)[i])
    decreases |s|
  {
    if s != [] && IsSpace(s[0]) {
      SplitWords(s[1..]);
    } else if s != [] {
      SplitWords(s[WordLen(s)..]);
    }
  }

  /** `sep.join(ws)`. */
  function Join(sep: string, ws: seq<string>): string {
    if ws == [] then []
    else if |ws| == 1 then ws[0]
    else ws[0] + sep + Join(sep, ws[1..])
  }

  ghost predicate OccursAt(s: string, p: string, k: nat) {
    k + |p| <= |s| && s[k..k + |p|] == p
  }

  /** `s.find(p)`: the leftmost position at which `p` occurs in `s`, if any. */
  function Find(s: string, p: string): (r: Option<nat>)
    ensures r.Some? ==> OccursAt(s, p, r.value)
    ensures r.Some? ==> forall j :: 0 <= j < r.value ==> !OccursAt(s, p, j)
    ensures r.None? ==> forall j :: 0 <= j <= |s| ==> !OccursAt(s, p, j)
  {
    if StartsWith(s, p) then Some(0)
    else if s == [] then None
    else
      OccursAtTail(s, p);
      match Find(s[1..], p)
      case Some(k) => Some(k + 1)
      case None => None
  }

  /** An occurrence at j > 0 is an occurrence at j - 1 in the tail. */
  lemma OccursAtTail(s: string, p: string)
    requires s != []
    ensures forall j :: 0 < j <= |s| ==> (OccursAt(s, p, j) <==> OccursAt(s[1..], p, j - 1))
  {
    forall j | 0 < j <= |s|
      ensures OccursAt(s, p, j) <==> OccursAt(s[1..], p, j - 1)
    {
      if j + |p| <= |s| {
        var x, y := s[j..j + |p|], s[1..][j - 1..j - 1 + |p|];
        forall k | 0 <= k < |p|
          ensures x[k] == y[k]
        {
        }
        assert x == y;
      }
    }
  }

  /** Python's `p in s` on strings. */
  predicate Contains(s: string, p: string) {
    Find(s, p).Some?
  }

  // ---------------------------------------------------------------------------
  // Facts about `split()`: it ignores surrounding whitespace, distributes over
  // concatenation at a whitespace boundary, and undoes a single-space join.
  // ---------------------------------------------------------------------------

  lemma {:induction false} SplitAllSpace(s: string)
    requires AllSpace(s)
    ensures Split(s) == []
    decreases |s|
  {
    if s != [] {
      SplitAllSpace(s[1..]);
    }
  }

  lemma {:induction false} WordLenAppend(a: string, b: string)
    requires WordLen(a) < |a| || b == [] || IsSpace(b[0])
    ensures WordLen(a + b) == WordLen(a)
    decreases |a|
  {
    if a != [] && !IsSpace(a[0]) {
      assert (a + b)[1..] == a[1..] + b;
      WordLenAppend(a[1..], b);
    } else if a == [] {
      assert a + b == b;
    }
  }

  /** Splitting is compositional at a whitespace boundary. */
  lemma {:induction false} SplitAppend(a: string, b: string)
    requires a == [] || b == [] || IsSpace(a[|a| - 1]) || IsSpace(b[0])
    ensures Split(a + b) == Split(a) + Split(b)
    decreases |a|, 1
  {
    if a == [] {
      assert a + b == b;
    } else if b == [] {
      assert a + b == a;
    } else if IsSpace(a[0]) {
      assert (a + b)[1..] == a[1..] + b;
      SplitAppend(a[1..], b);
    } else {
      SplitAppendWord(a, b);
    }
  }

  /** The case of `SplitAppend` where `a` starts with a token: that token is split off first. */
  lemma {:induction false} SplitAppendWord(a: string, b: string)
    requires a != [] && !IsSpace(a[0])
    requires b == [] || IsSpace(a[|a| - 1]) || IsSpace(b[0])
    ensures Split(a + b) == Split(a) + Split(b)
    decreases |a|, 0
  {
    var k := WordLen(a);
    WordLenAppend(a, b);
    var ab := a + b;
    assert ab[..k] == a[..k];
    assert ab[k..] == a[k..] + b;
    SplitAppend(a[k..], b);
  }

  /** `s.strip().split() == s.split()`. */
  lemma {:induction false} SplitStrip(s: string)
    ensures Split(Strip(s)) == Split(s)
    decreases |s|
  {
    if s != [] && IsSpace(s[0]) {
      SplitStrip(s[1..]);
    } else if s != [] && IsSpace(s[|s| - 1]) {
      var init := s[..|s| - 1];
      SplitStrip(init);
      assert s == init + [s[|s| - 1]];
      SplitAppend(init, [s[|s| - 1]]);
      SplitAllSpace([s[|s| - 1]]);
    }
  }

  lemma SplitWord(w: string)
    requires IsWord(w)
    ensures Split(w) == [w]
  {
    assert WordLen(w) == |w|;
    assert w[..|w|] == w;
    assert w[|w|..] == [];
  }

  /** A single-space join of whitespace tokens splits back into the same tokens. */
  lemma {:induction false} SplitJoin(ws: seq<string>)
    requires forall i :: 0 <= i < |ws| ==> IsWord(ws[i])
    ensures Split(Join(" ", ws)) == ws
    decreases |ws|
  {
    if |ws| == 1 {
      SplitWord(ws[0]);
    } else if |ws| > 1 {
      var rest := Join(" ", ws[1..]);
      assert Join(" ", ws) == ws[0] + (" " + rest);
      SplitAppend(ws[0], " " + rest);
      SplitWord(ws[0]);
      assert (" " + rest)[1..] == rest;
      SplitJoin(ws[1..]);
    }
  }

  /**
    The last whitespace token of a string that does not end in whitespace is a
    suffix of it (so `s.split()[-1]` exists and ends where `s` ends).
   */
  lemma LastTokenIsSuffix(s: string)
    requires s != [] && !IsSpace(s[|s| - 1])
    ensures Split(s) != []
    ensures EndsWith(s, Split(s)[|Split(s)| - 1])
    ensures var w := Split(s)[|Split(s)| - 1]; |w| == |s| || IsSpace(s[|s| - |w| - 1])
  {
    var m := TailWordLen(s);
    var init, w := s[..|s| - m], s[|s| - m..];
    assert s == init + w;
    assert IsWord(w) by {
      assert forall i :: 0 <= i < |w| ==> w[i] == s[|s| - m + i];
    }
    if init != [] {
      assert init[|init| - 1] == s[|s| - m - 1];
    }
    SplitAppend(init, w);
    SplitWord(w);
  }

  /** The first string of a join is a prefix of it and the last one a suffix. */
  lemma {:induction false} JoinEnds(sep: string, ws: seq<string>)
    requires ws != []
    ensures StartsWith(Join(sep, ws), ws[0])
    ensures EndsWith(Join(sep, ws), ws[|ws| - 1])
    decreases |ws|
  {
    if |ws| > 1 {
      JoinEnds(sep, ws[1..]);
      var rest := Join(sep, ws[1..]);
      assert Join(sep, ws) == ws[0] + (sep + rest);
      assert (ws[0] + (sep + rest))[..|ws[0]|] == ws[0];
      var last := ws[|ws| - 1];
      assert (ws[0] + (sep + rest))[|ws[0] + (sep + rest)| - |last|..] == rest[|rest| - |last|..];
    }
  }
}
