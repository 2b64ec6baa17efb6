/**
 * The Python string and regular-expression built-ins that the phenotype
 * pipeline relies on, restricted to ASCII: character classes (`\d`, `\w`,
 * `str.isspace`), case mapping, `str.startswith`, `str.lstrip`/`rstrip`,
 * `re.sub` with a literal pattern, `re.split`/`str.split` and `str.join`.
 */
module Text {

  /** `\d` over ASCII. */
  predicate IsDigit(c: char) { '0' <= c <= '9' }

  /** `[a-zA-Z]`. */
  predicate IsAsciiLetter(c: char) { 'a' <= c <= 'z' || 'A' <= c <= 'Z' }

  /** `\w` over ASCII. */
  predicate IsWordChar(c: char) { IsAsciiLetter(c) || IsDigit(c) || c == '_' }

  /** `str.isspace` over ASCII: tab, line feed, vertical tab, form feed,
      carriage return, the four information separators and the space. */
  predicate IsSpace(c: char) { c == ' ' || 9 <= c as int <= 13 || 28 <= c as int <= 31 }

  function ToUpperChar(c: char): (r: char)
    ensures 'a' <= c <= 'z' ==> 'A' <= r <= 'Z'
    ensures !('a' <= c <= 'z') ==> r == c
    ensures IsWordChar(r) <==> IsWordChar(c)
  {
    if 'a' <= c <= 'z' then (c as int - 32) as char else c
  }

  function ToLowerChar(c: char): (r: char)
    ensures 'A' <= c <= 'Z' ==> 'a' <= r <= 'z'
    ensures !('A' <= c <= 'Z') ==> r == c
    ensures IsWordChar(r) <==> IsWordChar(c)
  {
    if 'A' <= c <= 'Z' then (c as int + 32) as char else c
  }

  /** `str.upper` over ASCII. */
  function Upper(s: string): (r: string)
    ensures |r| == |s|
    ensures forall i :: 0 <= i < |s| ==> r[i] == ToUpperChar(s[i])
  {
    seq(|s|, i requires 0 <= i < |s| => ToUpperChar(s[i]))
  }

  /** `str.lower` over ASCII. */
  function Lower(s: string): (r: string)
    ensures |r| == |s|
    ensures forall i :: 0 <= i < |s| ==> r[i] == ToLowerChar(s[i])
  {
    seq(|s|, i requires 0 <= i < |s| => ToLowerChar(s[i]))
  }

  /** `s.startswith(p)`. */
  predicate StartsWith(s: string, p: string)
  {
    |p| <= |s| && s[..|p|] == p
  }

  /** `p in s` for strings: `p` occurs somewhere in `s` as a contiguous piece. */
  predicate ContainsSub(s: string, p: string)
    decreases |s|
  {
    StartsWith(s, p) || (s != [] && ContainsSub(s[1..], p))
  }

  /** No two adjacent characters of `s` are both digits. */
  predicate NoAdjacentDigits(s: string)
  {
    forall i :: 0 <= i < |s| - 1 ==> !(IsDigit(s[i]) && IsDigit(s[i + 1]))
  }

  predicate HasAsciiLetter(s: string)
  {
    exists i :: 0 <= i < |s| && IsAsciiLetter(s[i])
  }

  /** `s.lstrip()`. */
  function LStrip(s: string): (r: string)
    ensures |r| <= |s| && r == s[|s| - |r|..]
    ensures r == [] || !IsSpace(r[0])
    ensures forall k :: 0 <= k < |s| - |r| ==> IsSpace(s[k])
    decreases |s|
  {
    if s != [] && IsSpace(s[0]) then
      var r := LStrip(s[1..]);
      assert s[1..][|s| - 1 - |r|..] == s[|s| - |r|..];
      assert forall k :: 1 <= k < |s| - |r| ==> s[k] == s[1..][k - 1];
      r
    else s
  }

  /** `s.rstrip()`. */
  function RStrip(s: string): (r: string)
    ensures |r| <= |s| && r == s[..|r|]
    ensures r == [] || !IsSpace(r[|r| - 1])
    ensures forall k :: |r| <= k < |s| ==> IsSpace(s[k])
    decreases |s|
  {
    if s != [] && IsSpace(s[|s| - 1]) then RStrip(s[..|s| - 1]) else s
  }

  /**
   * `re.sub(pat, '', s)` for a literal pattern: occurrences are found left to
   * right, never overlapping, and the text left behind is not searched again.
   */
  function Delete(s: string, pat: string): (r: string)
    requires pat != []
    ensures |r| <= |s|
    ensures forall c :: c in r ==> c in s
    decreases |s|
  {
    if |s| < |pat| then s
    else if s[..|pat|] == pat then Delete(s[|pat|..], pat)
    else [s[0]] + Delete(s[1..], pat)
  }

  lemma {:induction false} DeleteChar(s: string, c: char)
    ensures c !in Delete(s, [c])
    decreases |s|
  {
    if s != [] {
      DeleteChar(s[1..], c);
    }
  }

  /** Length of the first separator of `seps` that `s` starts with; 0 if none. */
  function SepAt(s: string, seps: seq<string>): (n: nat)
    requires forall sep <- seps :: sep != []
    ensures n <= |s|
    ensures n > 0 ==> s[..n] in seps
    ensures n == 0 ==> forall sep <- seps :: !StartsWith(s, sep)
  {
    if seps == [] then 0
    else
      assert seps[0] in seps;
      if StartsWith(s, seps[0]) then |seps[0]|
      else
        assert forall sep <- seps[1..] :: sep in seps;
        SepAt(s, seps[1..])
  }

  /**
   * `re.split('|'.join(seps), s)` for literal separators, and `s.split(sep)`
   * when `seps == [sep]`: the text is scanned left to right and, at each
   * position, the separators are tried in the order given.
   */
  function SplitAny(s: string, seps: seq<string>): (r: seq<string>)
    requires forall sep <- seps :: sep != []
    ensures |r| >= 1
    ensures StartsWith(s, r[0])
    decreases |s|
  {
    if s == [] then [""]
    else
      var n := SepAt(s, seps);
      if n > 0 then [""] + SplitAny(s[n..], seps)
      else
        var rest := SplitAny(s[1..], seps);
        assert StartsWith(s[1..], rest[0]);
        [[s[0]] + rest[0]] + rest[1..]
  }

  /** The separators that `SplitAny` consumed, in order. */
  function SplitSeparators(s: string, seps: seq<string>): (r: seq<string>)
    requires forall sep <- seps :: sep != []
    ensures |r| + 1 == |SplitAny(s, seps)|
    ensures forall d <- r :: d in seps
    decreases |s|
  {
    if s == [] then []
    else
      var n := SepAt(s, seps);
      if n > 0 then [s[..n]] + SplitSeparators(s[n..], seps)
      else SplitSeparators(s[1..], seps)
  }

  /** `parts[0] + delims[0] + parts[1] + ... + parts[k]`. */
  function Weave(parts: seq<string>, delims: seq<string>): string
    requires |parts| == |delims| + 1
    decreases |delims|
  {
    if delims == [] then parts[0]
    else parts[0] + delims[0] + Weave(parts[1..], delims[1..])
  }

  /** `sep.join(xs)`. */
  function JoinWith(xs: seq<string>, sep: string): string
    decreases |xs|
  {
    if xs == [] then ""
    else if |xs| == 1 then xs[0]
    else xs[0] + sep + JoinWith(xs[1..], sep)
  }

  function Concat(xs: seq<string>): string
    decreases |xs|
  {
    if xs == [] then "" else xs[0] + Concat(xs[1..])
  }

  /** String concatenation is associative; stated apart so that proofs about `Concat` and `Weave` stay small. */
  lemma AppendAssoc<T>(a: seq<T>, b: seq<T>, c: seq<T>)
    ensures (a + b) + c == a + (b + c)
  {
  }

  lemma ConcatCons(x: string, xs: seq<string>)
    ensures Concat([x] + xs) == x + Concat(xs)
  {
    assert ([x] + xs)[1..] == xs;
  }

  lemma ConcatConsHead(c: char, g: seq<string>)
    requires g != []
    ensures Concat([[c] + g[0]] + g[1..]) == [c] + Concat(g)
  {
    var head := g[0];
    var tail := g[1..];
    ConcatCons([c] + head, tail);
    ConcatCons(head, tail);
    assert [head] + tail == g;
    AppendAssoc([c], head, Concat(tail));
  }

  lemma PrefixStartsWith(s: string, p: string, sep: string)
    requires StartsWith(s, p) && StartsWith(p, sep)
    ensures StartsWith(s, sep)
  {
    assert s[..|sep|] == p[..|sep|];
  }

  lemma {:induction false} ContainsSubOfSuffix(s: string, k: nat, p: string)
    requires k <= |s| && ContainsSub(s[k..], p)
    ensures ContainsSub(s, p)
    decreases k
  {
    if k > 0 {
      assert s[1..][k - 1..] == s[k..];
      ContainsSubOfSuffix(s[1..], k - 1, p);
    }
  }

  lemma WeaveConsHead(c: char, parts: seq<string>, delims: seq<string>)
    requires |parts| == |delims| + 1
    ensures Weave([[c] + parts[0]] + parts[1..], delims) == [c] + Weave(parts, delims)
  {
    var parts' := [[c] + parts[0]] + parts[1..];
    if delims != [] {
      assert parts'[1..] == parts[1..];
      calc {
        Weave(parts', delims);
        ([c] + parts[0]) + delims[0] + Weave(parts[1..], delims[1..]);
        [c] + (parts[0] + delims[0] + Weave(parts[1..], delims[1..]));
      }
    }
  }

  /** The pieces that `SplitAny` returns, put back together with the separators it consumed, give the text back. */
  lemma {:induction false} SplitAnyWeave(s: string, seps: seq<string>)
    requires forall sep <- seps :: sep != []
    ensures Weave(SplitAny(s, seps), SplitSeparators(s, seps)) == s
    decreases |s|
  {
    if s != [] {
      var n := SepAt(s, seps);
      if n > 0 {
        SplitAnyWeave(s[n..], seps);
        WeaveSeparatorStep(s, seps, n);
      } else {
        SplitAnyWeave(s[1..], seps);
        var rest := SplitAny(s[1..], seps);
        WeaveConsHead(s[0], rest, SplitSeparators(s[1..], seps));
        assert s == [s[0]] + s[1..];
      }
    }
  }

  lemma WeaveSeparatorStep(s: string, seps: seq<string>, n: nat)
    requires forall sep <- seps :: sep != []
    requires s != [] && n == SepAt(s, seps) && n > 0
    requires Weave(SplitAny(s[n..], seps), SplitSeparators(s[n..], seps)) == s[n..]
    ensures Weave(SplitAny(s, seps), SplitSeparators(s, seps)) == s
  {
    var rest := SplitAny(s[n..], seps);
    var ds := SplitSeparators(s[n..], seps);
    assert SplitAny(s, seps) == [""] + rest;
    assert SplitSeparators(s, seps) == [s[..n]] + ds;
    WeaveAfterSeparator(s, n, rest, ds);
  }

  lemma WeaveAfterSeparator(s: string, n: nat, rest: seq<string>, ds: seq<string>)
    requires n <= |s| && |rest| == |ds| + 1
    requires Weave(rest, ds) == s[n..]
    ensures Weave([""] + rest, [s[..n]] + ds) == s
  {
    WeaveConsEmpty(rest, ds, s[..n]);
    assert s == s[..n] + s[n..];
  }

  lemma WeaveConsEmpty(parts: seq<string>, delims: seq<string>, d: string)
    requires |parts| == |delims| + 1
    ensures Weave([""] + parts, [d] + delims) == d + Weave(parts, delims)
  {
    assert ([""] + parts)[1..] == parts;
    assert ([d] + delims)[1..] == delims;
    assert ([""] + parts)[0] + d == d;
  }

  /** The text from the start of piece `i` on: `parts[i] + delims[i] + ... + parts[k]`. */
  function WeaveFrom(parts: seq<string>, delims: seq<string>, i: nat): string
    requires |parts| == |delims| + 1 && i < |parts|
  {
    Weave(parts[i..], delims[i..])
  }

  /**
   * The split is leftmost: no separator starts at any position inside a
   * piece, so each separator consumed is the first one in the text.
   */
  lemma {:induction false} SplitAnyLeftmost(s: string, seps: seq<string>)
    requires forall sep <- seps :: sep != []
    ensures NoSeparatorInPieces(SplitAny(s, seps), SplitSeparators(s, seps), seps)
    decreases |s|
  {
    if s != [] {
      var n := SepAt(s, seps);
      if n > 0 {
        SplitAnyLeftmost(s[n..], seps);
        LeftmostAfterCut(SplitAny(s[n..], seps), SplitSeparators(s[n..], seps), s[..n], seps);
      } else {
        var p' := SplitAny(s[1..], seps);
        var d' := SplitSeparators(s[1..], seps);
        SplitAnyLeftmost(s[1..], seps);
        SplitAnyWeave(s[1..], seps);
        assert s == [s[0]] + s[1..];
        LeftmostInPiece(s[0], p', d', seps);
      }
    }
  }

  lemma LeftmostAfterCut(p: seq<string>, d: seq<string>, sep: string, seps: seq<string>)
    requires forall sep <- seps :: sep != []
    requires |p| == |d| + 1
    requires NoSeparatorInPieces(p, d, seps)
    ensures NoSeparatorInPieces([""] + p, [sep] + d, seps)
  {
    var p2 := [""] + p;
    var d2 := [sep] + d;
    forall i, k | 0 <= i < |p2| && 0 <= k < |p2[i]| ensures SepAt(WeaveFrom(p2, d2, i)[k..], seps) == 0 {
      assert i > 0 && p2[i] == p[i - 1];
      assert p2[i..] == p[i - 1..] && d2[i..] == d[i - 1..];
      assert WeaveFrom(p2, d2, i) == WeaveFrom(p, d, i - 1);
    }
  }

  lemma LeftmostInPiece(c: char, p: seq<string>, d: seq<string>, seps: seq<string>)
    requires forall sep <- seps :: sep != []
    requires |p| == |d| + 1
    requires SepAt([c] + Weave(p, d), seps) == 0
    requires NoSeparatorInPieces(p, d, seps)
    ensures NoSeparatorInPieces([[c] + p[0]] + p[1..], d, seps)
  {
    var p2 := [[c] + p[0]] + p[1..];
    WeaveConsHead(c, p, d);
    forall i, k | 0 <= i < |p2| && 0 <= k < |p2[i]| ensures SepAt(WeaveFrom(p2, d, i)[k..], seps) == 0 {
      if i == 0 {
        assert p2[0..] == p2 && d[0..] == d && p[0..] == p;
        assert WeaveFrom(p2, d, 0) == [c] + Weave(p, d);
        if k == 0 {
          assert ([c] + Weave(p, d))[0..] == [c] + Weave(p, d);
        } else {
          assert ([c] + Weave(p, d))[k..] == Weave(p, d)[k - 1..];
          assert k - 1 < |p[0]|;
          assert WeaveFrom(p, d, 0) == Weave(p, d);
        }
      } else {
        assert p2[1..] == p[1..];
        assert p2[i..] == p2[1..][i - 1..] && p[i..] == p[1..][i - 1..];
        assert p2[i] == p[i];
        assert WeaveFrom(p2, d, i) == WeaveFrom(p, d, i);
      }
    }
  }

  ghost predicate NoSeparatorInPieces(p: seq<string>, d: seq<string>, seps: seq<string>)
    requires forall sep <- seps :: sep != []
    requires |p| == |d| + 1
  {
    forall i, k :: 0 <= i < |p| && 0 <= k < |p[i]| ==> SepAt(WeaveFrom(p, d, i)[k..], seps) == 0
  }

  /**
   * At each cut the separator consumed is the first one in `seps` that the
   * rest of the text starts with, as in a regex alternation.
   */
  lemma {:induction false} SplitAnyFirstSeparator(s: string, seps: seq<string>)
    requires forall sep <- seps :: sep != []
    ensures FirstSeparators(SplitAny(s, seps), SplitSeparators(s, seps), seps)
    decreases |s|
  {
    if s != [] {
      var n := SepAt(s, seps);
      if n > 0 {
        SplitAnyFirstSeparator(s[n..], seps);
        SplitAnyWeave(s[n..], seps);
        FirstSeparatorsCutStep(s, seps, n);
      } else {
        SplitAnyFirstSeparator(s[1..], seps);
        FirstSeparatorsPieceStep(s, seps);
      }
    }
  }

  lemma FirstSeparatorsCutStep(s: string, seps: seq<string>, n: nat)
    requires forall sep <- seps :: sep != []
    requires s != [] && n == SepAt(s, seps) && n > 0
    requires FirstSeparators(SplitAny(s[n..], seps), SplitSeparators(s[n..], seps), seps)
    requires Weave(SplitAny(s[n..], seps), SplitSeparators(s[n..], seps)) == s[n..]
    ensures FirstSeparators(SplitAny(s, seps), SplitSeparators(s, seps), seps)
  {
    CutShape(s, seps, n);
    FirstSeparatorsAfterCut(SplitAny(s[n..], seps), SplitSeparators(s[n..], seps), s[..n], seps);
  }

  /** One cut of `SplitAny`, unfolded. */
  lemma CutShape(s: string, seps: seq<string>, n: nat)
    requires forall sep <- seps :: sep != []
    requires s != [] && n == SepAt(s, seps) && n > 0
    requires Weave(SplitAny(s[n..], seps), SplitSeparators(s[n..], seps)) == s[n..]
    ensures SplitAny(s, seps) == [""] + SplitAny(s[n..], seps)
    ensures SplitSeparators(s, seps) == [s[..n]] + SplitSeparators(s[n..], seps)
    ensures SepAt(s[..n] + Weave(SplitAny(s[n..], seps), SplitSeparators(s[n..], seps)), seps) == |s[..n]|
  {
    CutSepAt(s, seps, n, Weave(SplitAny(s[n..], seps), SplitSeparators(s[n..], seps)));
  }

  lemma CutSepAt(s: string, seps: seq<string>, n: nat, w: string)
    requires forall sep <- seps :: sep != []
    requires n <= |s| && n == SepAt(s, seps) && w == s[n..]
    ensures SepAt(s[..n] + w, seps) == |s[..n]|
  {
    assert s[..n] + s[n..] == s;
  }

  lemma FirstSeparatorsPieceStep(s: string, seps: seq<string>)
    requires forall sep <- seps :: sep != []
    requires s != [] && SepAt(s, seps) == 0
    requires FirstSeparators(SplitAny(s[1..], seps), SplitSeparators(s[1..], seps), seps)
    ensures FirstSeparators(SplitAny(s, seps), SplitSeparators(s, seps), seps)
  {
    var p' := SplitAny(s[1..], seps);
    var d' := SplitSeparators(s[1..], seps);
    FirstSeparatorsInPiece(s[0], p', d', seps);
    assert SplitAny(s, seps) == [[s[0]] + p'[0]] + p'[1..];
    assert SplitSeparators(s, seps) == d';
  }

  ghost predicate FirstSeparators(p: seq<string>, d: seq<string>, seps: seq<string>)
    requires forall sep <- seps :: sep != []
    requires |p| == |d| + 1
  {
    forall i :: 0 <= i < |d| ==> SepAt(d[i] + WeaveFrom(p, d, i + 1), seps) == |d[i]|
  }

  lemma FirstSeparatorsAfterCut(p: seq<string>, d: seq<string>, sep: string, seps: seq<string>)
    requires forall sep <- seps :: sep != []
    requires |p| == |d| + 1
    requires FirstSeparators(p, d, seps)
    requires SepAt(sep + Weave(p, d), seps) == |sep|
    ensures FirstSeparators([""] + p, [sep] + d, seps)
  {
    var p2 := [""] + p;
    var d2 := [sep] + d;
    forall i | 0 <= i < |d2| ensures SepAt(d2[i] + WeaveFrom(p2, d2, i + 1), seps) == |d2[i]| {
      WeaveFromAfterCut(p, d, sep, i);
      if i > 0 {
        assert SepAt(d[i - 1] + WeaveFrom(p, d, i), seps) == |d[i - 1]|;
      }
    }
  }

  lemma WeaveFromAfterCut(p: seq<string>, d: seq<string>, sep: string, i: nat)
    requires |p| == |d| + 1 && i <= |d|
    ensures i == 0 ==> ([sep] + d)[i] == sep && WeaveFrom([""] + p, [sep] + d, i + 1) == Weave(p, d)
    ensures i > 0 ==> ([sep] + d)[i] == d[i - 1] && WeaveFrom([""] + p, [sep] + d, i + 1) == WeaveFrom(p, d, i)
  {
    assert ([""] + p)[i + 1..] == p[i..] && ([sep] + d)[i + 1..] == d[i..];
    assert p[0..] == p && d[0..] == d;
  }

  lemma FirstSeparatorsInPiece(c: char, p: seq<string>, d: seq<string>, seps: seq<string>)
    requires forall sep <- seps :: sep != []
    requires |p| == |d| + 1
    requires FirstSeparators(p, d, seps)
    ensures FirstSeparators([[c] + p[0]] + p[1..], d, seps)
  {
    var p2 := [[c] + p[0]] + p[1..];
    forall i | 0 <= i < |d| ensures SepAt(d[i] + WeaveFrom(p2, d, i + 1), seps) == |d[i]| {
      assert p2[1..] == p[1..];
      assert p2[i + 1..] == p2[1..][i..] && p[i + 1..] == p[1..][i..];
      assert WeaveFrom(p2, d, i + 1) == WeaveFrom(p, d, i + 1);
    }
  }

  /** A character that the text does not hold is in none of its pieces. */
  lemma {:induction false} SplitAnyAbsentChar(s: string, seps: seq<string>, c: char)
    requires forall sep <- seps :: sep != []
    requires c !in s
    ensures forall p <- SplitAny(s, seps) :: c !in p
    decreases |s|
  {
    if s != [] {
      var n := SepAt(s, seps);
      assert c !in s[n..] && c !in s[1..];
      if n > 0 {
        SplitAnyAbsentChar(s[n..], seps, c);
      } else {
        SplitAnyAbsentChar(s[1..], seps, c);
      }
    }
  }

  /** No piece of a split contains any of the separators: each one would have been split at. */
  lemma {:induction false} SplitAnyNoSeparator(s: string, seps: seq<string>)
    requires forall sep <- seps :: sep != []
    ensures forall p <- SplitAny(s, seps), sep <- seps :: !ContainsSub(p, sep)
    decreases |s|
  {
    if s != [] {
      var n := SepAt(s, seps);
      if n > 0 {
        SplitAnyNoSeparator(s[n..], seps);
      } else {
        SplitAnyNoSeparator(s[1..], seps);
        var rest := SplitAny(s[1..], seps);
        var head := [s[0]] + rest[0];
        assert StartsWith(s, head);
        forall sep <- seps ensures !ContainsSub(head, sep) {
          if StartsWith(head, sep) {
            PrefixStartsWith(s, head, sep);
          }
          assert head[1..] == rest[0];
        }
        assert SplitAny(s, seps) == [head] + rest[1..];
      }
    }
  }

  lemma PrefixNoAdjacentDigits(s: string, p: string)
    requires NoAdjacentDigits(s) && StartsWith(s, p)
    ensures NoAdjacentDigits(p)
  {
    assert forall i :: 0 <= i < |p| ==> p[i] == s[i];
  }

  /** Splitting never puts two digits side by side that were not already adjacent. */
  lemma {:induction false} SplitAnyNoAdjacentDigits(s: string, seps: seq<string>)
    requires forall sep <- seps :: sep != []
    requires NoAdjacentDigits(s)
    ensures forall p <- SplitAny(s, seps) :: NoAdjacentDigits(p)
    decreases |s|
  {
    if s != [] {
      var n := SepAt(s, seps);
      assert NoAdjacentDigits(s[n..]);
      assert NoAdjacentDigits(s[1..]);
      if n > 0 {
        SplitAnyNoAdjacentDigits(s[n..], seps);
      } else {
        SplitAnyNoAdjacentDigits(s[1..], seps);
        var rest := SplitAny(s[1..], seps);
        PrefixNoAdjacentDigits(s, [s[0]] + rest[0]);
      }
    }
  }

  /** One half of the round trip `sep.join(xs).split(sep) == xs`. */
  lemma {:induction false} SplitAfterPiece(x: string, sep: string, tail: string)
    requires sep != [] && sep[0] !in x
    ensures SplitAny(x + sep + tail, [sep]) == [x] + SplitAny(tail, [sep])
    decreases |x|
  {
    var s := x + sep + tail;
    if x == [] {
      assert s == sep + tail;
      assert s[..|sep|] == sep;
      assert s[|sep|..] == tail;
    } else {
      assert !StartsWith(s, sep) by { assert s[0] == x[0]; }
      assert s[1..] == x[1..] + sep + tail;
      SplitAfterPiece(x[1..], sep, tail);
      assert [x[0]] + x[1..] == x;
    }
  }

  lemma {:induction false} SplitWithout(x: string, sep: string)
    requires sep != [] && sep[0] !in x
    ensures SplitAny(x, [sep]) == [x]
    decreases |x|
  {
    if x != [] {
      assert !StartsWith(x, sep);
      SplitWithout(x[1..], sep);
      assert [x[0]] + x[1..] == x;
    }
  }

  /** With one separator, `SepAt` is its length exactly where the text starts with it. */
  lemma SepAtSingle(s: string, pat: string)
    requires pat != []
    ensures SepAt(s, [pat]) == if StartsWith(s, pat) then |pat| else 0
  {
    assert [pat][1..] == [];
  }

  /** A text shorter than the separator is one piece. */
  lemma {:induction false} SplitShort(s: string, pat: string)
    requires pat != [] && |s| < |pat|
    ensures SplitAny(s, [pat]) == [s]
    decreases |s|
  {
    if s != [] {
      SepAtSingle(s, pat);
      SplitShort(s[1..], pat);
      assert [s[0]] + s[1..] == s;
    }
  }

  /**
   * `re.sub(pat, '', s)` keeps exactly the text between the matches that
   * `re.split(pat, s)` cuts at: the leftmost, non-overlapping occurrences.
   */
  lemma {:induction false} DeleteIsConcatOfSplit(s: string, pat: string)
    requires pat != []
    ensures Delete(s, pat) == Concat(SplitAny(s, [pat]))
    decreases |s|
  {
    if |s| < |pat| {
      SplitShort(s, pat);
      assert Concat([s]) == s + Concat([]);
    } else {
      SepAtSingle(s, pat);
      if s[..|pat|] == pat {
        DeleteIsConcatOfSplit(s[|pat|..], pat);
        ConcatCons("", SplitAny(s[|pat|..], [pat]));
      } else {
        DeleteIsConcatOfSplit(s[1..], pat);
        ConcatConsHead(s[0], SplitAny(s[1..], [pat]));
      }
    }
  }

  /** `sep.join(xs).split(sep) == xs` when no element holds the separator's first character. */
  lemma {:induction false} SplitJoinRoundTrip(xs: seq<string>, sep: string)
    requires xs != [] && sep != []
    requires forall x <- xs :: sep[0] !in x
    ensures SplitAny(JoinWith(xs, sep), [sep]) == xs
    decreases |xs|
  {
    if |xs| == 1 {
      SplitWithout(xs[0], sep);
    } else {
      SplitJoinRoundTrip(xs[1..], sep);
      SplitAfterPiece(xs[0], sep, JoinWith(xs[1..], sep));
      assert xs == [xs[0]] + xs[1..];
    }
  }

  /** Each string of `xs` with a space in front. */
  function Spaced(xs: seq<string>): (r: seq<string>)
    ensures |r| == |xs| && forall i :: 0 <= i < |xs| ==> r[i] == " " + xs[i]
  {
    seq(|xs|, i requires 0 <= i < |xs| => " " + xs[i])
  }

  /**
   * `(p + (c + " ").join(xs)).split(c)`: the first piece is `p + xs[0]`
   * and every later piece keeps the space that followed its `c`.
   */
  lemma {:induction false} SplitSpacedJoin(p: string, xs: seq<string>, c: char)
    requires xs != [] && c != ' ' && c !in p
    requires forall x <- xs :: c !in x
    ensures SplitAny(p + JoinWith(xs, [c, ' ']), [[c]]) == [p + xs[0]] + Spaced(xs[1..])
    decreases |xs|
  {
    assert xs[0] in xs;
    if |xs| == 1 {
      SplitWithout(p + xs[0], [c]);
    } else {
      var sep: string := [c, ' '];
      var rest := JoinWith(xs[1..], sep);
      assert forall x <- xs[1..] :: x in xs;
      SplitSpacedJoin(" ", xs[1..], c);
      assert Spaced(xs[1..]) == [" " + xs[1]] + Spaced(xs[1..][1..]);
      SpacedJoinStep(p, xs[0], c, rest);
      SplitAfterPiece(p + xs[0], [c], " " + rest);
    }
  }

  lemma SpacedJoinStep(p: string, x: string, c: char, rest: string)
    ensures p + (x + [c, ' '] + rest) == (p + x) + [c] + (" " + rest)
  {
    var sep: string := [c, ' '];
    assert sep == [c] + " ";
    AppendAssoc([c], " ", rest);
    AppendAssoc(x, sep, rest);
    AppendAssoc(x, [c], " " + rest);
    AppendAssoc(p, x, [c] + (" " + rest));
    AppendAssoc(p + x, [c], " " + rest);
  }

  /** Deleting a character that does not occur changes nothing. */
  lemma {:induction false} DeleteAbsent(s: string, c: char)
    requires c !in s
    ensures Delete(s, [c]) == s
    decreases |s|
  {
    if s != [] {
      assert s[0] in s;
      assert s[..1] != [c];
      DeleteAbsent(s[1..], c);
      assert [s[0]] + s[1..] == s;
    }
  }

  /** A leading `c` is deleted along with the rest. */
  lemma DeleteLeading(c: char, s: string)
    ensures Delete([c] + s, [c]) == Delete(s, [c])
  {
    var x := [c] + s;
    assert x[..1] == [c] && x[1..] == s;
  }

  /** Number of occurrences of `c` in `s`. */
  function CountChar(s: string, c: char): nat
    decreases |s|
  {
    if s == [] then 0 else (if s[0] == c then 1 else 0) + CountChar(s[1..], c)
  }

  /** `s.split(c)` yields one more piece than there are `c`s in `s`. */
  lemma {:induction false} SplitCharCount(s: string, c: char)
    ensures |SplitAny(s, [[c]])| == CountChar(s, c) + 1
    decreases |s|
  {
    if s != [] {
      SplitCharCount(s[1..], c);
      assert StartsWith(s, [c]) <==> s[0] == c;
    }
  }
}
