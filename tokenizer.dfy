/**
 * The tokenizer (`HPOSorter`): one survey cell is split into numeric code
 * candidates (the runs of two or more digits) and textual phrase candidates
 * (what is left once the `HP` markers, colons and digit runs are deleted,
 * split at commas and double spaces).
 */
module Tokenizer {
  import opened Wrappers
  import opened Text
  import opened NullFilter

  /** `drop_leading_hp`: only the upper-case marker `HP` at the very start is dropped. */
  function DropLeadingHp(s: string): (r: string)
    ensures StartsWith(s, "HP") ==> "HP" + r == s
    ensures !StartsWith(s, "HP") ==> r == s
  {
    if StartsWith(s, "HP") then s[2..] else s
  }

  lemma DropLeadingHpExamples()
    ensures DropLeadingHp("HP:0000001") == ":0000001"
    ensures DropLeadingHp("0000001") == "0000001"
    ensures DropLeadingHp("HP0000001") == "0000001"
    ensures DropLeadingHp("hp:0000001") == "hp:0000001"
  {
    assert !StartsWith("0000001", "HP") by { assert "0000001"[..2][0] == '0'; }
    assert !StartsWith("hp:0000001", "HP") by { assert "hp:0000001"[..2][0] == 'h'; }
  }

  /** Length of the run of digits at the start of `s`. */
  function LeadingDigits(s: string): (n: nat)
    ensures n <= |s|
    ensures forall i :: 0 <= i < n ==> IsDigit(s[i])
    ensures n < |s| ==> !IsDigit(s[n])
    decreases |s|
  {
    if s != [] && IsDigit(s[0]) then 1 + LeadingDigits(s[1..]) else 0
  }

  predicate AllDigits(s: string)
  {
    forall i :: 0 <= i < |s| ==> IsDigit(s[i])
  }

  /** `re.findall(r'\d{2,}', s)`. */
  function DigitRuns(s: string): (r: seq<string>)
    ensures forall x <- r :: |x| >= 2 && AllDigits(x)
    decreases |s|
  {
    if s == [] then []
    else
      var n := LeadingDigits(s);
      if n >= 2 then [s[..n]] + DigitRuns(s[n..]) else DigitRuns(s[1..])
  }

  /** `re.sub(r'\d{2,}', '', s)`. */
  function RemoveDigitRuns(s: string): (r: string)
    ensures NoAdjacentDigits(r)
    ensures forall c :: c in r ==> c in s
    ensures s != [] && !IsDigit(s[0]) ==> r != [] && r[0] == s[0]
    decreases |s|
  {
    if s == [] then []
    else
      var n := LeadingDigits(s);
      if n >= 2 then RemoveDigitRuns(s[n..]) else [s[0]] + RemoveDigitRuns(s[1..])
  }

  /** The text between the digit runs: the cell is these gaps woven with the runs. */
  ghost function DigitGaps(s: string): (r: seq<string>)
    ensures |r| == |DigitRuns(s)| + 1
    decreases |s|
  {
    if s == [] then [""]
    else
      var n := LeadingDigits(s);
      if n >= 2 then [""] + DigitGaps(s[n..])
      else
        var g := DigitGaps(s[1..]);
        [[s[0]] + g[0]] + g[1..]
  }

  /** The runs and the gaps between them rebuild the cell. */
  lemma {:induction false} DigitRunsWeave(s: string)
    ensures Weave(DigitGaps(s), DigitRuns(s)) == s
    decreases |s|
  {
    if s != [] {
      var n := LeadingDigits(s);
      if n >= 2 {
        DigitRunsWeave(s[n..]);
        RunStep(s, n);
      } else {
        DigitRunsWeave(s[1..]);
        NonRunStep(s);
      }
    }
  }

  lemma NonRunStep(s: string)
    requires s != [] && LeadingDigits(s) < 2
    requires Weave(DigitGaps(s[1..]), DigitRuns(s[1..])) == s[1..]
    ensures Weave(DigitGaps(s), DigitRuns(s)) == s
  {
    var g := DigitGaps(s[1..]);
    NonRunUnfold(s);
    WeaveConsHead(s[0], g, DigitRuns(s[1..]));
    assert s == [s[0]] + s[1..];
  }

  lemma NonRunUnfold(s: string)
    requires s != [] && LeadingDigits(s) < 2
    ensures DigitGaps(s) == [[s[0]] + DigitGaps(s[1..])[0]] + DigitGaps(s[1..])[1..]
    ensures DigitRuns(s) == DigitRuns(s[1..])
  {
  }

  lemma RunStep(s: string, n: nat)
    requires s != [] && n == LeadingDigits(s) && n >= 2
    requires Weave(DigitGaps(s[n..]), DigitRuns(s[n..])) == s[n..]
    ensures Weave(DigitGaps(s), DigitRuns(s)) == s
  {
    assert DigitGaps(s) == [""] + DigitGaps(s[n..]);
    assert DigitRuns(s) == [s[..n]] + DigitRuns(s[n..]);
    WeaveAfterSeparator(s, n, DigitGaps(s[n..]), DigitRuns(s[n..]));
  }

  /** Removing the runs leaves exactly the gaps: `re.sub` and `re.findall` cut the cell at the same places. */
  lemma {:induction false} DigitGapsConcat(s: string)
    ensures Concat(DigitGaps(s)) == RemoveDigitRuns(s)
    decreases |s|
  {
    if s != [] {
      var n := LeadingDigits(s);
      if n >= 2 {
        DigitGapsConcat(s[n..]);
        assert DigitGaps(s) == [""] + DigitGaps(s[n..]);
        assert ([""] + DigitGaps(s[n..]))[1..] == DigitGaps(s[n..]);
      } else {
        DigitGapsConcat(s[1..]);
        var g := DigitGaps(s[1..]);
        ConcatConsHead(s[0], g);
        assert DigitGaps(s) == [[s[0]] + g[0]] + g[1..];
      }
    }
  }

  /**
   * The gaps separate maximal runs: no gap holds two adjacent digits, a gap
   * after a run starts with a non-digit, a gap before a run ends with one,
   * and only the first and the last gap may be empty.
   */
  predicate SeparatesRuns(gaps: seq<string>)
  {
    && (forall g <- gaps :: NoAdjacentDigits(g))
    && (forall i :: 0 < i < |gaps| && gaps[i] != [] ==> !IsDigit(gaps[i][0]))
    && (forall i :: 0 <= i < |gaps| - 1 && gaps[i] != [] ==> !IsDigit(gaps[i][|gaps[i]| - 1]))
    && (forall i :: 0 < i < |gaps| - 1 ==> gaps[i] != [])
  }

  lemma SeparatesRunsAfterRun(g: seq<string>)
    requires g != [] && SeparatesRuns(g)
    requires g[0] == [] || !IsDigit(g[0][0])
    requires |g| > 1 ==> g[0] != []
    ensures SeparatesRuns([""] + g)
  {
    var gaps := [""] + g;
    forall i | 0 < i < |gaps| ensures gaps[i] == g[i - 1] {}
  }

  lemma SeparatesRunsExtendHead(c: char, g: seq<string>)
    requires g != [] && SeparatesRuns(g)
    requires NoAdjacentDigits([c] + g[0])
    requires |g| > 1 && g[0] == [] ==> !IsDigit(c)
    ensures SeparatesRuns([[c] + g[0]] + g[1..])
  {
    var gaps := [[c] + g[0]] + g[1..];
    forall i | 0 < i < |gaps| ensures gaps[i] == g[i] {}
  }

  /**
   * The gaps between the runs that `DigitRuns` finds separate maximal runs.
   * With `DigitRunsWeave` this says that the runs are exactly the maximal
   * runs of two or more digits, from left to right.
   */
  lemma {:induction false} DigitRunsMaximal(s: string)
    ensures SeparatesRuns(DigitGaps(s))
    ensures GapHeadFacts(s)
    decreases |s|
  {
    if s != [] {
      var n := LeadingDigits(s);
      if n >= 2 {
        DigitRunsMaximal(s[n..]);
        MaximalAfterRun(s, n);
      } else {
        DigitRunsMaximal(s[1..]);
        MaximalExtendHead(s);
      }
    }
  }

  /** How the first gap starts: with the cell's first character unless the cell starts with a run. */
  ghost predicate GapHeadFacts(s: string)
  {
    && (s != [] && LeadingDigits(s) < 2 ==> DigitGaps(s)[0] != [] && DigitGaps(s)[0][0] == s[0])
    && (DigitGaps(s)[0] == [] && |DigitGaps(s)| > 1 ==> LeadingDigits(s) >= 2)
  }

  lemma MaximalAfterRun(s: string, n: nat)
    requires s != [] && n == LeadingDigits(s) && n >= 2
    requires SeparatesRuns(DigitGaps(s[n..])) && GapHeadFacts(s[n..])
    ensures SeparatesRuns(DigitGaps(s)) && GapHeadFacts(s)
  {
    var t := s[n..];
    assert t != [] ==> LeadingDigits(t) == 0;
    assert DigitGaps(s) == [""] + DigitGaps(t);
    SeparatesRunsAfterRun(DigitGaps(t));
  }

  lemma MaximalExtendHead(s: string)
    requires s != [] && LeadingDigits(s) < 2
    requires SeparatesRuns(DigitGaps(s[1..])) && GapHeadFacts(s[1..])
    ensures SeparatesRuns(DigitGaps(s)) && GapHeadFacts(s)
  {
    var t := s[1..];
    var g := DigitGaps(t);
    assert DigitGaps(s) == [[s[0]] + g[0]] + g[1..];
    assert t != [] && IsDigit(s[0]) ==> LeadingDigits(t) == 0;
    assert g[0] in g;
    if IsDigit(s[0]) && g[0] != [] {
      assert t != [] && !IsDigit(t[0]);
      assert g[0][0] == t[0];
    }
    NoAdjacentDigitsCons(s[0], g[0]);
    SeparatesRunsExtendHead(s[0], g);
  }

  lemma NoAdjacentDigitsCons(c: char, x: string)
    requires NoAdjacentDigits(x)
    requires x != [] && IsDigit(c) ==> !IsDigit(x[0])
    ensures NoAdjacentDigits([c] + x)
  {
    var y := [c] + x;
    forall i | 0 < i < |y| ensures y[i] == x[i - 1] {}
  }

  /** The eight case variants of the ontology prefix, with and without a colon, then every colon, deleted in this order. */
  function HpMarkersRemoved(s: string): (r: string)
    ensures ':' !in r
    ensures |r| <= |s|
  {
    var s1 := Delete(Delete(Delete(Delete(s, "HP:"), "hp:"), "hP:"), "Hp:");
    var s2 := Delete(Delete(Delete(Delete(s1, "HP"), "hp"), "hP"), "Hp");
    DeleteChar(s2, ':');
    Delete(s2, ":")
  }

  /**
   * What every textual candidate avoids: no comma, no colon, no double
   * space and no two adjacent digits.
   */
  predicate Clean(p: string)
  {
    ',' !in p && ':' !in p && !ContainsSub(p, "  ") && NoAdjacentDigits(p)
  }

  lemma {:induction false} MemberContainsSub(s: string, c: char)
    requires c in s
    ensures ContainsSub(s, [c])
    decreases |s|
  {
    if s[0] != c {
      MemberContainsSub(s[1..], c);
    }
  }

  lemma CleanSuffix(p: string, k: nat)
    requires Clean(p) && k <= |p|
    ensures Clean(p[k..])
  {
    if ContainsSub(p[k..], "  ") {
      ContainsSubOfSuffix(p, k, "  ");
    }
    assert forall c :: c in p[k..] ==> c in p;
  }

  /** Every piece of the split remainder is clean. */
  lemma PiecesClean(t: string)
    requires ':' !in t && NoAdjacentDigits(t)
    ensures forall p <- SplitAny(t, [",", "  "]) :: Clean(p)
  {
    var seps := [",", "  "];
    SplitAnyNoSeparator(t, seps);
    SplitAnyAbsentChar(t, seps, ':');
    SplitAnyNoAdjacentDigits(t, seps);
    forall p <- SplitAny(t, seps) ensures ',' !in p {
      assert !ContainsSub(p, ",") by { assert "," in seps; }
      if ',' in p {
        MemberContainsSub(p, ',');
      }
    }
    forall p <- SplitAny(t, seps) ensures !ContainsSub(p, "  ") {
      assert "  " in seps;
    }
  }

  /** `[v for v in xs if re.search('[a-zA-Z]', v)]`. */
  function KeepLettered(xs: seq<string>): (r: seq<string>)
    ensures forall p <- r :: p in xs && HasAsciiLetter(p)
    decreases |xs|
  {
    if xs == [] then []
    else if HasAsciiLetter(xs[0]) then [xs[0]] + KeepLettered(xs[1..])
    else KeepLettered(xs[1..])
  }

  /** The filter distributes over concatenation, so it keeps the pieces in their order. */
  lemma {:induction false} KeepLetteredAppend(xs: seq<string>, ys: seq<string>)
    ensures KeepLettered(xs + ys) == KeepLettered(xs) + KeepLettered(ys)
    decreases |xs|
  {
    if xs == [] {
      assert xs + ys == ys;
    } else {
      var zs := xs + ys;
      assert zs[0] == xs[0] && zs[1..] == xs[1..] + ys;
      KeepLetteredAppend(xs[1..], ys);
      if HasAsciiLetter(xs[0]) {
        assert KeepLettered(zs) == [xs[0]] + KeepLettered(zs[1..]);
        AppendAssoc([xs[0]], KeepLettered(xs[1..]), KeepLettered(ys));
      } else {
        assert KeepLettered(zs) == KeepLettered(zs[1..]);
      }
    }
  }

  /** The positions below `n` of the pieces that hold a letter, in increasing order. */
  function LetteredIndices(xs: seq<string>, n: nat): (r: seq<nat>)
    requires n <= |xs|
    ensures forall k :: 0 <= k < |r| ==> r[k] < n
    ensures forall k, l :: 0 <= k < l < |r| ==> r[k] < r[l]
    ensures forall j :: 0 <= j < n ==> (HasAsciiLetter(xs[j]) <==> j in r)
    decreases n
  {
    if n == 0 then []
    else LetteredIndices(xs, n - 1) + (if HasAsciiLetter(xs[n - 1]) then [n - 1] else [])
  }

  /**
   * The kept pieces are exactly the lettered ones, in text order: the k-th
   * kept piece is the piece at the k-th lettered position.
   */
  lemma {:induction false} KeepLetteredAt(xs: seq<string>, n: nat)
    requires n <= |xs|
    ensures |KeepLettered(xs[..n])| == |LetteredIndices(xs, n)|
    ensures forall k :: 0 <= k < |LetteredIndices(xs, n)| ==>
      KeepLettered(xs[..n])[k] == xs[LetteredIndices(xs, n)[k]]
    decreases n
  {
    if n > 0 {
      KeepLetteredAt(xs, n - 1);
      var x := xs[n - 1];
      assert xs[..n] == xs[..n - 1] + [x];
      KeepLetteredAppend(xs[..n - 1], [x]);
      KeepLetteredOne(x);
      assert LetteredIndices(xs, n) == LetteredIndices(xs, n - 1) + (if HasAsciiLetter(x) then [n - 1] else []);
    }
  }

  lemma KeepLetteredOne(x: string)
    ensures KeepLettered([x]) == if HasAsciiLetter(x) then [x] else []
  {
    assert [x][1..] == [];
  }

  /** A letter is not whitespace, so left-stripping keeps it. */
  lemma LStripKeepsLetter(p: string)
    requires HasAsciiLetter(p)
    ensures HasAsciiLetter(LStrip(p))
  {
    var i :| 0 <= i < |p| && IsAsciiLetter(p[i]);
    var k := |p| - |LStrip(p)|;
    assert !IsSpace(p[i]);
    assert LStrip(p)[i - k] == p[i];
  }

  /** The text that remains once the markers, the colons and the digit runs are gone. */
  function Remainder(s: string): (r: string)
    ensures ':' !in r && NoAdjacentDigits(r)
  {
    RemoveDigitRuns(HpMarkersRemoved(s))
  }

  /**
   * The phrases before the final `drop_leading_hp`: the pieces of the
   * remainder between commas and double spaces that hold a letter,
   * left-stripped.
   */
  function Phrases(s: string): (r: seq<string>)
    ensures forall p <- r :: HasAsciiLetter(p) && (p == [] || !IsSpace(p[0])) && Clean(p)
  {
    var t := Remainder(s);
    var kept := KeepLettered(SplitAny(t, [",", "  "]));
    PiecesClean(t);
    StripAllClean(kept);
    StripAll(kept)
  }

  /**
   * The phrases are the left-stripped pieces of the remainder that hold a
   * letter, one per such piece and in the order of the pieces in the text.
   */
  lemma PhrasesInTextOrder(s: string)
    ensures var pieces := SplitAny(Remainder(s), [",", "  "]);
      var idx := LetteredIndices(pieces, |pieces|);
      && |Phrases(s)| == |idx|
      && (forall k :: 0 <= k < |idx| ==> Phrases(s)[k] == LStrip(pieces[idx[k]]))
  {
    var pieces := SplitAny(Remainder(s), [",", "  "]);
    KeepLetteredAt(pieces, |pieces|);
    assert pieces[..|pieces|] == pieces;
  }

  /** No piece that holds a letter is dropped. */
  lemma KeepLetteredComplete(xs: seq<string>)
    ensures forall p <- xs :: HasAsciiLetter(p) ==> p in KeepLettered(xs)
  {
    KeepLetteredAt(xs, |xs|);
    assert xs[..|xs|] == xs;
    var idx := LetteredIndices(xs, |xs|);
    forall j | 0 <= j < |xs| && HasAsciiLetter(xs[j]) ensures xs[j] in KeepLettered(xs) {
      var k :| 0 <= k < |idx| && idx[k] == j;
      assert KeepLettered(xs)[k] == xs[j];
    }
  }

  /**
   * The textual candidates of `HPOSorter` follow the text: the k-th one is
   * the k-th piece holding a letter, left-stripped, with the leading `HP`
   * dropped.
   */
  lemma HpoSorterTextOrder(cell: Option<string>)
    ensures var pieces := SplitAny(Remainder(CheckAndSetNan(cell, NullList)), [",", "  "]);
      var idx := LetteredIndices(pieces, |pieces|);
      && |HpoSorter(cell).1| == |idx|
      && (forall k :: 0 <= k < |idx| ==> HpoSorter(cell).1[k] == DropLeadingHp(LStrip(pieces[idx[k]])))
  {
    PhrasesInTextOrder(CheckAndSetNan(cell, NullList));
  }

  /** `[p.lstrip() for p in xs]`. */
  function StripAll(xs: seq<string>): (r: seq<string>)
    ensures |r| == |xs| && forall i :: 0 <= i < |xs| ==> r[i] == LStrip(xs[i])
  {
    seq(|xs|, i requires 0 <= i < |xs| => LStrip(xs[i]))
  }

  lemma StripAllClean(xs: seq<string>)
    requires forall p <- xs :: HasAsciiLetter(p) && Clean(p)
    ensures forall p <- StripAll(xs) :: HasAsciiLetter(p) && (p == [] || !IsSpace(p[0])) && Clean(p)
  {
    var r := StripAll(xs);
    forall i | 0 <= i < |xs| ensures HasAsciiLetter(r[i]) && Clean(r[i]) {
      assert xs[i] in xs;
      LStripKeepsLetter(xs[i]);
      CleanSuffix(xs[i], |xs[i]| - |r[i]|);
    }
  }

  /**
   * `HPOSorter`: the numeric candidates (all digits, at least two of them)
   * and the textual candidates (clean, with the upper-case `HP` dropped from
   * the start) of one cell.
   */
  function HpoSorter(cell: Option<string>): (r: (seq<string>, seq<string>))
    ensures forall x <- r.0 :: |x| >= 2 && AllDigits(x)
    ensures forall y <- r.1 :: Clean(y)
    ensures r.0 == DigitRuns(CheckAndSetNan(cell, NullList))
    ensures |r.1| == |Phrases(CheckAndSetNan(cell, NullList))|
    ensures forall i :: 0 <= i < |r.1| ==> r.1[i] == DropLeadingHp(Phrases(CheckAndSetNan(cell, NullList))[i])
  {
    var s := CheckAndSetNan(cell, NullList);
    (DigitRuns(s), DropLeadingHpAll(Phrases(s)))
  }

  /** `[drop_leading_hp(p) for p in xs]`; dropping a prefix keeps a phrase clean. */
  function DropLeadingHpAll(xs: seq<string>): (r: seq<string>)
    requires forall p <- xs :: Clean(p)
    ensures |r| == |xs| && forall i :: 0 <= i < |xs| ==> r[i] == DropLeadingHp(xs[i])
    ensures forall y <- r :: Clean(y)
  {
    var r := seq(|xs|, i requires 0 <= i < |xs| => DropLeadingHp(xs[i]));
    assert forall i :: 0 <= i < |xs| ==> Clean(r[i]) by {
      forall i | 0 <= i < |xs| ensures Clean(r[i]) {
        assert xs[i] in xs;
        CleanSuffix(xs[i], |xs[i]| - |r[i]|);
      }
    }
    r
  }

  /** A missing cell, or one holding only a null phrase, yields no candidate of either kind. */
  lemma EmptyCellHasNoCandidates(cell: Option<string>)
    requires CheckAndSetNan(cell, NullList) == ""
    ensures HpoSorter(cell) == ([], [])
  {
    assert Remainder("") == "";
    assert SplitAny("", [",", "  "]) == [""];
    assert !HasAsciiLetter("");
    assert KeepLettered([""]) == [];
  }

  /** The word `None` in any case is a null phrase, so such a cell has no candidates. */
  lemma NoneCellHasNoCandidates()
    ensures HpoSorter(Some("None")) == ([], [])
  {
    assert Lower("None") == "none" by {
      assert Lower("None")[0] == ToLowerChar('N');
    }
    assert NullList[0] == "none";
    assert Lower(NullList[0]) == "none";
    EmptyCellHasNoCandidates(Some("None"));
  }
}
