/**
 * The resolver (`get_hpo_or_error`): one candidate string is looked up in
 * the ontology under one of three named policies; what a failure yields
 * depends on the policy.
 */
module Resolver {
  import opened Wrappers
  import opened Text
  import opened Ontology

  /**
   * What the resolver returns: a term, a plain string (the empty string or
   * an `Error: ...` message), or Python's `None` for an unknown policy name.
   */
  datatype Outcome = Found(term: Term) | Message(text: string) | NoResult

  /** `str(outcome)`. */
  function Render(o: Outcome): (r: string)
    ensures o.Found? ==> r == Display(o.term) && StartsWith(r, o.term.code + " | ")
    ensures o.Message? ==> r == o.text
    ensures o.NoResult? ==> r == "None"
  {
    match o
    case Found(t) => Display(t)
    case Message(m) => m
    case NoResult => "None"
  }

  /** The leading run of `\W` characters removed. */
  function DropLeadingNonWord(s: string): (r: string)
    ensures |r| <= |s| && r == s[|s| - |r|..]
    ensures r == [] || IsWordChar(r[0])
    ensures forall k :: 0 <= k < |s| - |r| ==> !IsWordChar(s[k])
    decreases |s|
  {
    if s != [] && !IsWordChar(s[0]) then
      var r := DropLeadingNonWord(s[1..]);
      assert forall k :: 1 <= k < |s| - |r| ==> s[k] == s[1..][k - 1];
      r
    else s
  }

  /** The trailing run of `\W` characters removed. */
  function DropTrailingNonWord(s: string): (r: string)
    ensures |r| <= |s| && r == s[..|r|]
    ensures r == [] || IsWordChar(r[|r| - 1])
    ensures forall k :: |r| <= k < |s| ==> !IsWordChar(s[k])
    decreases |s|
  {
    if s != [] && !IsWordChar(s[|s| - 1]) then
      var r := DropTrailingNonWord(s[..|s| - 1]);
      assert forall k :: |r| <= k < |s| - 1 ==> s[k] == s[..|s| - 1][k];
      r
    else s
  }

  /**
   * `re.sub(r'^\W+|\W+$', '', s)` on a string with no trailing whitespace
   * (so `$` can only match at the very end).
   */
  function StripNonWord(s: string): (r: string)
    ensures r == [] || (IsWordChar(r[0]) && IsWordChar(r[|r| - 1]))
    ensures |r| <= |s|
  {
    var t := DropLeadingNonWord(s);
    var r := DropTrailingNonWord(t);
    assert r != [] ==> r[0] == t[0];
    r
  }

  /** `s[0].upper() + s[1:].lower()` when `len(s) > 1`, else `s.upper()`. */
  function Capitalize(s: string): (r: string)
    ensures |r| == |s|
    ensures r != [] ==> r[0] == ToUpperChar(s[0])
    ensures forall i :: 0 < i < |s| ==> r[i] == ToLowerChar(s[i])
  {
    if |s| > 1 then [ToUpperChar(s[0])] + Lower(s[1..]) else Upper(s)
  }

  /**
   * The normalisation of the `Non_numeric` policy: trailing whitespace and
   * the outer runs of non-word characters removed, first character upper
   * case, the rest lower case.
   */
  function Normalize(s: string): (r: string)
    ensures |r| <= |s|
    ensures NormalForm(r)
  {
    var t := StripNonWord(RStrip(s));
    CapitalizedIsNormal(t);
    Capitalize(t)
  }

  /** Capitalising a string that starts and ends with word characters gives a normal form. */
  lemma CapitalizedIsNormal(t: string)
    requires t == [] || (IsWordChar(t[0]) && IsWordChar(t[|t| - 1]))
    ensures NormalForm(Capitalize(t))
  {
    var r := Capitalize(t);
    if t != [] {
      CaseMapFacts(t[0]);
      CaseMapFacts(t[|t| - 1]);
    }
    forall i | 0 < i < |r| ensures !('A' <= r[i] <= 'Z') {
      CaseMapFacts(t[i]);
    }
  }

  lemma CaseMapFacts(c: char)
    ensures ToLowerChar(ToUpperChar(c)) == ToLowerChar(c)
    ensures ToLowerChar(ToLowerChar(c)) == ToLowerChar(c)
  {
  }

  /** Normalising twice is normalising once: the result is already stripped and capitalised. */
  lemma NormalizeIdempotent(s: string)
    ensures Normalize(Normalize(s)) == Normalize(s)
  {
    NormalFormIsFixed(Normalize(s));
  }

  /**
   * What normalisation produces: empty, or starting and ending with a word
   * character, with no lower-case letter first and no upper-case letter
   * after.
   */
  predicate NormalForm(n: string)
  {
    && (n == [] || (IsWordChar(n[0]) && IsWordChar(n[|n| - 1])))
    && (n != [] ==> !('a' <= n[0] <= 'z'))
    && (forall i :: 0 < i < |n| ==> !('A' <= n[i] <= 'Z'))
  }

  /** A string that is stripped and capitalised already is its own normal form. */
  lemma NormalFormIsFixed(n: string)
    requires NormalForm(n)
    ensures Normalize(n) == n
  {
    RStripNormal(n);
    StripNonWordNormal(n);
    CapitalizeNormal(n);
  }

  lemma RStripNormal(n: string)
    requires n == [] || IsWordChar(n[|n| - 1])
    ensures RStrip(n) == n
  {
    if n != [] {
      assert !IsSpace(n[|n| - 1]);
    }
  }

  lemma StripNonWordNormal(n: string)
    requires n == [] || (IsWordChar(n[0]) && IsWordChar(n[|n| - 1]))
    ensures StripNonWord(n) == n
  {
    assert DropLeadingNonWord(n) == n;
    assert DropTrailingNonWord(n) == n;
  }

  lemma CapitalizeNormal(n: string)
    requires n != [] ==> !('a' <= n[0] <= 'z')
    requires forall i :: 0 < i < |n| ==> !('A' <= n[i] <= 'Z')
    ensures Capitalize(n) == n
  {
    var c := Capitalize(n);
    assert forall i :: 0 <= i < |n| ==> c[i] == n[i];
  }

  /** Normalisation only changes the case of the stripped text. */
  lemma NormalizeKeepsLetters(s: string)
    ensures Lower(Normalize(s)) == Lower(StripNonWord(RStrip(s)))
  {
    var core := StripNonWord(RStrip(s));
    var n := Capitalize(core);
    assert Normalize(s) == n;
    var a := Lower(n);
    var b := Lower(core);
    assert |a| == |core| == |b|;
    forall i | 0 <= i < |core| ensures a[i] == b[i] {
      CaseMapFacts(core[i]);
      assert a[i] == ToLowerChar(n[i]);
    }
    assert a == b;
  }

  const NoneMode := "None"
  const NonNumericMode := "Non_numeric"
  const NumericMode := "Numeric"

  /**
   * `get_hpo_or_error(s, mode)`:
   * - `None`: `s` as given; a failure gives the empty string;
   * - `Non_numeric`: `Normalize(s)`; a failure gives `Error: ` and the normalised text;
   * - `Numeric`: `s`, then `HP:` + `s`; a failure of both gives `Error: HP:` + `s`;
   * - any other name gives `None`.
   */
  function GetHpoOrError(onto: Oracle, s: string, mode: string): (r: Outcome)
    ensures mode == NoneMode ==>
      && (r.Found? <==> onto.lookup(s).Some?)
      && (r.Found? ==> onto.lookup(s) == Some(r.term))
      && (!r.Found? ==> r == Message(""))
    ensures mode == NonNumericMode ==>
      && (r.Found? <==> onto.lookup(Normalize(s)).Some?)
      && (r.Found? ==> onto.lookup(Normalize(s)) == Some(r.term))
      && (!r.Found? ==> r == Message("Error: " + Normalize(s)))
    ensures mode == NumericMode ==>
      && (r.Found? <==> onto.lookup(s).Some? || onto.lookup("HP:" + s).Some?)
      && (onto.lookup(s).Some? ==> r == Found(onto.lookup(s).value))
      && (onto.lookup(s).None? && r.Found? ==> onto.lookup("HP:" + s) == Some(r.term))
      && (!r.Found? ==> r == Message("Error: HP:" + s))
    ensures mode != NoneMode && mode != NonNumericMode && mode != NumericMode ==> r == NoResult
  {
    if mode == NoneMode then
      match onto.lookup(s)
      case Some(t) => Found(t)
      case None => Message("")
    else if mode == NonNumericMode then
      var n := Normalize(s);
      match onto.lookup(n)
      case Some(t) => Found(t)
      case None => Message("Error: " + n)
    else if mode == NumericMode then
      match onto.lookup(s)
      case Some(t) => Found(t)
      case None =>
        match onto.lookup("HP:" + s)
        case Some(t) => Found(t)
        case None => Message("Error: HP:" + s)
    else
      NoResult
  }

  /** No term of the ontology displays as an error message. */
  ghost predicate NoErrorDisplays(onto: Oracle)
  {
    forall s :: onto.lookup(s).Some? ==> !StartsWith(Display(onto.lookup(s).value), "Error:")
  }

  /**
   * Under the `Numeric` and `Non_numeric` policies a candidate renders as an
   * error message exactly when it was not found.
   */
  lemma ErrorMeansUnresolved(onto: Oracle, s: string, mode: string)
    requires NoErrorDisplays(onto)
    requires mode == NumericMode || mode == NonNumericMode
    ensures StartsWith(Render(GetHpoOrError(onto, s, mode)), "Error:") <==> !GetHpoOrError(onto, s, mode).Found?
  {
    var r := GetHpoOrError(onto, s, mode);
    if r.Found? {
      FoundIsNotError(onto, s, mode);
    } else if mode == NumericMode {
      ErrorPrefix(s);
    } else {
      ErrorPrefix(Normalize(s));
    }
  }

  /** Under the `None` policy nothing renders as an error: a failure is the empty string. */
  lemma NoneModeNeverErrors(onto: Oracle, s: string)
    requires NoErrorDisplays(onto)
    ensures !StartsWith(Render(GetHpoOrError(onto, s, NoneMode)), "Error:")
  {
    if GetHpoOrError(onto, s, NoneMode).Found? {
      FoundIsNotError(onto, s, NoneMode);
    }
  }

  /** An unknown policy name renders as `None`: neither the empty string nor an error message. */
  lemma UnknownModeSentinel(onto: Oracle, s: string, mode: string)
    requires mode != NoneMode && mode != NonNumericMode && mode != NumericMode
    ensures Render(GetHpoOrError(onto, s, mode)) != ""
    ensures !StartsWith(Render(GetHpoOrError(onto, s, mode)), "Error:")
  {
    assert Render(GetHpoOrError(onto, s, mode)) == "None";
  }

  lemma ErrorPrefix(rest: string)
    ensures StartsWith("Error: " + rest, "Error:")
    ensures StartsWith("Error: HP:" + rest, "Error:")
  {
    assert ("Error: " + rest)[..6] == "Error:";
    assert ("Error: HP:" + rest)[..6] == "Error:";
  }

  lemma FoundIsNotError(onto: Oracle, s: string, mode: string)
    requires NoErrorDisplays(onto)
    requires GetHpoOrError(onto, s, mode).Found?
    ensures !StartsWith(Render(GetHpoOrError(onto, s, mode)), "Error:")
  {
    var r := GetHpoOrError(onto, s, mode);
    var key := if mode == NumericMode && onto.lookup(s).None? then "HP:" + s
               else if mode == NonNumericMode then Normalize(s) else s;
    assert onto.lookup(key) == Some(r.term);
  }

  /** The `Non_numeric` policy gives the same answer for a candidate and for its normalised form. */
  lemma NonNumericUsesNormalForm(onto: Oracle, s: string)
    ensures GetHpoOrError(onto, Normalize(s), NonNumericMode) == GetHpoOrError(onto, s, NonNumericMode)
  {
    NormalizeIdempotent(s);
  }

  /** A numeric candidate known under neither spelling is reported with the prefix added. */
  lemma NumericFailureExample(onto: Oracle)
    requires onto.lookup("123456789").None? && onto.lookup("HP:123456789").None?
    ensures Render(GetHpoOrError(onto, "123456789", NumericMode)) == "Error: HP:123456789"
  {
    assert "HP:" + "123456789" == "HP:123456789";
    assert "Error: HP:" + "123456789" == "Error: HP:123456789";
  }
}
