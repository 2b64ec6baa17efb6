/** The filter that turns a missing cell or a "no answer" phrase into the empty string. */
module NullFilter {
  import opened Wrappers
  import opened Text

  /** The phrases respondents use to say there is nothing to report. */
  const NullList: seq<string> := ["none", "none documented", "nil", "(borderline)", "no concerns"]

  /**
   * `check_and_set_nan`: a missing cell becomes "", a cell equal to one of
   * the phrases up to case becomes "", any other cell is kept as it is.
   */
  function CheckAndSetNan(cell: Option<string>, nullList: seq<string>): (r: string)
    ensures cell.None? ==> r == ""
    ensures cell.Some? && (exists n <- nullList :: Lower(n) == Lower(cell.value)) ==> r == ""
    ensures cell.Some? && (forall n <- nullList :: Lower(n) != Lower(cell.value)) ==> r == cell.value
  {
    match cell
    case None => ""
    case Some(s) =>
      LowerAllMembership(nullList, Lower(s));
      if Lower(s) in LowerAll(nullList) then "" else s
  }

  /** `[s.lower() for s in xs]`. */
  function LowerAll(xs: seq<string>): (r: seq<string>)
    ensures |r| == |xs|
    ensures forall i :: 0 <= i < |xs| ==> r[i] == Lower(xs[i])
  {
    seq(|xs|, i requires 0 <= i < |xs| => Lower(xs[i]))
  }

  lemma LowerAllMembership(xs: seq<string>, x: string)
    ensures x in LowerAll(xs) <==> exists n <- xs :: Lower(n) == x
  {
    if exists n <- xs :: Lower(n) == x {
      var n :| n in xs && Lower(n) == x;
      var i :| 0 <= i < |xs| && xs[i] == n;
      assert LowerAll(xs)[i] == x;
    }
  }

  lemma LowerOfUpper(s: string)
    ensures Lower(Upper(s)) == Lower(s)
  {
  }

  /** Every configured phrase, written in lower or in upper case, is filtered out. */
  lemma NullPhrasesFiltered(n: string)
    requires n in NullList
    ensures CheckAndSetNan(Some(n), NullList) == ""
    ensures CheckAndSetNan(Some(Upper(n)), NullList) == ""
  {
    LowerOfUpper(n);
  }

  /** Only whole-cell matches count: a phrase inside a longer answer is kept. */
  lemma SubstringIsKept()
    ensures CheckAndSetNan(Some("none at all"), NullList) == "none at all"
    ensures CheckAndSetNan(Some("Something else"), NullList) == "Something else"
  {
    forall n <- NullList ensures Lower(n) != Lower("none at all") && Lower(n) != Lower("Something else") {
      assert |Lower(n)| == |n|;
      if n == "no concerns" {
        assert Lower(n)[2] == ' ' && Lower("none at all")[2] == 'n';
      }
    }
  }
}
