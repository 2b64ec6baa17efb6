/**
 * The code extractor (`Turn_Lists_Of_HPOs_Into_Just_Codes`): a string of
 * display strings separated by `, ` becomes the list of their codes; any
 * value that is not a string is handed back as it is.
 */
module CodeExtractor {
  import opened Text
  import opened Ontology

  /** A cell as the extractor receives it: a string, or any other value. */
  datatype Cell<V> = Str(s: string) | Other(v: V)

  /** What the extractor returns: a list of codes, or the input value untouched. */
  datatype Extracted<V> = Codes(codes: seq<string>) | Unchanged(v: V)

  /** The code parts of the `, `-separated pieces of `s`, in order. */
  function JustCodes(s: string): (r: seq<string>)
    ensures |r| == |SplitAny(s, [", "])| >= 1
    ensures forall i :: 0 <= i < |r| ==> r[i] == CodePart(SplitAny(s, [", "])[i])
  {
    var pieces := SplitAny(s, [", "]);
    seq(|pieces|, i requires 0 <= i < |pieces| => CodePart(pieces[i]))
  }

  /**
   * `Turn_Lists_Of_HPOs_Into_Just_Codes`. The split always yields at least
   * one piece, so the early return for an empty split never fires and a
   * string always comes back as a non-empty list.
   */
  method TurnListsOfHposIntoJustCodes<V>(cell: Cell<V>) returns (r: Extracted<V>)
    ensures cell.Other? ==> r == Unchanged(cell.v)
    ensures cell.Str? ==> r == Codes(JustCodes(cell.s)) && |r.codes| >= 1
  {
    match cell {
      case Other(v) =>
        r := Unchanged(v);
      case Str(s) =>
        var pieces := SplitAny(s, [", "]);
        var newList: seq<string> := [];
        var i := 0;
        while i < |pieces|
          invariant 0 <= i <= |pieces|
          invariant newList == JustCodes(s)[..i]
        {
          newList := newList + [CodePart(pieces[i])];
          i := i + 1;
        }
        r := Codes(newList);
    }
  }

  /**
   * Joining the displays of some terms with `, ` and extracting gives the
   * terms' codes back, in order, when no code holds a space and no display
   * holds a comma.
   */
  lemma ExtractsCodesOfJoinedDisplays(ts: seq<Term>)
    requires ts != []
    requires forall t <- ts :: ' ' !in t.code && ',' !in Display(t)
    ensures JustCodes(JoinWith(Displays(ts), ", ")) == CodesOfTerms(ts)
  {
    var ds := Displays(ts);
    forall d <- ds ensures ',' !in d {
      var i :| 0 <= i < |ds| && ds[i] == d;
      assert ts[i] in ts;
    }
    SplitJoinRoundTrip(ds, ", ");
    forall i | 0 <= i < |ts| ensures CodePart(ds[i]) == ts[i].code {
      assert ts[i] in ts;
      CodePartOfDisplay(ts[i]);
    }
  }

  /**
   * The merger joins with `; `, not `, `: on its output for two or more
   * terms the extractor sees one piece and returns only the first code.
   */
  lemma MergedStringYieldsFirstCodeOnly(ts: seq<Term>)
    requires |ts| >= 2
    requires forall t <- ts :: ' ' !in t.code && ',' !in Display(t)
    ensures JustCodes(JoinWith(Displays(ts), "; ")) == [ts[0].code]
  {
    var ds := Displays(ts);
    var joined := JoinWith(ds, "; ");
    NoCommaInJoin(ds);
    SplitWithout(joined, ", ");
    assert ts[0] in ts;
    var tail := ts[0].name + "; " + JoinWith(ds[1..], "; ");
    assert joined == Display(ts[0]) + "; " + JoinWith(ds[1..], "; ");
    DisplayThenRest(ts[0], JoinWith(ds[1..], "; "));
    CodePartBeforeBar(ts[0].code, tail);
  }

  lemma DisplayThenRest(t: Term, rest: string)
    ensures Display(t) + "; " + rest == t.code + " | " + (t.name + "; " + rest)
  {
    var a := t.code + " | ";
    AppendAssoc(a, t.name, "; ");
    AppendAssoc(a, t.name + "; ", rest);
  }

  lemma CodePartBeforeBar(code: string, tail: string)
    requires ' ' !in code
    ensures CodePart(code + " | " + tail) == code
  {
    SplitAfterPiece(code, " | ", tail);
  }

  lemma {:induction false} NoCommaInJoin(ds: seq<string>)
    requires forall d <- ds :: ',' !in d
    ensures ',' !in JoinWith(ds, "; ")
    decreases |ds|
  {
    if |ds| > 1 {
      assert ds[0] in ds;
      assert forall d <- ds[1..] :: d in ds;
      NoCommaInJoin(ds[1..]);
    }
    if |ds| == 1 {
      assert ds[0] in ds;
    }
  }
}
