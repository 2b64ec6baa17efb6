/**
 * The batch resolver (`HPOOutPutter`), the merger (`HPOSquisher`,
 * `list_to_csv`) and the per-cell pipeline (`process_column`) built from
 * them and the tokenizer.
 */
module Batch {
  import opened Wrappers
  import opened Text
  import opened StringOrder
  import opened Ontology
  import opened NullFilter
  import opened Tokenizer
  import opened Resolver

  /** `value.startswith('Error:')`: how a resolved string is recognised as a problem. */
  predicate IsError(x: string)
  {
    StartsWith(x, "Error:")
  }

  /** `str(get_hpo_or_error(v, mode))`. */
  function ResolveOne(onto: Oracle, x: string, mode: string): string
  {
    Render(GetHpoOrError(onto, x, mode))
  }

  /** `[str(get_hpo_or_error(v, mode)) for v in xs]`. */
  function ResolveAll(onto: Oracle, xs: seq<string>, mode: string): (r: seq<string>)
    ensures |r| == |xs|
    ensures forall i :: 0 <= i < |xs| ==> r[i] == ResolveOne(onto, xs[i], mode)
  {
    seq(|xs|, i requires 0 <= i < |xs| => ResolveOne(onto, xs[i], mode))
  }

  lemma ResolveAllSnoc(onto: Oracle, xs: seq<string>, i: nat, mode: string)
    requires i < |xs|
    ensures ResolveAll(onto, xs[..i + 1], mode) == ResolveAll(onto, xs[..i], mode) + [ResolveOne(onto, xs[i], mode)]
  {
  }

  lemma PartitionSnoc(xs: seq<string>, x: string)
    ensures Successes(xs + [x]) == Successes(xs) + (if IsError(x) then [] else [x])
    ensures Errors(xs + [x]) == Errors(xs) + (if IsError(x) then [x] else [])
  {
    assert (xs + [x])[..|xs|] == xs;
  }

  /** The entries that are not problems, in their original order. */
  function Successes(xs: seq<string>): seq<string>
    decreases |xs|
  {
    if xs == [] then []
    else
      var last := xs[|xs| - 1];
      Successes(xs[..|xs| - 1]) + (if IsError(last) then [] else [last])
  }

  /** The entries that are problems, in their original order. */
  function Errors(xs: seq<string>): seq<string>
    decreases |xs|
  {
    if xs == [] then []
    else
      var last := xs[|xs| - 1];
      Errors(xs[..|xs| - 1]) + (if IsError(last) then [last] else [])
  }

  /** Every entry lands in exactly one of the two lists, as often as it occurs. */
  lemma {:induction false} PartitionIsComplete(xs: seq<string>)
    ensures multiset(Successes(xs)) + multiset(Errors(xs)) == multiset(xs)
    decreases |xs|
  {
    if xs != [] {
      var init := xs[..|xs| - 1];
      var last := xs[|xs| - 1];
      PartitionIsComplete(init);
      assert xs == init + [last];
      assert multiset(xs) == multiset(init) + multiset{last};
      if IsError(last) {
        assert Successes(xs) == Successes(init) && Errors(xs) == Errors(init) + [last];
      } else {
        assert Successes(xs) == Successes(init) + [last] && Errors(xs) == Errors(init);
      }
    }
  }

  /** The successes are entries that are not problems, the problems entries that are. */
  lemma {:induction false} PartitionSound(xs: seq<string>)
    ensures forall y <- Successes(xs) :: y in xs && !IsError(y)
    ensures forall y <- Errors(xs) :: y in xs && IsError(y)
    decreases |xs|
  {
    if xs != [] {
      var init := xs[..|xs| - 1];
      PartitionSound(init);
      assert forall y <- init :: y in xs;
    }
  }

  /** Partitioning respects concatenation, so each list keeps the input order. */
  lemma PartitionAppend(xs: seq<string>, ys: seq<string>)
    ensures Successes(xs + ys) == Successes(xs) + Successes(ys)
    ensures Errors(xs + ys) == Errors(xs) + Errors(ys)
  {
    SuccessesAppend(xs, ys);
    ErrorsAppend(xs, ys);
  }

  lemma {:induction false} SuccessesAppend(xs: seq<string>, ys: seq<string>)
    ensures Successes(xs + ys) == Successes(xs) + Successes(ys)
    decreases |ys|
  {
    if ys == [] {
      assert xs + ys == xs;
    } else {
      var init := ys[..|ys| - 1];
      var last := ys[|ys| - 1];
      var zs := xs + ys;
      SuccessesAppend(xs, init);
      assert zs[..|zs| - 1] == xs + init;
      assert zs[|zs| - 1] == last;
      var tail := if IsError(last) then [] else [last];
      assert Successes(zs) == Successes(xs + init) + tail;
      assert Successes(ys) == Successes(init) + tail;
    }
  }

  lemma {:induction false} ErrorsAppend(xs: seq<string>, ys: seq<string>)
    ensures Errors(xs + ys) == Errors(xs) + Errors(ys)
    decreases |ys|
  {
    if ys == [] {
      assert xs + ys == xs;
    } else {
      var init := ys[..|ys| - 1];
      var last := ys[|ys| - 1];
      var zs := xs + ys;
      ErrorsAppend(xs, init);
      assert zs[..|zs| - 1] == xs + init;
      assert zs[|zs| - 1] == last;
      var tail := if IsError(last) then [last] else [];
      assert Errors(zs) == Errors(xs + init) + tail;
      assert Errors(ys) == Errors(init) + tail;
    }
  }

  /** `list_to_csv`: `'; '.join(xs)`. */
  function ListToCsv(xs: seq<string>): (r: string)
    ensures xs == [] ==> r == ""
    ensures |xs| == 1 ==> r == xs[0]
  {
    JoinWith(xs, "; ")
  }

  /** Three codes come out separated by a semicolon and a space. */
  lemma ListToCsvExample()
    ensures ListToCsv(["HP:0000001", "HP:0000002", "HP:0000003"]) == "HP:0000001; HP:0000002; HP:0000003"
  {
    JoinThree("HP:0000001", "HP:0000002", "HP:0000003", "; ");
  }

  /** A join of non-empty strings is empty only when there is nothing to join. */
  lemma JoinEmpty(xs: seq<string>, sep: string)
    requires forall x <- xs :: x != []
    ensures JoinWith(xs, sep) == "" <==> xs == []
  {
    if xs != [] {
      assert xs[0] in xs;
      if |xs| > 1 {
        assert |JoinWith(xs, sep)| >= |xs[0]|;
      }
    }
  }

  /**
   * One block of `HPOOutPutter`: resolve every candidate of one kind, and
   * part the results into the terms found and the problems, each in
   * candidate order.
   */
  method ResolveBatch(onto: Oracle, values: seq<string>, mode: string)
    returns (terms: seq<string>, problems: seq<string>)
    ensures terms == Successes(ResolveAll(onto, values, mode))
    ensures problems == Errors(ResolveAll(onto, values, mode))
  {
    terms := [];
    problems := [];
    if values == [] {
      assert ResolveAll(onto, values, mode) == [];
    } else {
      var i := 0;
      assert ResolveAll(onto, values[..i], mode) == [];
      while i < |values|
        invariant 0 <= i <= |values|
        invariant terms == Successes(ResolveAll(onto, values[..i], mode))
        invariant problems == Errors(ResolveAll(onto, values[..i], mode))
      {
        var term := ResolveOne(onto, values[i], mode);
        ResolveAllSnoc(onto, values, i, mode);
        PartitionSnoc(ResolveAll(onto, values[..i], mode), term);
        if IsError(term) {
          problems := problems + [term];
        } else {
          terms := terms + [term];
        }
        i := i + 1;
      }
      assert values[..i] == values;
    }
  }

  /**
   * `HPOOutPutter`: numeric candidates are resolved with the `Numeric`
   * policy and textual ones with `Non_numeric`; the successes are returned
   * per kind, and the problems, numeric first, are joined into one string.
   */
  method HpoOutPutter(onto: Oracle, numericValues: seq<string>, textValues: seq<string>)
    returns (numericTerms: seq<string>, textTerms: seq<string>, problems: string)
    ensures numericTerms == Successes(ResolveAll(onto, numericValues, NumericMode))
    ensures textTerms == Successes(ResolveAll(onto, textValues, NonNumericMode))
    ensures problems == ListToCsv(Errors(ResolveAll(onto, numericValues, NumericMode))
                                  + Errors(ResolveAll(onto, textValues, NonNumericMode)))
  {
    var numericProblems, textProblems;
    numericTerms, numericProblems := ResolveBatch(onto, numericValues, NumericMode);
    textTerms, textProblems := ResolveBatch(onto, textValues, NonNumericMode);
    problems := ListToCsv(numericProblems + textProblems);
  }

  /** The terms that the lookups of a policy find, in candidate order. */
  function FoundTerms(onto: Oracle, xs: seq<string>, mode: string): seq<Term>
    decreases |xs|
  {
    if xs == [] then []
    else
      var r := GetHpoOrError(onto, xs[|xs| - 1], mode);
      FoundTerms(onto, xs[..|xs| - 1], mode) + (if r.Found? then [r.term] else [])
  }

  lemma DisplaysSnoc(ts: seq<Term>, t: Term)
    ensures Displays(ts + [t]) == Displays(ts) + [Display(t)]
  {
  }

  /** The problems of the `Numeric` policy: `Error: HP:` and the candidate, for each candidate known under neither spelling. */
  function NumericFailures(onto: Oracle, xs: seq<string>): seq<string>
    decreases |xs|
  {
    if xs == [] then []
    else
      var x := xs[|xs| - 1];
      NumericFailures(onto, xs[..|xs| - 1])
        + (if onto.lookup(x).None? && onto.lookup("HP:" + x).None? then ["Error: HP:" + x] else [])
  }

  /** The problems of the `Non_numeric` policy: `Error: ` and the normalised candidate, for each one not found. */
  function TextFailures(onto: Oracle, xs: seq<string>): seq<string>
    decreases |xs|
  {
    if xs == [] then []
    else
      var x := xs[|xs| - 1];
      TextFailures(onto, xs[..|xs| - 1])
        + (if onto.lookup(Normalize(x)).None? then ["Error: " + Normalize(x)] else [])
  }

  lemma ResolveAllLast(onto: Oracle, xs: seq<string>, mode: string)
    requires xs != []
    ensures ResolveAll(onto, xs, mode)
         == ResolveAll(onto, xs[..|xs| - 1], mode) + [ResolveOne(onto, xs[|xs| - 1], mode)]
  {
    ResolveAllSnoc(onto, xs, |xs| - 1, mode);
    assert xs[..|xs|] == xs;
  }

  /**
   * When no term displays as an error, the successes of a batch are the
   * displays of the terms found, in candidate order.
   */
  lemma {:induction false} SuccessesAreFoundTerms(onto: Oracle, xs: seq<string>, mode: string)
    requires NoErrorDisplays(onto)
    requires mode == NumericMode || mode == NonNumericMode
    ensures Successes(ResolveAll(onto, xs, mode)) == Displays(FoundTerms(onto, xs, mode))
    decreases |xs|
  {
    if xs != [] {
      var init := xs[..|xs| - 1];
      var r := GetHpoOrError(onto, xs[|xs| - 1], mode);
      SuccessesAreFoundTerms(onto, init, mode);
      SuccessesStep(onto, xs, mode);
      var found := FoundTerms(onto, init, mode);
      if r.Found? {
        DisplaysSnoc(found, r.term);
      } else {
        assert found + [] == found;
      }
    }
  }

  lemma SuccessesStep(onto: Oracle, xs: seq<string>, mode: string)
    requires NoErrorDisplays(onto)
    requires mode == NumericMode || mode == NonNumericMode
    requires xs != []
    ensures var r := GetHpoOrError(onto, xs[|xs| - 1], mode);
      Successes(ResolveAll(onto, xs, mode))
      == Successes(ResolveAll(onto, xs[..|xs| - 1], mode)) + (if r.Found? then [Display(r.term)] else [])
  {
    var x := xs[|xs| - 1];
    ResolveAllLast(onto, xs, mode);
    PartitionSnoc(ResolveAll(onto, xs[..|xs| - 1], mode), ResolveOne(onto, x, mode));
    ErrorIffUnresolved(onto, x, mode);
  }


  /** The problems of a `Numeric` batch are exactly its failures, in candidate order. */
  lemma {:induction false} NumericErrorsAreFailures(onto: Oracle, xs: seq<string>)
    requires NoErrorDisplays(onto)
    ensures Errors(ResolveAll(onto, xs, NumericMode)) == NumericFailures(onto, xs)
    decreases |xs|
  {
    if xs != [] {
      var init := xs[..|xs| - 1];
      var x := xs[|xs| - 1];
      NumericErrorsAreFailures(onto, init);
      ResolveAllLast(onto, xs, NumericMode);
      PartitionSnoc(ResolveAll(onto, init, NumericMode), ResolveOne(onto, x, NumericMode));
      ErrorIffUnresolved(onto, x, NumericMode);
    }
  }

  /** The problems of a `Non_numeric` batch are exactly its failures, in candidate order. */
  lemma {:induction false} TextErrorsAreFailures(onto: Oracle, xs: seq<string>)
    requires NoErrorDisplays(onto)
    ensures Errors(ResolveAll(onto, xs, NonNumericMode)) == TextFailures(onto, xs)
    decreases |xs|
  {
    if xs != [] {
      var init := xs[..|xs| - 1];
      var x := xs[|xs| - 1];
      TextErrorsAreFailures(onto, init);
      ResolveAllLast(onto, xs, NonNumericMode);
      PartitionSnoc(ResolveAll(onto, init, NonNumericMode), ResolveOne(onto, x, NonNumericMode));
      ErrorIffUnresolved(onto, x, NonNumericMode);
    }
  }

  /** Every candidate of the cell is found by its policy. */
  ghost predicate AllResolve(onto: Oracle, numericValues: seq<string>, textValues: seq<string>)
  {
    && (forall x <- numericValues :: GetHpoOrError(onto, x, NumericMode).Found?)
    && (forall y <- textValues :: GetHpoOrError(onto, y, NonNumericMode).Found?)
  }

  lemma {:induction false} NoErrorsWhenAllFound(onto: Oracle, xs: seq<string>, mode: string)
    requires NoErrorDisplays(onto)
    requires mode == NumericMode || mode == NonNumericMode
    ensures Errors(ResolveAll(onto, xs, mode)) == [] <==> forall x <- xs :: GetHpoOrError(onto, x, mode).Found?
    decreases |xs|
  {
    if xs != [] {
      var init := xs[..|xs| - 1];
      var x := xs[|xs| - 1];
      NoErrorsWhenAllFound(onto, init, mode);
      ResolveAllLast(onto, xs, mode);
      PartitionSnoc(ResolveAll(onto, init, mode), ResolveOne(onto, x, mode));
      ErrorIffUnresolved(onto, x, mode);
      SnocMembers(init, x);
    }
  }

  lemma ErrorIffUnresolved(onto: Oracle, x: string, mode: string)
    requires NoErrorDisplays(onto)
    requires mode == NumericMode || mode == NonNumericMode
    ensures IsError(ResolveOne(onto, x, mode)) <==> !GetHpoOrError(onto, x, mode).Found?
  {
    ErrorMeansUnresolved(onto, x, mode);
  }

  lemma SnocMembers(init: seq<string>, x: string)
    ensures forall y :: y in init + [x] <==> y in init || y == x
  {
  }

  /** The term string `process_column` builds from a cell's candidates: the merged successes of both kinds. */
  function CellTerms(onto: Oracle, numericValues: seq<string>, textValues: seq<string>): string
  {
    HpoSquisher(Successes(ResolveAll(onto, numericValues, NumericMode)),
                Successes(ResolveAll(onto, textValues, NonNumericMode)))
  }

  /** The problem string `process_column` builds from a cell's candidates: numeric problems first. */
  function CellProblems(onto: Oracle, numericValues: seq<string>, textValues: seq<string>): string
  {
    ListToCsv(Errors(ResolveAll(onto, numericValues, NumericMode))
              + Errors(ResolveAll(onto, textValues, NonNumericMode)))
  }

  /** What `process_column` returns for a cell: the term string and the problem string of its candidates. */
  function ProcessedCell(onto: Oracle, entry: Option<string>): (string, string)
  {
    var candidates := HpoSorter(entry);
    (CellTerms(onto, candidates.0, candidates.1), CellProblems(onto, candidates.0, candidates.1))
  }

  /** Every problem is a non-empty string. */
  lemma ErrorsNonEmpty(xs: seq<string>)
    ensures forall e <- Errors(xs) :: e != []
  {
    PartitionSound(xs);
    forall e <- Errors(xs) ensures e != [] {
      assert IsError(e);
    }
  }

  /** Two lists of non-empty items print as "" exactly when both are empty. */
  lemma CsvOfNonEmptyEmpty(a: seq<string>, b: seq<string>)
    requires forall e <- a :: e != []
    requires forall e <- b :: e != []
    ensures ListToCsv(a + b) == "" <==> a == [] && b == []
  {
    assert forall e <- a + b :: e in a || e in b;
    JoinEmpty(a + b, "; ");
    assert a + b == [] <==> a == [] && b == [];
  }

  /** The problem string is empty exactly when every candidate resolves. */
  lemma ProblemsEmptyIffResolved(onto: Oracle, numericValues: seq<string>, textValues: seq<string>)
    requires NoErrorDisplays(onto)
    ensures CellProblems(onto, numericValues, textValues) == "" <==> AllResolve(onto, numericValues, textValues)
  {
    ErrorsNonEmpty(ResolveAll(onto, numericValues, NumericMode));
    ErrorsNonEmpty(ResolveAll(onto, textValues, NonNumericMode));
    CsvOfNonEmptyEmpty(Errors(ResolveAll(onto, numericValues, NumericMode)),
                       Errors(ResolveAll(onto, textValues, NonNumericMode)));
    NoErrorsWhenAllFound(onto, numericValues, NumericMode);
    NoErrorsWhenAllFound(onto, textValues, NonNumericMode);
  }

  /** `sorted(list(set(terms1) | set(terms2)))`, or `[]` when both are empty. */
  function MergeTerms(terms1: seq<string>, terms2: seq<string>): (r: seq<string>)
    ensures StrictlySorted(r)
    ensures forall y :: y in r <==> y in terms1 || y in terms2
  {
    if |terms1| + |terms2| == 0 then [] else SortedSet(terms1 + terms2)
  }

  /** `HPOSquisher`: the union of the two term lists, ascending and without repeats, joined with `; `. */
  function HpoSquisher(terms1: seq<string>, terms2: seq<string>): (r: string)
    ensures |terms1| + |terms2| == 0 ==> r == ""
  {
    ListToCsv(MergeTerms(terms1, terms2))
  }

  /**
   * What the merger returns does not depend on how it sorts: it is the join
   * of THE strictly ascending list of the union.
   */
  lemma SquisherCharacterized(terms1: seq<string>, terms2: seq<string>, m: seq<string>)
    requires StrictlySorted(m)
    requires forall y :: y in m <==> y in terms1 || y in terms2
    ensures HpoSquisher(terms1, terms2) == ListToCsv(m)
  {
    SortedUnique(MergeTerms(terms1, terms2), m);
  }

  /** The merger is symmetric in its arguments. */
  lemma SquisherSymmetric(terms1: seq<string>, terms2: seq<string>)
    ensures MergeTerms(terms1, terms2) == MergeTerms(terms2, terms1)
    ensures HpoSquisher(terms1, terms2) == HpoSquisher(terms2, terms1)
  {
    SortedUnique(MergeTerms(terms1, terms2), MergeTerms(terms2, terms1));
  }

  /** Merging a merged list with nothing changes nothing. */
  lemma MergeIdempotent(terms1: seq<string>, terms2: seq<string>)
    ensures MergeTerms(MergeTerms(terms1, terms2), []) == MergeTerms(terms1, terms2)
    ensures HpoSquisher(MergeTerms(terms1, terms2), []) == HpoSquisher(terms1, terms2)
  {
    var m := MergeTerms(terms1, terms2);
    SortedUnique(MergeTerms(m, []), m);
  }

  /** When no term holds a `;`, splitting the merged string at `; ` gives the merged list back. */
  lemma SquisherSplitRoundTrip(terms1: seq<string>, terms2: seq<string>)
    requires |terms1| + |terms2| > 0
    requires forall y <- terms1 + terms2 :: ';' !in y
    ensures SplitAny(HpoSquisher(terms1, terms2), ["; "]) == MergeTerms(terms1, terms2)
  {
    var m := MergeTerms(terms1, terms2);
    assert m != [] by {
      var y := (terms1 + terms2)[0];
      assert y in terms1 || y in terms2;
    }
    forall y <- m ensures ';' !in y {
      assert y in terms1 + terms2;
    }
    SplitJoinRoundTrip(m, "; ");
  }

  /**
   * `process_column`: tokenize the cell, resolve the candidates, and merge
   * the two success lists into the cell's canonical term string; the
   * problems come back beside it.
   */
  method ProcessColumn(onto: Oracle, entry: Option<string>) returns (termList: string, problems: string)
    ensures (termList, problems) == ProcessedCell(onto, entry)
  {
    var candidates := HpoSorter(entry);
    var numericValues, textValues := candidates.0, candidates.1;
    var terms1, terms2, p := HpoOutPutter(onto, numericValues, textValues);
    termList := HpoSquisher(terms1, terms2);
    problems := p;
  }

  /** No candidates, as a missing or empty cell gives, yield an empty term string and no problems. */
  lemma NoCandidatesGiveNothing(onto: Oracle)
    ensures CellTerms(onto, [], []) == "" && CellProblems(onto, [], []) == ""
  {
    ResolveAllEmpty(onto, NumericMode);
    ResolveAllEmpty(onto, NonNumericMode);
  }

  /** Resolving no candidates yields neither terms nor problems. */
  lemma ResolveAllEmpty(onto: Oracle, mode: string)
    ensures Successes(ResolveAll(onto, [], mode)) == []
    ensures Errors(ResolveAll(onto, [], mode)) == []
  {
    assert ResolveAll(onto, [], mode) == [];
  }

  /**
   * Two lists that share their middle term merge into the three distinct
   * terms, ascending, whichever list holds which.
   */
  lemma SquisherSharedTerm(x: string, y: string, z: string)
    requires Less(x, y) && Less(y, z)
    ensures HpoSquisher([y, z], [x, y]) == x + "; " + y + "; " + z
  {
    LessTransitive(x, y, z);
    assert forall w :: w in [x, y, z] <==> w in [y, z] || w in [x, y];
    SquisherCharacterized([y, z], [x, y], [x, y, z]);
    JoinThree(x, y, z, "; ");
  }

  /** Two terms given in descending order come out ascending. */
  lemma SquisherOrdersPair(x: string, y: string)
    requires Less(x, y)
    ensures HpoSquisher([], [y, x]) == x + "; " + y
  {
    assert forall w :: w in [x, y] <==> w in [] || w in [y, x];
    SquisherCharacterized([], [y, x], [x, y]);
    JoinTwo(x, y, "; ");
  }

  lemma JoinTwo(a: string, b: string, sep: string)
    ensures JoinWith([a, b], sep) == a + sep + b
  {
    assert [a, b][1..] == [b];
  }

  lemma JoinThree(a: string, b: string, c: string, sep: string)
    ensures JoinWith([a, b, c], sep) == a + sep + b + sep + c
  {
    assert [a, b, c][1..] == [b, c];
    assert JoinWith([b, c], sep) == b + sep + c by {
      assert [b, c][1..] == [c];
    }
  }
}
