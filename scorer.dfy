/**
 * The agreement scorer (`HPOScorer`): the doctor's and the parent's term
 * strings are cut into codes, each side's quantity is its number of items,
 * and over every (doctor, parent) pair of codes the common-ancestor distances
 * `(a, b)` credit the side that is the more specific one.
 */
module Scorer {
  import opened Wrappers
  import opened Text
  import opened Ontology

  /** `[x.split(" | ")[0].replace(" ", "") for x in s.split(";")]`. */
  function CodesOf(s: string): (r: seq<string>)
    ensures |r| == CountChar(s, ';') + 1
    ensures forall c <- r :: ' ' !in c && ';' !in c
    ensures |r| == |SplitAny(s, [";"])|
    ensures forall i :: 0 <= i < |r| ==> r[i] == Delete(CodePart(SplitAny(s, [";"])[i]), " ")
  {
    var pieces := SplitAny(s, [";"]);
    SplitCharCount(s, ';');
    SplitAnyNoSeparator(s, [";"]);
    var r := seq(|pieces|, i requires 0 <= i < |pieces| => Delete(CodePart(pieces[i]), " "));
    assert forall i :: 0 <= i < |r| ==> ' ' !in r[i] && ';' !in r[i] by {
      forall i | 0 <= i < |r| ensures ' ' !in r[i] && ';' !in r[i] {
        DeleteChar(CodePart(pieces[i]), ' ');
        NoCharInPrefix(pieces[i], CodePart(pieces[i]), ';');
      }
    }
    r
  }

  /**
   * The scorer reads what the merger writes: cutting a `; `-joined list of
   * display strings at `;` gives back the terms' codes, in order, when no
   * code holds a space or `|` and no display holds `;`.
   */
  lemma ReadsMergedCodes(ts: seq<Term>)
    requires ts != []
    requires forall t <- ts :: ' ' !in t.code && '|' !in t.code && ';' !in Display(t)
    ensures CodesOf(JoinWith(Displays(ts), "; ")) == CodesOfTerms(ts)
  {
    var ds := Displays(ts);
    NoSemicolonInDisplays(ts);
    var pieces := SplitAny(JoinWith(ds, "; "), [";"]);
    MergedPieces(ds);
    var r := CodesOf(JoinWith(ds, "; "));
    forall i | 0 <= i < |ts| ensures r[i] == ts[i].code {
      assert ts[i] in ts;
      PieceCode(ts, pieces, i);
    }
  }

  lemma NoSemicolonInDisplays(ts: seq<Term>)
    requires forall t <- ts :: ';' !in Display(t)
    ensures forall d <- Displays(ts) :: ';' !in d
  {
    var ds := Displays(ts);
    forall d <- ds ensures ';' !in d {
      var i :| 0 <= i < |ds| && ds[i] == d;
      assert ts[i] in ts;
    }
  }

  /** The pieces of a `; `-joined list cut at `;`: later pieces keep the space. */
  lemma MergedPieces(ds: seq<string>)
    requires ds != [] && forall d <- ds :: ';' !in d
    ensures SplitAny(JoinWith(ds, "; "), [";"]) == [ds[0]] + Spaced(ds[1..])
  {
    var sep: string := [';', ' '];
    var cut: seq<string> := [[';']];
    assert sep == "; " && cut == [";"];
    var joined := JoinWith(ds, sep);
    SplitSpacedJoin("", ds, ';');
    assert "" + joined == joined && "" + ds[0] == ds[0];
    assert SplitAny(joined, cut) == [ds[0]] + Spaced(ds[1..]);
  }

  /** The code read from piece `i` of the merged list is the code of term `i`. */
  lemma PieceCode(ts: seq<Term>, pieces: seq<string>, i: nat)
    requires i < |ts| && ' ' !in ts[i].code && '|' !in ts[i].code
    requires pieces == [Display(ts[0])] + Spaced(Displays(ts)[1..])
    ensures Delete(CodePart(pieces[i]), " ") == ts[i].code
  {
    if i == 0 {
      DisplayCode(ts[0]);
    } else {
      assert pieces[i] == " " + Display(ts[i]);
      SpacedDisplayCode(ts[i]);
    }
  }

  /** The code read from the first display of the list. */
  lemma DisplayCode(t: Term)
    requires ' ' !in t.code
    ensures Delete(CodePart(Display(t)), " ") == t.code
  {
    CodePartOfDisplay(t);
    DeleteAbsent(t.code, ' ');
  }

  /** The code read from a later display, which follows the space of `; `. */
  lemma SpacedDisplayCode(t: Term)
    requires ' ' !in t.code && '|' !in t.code
    ensures Delete(CodePart(" " + Display(t)), " ") == t.code
  {
    CodePartAfterSpace(t);
    DeleteLeading(' ', t.code);
    DeleteAbsent(t.code, ' ');
  }

  /** A prefix of a piece free of `c` is free of `c`. */
  lemma NoCharInPrefix(s: string, p: string, c: char)
    requires StartsWith(s, p) && !ContainsSub(s, [c])
    ensures c !in p
  {
    if c in p {
      var k :| 0 <= k < |p| && p[k] == c;
      NotContainedChar(s, c, k);
    }
  }

  lemma {:induction false} NotContainedChar(s: string, c: char, k: nat)
    requires k < |s| && s[k] == c
    ensures ContainsSub(s, [c])
    decreases k
  {
    if k == 0 {
      assert s[..1] == [c];
    } else {
      NotContainedChar(s[1..], c, k - 1);
    }
  }

  /** `len(codes)` for a present cell, 0 for a missing one. */
  function Quantity(cell: Option<string>): (r: nat)
    ensures cell.None? ==> r == 0
    ensures cell.Some? ==> r == CountChar(cell.value, ';') + 1
  {
    match cell
    case None => 0
    case Some(s) => |CodesOf(s)|
  }

  /** An empty present cell still counts one item. */
  lemma QuantityCountsItems()
    ensures Quantity(Some("")) == 1
  {
  }

  /** The running totals of the pair loop. */
  datatype Tally = Tally(docQual: nat, parQual: nat, docCodes: seq<string>, parCodes: seq<string>)

  const Zero := Tally(0, 0, [], [])

  /**
   * One pair of the product: a failed query changes nothing; `a == 0`
   * (the doctor's code is the common ancestor) credits the parent with `b`
   * and records the parent's code when `b != 0`; otherwise `b == 0` credits
   * the doctor with `a` and records the doctor's code; otherwise nothing.
   */
  function Step(t: Tally, onto: Oracle, doc: string, par: string): (r: Tally)
    ensures onto.path(doc, par).None? ==> r == t
    ensures var p := onto.path(doc, par);
      p.Some? && p.value.0 == 0 ==>
        r.docQual == t.docQual && r.parQual == t.parQual + p.value.1 && r.docCodes == t.docCodes
    ensures var p := onto.path(doc, par);
      p.Some? && p.value.0 != 0 && p.value.1 == 0 ==>
        r.parQual == t.parQual && r.docQual == t.docQual + p.value.0 && r.parCodes == t.parCodes
    ensures var p := onto.path(doc, par);
      p.Some? && p.value.0 != 0 && p.value.1 != 0 ==> r == t
    ensures r.docQual >= t.docQual && r.parQual >= t.parQual
    ensures r.docQual == t.docQual || r.parQual == t.parQual
    ensures r.docCodes == if r.docQual > t.docQual then t.docCodes + [doc] else t.docCodes
    ensures r.parCodes == if r.parQual > t.parQual then t.parCodes + [par] else t.parCodes
  {
    match onto.path(doc, par)
    case None => t
    case Some((a, b)) =>
      if a == 0 then
        t.(parQual := t.parQual + b, parCodes := if b != 0 then t.parCodes + [par] else t.parCodes)
      else if b == 0 then
        t.(docQual := t.docQual + a, docCodes := if a != 0 then t.docCodes + [doc] else t.docCodes)
      else t
  }

  /** The tally after the pairs `(doc, p)` for `p` in `pars`, in order. */
  function RowTally(t: Tally, onto: Oracle, doc: string, pars: seq<string>): (r: Tally)
    ensures r.docQual >= t.docQual && r.parQual >= t.parQual
    ensures t.docCodes <= r.docCodes && t.parCodes <= r.parCodes
    ensures forall c <- r.docCodes :: c in t.docCodes || c == doc
    ensures forall c <- r.parCodes :: c in t.parCodes || c in pars
    decreases |pars|
  {
    if pars == [] then t
    else
      var init := pars[..|pars| - 1];
      assert forall p <- init :: p in pars;
      Step(RowTally(t, onto, doc, init), onto, doc, pars[|pars| - 1])
  }

  /** The tally after `itertools.product(docs, pars)`: doctor codes outer, parent codes inner. */
  function Table(onto: Oracle, docs: seq<string>, pars: seq<string>): (r: Tally)
    ensures docs == [] || pars == [] ==> r == Zero
    decreases |docs|
  {
    if docs == [] then Zero
    else RowTally(Table(onto, docs[..|docs| - 1], pars), onto, docs[|docs| - 1], pars)
  }

  /**
   * `HPOScorer`: both quantities, and, when both cells are present, the
   * qualities and recorded codes of the pair loop; otherwise zero qualities
   * and no codes.
   */
  method HpoScorer(onto: Oracle, doctor: Option<string>, parent: Option<string>)
    returns (docQuant: nat, parQuant: nat, docQual: nat, parQual: nat,
             docCodes: seq<string>, parCodes: seq<string>)
    ensures docQuant == Quantity(doctor) && parQuant == Quantity(parent)
    ensures doctor.Some? && parent.Some? ==>
      Tally(docQual, parQual, docCodes, parCodes) == Table(onto, CodesOf(doctor.value), CodesOf(parent.value))
    ensures doctor.None? || parent.None? ==>
      docQual == 0 && parQual == 0 && docCodes == [] && parCodes == []
  {
    var docs: seq<string> := [];
    var pars: seq<string> := [];
    docQuant := 0;
    parQuant := 0;
    if doctor.Some? {
      docs := CodesOf(doctor.value);
      docQuant := |docs|;
    }
    if parent.Some? {
      pars := CodesOf(parent.value);
      parQuant := |pars|;
    }
    docQual, parQual := 0, 0;
    docCodes, parCodes := [], [];
    if doctor.Some? && parent.Some? {
      var i := 0;
      while i < |docs|
        invariant 0 <= i <= |docs|
        invariant Tally(docQual, parQual, docCodes, parCodes) == Table(onto, docs[..i], pars)
      {
        var doc := docs[i];
        ghost var before := Tally(docQual, parQual, docCodes, parCodes);
        var j := 0;
        while j < |pars|
          invariant 0 <= j <= |pars|
          invariant Tally(docQual, parQual, docCodes, parCodes) == RowTally(before, onto, doc, pars[..j])
        {
          var par := pars[j];
          RowTallySnoc(before, onto, doc, pars, j);
          docQual, parQual, docCodes, parCodes := ScorePair(onto, doc, par, docQual, parQual, docCodes, parCodes);
          j := j + 1;
        }
        assert pars[..j] == pars;
        TableSnoc(onto, docs, pars, i);
        i := i + 1;
      }
      assert docs[..i] == docs;
    }
  }

  /**
   * The body of the pair loop: one path query, and the credit and the
   * recorded code it gives.
   */
  method ScorePair(onto: Oracle, doc: string, par: string,
                   docQual0: nat, parQual0: nat, docCodes0: seq<string>, parCodes0: seq<string>)
    returns (docQual: nat, parQual: nat, docCodes: seq<string>, parCodes: seq<string>)
    ensures Tally(docQual, parQual, docCodes, parCodes)
         == Step(Tally(docQual0, parQual0, docCodes0, parCodes0), onto, doc, par)
  {
    docQual, parQual, docCodes, parCodes := docQual0, parQual0, docCodes0, parCodes0;
    match onto.path(doc, par) {
      case None =>
      case Some((a, b)) =>
        if a == 0 {
          parQual := parQual + b;
          if b != 0 {
            parCodes := parCodes + [par];
          }
        } else if b == 0 {
          docQual := docQual + a;
          if a != 0 {
            docCodes := docCodes + [doc];
          }
        }
    }
  }

  lemma RowTallySnoc(t: Tally, onto: Oracle, doc: string, pars: seq<string>, j: nat)
    requires j < |pars|
    ensures RowTally(t, onto, doc, pars[..j + 1]) == Step(RowTally(t, onto, doc, pars[..j]), onto, doc, pars[j])
  {
    assert pars[..j + 1][..j] == pars[..j];
  }

  lemma TableSnoc(onto: Oracle, docs: seq<string>, pars: seq<string>, i: nat)
    requires i < |docs|
    ensures Table(onto, docs[..i + 1], pars) == RowTally(Table(onto, docs[..i], pars), onto, docs[i], pars)
  {
    assert docs[..i + 1][..i] == docs[..i];
  }

  lemma TableLast(onto: Oracle, docs: seq<string>, pars: seq<string>)
    requires docs != []
    ensures Table(onto, docs, pars) == RowTally(Table(onto, docs[..|docs| - 1], pars), onto, docs[|docs| - 1], pars)
  {
  }

  lemma MulSucc(a: nat, b: nat)
    ensures (a + 1) * b == a * b + b
  {
  }

  /** The doctor's credit for one pair: `a` when the parent's code is the common ancestor and the doctor's is not. */
  function DocCredit(onto: Oracle, pair: (string, string)): nat
  {
    match onto.path(pair.0, pair.1)
    case Some((a, b)) => if a != 0 && b == 0 then a else 0
    case None => 0
  }

  /** The parent's credit for one pair: `b` when the doctor's code is the common ancestor. */
  function ParCredit(onto: Oracle, pair: (string, string)): nat
  {
    match onto.path(pair.0, pair.1)
    case Some((a, b)) => if a == 0 then b else 0
    case None => 0
  }

  /** The pairs `(doc, p)` for `p` in `pars`, in order. */
  function RowPairs(doc: string, pars: seq<string>): (r: seq<(string, string)>)
    ensures |r| == |pars| && forall j :: 0 <= j < |pars| ==> r[j] == (doc, pars[j])
  {
    seq(|pars|, j requires 0 <= j < |pars| => (doc, pars[j]))
  }

  /** `itertools.product(docs, pars)`: every row of a doctor code, doctor codes in order. */
  function Pairs(docs: seq<string>, pars: seq<string>): (r: seq<(string, string)>)
    ensures |r| == |docs| * |pars|
    decreases |docs|
  {
    if docs == [] then []
    else
      MulSucc(|docs| - 1, |pars|);
      Pairs(docs[..|docs| - 1], pars) + RowPairs(docs[|docs| - 1], pars)
  }

  /** Pair `j` of row `i` sits at position `i * |pars| + j` of the product. */
  lemma {:induction false} PairsAt(docs: seq<string>, pars: seq<string>, i: nat, j: nat)
    requires i < |docs| && j < |pars|
    ensures i * |pars| + j < |Pairs(docs, pars)|
    ensures Pairs(docs, pars)[i * |pars| + j] == (docs[i], pars[j])
    decreases |docs|
  {
    var init := docs[..|docs| - 1];
    MulSucc(|init|, |pars|);
    if i < |init| {
      PairsAt(init, pars, i, j);
      assert init[i] == docs[i];
    } else {
      assert i * |pars| == |Pairs(init, pars)|;
    }
  }

  /** The doctor's quality: the sum of the doctor's credits over the pairs. */
  function DocQualSum(onto: Oracle, ps: seq<(string, string)>): nat
    decreases |ps|
  {
    if ps == [] then 0 else DocQualSum(onto, ps[..|ps| - 1]) + DocCredit(onto, ps[|ps| - 1])
  }

  /** The parent's quality: the sum of the parent's credits over the pairs. */
  function ParQualSum(onto: Oracle, ps: seq<(string, string)>): nat
    decreases |ps|
  {
    if ps == [] then 0 else ParQualSum(onto, ps[..|ps| - 1]) + ParCredit(onto, ps[|ps| - 1])
  }

  /** The doctor codes of the pairs that credit the doctor, in pair order. */
  function DocRecorded(onto: Oracle, ps: seq<(string, string)>): seq<string>
    decreases |ps|
  {
    if ps == [] then []
    else
      var p := ps[|ps| - 1];
      DocRecorded(onto, ps[..|ps| - 1]) + (if DocCredit(onto, p) > 0 then [p.0] else [])
  }

  /** The parent codes of the pairs that credit the parent, in pair order. */
  function ParRecorded(onto: Oracle, ps: seq<(string, string)>): seq<string>
    decreases |ps|
  {
    if ps == [] then []
    else
      var p := ps[|ps| - 1];
      ParRecorded(onto, ps[..|ps| - 1]) + (if ParCredit(onto, p) > 0 then [p.1] else [])
  }

  /** The four totals as sums and filters over a sequence of pairs. */
  function Credited(onto: Oracle, ps: seq<(string, string)>): Tally
  {
    Tally(DocQualSum(onto, ps), ParQualSum(onto, ps), DocRecorded(onto, ps), ParRecorded(onto, ps))
  }

  /** Running totals `t` followed by totals `u`: qualities add, code lists concatenate. */
  function Plus(t: Tally, u: Tally): Tally
  {
    Tally(t.docQual + u.docQual, t.parQual + u.parQual, t.docCodes + u.docCodes, t.parCodes + u.parCodes)
  }

  lemma PlusAssoc(t: Tally, u: Tally, v: Tally)
    ensures Plus(Plus(t, u), v) == Plus(t, Plus(u, v))
  {
    AppendAssoc(t.docCodes, u.docCodes, v.docCodes);
    AppendAssoc(t.parCodes, u.parCodes, v.parCodes);
  }

  /** Sums and filters over pairs split across a concatenation. */
  lemma {:induction false} CreditedAppend(onto: Oracle, ps: seq<(string, string)>, qs: seq<(string, string)>)
    ensures DocQualSum(onto, ps + qs) == DocQualSum(onto, ps) + DocQualSum(onto, qs)
    ensures ParQualSum(onto, ps + qs) == ParQualSum(onto, ps) + ParQualSum(onto, qs)
    ensures DocRecorded(onto, ps + qs) == DocRecorded(onto, ps) + DocRecorded(onto, qs)
    ensures ParRecorded(onto, ps + qs) == ParRecorded(onto, ps) + ParRecorded(onto, qs)
    ensures Credited(onto, ps + qs) == Plus(Credited(onto, ps), Credited(onto, qs))
    decreases |qs|
  {
    if qs == [] {
      assert ps + qs == ps;
    } else {
      var init := qs[..|qs| - 1];
      var q := qs[|qs| - 1];
      CreditedAppend(onto, ps, init);
      var all := ps + qs;
      assert all[..|all| - 1] == ps + init && all[|all| - 1] == q;
      AppendAssoc(DocRecorded(onto, ps), DocRecorded(onto, init), if DocCredit(onto, q) > 0 then [q.0] else []);
      AppendAssoc(ParRecorded(onto, ps), ParRecorded(onto, init), if ParCredit(onto, q) > 0 then [q.1] else []);
    }
  }

  /** One pair's step adds that pair's credits and records the credited codes. */
  lemma StepCredits(t: Tally, onto: Oracle, doc: string, par: string)
    ensures Step(t, onto, doc, par) == Plus(t, Credited(onto, [(doc, par)]))
  {
    var p := (doc, par);
    CreditedOne(onto, p);
    assert t.docCodes + [] == t.docCodes && t.parCodes + [] == t.parCodes;
  }

  /** The totals over a single pair are that pair's credits. */
  lemma CreditedOne(onto: Oracle, p: (string, string))
    ensures Credited(onto, [p])
         == Tally(DocCredit(onto, p), ParCredit(onto, p),
                  if DocCredit(onto, p) > 0 then [p.0] else [],
                  if ParCredit(onto, p) > 0 then [p.1] else [])
  {
    var one := [p];
    assert one[..0] == [];
    var d: seq<string> := if DocCredit(onto, p) > 0 then [p.0] else [];
    var e: seq<string> := if ParCredit(onto, p) > 0 then [p.1] else [];
    assert [] + d == d && [] + e == e;
    assert one[|one| - 1] == p;
    assert DocQualSum(onto, one) == DocCredit(onto, p);
    assert ParQualSum(onto, one) == ParCredit(onto, p);
    assert DocRecorded(onto, one) == d;
    assert ParRecorded(onto, one) == e;
  }

  /** A row of the pair loop adds the row's credits to the running totals. */
  lemma {:induction false} RowTallyCredits(t: Tally, onto: Oracle, doc: string, pars: seq<string>)
    ensures RowTally(t, onto, doc, pars) == Plus(t, Credited(onto, RowPairs(doc, pars)))
    decreases |pars|
  {
    if pars == [] {
      assert t.docCodes + [] == t.docCodes && t.parCodes + [] == t.parCodes;
    } else {
      var init := pars[..|pars| - 1];
      var par := pars[|pars| - 1];
      var row := RowPairs(doc, pars);
      assert row == RowPairs(doc, init) + [(doc, par)];
      calc {
        RowTally(t, onto, doc, pars);
        Step(RowTally(t, onto, doc, init), onto, doc, par);
        { RowTallyCredits(t, onto, doc, init); }
        Step(Plus(t, Credited(onto, RowPairs(doc, init))), onto, doc, par);
        { StepCredits(Plus(t, Credited(onto, RowPairs(doc, init))), onto, doc, par); }
        Plus(Plus(t, Credited(onto, RowPairs(doc, init))), Credited(onto, [(doc, par)]));
        { PlusAssoc(t, Credited(onto, RowPairs(doc, init)), Credited(onto, [(doc, par)])); }
        Plus(t, Plus(Credited(onto, RowPairs(doc, init)), Credited(onto, [(doc, par)])));
        { CreditedAppend(onto, RowPairs(doc, init), [(doc, par)]); }
        Plus(t, Credited(onto, row));
      }
    }
  }

  /**
   * The scorer's totals over the whole product: each quality is the sum of
   * that side's credits over the pairs, doctor codes outer, and each code
   * list holds the codes of the pairs that credit that side, in pair order.
   */
  lemma {:induction false} TableIsCreditSum(onto: Oracle, docs: seq<string>, pars: seq<string>)
    ensures Table(onto, docs, pars) == Credited(onto, Pairs(docs, pars))
    decreases |docs|
  {
    if docs != [] {
      var init := docs[..|docs| - 1];
      var doc := docs[|docs| - 1];
      calc {
        Table(onto, docs, pars);
        { TableLast(onto, docs, pars); }
        RowTally(Table(onto, init, pars), onto, doc, pars);
        { RowTallyCredits(Table(onto, init, pars), onto, doc, pars); }
        Plus(Table(onto, init, pars), Credited(onto, RowPairs(doc, pars)));
        { TableIsCreditSum(onto, init, pars); }
        Plus(Credited(onto, Pairs(init, pars)), Credited(onto, RowPairs(doc, pars)));
        { CreditedAppend(onto, Pairs(init, pars), RowPairs(doc, pars)); }
        Credited(onto, Pairs(docs, pars));
      }
    }
  }

  /** Recorded codes come from the side they are recorded for, and each one carries at least one unit of quality. */
  ghost predicate Accounted(t: Tally, docs: seq<string>, pars: seq<string>)
  {
    && (forall c <- t.docCodes :: c in docs)
    && (forall c <- t.parCodes :: c in pars)
    && |t.docCodes| <= t.docQual
    && |t.parCodes| <= t.parQual
  }

  lemma {:induction false} RowAccounted(t: Tally, onto: Oracle, doc: string, docs: seq<string>, pars: seq<string>, ps: seq<string>)
    requires Accounted(t, docs, pars) && doc in docs
    requires forall p <- ps :: p in pars
    ensures Accounted(RowTally(t, onto, doc, ps), docs, pars)
    ensures |RowTally(t, onto, doc, ps).docCodes| + |RowTally(t, onto, doc, ps).parCodes|
         <= |t.docCodes| + |t.parCodes| + |ps|
    decreases |ps|
  {
    if ps != [] {
      var init := ps[..|ps| - 1];
      assert forall p <- init :: p in ps;
      RowAccounted(t, onto, doc, docs, pars, init);
      assert ps[|ps| - 1] in ps;
    }
  }

  /**
   * Over the whole product, the recorded codes are codes of their own side,
   * each recording is backed by quality, and there is at most one recording
   * per pair.
   */
  lemma {:induction false} TableAccounted(onto: Oracle, docs: seq<string>, pars: seq<string>)
    ensures Accounted(Table(onto, docs, pars), docs, pars)
    ensures |Table(onto, docs, pars).docCodes| + |Table(onto, docs, pars).parCodes| <= |docs| * |pars|
    decreases |docs|
  {
    if docs != [] {
      var init := docs[..|docs| - 1];
      TableAccounted(onto, init, pars);
      var t := Table(onto, init, pars);
      assert forall c <- t.docCodes :: c in docs by {
        forall c <- t.docCodes ensures c in docs {
          assert c in init;
        }
      }
      assert docs[|docs| - 1] in docs;
      TableLast(onto, docs, pars);
      RowAccounted(t, onto, docs[|docs| - 1], docs, pars, pars);
      MulSucc(|init|, |pars|);
    }
  }

  /** Pairs whose query fails, or whose distances are both positive, change nothing. */
  ghost predicate Unscored(onto: Oracle, doc: string, par: string)
  {
    match onto.path(doc, par)
    case None => true
    case Some((a, b)) => a != 0 && b != 0
  }

  lemma {:induction false} RowUnscored(t: Tally, onto: Oracle, doc: string, ps: seq<string>)
    requires forall p <- ps :: Unscored(onto, doc, p)
    ensures RowTally(t, onto, doc, ps) == t
    decreases |ps|
  {
    if ps != [] {
      var init := ps[..|ps| - 1];
      assert forall p <- init :: p in ps;
      RowUnscored(t, onto, doc, init);
      assert ps[|ps| - 1] in ps;
    }
  }

  /** When no pair is scored, the qualities are zero and nothing is recorded. */
  lemma {:induction false} NothingScoredMeansZero(onto: Oracle, docs: seq<string>, pars: seq<string>)
    requires forall d <- docs, p <- pars :: Unscored(onto, d, p)
    ensures Table(onto, docs, pars) == Zero
    decreases |docs|
  {
    if docs != [] {
      var init := docs[..|docs| - 1];
      assert forall d <- init :: d in docs;
      NothingScoredMeansZero(onto, init, pars);
      assert docs[|docs| - 1] in docs;
      RowUnscored(Zero, onto, docs[|docs| - 1], pars);
    }
  }

  /**
   * The doctor's recorded codes are not a sub-multiset of the doctor's codes:
   * a doctor code is recorded once per parent code it is more specific than.
   */
  lemma CodesRepeatPerPair(onto: Oracle)
    requires forall x, y :: onto.path(x, y) == Some((1, 0))
    ensures Table(onto, ["HP:0000001"], ["HP:0000002", "HP:0000003"]).docCodes == ["HP:0000001", "HP:0000001"]
    ensures !(multiset(["HP:0000001", "HP:0000001"]) <= multiset(["HP:0000001"]))
  {
    var d := "HP:0000001";
    var ps := ["HP:0000002", "HP:0000003"];
    assert [d][..0] == [];
    assert ps[..1] == ["HP:0000002"] && ps[..1][..0] == [];
    assert RowTally(Zero, onto, d, ps[..1]).docCodes == [d];
    assert multiset([d, d])[d] == 2;
  }
}
