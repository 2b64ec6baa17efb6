/**
 * The phenotype ontology as the pipeline sees it: a term lookup and a
 * common-ancestor distance query, both of which may fail. The graph behind
 * them is not modelled; any pair of functions is an admissible ontology.
 */
module Ontology {
  import opened Wrappers
  import opened Text

  /** An ontology node: its stable code (such as `HP:0001166`) and its name. */
  datatype Term = Term(code: string, name: string)

  /** `str(term)`: the display string `code | name`. */
  function Display(t: Term): (r: string)
    ensures StartsWith(r, t.code + " | ")
    ensures r[|t.code| + 3..] == t.name
  {
    t.code + " | " + t.name
  }

  /** The display strings of some terms, in order. */
  function Displays(ts: seq<Term>): (r: seq<string>)
    ensures |r| == |ts| && forall i :: 0 <= i < |ts| ==> r[i] == Display(ts[i])
  {
    seq(|ts|, i requires 0 <= i < |ts| => Display(ts[i]))
  }

  /** `x.split(" | ")[0]`: the code part of a display string. */
  function CodePart(x: string): (r: string)
    ensures StartsWith(x, r)
    ensures !ContainsSub(r, " | ")
  {
    SplitAnyNoSeparator(x, [" | "]);
    SplitAny(x, [" | "])[0]
  }

  /** The codes of some terms, in order. */
  function CodesOfTerms(ts: seq<Term>): (r: seq<string>)
    ensures |r| == |ts| && forall i :: 0 <= i < |ts| ==> r[i] == ts[i].code
  {
    seq(|ts|, i requires 0 <= i < |ts| => ts[i].code)
  }

  /** The code part of a display that follows a space keeps that space. */
  lemma CodePartAfterSpace(t: Term)
    requires ' ' !in t.code && '|' !in t.code
    ensures CodePart(" " + Display(t)) == " " + t.code
  {
    var d := Display(t);
    var s := " " + d;
    assert d[0] != '|' by {
      if t.code != [] { assert t.code[0] in t.code; }
    }
    SepAtSingle(s, " | ");
    assert s[1..] == d;
    CodePartOfDisplay(t);
  }

  /** The code part of a term's display is the term's code, when the code holds no space. */
  lemma CodePartOfDisplay(t: Term)
    requires ' ' !in t.code
    ensures CodePart(Display(t)) == t.code
  {
    SplitAfterPiece(t.code, " | ", t.name);
  }

  /**
   * `lookup(s)` is the term that `s` names (a code or a name), or None
   * where the service raises a lookup error. `path(x, y)` is the pair of
   * edge counts from `x` and from `y` down to their nearest common ancestor
   * (the third and fourth fields of the service's answer), or None where the
   * query raises.
   */
  datatype Oracle = Oracle(lookup: string -> Option<Term>, path: (string, string) -> Option<(nat, nat)>)
}
