/**
 * Python's ordering of `str` values (lexicographic by code point), and
 * `sorted(set(xs))` as the one strictly ascending sequence holding exactly
 * the elements of `xs`.
 */
module StringOrder {

  /** `a < b` on Python strings. */
  predicate Less(a: string, b: string)
    ensures Less(a, b) ==> b != [] && a != b
    ensures |a| <= |b| && a == b[..|a|] ==> (Less(a, b) <==> |a| < |b|)
    decreases |a|
  {
    if a == [] then b != []
    else b != [] && (a[0] < b[0] || (a[0] == b[0] && Less(a[1..], b[1..])))
  }

  /** `a` and `b` agree before position `k` and `a` has the smaller character there. */
  predicate FirstDifferenceBelow(a: string, b: string, k: nat)
  {
    k < |a| && k < |b| && a[..k] == b[..k] && a[k] < b[k]
  }

  /**
   * The order is lexicographic: `a` is below `b` exactly when it is a proper
   * prefix of `b`, or the first position where they differ holds the smaller
   * character in `a`.
   */
  lemma {:induction false} LessLex(a: string, b: string)
    ensures Less(a, b) <==> (|a| < |b| && a == b[..|a|]) || exists k: nat :: FirstDifferenceBelow(a, b, k)
    decreases |a|
  {
    if a != [] && b != [] {
      if a[0] < b[0] {
        assert FirstDifferenceBelow(a, b, 0);
      } else if a[0] > b[0] {
        forall k: nat ensures !FirstDifferenceBelow(a, b, k) {
          FirstDifferenceHead(a, b, k);
        }
      } else {
        LessLex(a[1..], b[1..]);
        SameHeadShift(a, b);
      }
    }
  }

  /** Strings with the same first character compare as their tails do, prefix and first difference alike. */
  lemma SameHeadShift(a: string, b: string)
    requires a != [] && b != [] && a[0] == b[0]
    ensures (|a| < |b| && a == b[..|a|]) <==> (|a[1..]| < |b[1..]| && a[1..] == b[1..][..|a[1..]|])
    ensures (exists k: nat :: FirstDifferenceBelow(a, b, k)) <==> (exists k: nat :: FirstDifferenceBelow(a[1..], b[1..], k))
  {
    var a', b' := a[1..], b[1..];
    if |a| < |b| {
      assert b[..|a|] == [b[0]] + b'[..|a'|];
      assert a == [a[0]] + a';
    }
    forall k: nat | FirstDifferenceBelow(a, b, k) ensures FirstDifferenceBelow(a', b', k - 1) {
      ShiftDifference(a, b, k);
    }
    forall k: nat | FirstDifferenceBelow(a', b', k) ensures FirstDifferenceBelow(a, b, k + 1) {
      ShiftDifference(a, b, k + 1);
    }
  }

  lemma ShiftDifference(a: string, b: string, k: nat)
    requires a != [] && b != [] && a[0] == b[0]
    ensures FirstDifferenceBelow(a, b, k) ==> k > 0
    ensures k > 0 ==> (FirstDifferenceBelow(a, b, k) <==> FirstDifferenceBelow(a[1..], b[1..], k - 1))
  {
    if k > 0 && k < |a| && k < |b| {
      assert a[1..][..k - 1] == a[..k][1..];
      assert b[1..][..k - 1] == b[..k][1..];
      assert a[..k] == [a[0]] + a[1..][..k - 1];
      assert b[..k] == [b[0]] + b[1..][..k - 1];
    }
  }

  lemma FirstDifferenceHead(a: string, b: string, k: nat)
    requires a != [] && b != []
    ensures FirstDifferenceBelow(a, b, k) ==> a[0] <= b[0]
  {
    if FirstDifferenceBelow(a, b, k) && k > 0 {
      assert a[0] == a[..k][0];
      assert b[0] == b[..k][0];
    }
  }

  /** The first difference decides: `HP:0007302 | ...` is below `HP:0012170 | ...` although it is the longer string. */
  lemma TestPairOrder()
    ensures Less("HP:0007302 | Bipolar affective disorder", "HP:0012170 | Nail-biting")
  {
    var x, y := "HP:0007302 | Bipolar affective disorder", "HP:0012170 | Nail-biting";
    assert forall i | 0 <= i < 5 :: x[i] == y[i];
    assert x[..5] == y[..5];
    assert FirstDifferenceBelow(x, y, 5);
    LessLex(x, y);
  }

  lemma {:induction false} LessIrreflexive(a: string)
    ensures !Less(a, a)
    decreases |a|
  {
    if a != [] {
      LessIrreflexive(a[1..]);
    }
  }

  lemma {:induction false} LessTransitive(a: string, b: string, c: string)
    requires Less(a, b) && Less(b, c)
    ensures Less(a, c)
    decreases |a|
  {
    if a != [] && a[0] == b[0] && b[0] == c[0] {
      LessTransitive(a[1..], b[1..], c[1..]);
    }
  }

  lemma {:induction false} LessTotal(a: string, b: string)
    ensures a == b || Less(a, b) || Less(b, a)
    decreases |a|
  {
    if a != [] && b != [] && a[0] == b[0] {
      LessTotal(a[1..], b[1..]);
      if a[1..] == b[1..] {
        assert a == [a[0]] + a[1..] && b == [b[0]] + b[1..];
      }
    }
  }

  predicate StrictlySorted(xs: seq<string>)
  {
    forall i, j :: 0 <= i < j < |xs| ==> Less(xs[i], xs[j])
  }

  /** A strictly ascending sequence has no element twice. */
  lemma SortedDistinct(xs: seq<string>, i: nat, j: nat)
    requires StrictlySorted(xs) && i < j < |xs|
    ensures xs[i] != xs[j]
  {
    LessIrreflexive(xs[i]);
  }

  /** Insert `x` into a strictly ascending sequence, keeping it so. */
  function Insert(x: string, xs: seq<string>): seq<string>
    decreases |xs|
  {
    if xs == [] then [x]
    else if x == xs[0] then xs
    else if Less(x, xs[0]) then [x] + xs
    else [xs[0]] + Insert(x, xs[1..])
  }

  lemma {:induction false} InsertSorted(x: string, xs: seq<string>)
    requires StrictlySorted(xs)
    ensures StrictlySorted(Insert(x, xs))
    ensures forall y :: y in Insert(x, xs) <==> y == x || y in xs
    decreases |xs|
  {
    if xs == [] {
    } else if x == xs[0] {
    } else if Less(x, xs[0]) {
      forall j | 0 < j < |xs| ensures Less(x, xs[j]) {
        LessTransitive(x, xs[0], xs[j]);
      }
    } else {
      LessTotal(x, xs[0]);
      InsertSorted(x, xs[1..]);
      var r := Insert(x, xs[1..]);
      assert Insert(x, xs) == [xs[0]] + r;
      assert forall y :: y in xs <==> y == xs[0] || y in xs[1..] by {
        assert xs == [xs[0]] + xs[1..];
      }
      HeadBelowInserted(x, xs, r);
    }
  }

  /** The head of a strictly ascending `xs` below `x` is below every element of `x` inserted into the tail. */
  lemma HeadBelowInserted(x: string, xs: seq<string>, r: seq<string>)
    requires xs != [] && StrictlySorted(xs) && Less(xs[0], x)
    requires forall y :: y in r <==> y == x || y in xs[1..]
    ensures forall j :: 0 <= j < |r| ==> Less(xs[0], r[j])
  {
    forall j | 0 <= j < |r| ensures Less(xs[0], r[j]) {
      assert r[j] in r;
      if r[j] != x {
        var k :| 0 <= k < |xs[1..]| && xs[1..][k] == r[j];
        assert xs[k + 1] == r[j];
      }
    }
  }

  /** `sorted(set(xs))`. */
  function SortedSet(xs: seq<string>): (r: seq<string>)
    ensures StrictlySorted(r)
    ensures forall y :: y in r <==> y in xs
    decreases |xs|
  {
    if xs == [] then []
    else
      var init := SortedSet(xs[..|xs| - 1]);
      InsertSorted(xs[|xs| - 1], init);
      assert xs == xs[..|xs| - 1] + [xs[|xs| - 1]];
      Insert(xs[|xs| - 1], init)
  }

  /** Two strictly ascending sequences with the same elements are equal. */
  lemma {:induction false} SortedUnique(a: seq<string>, b: seq<string>)
    requires StrictlySorted(a) && StrictlySorted(b)
    requires forall y :: y in a <==> y in b
    ensures a == b
    decreases |a|
  {
    assert a != [] ==> a[0] in a;
    assert b != [] ==> b[0] in b;
    if a == [] {
    } else {
      assert b != [];
      if a[0] != b[0] {
        var k :| 0 <= k < |b| && b[k] == a[0];
        var m :| 0 <= m < |a| && a[m] == b[0];
        assert Less(b[0], a[0]);
        assert Less(a[0], b[0]);
        LessTransitive(a[0], b[0], a[0]);
        LessIrreflexive(a[0]);
      }
      forall y ensures y in a[1..] <==> y in b[1..] {
        assert a == [a[0]] + a[1..] && b == [b[0]] + b[1..];
        if y in a[1..] {
          var k :| 0 <= k < |a[1..]| && a[1..][k] == y;
          SortedDistinct(a, 0, k + 1);
          assert y in a && y != b[0];
          assert y in b;
        }
        if y in b[1..] {
          var k :| 0 <= k < |b[1..]| && b[1..][k] == y;
          SortedDistinct(b, 0, k + 1);
          assert y in b && y != a[0];
          assert y in a;
        }
      }
      SortedUnique(a[1..], b[1..]);
      assert a == [a[0]] + a[1..] && b == [b[0]] + b[1..];
    }
  }
}
