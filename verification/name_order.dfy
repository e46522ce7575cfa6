/** Case-insensitive ordering of display names. The program compares names with
    the invariant culture ignoring case; this model approximates that collation
    by an ordinal, lexicographic comparison of names whose ASCII upper-case
    letters have been folded to lower case. */
module NameOrder {

  /** Folds one ASCII upper-case letter to its lower-case form. */
  function FoldChar(c: char): (r: char)
    ensures !('A' <= r <= 'Z')
    ensures 'a' <= r <= 'z' <==> ('A' <= c <= 'Z' || 'a' <= c <= 'z')
    ensures !('A' <= c <= 'Z') ==> r == c
  {
    if 'A' <= c <= 'Z' then (c as int + 32) as char else c
  }

  /** A name with every character folded: two names are equal ignoring case
      exactly when their folds are equal. */
  function Fold(s: string): (r: string)
    ensures |r| == |s|
    ensures forall i :: 0 <= i < |s| ==> r[i] == FoldChar(s[i])
  {
    seq(|s|, i requires 0 <= i < |s| => FoldChar(s[i]))
  }

  /** `s` sorts strictly before `t` in lexicographic order: it is a proper
      prefix of `t`, or the two agree up to a position where `s` has the
      smaller character. */
  predicate LexLess(s: string, t: string) {
    || (|s| < |t| && s == t[..|s|])
    || exists k :: 0 <= k < |s| && FirstDifferenceAt(s, t, k)
  }

  /** `s` and `t` agree before position `k`, where `s` has the smaller
      character. */
  predicate FirstDifferenceAt(s: string, t: string, k: int) {
    0 <= k < |s| && k < |t| && s[..k] == t[..k] && s[k] < t[k]
  }

  /** Three-way comparison of two names ignoring case: -1, 0 or 1; negative
      exactly when the folded first name sorts lexicographically before the
      folded second one, and 0 exactly when the names are equal ignoring
      case. */
  function CompareNames(x: string, y: string): (r: int)
    ensures -1 <= r <= 1
    ensures r == 0 <==> Fold(x) == Fold(y)
    ensures r < 0 <==> LexLess(Fold(x), Fold(y))
    decreases |x|
  {
    if |x| == 0 && |y| == 0 then 0
    else if |x| == 0 then
      assert Fold(x) == Fold(y)[..0];
      -1
    else if |y| == 0 then 1
    else if FoldChar(x[0]) < FoldChar(y[0]) then
      assert FirstDifferenceAt(Fold(x), Fold(y), 0);
      -1
    else if FoldChar(x[0]) > FoldChar(y[0]) then
      LexLessHead(Fold(x), Fold(y));
      1
    else
      FoldCons(x);
      FoldCons(y);
      LexLessCons(Fold(x), Fold(y));
      CompareNames(x[1..], y[1..])
  }

  /** A string whose first character is the larger one never sorts first. */
  lemma LexLessHead(s: string, t: string)
    requires |s| > 0 && |t| > 0 && s[0] > t[0]
    ensures !LexLess(s, t)
  {
  }

  /** Two strings with the same first character compare as their tails do. */
  lemma LexLessCons(s: string, t: string)
    requires |s| > 0 && |t| > 0 && s[0] == t[0]
    ensures LexLess(s, t) <==> LexLess(s[1..], t[1..])
  {
    var s', t' := s[1..], t[1..];
    if |s'| < |t'| && s' == t'[..|s'|] {
      assert s == [s[0]] + s' && t[..|s|] == [t[0]] + t'[..|s'|];
    }
    if |s| < |t| && s == t[..|s|] {
      assert s' == t[..|s|][1..] == t'[..|s'|];
    }
    if k :| FirstDifferenceAt(s', t', k) {
      assert s[..k + 1] == [s[0]] + s'[..k] && t[..k + 1] == [t[0]] + t'[..k];
      assert FirstDifferenceAt(s, t, k + 1);
    }
    if k :| FirstDifferenceAt(s, t, k) {
      assert k > 0;
      assert s'[..k - 1] == s[..k][1..] && t'[..k - 1] == t[..k][1..];
      assert FirstDifferenceAt(s', t', k - 1);
    }
  }

  /** Folding a non-empty name folds its head and its tail separately. */
  lemma FoldCons(s: string)
    requires |s| > 0
    ensures Fold(s) == [FoldChar(s[0])] + Fold(s[1..])
  {
  }

  /** Swapping the operands negates the comparison. */
  lemma {:induction false} CompareNamesAntisymmetric(x: string, y: string)
    ensures CompareNames(x, y) == -CompareNames(y, x)
    decreases |x|
  {
    if |x| > 0 && |y| > 0 && FoldChar(x[0]) == FoldChar(y[0]) {
      CompareNamesAntisymmetric(x[1..], y[1..]);
    }
  }

  /** "Not after" is transitive. */
  lemma {:induction false} CompareNamesTransitive(x: string, y: string, z: string)
    requires CompareNames(x, y) <= 0 && CompareNames(y, z) <= 0
    ensures CompareNames(x, z) <= 0
    decreases |x|
  {
    if |x| > 0 && |y| > 0 && |z| > 0
      && FoldChar(x[0]) == FoldChar(y[0]) && FoldChar(y[0]) == FoldChar(z[0])
    {
      CompareNamesTransitive(x[1..], y[1..], z[1..]);
    }
  }

  /** The comparison looks at names only through their folds: folding either
      operand first changes nothing. */
  lemma {:induction false} CompareNamesIgnoresCase(x: string, y: string)
    ensures CompareNames(x, y) == CompareNames(Fold(x), Fold(y))
    decreases |x|
  {
    if |x| > 0 && |y| > 0 {
      FoldCons(x);
      FoldCons(y);
      assert Fold(x)[1..] == Fold(x[1..]);
      assert Fold(y)[1..] == Fold(y[1..]);
      CompareNamesIgnoresCase(x[1..], y[1..]);
    }
  }

  /** Folding to lower case keeps the underscore, a common first character
      of identifiers, before every letter: a name starting with `_` sorts
      before any name starting with a letter of either case. */
  lemma UnderscoreSortsBeforeLetters(x: string, y: string)
    requires |x| > 0 && x[0] == '_'
    requires |y| > 0 && ('A' <= y[0] <= 'Z' || 'a' <= y[0] <= 'z')
    ensures CompareNames(x, y) < 0
  {
    assert FirstDifferenceAt(Fold(x), Fold(y), 0);
  }
}
