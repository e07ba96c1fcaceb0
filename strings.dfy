/**
 * The case-insensitive string order used as the ranking tie-break
 * (Java's `String.compareToIgnoreCase`), restricted to ASCII case folding.
 */
module Strings {

  /**
   * Java folds a character by upper-casing and then lower-casing it;
   * on ASCII that is plain lower-casing. Other characters are left as they are.
   */
  function LowerChar(c: char): char
  {
    if 'A' <= c <= 'Z' then (c as int - 'A' as int + 'a' as int) as char else c
  }

  function Lower(s: string): string
  {
    seq(|s|, i requires 0 <= i < |s| => LowerChar(s[i]))
  }

  /** Lexicographic order on code points: `x` sorts strictly before `y`. */
  predicate LexLess(x: string, y: string)
    decreases |x|
  {
    if x == [] then y != []
    else y != [] && (x[0] < y[0] || (x[0] == y[0] && LexLess(x[1..], y[1..])))
  }

  lemma {:induction false} LexLessTransitive(x: string, y: string, z: string)
    requires LexLess(x, y) && LexLess(y, z)
    ensures LexLess(x, z)
    decreases |x|
  {
    if x != [] && x[0] == y[0] && y[0] == z[0] {
      LexLessTransitive(x[1..], y[1..], z[1..]);
    }
  }

  /**
   * The loop of `compareToIgnoreCase` from index `i` on: the first position
   * where the folded characters differ decides, by their difference; if one
   * string runs out first, the length difference decides.
   */
  function CompareFrom(a: string, b: string, i: nat): (r: int)
    requires i <= |a| && i <= |b|
    ensures r < 0 <==> LexLess(Lower(a)[i..], Lower(b)[i..])
    ensures r == 0 <==> Lower(a)[i..] == Lower(b)[i..]
    ensures r > 0 <==> LexLess(Lower(b)[i..], Lower(a)[i..])
    decreases |a| - i
  {
    if i == |a| || i == |b| then
      |a| - |b|
    else if LowerChar(a[i]) != LowerChar(b[i]) then
      assert Lower(a)[i..][0] == LowerChar(a[i]) && Lower(b)[i..][0] == LowerChar(b[i]);
      LowerChar(a[i]) as int - LowerChar(b[i]) as int
    else
      assert Lower(a)[i..] == [LowerChar(a[i])] + Lower(a)[i + 1..];
      assert Lower(b)[i..] == [LowerChar(b[i])] + Lower(b)[i + 1..];
      CompareFrom(a, b, i + 1)
  }

  /**
   * `a.compareToIgnoreCase(b)`: negative, zero or positive as the
   * lower-cased `a` sorts before, equal to or after the lower-cased `b`.
   */
  function CompareToIgnoreCase(a: string, b: string): (r: int)
    ensures r < 0 <==> LexLess(Lower(a), Lower(b))
    ensures r == 0 <==> Lower(a) == Lower(b)
    ensures r > 0 <==> LexLess(Lower(b), Lower(a))
  {
    assert Lower(a)[0..] == Lower(a) && Lower(b)[0..] == Lower(b);
    CompareFrom(a, b, 0)
  }
}
