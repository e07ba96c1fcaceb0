/**
 * A left-to-right scanner for the one resource pattern the crawler applies to
 * every downloaded page,
 *
 *     (http.[^"']*?\.js)"
 *
 * taking capture group 1 of each non-overlapping match, as repeated
 * `find` calls over the whole page do: the search for the next match
 * resumes right after the closing quote of the previous one.
 */
module ResourcePattern {
  import opened Wrappers

  /** The characters Java's `.` does not match unless DOTALL is set. */
  predicate IsLineTerminator(c: char)
  {
    c == '\n' || c == '\r' || c == '\U{85}' || c == '\U{2028}' || c == '\U{2029}'
  }

  /** The characters `[^"']` excludes. */
  predicate IsQuote(c: char)
  {
    c == '"' || c == '\''
  }

  /**
   * `c[s..e]` is group 1 of a match that starts at `s`: the text "http", one
   * character that is not a line terminator, a run without quotes, ".js",
   * and then a double quote at `e` (part of the match, not of the group).
   */
  ghost predicate IsMatch(c: string, s: nat, e: nat)
  {
    && s + 8 <= e < |c|
    && c[s..s + 4] == "http"
    && !IsLineTerminator(c[s + 4])
    && (forall i :: s + 5 <= i < e - 3 ==> !IsQuote(c[i]))
    && c[e - 3..e] == ".js"
    && c[e] == '"'
  }

  /**
   * `[^"']*?\.js"` tried from position `j`: the reluctant quantifier first
   * tries the rest of the pattern, and only then takes one more character
   * that is not a quote. Gives the index where group 1 ends.
   */
  function LazyTail(c: string, j: nat): (r: Option<nat>)
    ensures r.Some? ==> j + 3 <= r.value < |c|
    decreases |c| - j
  {
    if j + 4 <= |c| && c[j..j + 4] == ".js\"" then Some(j + 3)
    else if j < |c| && !IsQuote(c[j]) then LazyTail(c, j + 1)
    else None
  }

  /** The pattern anchored at `s`: where group 1 ends, if it matches there. */
  function MatchAt(c: string, s: nat): (r: Option<nat>)
    ensures r.Some? ==> s + 8 <= r.value < |c|
  {
    if s + 5 <= |c| && c[s..s + 4] == "http" && !IsLineTerminator(c[s + 4]) then LazyTail(c, s + 5)
    else None
  }

  lemma {:induction false} LazyTailExact(c: string, j: nat, e: nat)
    ensures LazyTail(c, j) == Some(e) <==>
              && j + 3 <= e < |c|
              && (forall i :: j <= i < e - 3 ==> !IsQuote(c[i]))
              && c[e - 3..e] == ".js"
              && c[e] == '"'
    decreases |c| - j
  {
    if j + 4 <= |c| && c[j..j + 4] == ".js\"" {
      assert c[j..j + 3] == c[j..j + 4][..3];
      assert c[j + 3] == c[j..j + 4][3];
    } else if j < |c| && !IsQuote(c[j]) {
      LazyTailExact(c, j + 1, e);
    }
  }

  /** The scanner agrees with the pattern: it finds exactly the matches, with their unique group end. */
  lemma MatchAtExact(c: string, s: nat, e: nat)
    ensures MatchAt(c, s) == Some(e) <==> IsMatch(c, s, e)
  {
    LazyTailExact(c, s + 5, e);
  }

  /** One `find` from position `p`: the leftmost start at or after `p` where the pattern matches. */
  function FindFrom(c: string, p: nat): (r: Option<(nat, nat)>)
    ensures r.Some? ==> p <= r.value.0 && MatchAt(c, r.value.0) == Some(r.value.1)
    ensures r.Some? ==> forall s :: p <= s < r.value.0 ==> MatchAt(c, s).None?
    ensures r.None? ==> forall s :: p <= s ==> MatchAt(c, s).None?
    decreases |c| - p
  {
    if p >= |c| then None
    else match MatchAt(c, p)
      case Some(e) => Some((p, e))
      case None => FindFrom(c, p + 1)
  }

  /**
   * Every match from `p` on, as (start, group end) pairs: the leftmost match,
   * then the matches after its closing quote.
   */
  function Spans(c: string, p: nat): (r: seq<(nat, nat)>)
    ensures forall i :: 0 <= i < |r| ==> p <= r[i].0 && MatchAt(c, r[i].0) == Some(r[i].1)
    ensures forall i :: 0 <= i < |r| - 1 ==> r[i].1 < r[i + 1].0
    decreases |c| - p
  {
    match FindFrom(c, p)
    case None => []
    case Some((s, e)) => [(s, e)] + Spans(c, e + 1)
  }

  /**
   * Nothing is skipped: every start at or after `p` where the pattern matches
   * lies within one of the reported matches, from its start up to its closing quote.
   */
  lemma {:induction false} SpansCover(c: string, p: nat, s: nat) returns (i: nat)
    requires p <= s && MatchAt(c, s).Some?
    ensures i < |Spans(c, p)| && Spans(c, p)[i].0 <= s <= Spans(c, p)[i].1
    decreases |c| - p
  {
    var found := FindFrom(c, p);
    assert MatchAt(c, s).Some?;
    var (s0, e0) := found.value;
    assert s0 <= s;
    var r := Spans(c, p);
    var rest := Spans(c, e0 + 1);
    assert r == [(s0, e0)] + rest;
    if s <= e0 {
      i := 0;
    } else {
      var k := SpansCover(c, e0 + 1, s);
      assert r[k + 1] == rest[k];
      i := k + 1;
    }
  }

  /** `findAll(RESOURCE_PATTERN)` mapped to group 1: the resource references of a page. */
  function References(c: string): (r: seq<string>)
    ensures |r| == |Spans(c, 0)|
  {
    var spans := Spans(c, 0);
    seq(|spans|, i requires 0 <= i < |spans| => c[spans[i].0..spans[i].1])
  }

  /**
   * The i-th reference is the text of the i-th match: it begins with "http",
   * ends with ".js", has no quote after its fifth character, and is followed
   * by a double quote in the page.
   */
  lemma ReferenceShape(c: string, i: nat)
    requires i < |References(c)|
    ensures var (s, e) := Spans(c, 0)[i];
            var r := References(c)[i];
            && IsMatch(c, s, e)
            && r == c[s..e]
            && |r| >= 8
            && r[..4] == "http"
            && r[|r| - 3..] == ".js"
            && (forall k :: 5 <= k < |r| - 3 ==> !IsQuote(r[k]))
            && c[e] == '"'
  {
    var (s, e) := Spans(c, 0)[i];
    MatchAtExact(c, s, e);
    var r := References(c)[i];
    assert r[..4] == c[s..s + 4];
    assert r[|r| - 3..] == c[e - 3..e];
    forall k | 5 <= k < |r| - 3 ensures !IsQuote(r[k]) {
      assert r[k] == c[s + k];
    }
  }

  /** The shape the tests demand of every printed item: "http" at the start, ".js" at the end. */
  predicate IsResource(r: string)
  {
    |r| >= 8 && r[..4] == "http" && r[|r| - 3..] == ".js"
  }

  /** Every reference extracted from a page has the resource shape. */
  lemma ReferencesAreResources(c: string)
    ensures forall i :: 0 <= i < |References(c)| ==> IsResource(References(c)[i])
  {
    forall i | 0 <= i < |References(c)| ensures IsResource(References(c)[i]) {
      ReferenceShape(c, i);
    }
  }

  /** A page yields no references exactly when the pattern matches nowhere in it. */
  lemma NoReferences(c: string)
    ensures References(c) == [] <==> forall s, e :: !IsMatch(c, s, e)
  {
    var spans := Spans(c, 0);
    if spans == [] {
      forall s, e ensures !IsMatch(c, s, e) {
        MatchAtExact(c, s, e);
      }
    } else {
      MatchAtExact(c, spans[0].0, spans[0].1);
    }
  }

  /** Every place in the page where the pattern matches lies within one of the reported matches. */
  lemma MatchCovered(c: string, s: nat, e: nat)
    requires IsMatch(c, s, e)
    ensures exists i :: 0 <= i < |Spans(c, 0)| && Spans(c, 0)[i].0 <= s <= Spans(c, 0)[i].1
  {
    MatchAtExact(c, s, e);
    var i := SpansCover(c, 0, s);
  }

  /** A page that is nothing but one double-quoted reference yields exactly that reference. */
  lemma QuotedReference(r: string)
    requires |r| >= 8 && r[..4] == "http" && !IsLineTerminator(r[4])
    requires r[|r| - 3..] == ".js"
    requires forall i :: 0 <= i < |r| ==> !IsQuote(r[i])
    ensures References("\"" + r + "\"") == [r]
  {
    var c := "\"" + r + "\"";
    var e := |r| + 1;
    assert c[1..5] == r[..4];
    assert c[e - 3..e] == r[|r| - 3..];
    assert forall i :: 1 <= i < e ==> c[i] == r[i - 1];
    assert IsMatch(c, 1, e);
    MatchAtExact(c, 1, e);
    assert c[0..4][0] == '"';
    assert FindFrom(c, 0) == FindFrom(c, 1);
    assert Spans(c, e + 1) == [];
    assert Spans(c, 0) == [(1, e)];
    assert References(c)[0] == c[1..e] == r;
  }
}
