/**
 * Worked examples: a search whose first page holds `x.js` twice and `y.js`
 * once, whose second page holds `x.js` once and whose third download fails;
 * and two references tied on count, ordered by their names.
 */
module Scenarios {
  import opened Strings
  import opened Frequency
  import opened Ranking

  const Z := "https://z.cdn/a.js"
  const Y := "https://m.cdn/b.js"

  /** The ninth characters decide: 'm' before 'z'. */
  lemma TieBreakCompare()
    ensures Lower(Y) != Lower(Z) && CompareToIgnoreCase(Y, Z) < 0
  {
    assert Lower(Y)[8] == 'm' && Lower(Z)[8] == 'z';
  }

  /** With equal counts, `m.cdn/b.js` is reported before `z.cdn/a.js`, whatever the hash map's order. */
  lemma TieBreakExample(order: seq<string>)
    requires IsEnumeration(order, map[Z := 2, Y := 2])
    ensures Report(map[Z := 2, Y := 2], order) == [Y, Z]
  {
    var m := map[Z := 2, Y := 2];
    TieBreakCompare();
    assert RanksBefore(m, Y, Z);
    BuildTwo(m, Z, Y);
    assert Report(m, [Z, Y]) == [Y, Z];
    assert IsEnumeration([Z, Y], m);
    ReportDeterministic(m, order, [Z, Y]);
  }

  /** Three pages, the last one failed: `x.js` is counted three times and `y.js` once. */
  lemma TableExample()
    ensures Tally(map[], Flatten([["https://a.cdn/x.js", "https://a.cdn/x.js", "https://b.cdn/y.js"], ["https://a.cdn/x.js"], []]))
         == map["https://a.cdn/x.js" := 3, "https://b.cdn/y.js" := 1]
  {
    var a, b := "https://a.cdn/x.js", "https://b.cdn/y.js";
    var pages := [[a, a, b], [a], []];
    var p1, p2 := [[a, a, b]], [[a, a, b], [a]];
    assert p1[..0] == [];
    assert Flatten(p1) == [a, a, b];
    assert p2[..1] == p1;
    assert Flatten(p2) == [a, a, b, a];
    assert pages[..2] == p2;
    assert Flatten(pages) == [a, a, b, a] + [];
    var refs := [a, a, b, a];
    assert [a][..0] == [];
    assert Tally(map[], [a]) == map[a := 1];
    assert [a, a][..1] == [a];
    assert Tally(map[], [a, a]) == map[a := 2];
    assert [a, a, b][..2] == [a, a];
    assert Tally(map[], [a, a, b]) == map[a := 2, b := 1];
    assert refs[..3] == [a, a, b];
    assert Tally(map[], refs) == map[a := 3, b := 1];
    assert Flatten(pages) == refs;
  }

  /** The report of that table is `x.js` then `y.js`, whatever the hash map's order. */
  lemma TableReportExample(order: seq<string>)
    requires IsEnumeration(order, map["https://a.cdn/x.js" := 3, "https://b.cdn/y.js" := 1])
    ensures Report(map["https://a.cdn/x.js" := 3, "https://b.cdn/y.js" := 1], order) == ["https://a.cdn/x.js", "https://b.cdn/y.js"]
  {
    var a, b := "https://a.cdn/x.js", "https://b.cdn/y.js";
    var m := map[a := 3, b := 1];
    assert RanksBefore(m, a, b);
    BuildTwo(m, b, a);
    assert Report(m, [b, a]) == [a, b];
    assert IsEnumeration([b, a], m);
    ReportDeterministic(m, order, [b, a]);
  }
}
